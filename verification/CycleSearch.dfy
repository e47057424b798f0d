/**
 * The cycle search of the library graph (library_graph.rs, `detect_cycle`): a depth-first search
 * that reports, for every edge back to a node still on the stack, the least rotation of the stack
 * segment it closes, unless a cycle with the same text key was reported before.
 */
module CycleSearch {
  import opened Common
  import opened Graphs
  import opened Orders
  import opened Rotations

  // ----- Text keys of cycles -----

  const ARROW := "->"

  function Join(parts: seq<string>): string
  {
    if parts == [] then ""
    else if |parts| == 1 then parts[0]
    else parts[0] + ARROW + Join(parts[1..])
  }

  predicate ArrowAt(s: string, i: nat)
    requires i + 1 < |s|
  {
    s[i] == '-' && s[i + 1] == '>'
  }

  /** `s` holds no occurrence of the separator. */
  ghost predicate ArrowFree(s: string)
  {
    forall i: nat :: i + 1 < |s| ==> !ArrowAt(s, i)
  }

  ghost predicate AllArrowFree(parts: seq<string>)
  {
    forall i :: 0 <= i < |parts| ==> ArrowFree(parts[i])
  }

  lemma JoinStart(parts: seq<string>)
    requires |parts| > 1
    ensures var s := Join(parts); var n := |parts[0]|;
      |s| >= n + 2 && s[..n] == parts[0] && ArrowAt(s, n) && s[n + 2..] == Join(parts[1..])
  {
    var s := Join(parts);
    assert s == parts[0] + (ARROW + Join(parts[1..]));
    assert s == (parts[0] + ARROW) + Join(parts[1..]);
  }

  /** No separator of a joined list stands before the end of its first part. */
  lemma FirstArrow(parts: seq<string>, i: nat)
    requires |parts| > 1 && ArrowFree(parts[0]) && i < |parts[0]|
    ensures i + 1 < |Join(parts)| && !ArrowAt(Join(parts), i)
  {
    JoinStart(parts);
    var s := Join(parts);
    assert s[i] == parts[0][i];
    if i + 1 < |parts[0]| {
      assert s[i + 1] == parts[0][i + 1];
      assert !ArrowAt(parts[0], i);
    }
  }

  /** Joining is injective on non-empty lists of names without the separator. */
  lemma {:induction false} JoinInjective(a: seq<string>, b: seq<string>)
    requires a != [] && b != [] && AllArrowFree(a) && AllArrowFree(b) && Join(a) == Join(b)
    ensures a == b
    decreases |a|
  {
    var s := Join(a);
    if |a| == 1 && |b| == 1 {
      assert a == [s] && b == [s];
    } else if |a| == 1 {
      JoinStart(b);
      assert false;
    } else if |b| == 1 {
      JoinStart(a);
      assert false;
    } else {
      JoinStart(a);
      JoinStart(b);
      if |a[0]| < |b[0]| {
        FirstArrow(b, |a[0]|);
        assert false;
      }
      if |b[0]| < |a[0]| {
        FirstArrow(a, |b[0]|);
        assert false;
      }
      JoinInjective(a[1..], b[1..]);
      assert a == [a[0]] + a[1..] && b == [b[0]] + b[1..];
    }
  }

  /** The two-node cycle through "a" and "a->a" has the same key as the self-loop of "a->a". */
  lemma KeysCollide()
    ensures Join(["a", "a->a", "a"]) == Join(["a->a", "a->a"])
  {
    assert ["a", "a->a", "a"][1..] == ["a->a", "a"];
    assert ["a->a", "a"][1..] == ["a"];
    assert ["a->a", "a->a"][1..] == ["a->a"];
  }

  // ----- What is reported -----

  /** The nodes of a closed cycle. */
  function Body(c: seq<string>): seq<string>
  {
    if c == [] then [] else c[..|c| - 1]
  }

  /** A directed cycle of `g` through distinct nodes, written from its least rotation. */
  ghost predicate IsCanonicalCycle(g: Graph, c: seq<string>)
  {
    IsClosedWalk(g, c) && Distinct(Body(c)) && IsLeastRotation(Body(c), Body(c))
  }

  /** No node name of the graph holds the separator of the keys. */
  ghost predicate NamesArrowFree(g: Graph)
  {
    forall n :: n in g ==> ArrowFree(n)
  }

  ghost predicate StepReported(cycles: seq<seq<string>>, u: string, v: string)
  {
    exists c :: c in cycles && HasStep(c, u, v)
  }

  /** Something was reported for the edge; with unambiguous keys, a cycle through the edge. */
  ghost predicate Explained(g: Graph, cycles: seq<seq<string>>, u: string, v: string)
  {
    cycles != [] && (NamesArrowFree(g) ==> StepReported(cycles, u, v))
  }

  ghost predicate KeysExact(cycles: seq<seq<string>>, seenKeys: set<string>)
  {
    && (forall i :: 0 <= i < |cycles| ==> Join(cycles[i]) in seenKeys)
    && (forall k :: k in seenKeys ==> exists i :: 0 <= i < |cycles| && Join(cycles[i]) == k)
    && KeysDiffer(cycles)
  }

  ghost predicate StackWalks(g: Graph, stack: seq<string>)
  {
    Distinct(stack) && (stack != [] ==> IsWalk(g, stack))
  }

  /** Every edge out of a finished node leads to a node finished earlier or is explained. */
  ghost predicate FinishedInOrder(g: Graph, rank: map<string, nat>, cycles: seq<seq<string>>)
  {
    forall u, v :: u in rank && Edge(g, u, v) ==>
      (v in rank && rank[v] < rank[u]) || Explained(g, cycles, u, v)
  }

  lemma ExplainedGrows(g: Graph, before: seq<seq<string>>, after: seq<seq<string>>, u: string, v: string)
    requires before <= after && Explained(g, before, u, v)
    ensures Explained(g, after, u, v)
  {
    assert before != [] ==> after != [];
    if NamesArrowFree(g) {
      var c :| c in before && HasStep(c, u, v);
      assert c in after;
    }
  }

  lemma ClosedRotationWalks(g: Graph, nodes: seq<string>, best: seq<string>)
    requires nodes != [] && IsWalk(g, nodes) && Edge(g, nodes[|nodes| - 1], nodes[0])
    requires IsRotation(best, nodes)
    ensures IsClosedWalk(g, best + [best[0]])
  {
    var c := best + [best[0]];
    forall j | 0 < j < |c| ensures StepAt(g, c, j) {
      var i := StepsOfRotation(nodes, best, j - 1);
      if i + 1 < |nodes| {
        assert StepAt(g, nodes, i + 1);
      }
    }
  }

  lemma LeastOfItself(best: seq<string>, nodes: seq<string>)
    requires IsLeastRotation(best, nodes)
    ensures IsLeastRotation(best, best)
  {
    assert best == Rotate(best, 0);
    forall r | IsRotation(r, best) ensures !NamesLess(r, best) {
      RotationTransitive(r, best, nodes);
    }
  }

  /** The stack segment from a visited node is a cycle once the edge back to it is added. */
  lemma SegmentIsCycle(g: Graph, nodes: seq<string>, best: seq<string>)
    requires nodes != [] && IsWalk(g, nodes) && Distinct(nodes) && Edge(g, nodes[|nodes| - 1], nodes[0])
    requires IsLeastRotation(best, nodes)
    ensures IsCanonicalCycle(g, best + [best[0]])
    ensures HasStep(best + [best[0]], nodes[|nodes| - 1], nodes[0])
  {
    assert Body(best + [best[0]]) == best;
    ClosedRotationWalks(g, nodes, best);
    RotationDistinct(nodes, best);
    LeastOfItself(best, nodes);
    RotationSteps(nodes, best, |nodes| - 1);
  }

  /** The nodes being visited are those on the stack; the finished ones are those with a rank. */
  ghost predicate Coloured(state: map<string, VisitState>, stack: seq<string>, rank: map<string, nat>)
  {
    && (forall n :: n in stack <==> n in state && state[n].Visiting?)
    && (forall n :: n in rank <==> n in state && state[n].Done?)
  }

  lemma PopColoured(state: map<string, VisitState>, below: seq<string>, current: string, rank: map<string, nat>, r: nat)
    requires Coloured(state, below + [current], rank) && current !in below
    ensures current !in rank
    ensures Coloured(state[current := Done], below, rank[current := r])
  {
    assert forall n :: n in below + [current] <==> n in below || n == current;
    assert current in below + [current];
  }

  // ----- The search -----

  class CycleFinder {
    const g: Graph
    var state: map<string, VisitState>
    var stack: seq<string>
    var seenKeys: set<string>
    var cycles: seq<seq<string>>
    /** When each finished node was finished. */
    ghost var rank: map<string, nat>

    constructor (adjacency: Graph)
      requires Closed(adjacency)
      ensures g == adjacency && Valid() && state == map[] && stack == [] && cycles == []
    {
      g := adjacency;
      state, stack, seenKeys, cycles, rank := map[], [], {}, [], map[];
    }

    ghost predicate Valid()
      reads this
    {
      && Coloured(state, stack, rank)
      && Closed(g)
      && StackWalks(g, stack)
      && FinishedInOrder(g, rank, cycles)
      && KeysExact(cycles, seenKeys)
      && AllCanonical(g, cycles)
    }

    /** What has been found out is kept. */
    twostate predicate Continues()
      reads this
    {
      && old(cycles) <= cycles
      && old(state).Keys <= state.Keys
      && (forall n :: n in old(rank) ==> n in rank && rank[n] == old(rank)[n])
    }

    /** Reports the cycle closed by an edge from the top of the stack back to `next`. */
    method CloseCycle(next: string)
      requires Valid() && stack != [] && next in stack && Edge(g, stack[|stack| - 1], next)
      modifies this`seenKeys, this`cycles
      ensures Valid() && old(cycles) <= cycles
      ensures Explained(g, cycles, stack[|stack| - 1], next)
    {
      hide IsCanonicalCycle, HasStep, NamesArrowFree, FinishedInOrder;
      var cycle := BackEdgeCycle(g, stack, next);
      var key := Join(cycle);
      if key !in seenKeys {
        seenKeys := seenKeys + {key};
        cycles := cycles + [cycle];
        RecordKeeps(g, rank, old(cycles), cycles);
        KeyRecorded(old(cycles), old(seenKeys), cycle);
        assert cycle in cycles;
      } else {
        SeenCycle(g, cycles, cycle, key);
      }
    }

    method Enter(current: string)
      requires Valid() && current !in state
      requires stack != [] ==> Edge(g, stack[|stack| - 1], current)
      modifies this`state, this`stack
      ensures Valid() && Continues() && stack == old(stack) + [current]
      ensures state == old(state)[current := Visiting]
    {
      state := state[current := Visiting];
      stack := stack + [current];
      PushWalks(g, old(stack), current);
    }

    method Leave(current: string, ghost below: seq<string>)
      requires Valid() && current in g && stack == below + [current]
      requires forall v :: v in g[current] ==> v in rank || Explained(g, cycles, current, v)
      modifies this`state, this`stack, this`rank
      ensures Valid() && Continues() && stack == below && current in rank
    {
      hide Explained, FinishedInOrder, KeysExact, AllCanonical, StackWalks, Coloured;
      PopWalks(g, stack, below, current);
      DoneInRank(state, stack, rank);
      PopColoured(state, below, current, rank, Clock(rank));
      FinishKeeps(g, rank, cycles, current);
      rank := rank[current := Clock(rank)];
      stack := stack[..|stack| - 1];
      state := state[current := Done];
    }

    method DetectCycle(current: string)
      requires Valid() && current in g
      requires stack != [] ==> Edge(g, stack[|stack| - 1], current)
      modifies this
      ensures Valid() && Continues() && stack == old(stack)
      ensures current in state && (current !in old(state) ==> current in rank)
      decreases g.Keys - state.Keys
    {
      hide Explained, FinishedInOrder, KeysExact, AllCanonical;
      if current in state {
        return;
      }
      Enter(current);
      var edges := g[current];
      var i := 0;
      while i < |edges|
        invariant 0 <= i <= |edges|
        invariant Valid() && Continues() && stack == old(stack) + [current] && current in state
        invariant forall j :: 0 <= j < i ==> edges[j] in rank || Explained(g, cycles, current, edges[j])
      {
        var next := edges[i];
        assert Edge(g, current, next);
        ghost var before := cycles;
        if next in state {
          if state[next].Visiting? {
            CloseCycle(next);
          }
        } else {
          assert current in g.Keys - old(state).Keys && current !in g.Keys - state.Keys;
          DetectCycle(next);
        }
        KeepExplained(g, before, cycles, current, edges[..i]);
        i := i + 1;
      }
      Leave(current, old(stack));
    }
  }

  lemma KeepExplained(g: Graph, before: seq<seq<string>>, after: seq<seq<string>>, u: string, targets: seq<string>)
    requires before <= after
    ensures forall v :: v in targets && Explained(g, before, u, v) ==> Explained(g, after, u, v)
  {
    forall v | v in targets && Explained(g, before, u, v) ensures Explained(g, after, u, v) {
      ExplainedGrows(g, before, after, u, v);
    }
  }

  lemma PopWalks(g: Graph, stack: seq<string>, below: seq<string>, current: string)
    requires stack == below + [current] && StackWalks(g, stack)
    ensures stack[..|stack| - 1] == below && StackWalks(g, below) && current !in below
  {
    forall i | 0 < i < |below| ensures StepAt(g, below, i) {
      assert StepAt(g, stack, i);
    }
    assert stack[|below|] == current;
  }

  /** The finished nodes are among those visited. */
  lemma DoneInRank(state: map<string, VisitState>, stack: seq<string>, rank: map<string, nat>)
    requires Coloured(state, stack, rank)
    ensures forall n :: n in rank || n in stack <==> n in state
  {
  }

  lemma PushWalks(g: Graph, stack: seq<string>, current: string)
    requires StackWalks(g, stack) && current !in stack
    requires stack != [] ==> Edge(g, stack[|stack| - 1], current)
    ensures StackWalks(g, stack + [current])
  {
    var w := stack + [current];
    forall i | 0 < i < |w| ensures StepAt(g, w, i) {
      if i < |stack| {
        assert StepAt(g, stack, i);
      }
    }
  }

  /** A number above every rank given so far. */
  ghost function Clock(rank: map<string, nat>): (c: nat)
    ensures forall n :: n in rank ==> rank[n] < c
    decreases rank.Keys
  {
    if rank == map[] then
      0
    else
      var n :| n in rank;
      var rest := rank - {n};
      assert forall m :: m in rank ==> m == n || (m in rest && rest[m] == rank[m]);
      var c := Clock(rest);
      if c <= rank[n] then rank[n] + 1 else c
  }

  lemma FinishKeeps(g: Graph, rank: map<string, nat>, cycles: seq<seq<string>>, current: string)
    requires current in g && current !in rank && FinishedInOrder(g, rank, cycles)
    requires forall v :: v in g[current] ==> v in rank || Explained(g, cycles, current, v)
    ensures FinishedInOrder(g, rank[current := Clock(rank)], cycles)
  {
  }

  /** The first position of a node on the stack. */
  method Position(stack: seq<string>, next: string) returns (idx: nat)
    requires next in stack
    ensures idx < |stack| && stack[idx] == next && next !in stack[..idx]
  {
    idx := 0;
    while stack[idx] != next
      invariant idx < |stack| && next !in stack[..idx] && next in stack[idx..]
      decreases |stack| - idx
    {
      idx := idx + 1;
    }
  }

  /** The canonical cycle closed by an edge from the top of the stack back to `next`. */
  method BackEdgeCycle(g: Graph, stack: seq<string>, next: string) returns (cycle: seq<string>)
    requires StackWalks(g, stack) && next in stack && Edge(g, stack[|stack| - 1], next)
    ensures IsCanonicalCycle(g, cycle) && HasStep(cycle, stack[|stack| - 1], next)
  {
    var idx := Position(stack, next);
    var nodes := stack[idx..];
    SegmentWalks(g, stack, idx);
    cycle := CanonicalCycle(nodes);
    assert cycle == cycle[..|nodes|] + [cycle[..|nodes|][0]];
    SegmentIsCycle(g, nodes, cycle[..|nodes|]);
  }

  lemma SegmentWalks(g: Graph, stack: seq<string>, idx: nat)
    requires StackWalks(g, stack) && idx < |stack|
    ensures IsWalk(g, stack[idx..]) && Distinct(stack[idx..])
  {
    var nodes := stack[idx..];
    forall i | 0 < i < |nodes| ensures StepAt(g, nodes, i) {
      assert StepAt(g, stack, idx + i);
    }
  }

  lemma KeyRecorded(cycles: seq<seq<string>>, seenKeys: set<string>, cycle: seq<string>)
    requires KeysExact(cycles, seenKeys) && Join(cycle) !in seenKeys
    ensures KeysExact(cycles + [cycle], seenKeys + {Join(cycle)})
  {
    var after := cycles + [cycle];
    forall k | k in seenKeys + {Join(cycle)} ensures exists i :: 0 <= i < |after| && Join(after[i]) == k {
      if k in seenKeys {
        var i :| 0 <= i < |cycles| && Join(cycles[i]) == k;
        assert after[i] == cycles[i];
      } else {
        assert after[|cycles|] == cycle;
      }
    }
  }

  lemma RecordKeeps(g: Graph, rank: map<string, nat>, before: seq<seq<string>>, after: seq<seq<string>>)
    requires FinishedInOrder(g, rank, before) && before <= after
    ensures FinishedInOrder(g, rank, after)
  {
    forall u, v | u in rank && Edge(g, u, v) && !(v in rank && rank[v] < rank[u]) ensures Explained(g, after, u, v) {
      ExplainedGrows(g, before, after, u, v);
    }
  }

  lemma CycleArrowFree(g: Graph, w: seq<string>)
    requires Closed(g) && IsClosedWalk(g, w) && NamesArrowFree(g)
    ensures AllArrowFree(w)
  {
    forall i | 0 <= i < |w| ensures ArrowFree(w[i]) {
      assert StepAt(g, w, if i > 0 then i else 1);
    }
  }

  /** A key seen before means, for unambiguous keys, that this very cycle was reported. */
  lemma SeenCycle(g: Graph, cycles: seq<seq<string>>, cycle: seq<string>, key: string)
    requires exists i :: 0 <= i < |cycles| && Join(cycles[i]) == key
    requires Closed(g) && AllCanonical(g, cycles)
    requires IsCanonicalCycle(g, cycle) && key == Join(cycle)
    ensures cycles != [] && (NamesArrowFree(g) ==> cycle in cycles)
  {
    var i :| 0 <= i < |cycles| && Join(cycles[i]) == key;
    if NamesArrowFree(g) {
      var other := cycles[i];
      assert other in cycles;
      CycleArrowFree(g, cycle);
      CycleArrowFree(g, other);
      JoinInjective(cycle, other);
    }
  }

  // ----- Soundness and completeness of the finished search -----

  /** Some step of `w` lies on a reported cycle. */
  ghost predicate WalkCovered(cycles: seq<seq<string>>, w: seq<string>)
  {
    exists i :: 0 < i < |w| && StepCovered(cycles, w, i)
  }

  ghost predicate StepCovered(cycles: seq<seq<string>>, w: seq<string>, i: nat)
    requires 0 < i < |w|
  {
    StepReported(cycles, w[i - 1], w[i])
  }

  /**
   * The reported cycles are real, canonical, and pairwise not rotations of each other; there is
   * one exactly when the graph has a directed cycle; and when the keys are unambiguous every
   * directed cycle shares a step with a reported one.
   */
  ghost predicate CyclesExact(g: Graph, cycles: seq<seq<string>>)
  {
    AllCanonical(g, cycles) && NoRotations(cycles) && (cycles == [] <==> Acyclic(g)) && Covers(g, cycles)
  }

  ghost predicate AllCanonical(g: Graph, cycles: seq<seq<string>>)
  {
    forall c :: c in cycles ==> IsCanonicalCycle(g, c)
  }

  ghost predicate NoRotations(cycles: seq<seq<string>>)
  {
    forall i, j :: 0 <= i < j < |cycles| ==> !IsRotation(Body(cycles[i]), Body(cycles[j]))
  }

  ghost predicate Covers(g: Graph, cycles: seq<seq<string>>)
  {
    NamesArrowFree(g) ==> forall w :: IsClosedWalk(g, w) ==> WalkCovered(cycles, w)
  }

  ghost predicate KeysDiffer(cycles: seq<seq<string>>)
  {
    forall i, j :: 0 <= i < j < |cycles| ==> Join(cycles[i]) != Join(cycles[j])
  }

  // ----- Why the names must not hold the separator -----

  /** A graph with two cycles that have the same key. */
  const COLLIDING: Graph := map["a" := ["a->a"], "a->a" := ["a", "a->a"]]
  const LONG_CYCLE := ["a", "a->a", "a"]
  const SHORT_CYCLE := ["a->a", "a->a"]

  lemma CollidingEdges(u: string, v: string)
    ensures Edge(COLLIDING, u, v) <==> (u == "a" && v == "a->a") || (u == "a->a" && (v == "a" || v == "a->a"))
    ensures "a" != "a->a"
  {
    assert |"a"| != |"a->a"|;
  }

  /** The graph's only directed cycles through distinct nodes, in canonical form. */
  lemma CollidingCycles(c: seq<string>)
    requires IsCanonicalCycle(COLLIDING, c)
    ensures c == LONG_CYCLE || c == SHORT_CYCLE
  {
    hide IsLeastRotation;
    var body := Body(c);
    CollidingEdges("a", "a");
    forall i | 0 <= i < |body| ensures body[i] == "a" || body[i] == "a->a" {
      assert StepAt(COLLIDING, c, i + 1);
      CollidingEdges(c[i], c[i + 1]);
    }
    if |body| > 2 {
      FirstThreeDiffer(body);
      assert false;
    }
    assert StepAt(COLLIDING, c, 1);
    CollidingEdges(c[0], c[1]);
    if |body| == 1 {
      assert c == SHORT_CYCLE;
    } else if body[0] == "a->a" {
      LongerFirst(body);
    } else {
      assert c == LONG_CYCLE;
    }
  }

  lemma FirstThreeDiffer(s: seq<string>)
    requires Distinct(s) && |s| > 2
    ensures s[0] != s[1] && s[1] != s[2] && s[0] != s[2]
  {
  }

  lemma KeyAtOnePlace(cycles: seq<seq<string>>, i: nat, j: nat)
    requires KeysDiffer(cycles) && i < |cycles| && j < |cycles| && Join(cycles[i]) == Join(cycles[j])
    ensures i == j
  {
  }

  lemma LongerFirst(body: seq<string>)
    requires body == ["a->a", "a"]
    ensures !IsLeastRotation(body, body)
  {
    var r := Rotate(body, 1);
    assert r == ["a", "a->a"];
    assert IsRotation(r, body);
    assert LexLess(CharLess, "a"[1..], "a->a"[1..]);
    assert StringLess("a", "a->a");
    assert NamesLess(r, body);
  }

  /**
   * Whatever is reported for the graph, canonical and with keys that differ, misses one of its
   * cycles altogether: the first is dropped with the second's key, or the other way round.
   */
  lemma CollidingKeysHideCycle(cycles: seq<seq<string>>)
    requires AllCanonical(COLLIDING, cycles) && KeysDiffer(cycles)
    ensures exists w :: IsClosedWalk(COLLIDING, w) && !WalkCovered(cycles, w)
  {
    CollidingWalks();
    KeysCollide();
    forall c | c in cycles ensures c == LONG_CYCLE || c == SHORT_CYCLE {
      CollidingCycles(c);
    }
    CollidingEdges("a", "a");
    if SHORT_CYCLE in cycles {
      forall c | c in cycles ensures c == SHORT_CYCLE {
        var i :| 0 <= i < |cycles| && cycles[i] == SHORT_CYCLE;
        var j :| 0 <= j < |cycles| && cycles[j] == c;
        KeyAtOnePlace(cycles, i, j);
      }
      assert !WalkCovered(cycles, LONG_CYCLE);
    } else {
      assert !WalkCovered(cycles, SHORT_CYCLE);
    }
  }

  lemma CollidingWalks()
    ensures IsClosedWalk(COLLIDING, LONG_CYCLE) && IsClosedWalk(COLLIDING, SHORT_CYCLE)
  {
    forall u, v {
      CollidingEdges(u, v);
    }
    forall i | 0 < i < |LONG_CYCLE| ensures StepAt(COLLIDING, LONG_CYCLE, i) {}
    forall i | 0 < i < |SHORT_CYCLE| ensures StepAt(COLLIDING, SHORT_CYCLE, i) {}
  }

  /** After all nodes are finished, a directed cycle has an explained step. */
  lemma ClosedWalkExplained(g: Graph, rank: map<string, nat>, cycles: seq<seq<string>>, w: seq<string>) returns (i: nat)
    requires FinishedInOrder(g, rank, cycles) && g.Keys <= rank.Keys && IsClosedWalk(g, w)
    ensures 0 < i < |w| && Explained(g, cycles, w[i - 1], w[i])
  {
    if forall k :: 0 < k < |w| ==> StepLowers(rank, w, k) {
      RankFalls(rank, w);
      assert false;
    }
    i :| 0 < i < |w| && !StepLowers(rank, w, i);
    assert StepAt(g, w, i);
  }

  /** Canonical cycles that are rotations of each other are the same cycle. */
  lemma {:induction false} RotationsCoincide(g: Graph, a: seq<string>, b: seq<string>)
    requires IsCanonicalCycle(g, a) && IsCanonicalCycle(g, b) && IsRotation(Body(a), Body(b))
    ensures a == b
  {
    Reclosed(a);
    Reclosed(b);
    hide Body, IsRotation, IsLeastRotation, IsClosedWalk, Distinct;
    LeastRotationUnique(Body(a), Body(a), Body(b), Body(b));
  }

  lemma Reclosed(c: seq<string>)
    requires |c| >= 2 && c[0] == c[|c| - 1]
    ensures |Body(c)| >= 1 && c == Body(c) + [Body(c)[0]]
  {
  }

  lemma ReportedOnce(g: Graph, cycles: seq<seq<string>>)
    requires KeysDiffer(cycles) && AllCanonical(g, cycles)
    ensures NoRotations(cycles)
  {
    forall i, j | 0 <= i < j < |cycles| ensures !IsRotation(Body(cycles[i]), Body(cycles[j])) {
      var a, b := cycles[i], cycles[j];
      assert a in cycles && b in cycles;
      if IsRotation(Body(a), Body(b)) {
        RotationsCoincide(g, a, b);
      }
    }
  }

  lemma ClosedWalksCovered(g: Graph, rank: map<string, nat>, cycles: seq<seq<string>>)
    requires FinishedInOrder(g, rank, cycles) && g.Keys <= rank.Keys
    ensures cycles == [] ==> Acyclic(g)
    ensures Covers(g, cycles)
  {
    forall w | IsClosedWalk(g, w) ensures cycles != [] && (NamesArrowFree(g) ==> WalkCovered(cycles, w)) {
      var i := ClosedWalkExplained(g, rank, cycles, w);
      if NamesArrowFree(g) {
        assert StepCovered(cycles, w, i);
      }
    }
  }

  lemma FinishedSearchExact(g: Graph, rank: map<string, nat>, cycles: seq<seq<string>>)
    requires FinishedInOrder(g, rank, cycles) && g.Keys <= rank.Keys && KeysDiffer(cycles)
    requires AllCanonical(g, cycles)
    ensures CyclesExact(g, cycles)
  {
    ReportedOnce(g, cycles);
    ClosedWalksCovered(g, rank, cycles);
    ReportedIsCycle(g, cycles);
  }

  lemma ReportedIsCycle(g: Graph, cycles: seq<seq<string>>)
    requires AllCanonical(g, cycles)
    ensures cycles != [] ==> !Acyclic(g)
  {
    if cycles != [] {
      var c := cycles[0];
      assert c in cycles;
    }
  }

  /** Runs the search from every node, in the order of their names. */
  method FindCycles(g: Graph) returns (cycles: seq<seq<string>>)
    requires Closed(g)
    ensures CyclesExact(g, cycles) && KeysDiffer(cycles)
  {
    var finder := new CycleFinder(g);
    var keys := SetToSeq(g.Keys);
    var names := SortDedup(keys);
    var i := 0;
    while i < |names|
      invariant 0 <= i <= |names|
      invariant finder.g == g && finder.Valid() && finder.stack == []
      invariant forall j :: 0 <= j < i ==> names[j] in finder.rank
    {
      finder.DetectCycle(names[i]);
      i := i + 1;
    }
    FinishedSearchExact(g, finder.rank, finder.cycles);
    cycles := finder.cycles;
  }

  /** The members of a set in some order. */
  method SetToSeq(s: set<string>) returns (r: seq<string>)
    ensures forall x :: x in r <==> x in s
    ensures Distinct(r)
  {
    r := [];
    var rest := s;
    while rest != {}
      invariant forall x :: x in s <==> x in r || x in rest
      invariant Distinct(r) && forall x :: x in r ==> x !in rest
      decreases rest
    {
      var x :| x in rest;
      r := r + [x];
      rest := rest - {x};
    }
  }
}
