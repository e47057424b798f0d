/** Directed graphs over names: walks, reachability and the absence of directed cycles. */
module Graphs {

  /** Each known node with the nodes its edges lead to. */
  type Graph = map<string, seq<string>>

  predicate Edge(g: Graph, u: string, v: string)
  {
    u in g && v in g[u]
  }

  /** The step of `w` into position `i` follows an edge. */
  ghost predicate StepAt(g: Graph, w: seq<string>, i: nat)
    requires 0 < i < |w|
  {
    Edge(g, w[i - 1], w[i])
  }

  /** A non-empty sequence of nodes in which every step follows an edge. */
  ghost predicate IsWalk(g: Graph, w: seq<string>)
  {
    |w| > 0 && forall i :: 0 < i < |w| ==> StepAt(g, w, i)
  }

  ghost predicate IsWalkBetween(g: Graph, w: seq<string>, u: string, v: string)
  {
    IsWalk(g, w) && w[0] == u && w[|w| - 1] == v
  }

  ghost predicate Reaches(g: Graph, u: string, v: string)
  {
    exists w :: IsWalkBetween(g, w, u, v)
  }

  /** A walk of at least one step that ends where it started. */
  ghost predicate IsClosedWalk(g: Graph, w: seq<string>)
  {
    IsWalk(g, w) && |w| >= 2 && w[0] == w[|w| - 1]
  }

  lemma ClosedWalkStarts(g: Graph, w: seq<string>)
    requires IsClosedWalk(g, w)
    ensures w[0] in g
  {
    assert StepAt(g, w, 1);
  }

  ghost predicate Acyclic(g: Graph)
  {
    forall w :: !IsClosedWalk(g, w)
  }

  /** Every edge leads to a known node. */
  ghost predicate Closed(g: Graph)
  {
    forall u, v :: Edge(g, u, v) ==> v in g
  }

  /** `h` extends `g` without changing the edges of a node of `g`. */
  ghost predicate Extends(h: Graph, g: Graph)
  {
    forall u :: u in g ==> u in h && h[u] == g[u]
  }

  lemma WalkExtends(g: Graph, h: Graph, w: seq<string>)
    requires Extends(h, g) && IsWalk(g, w)
    ensures IsWalk(h, w)
  {
    forall i | 0 < i < |w| ensures StepAt(h, w, i) {
      assert StepAt(g, w, i);
    }
  }

  lemma ReachesExtends(g: Graph, h: Graph, u: string, v: string)
    requires Extends(h, g) && Reaches(g, u, v)
    ensures Reaches(h, u, v)
  {
    var w :| IsWalkBetween(g, w, u, v);
    WalkExtends(g, h, w);
    assert IsWalkBetween(h, w, u, v);
  }

  lemma ReachesSelf(g: Graph, u: string)
    ensures Reaches(g, u, u)
  {
    assert IsWalkBetween(g, [u], u, u);
  }

  lemma ReachesStep(g: Graph, u: string, v: string, x: string)
    requires Edge(g, u, v) && Reaches(g, v, x)
    ensures Reaches(g, u, x)
  {
    var w :| IsWalkBetween(g, w, v, x);
    var w' := [u] + w;
    forall i | 0 < i < |w'| ensures StepAt(g, w', i) {
      if i > 1 {
        assert StepAt(g, w, i - 1);
      }
    }
    assert IsWalkBetween(g, w', u, x);
  }

  /** A set of nodes that no edge leaves holds everything reachable from its members. */
  lemma {:induction false} ReachStaysInside(g: Graph, inside: set<string>, w: seq<string>)
    requires IsWalk(g, w) && w[0] in inside
    requires forall u, v :: u in inside && Edge(g, u, v) ==> v in inside
    ensures w[|w| - 1] in inside
    decreases |w|
  {
    if |w| > 1 {
      assert StepAt(g, w, 1);
      var rest := w[1..];
      assert IsWalk(g, rest) by {
        forall i | 0 < i < |rest| ensures StepAt(g, rest, i) {
          assert StepAt(g, w, i + 1);
        }
      }
      ReachStaysInside(g, inside, rest);
    }
  }

  /** Adding a node whose edges lead only into a closed acyclic graph keeps it acyclic. */
  lemma AddSink(g: Graph, n: string, edges: seq<string>)
    requires Closed(g) && Acyclic(g) && n !in g
    requires forall v :: v in edges ==> v in g
    ensures Closed(g[n := edges]) && Acyclic(g[n := edges])
  {
    var h := g[n := edges];
    forall u, v | Edge(h, u, v) ensures v in h && v != n {
      assert u != n ==> Edge(g, u, v);
    }
    forall w ensures !IsClosedWalk(h, w) {
      if IsClosedWalk(h, w) {
        forall i | 0 < i < |w| ensures StepAt(g, w, i) {
          assert StepAt(h, w, i);
          if i > 1 {
            assert StepAt(h, w, i - 1);
          } else {
            assert StepAt(h, w, |w| - 1);
          }
        }
        assert IsClosedWalk(g, w);
      }
    }
  }

  /** A walk that meets one of its own nodes again closes a cycle. */
  lemma RevisitCloses(g: Graph, stack: seq<string>, name: string)
    requires IsWalk(g, stack + [name]) && name in stack
    ensures !Acyclic(g)
  {
    var w := stack + [name];
    var k :| 0 <= k < |stack| && stack[k] == name;
    var c := w[k..];
    forall i | 0 < i < |c| ensures StepAt(g, c, i) {
      assert StepAt(g, w, k + i);
    }
    assert IsClosedWalk(g, c);
  }

  lemma WalkOn(g: Graph, stack: seq<string>, last: string, next: string)
    requires IsWalk(g, stack + [last]) && Edge(g, last, next)
    ensures IsWalk(g, stack + [last] + [next])
  {
    var w := stack + [last] + [next];
    forall i | 0 < i < |w| ensures StepAt(g, w, i) {
      if i <= |stack| {
        assert StepAt(g, stack + [last], i);
      }
    }
  }

  ghost predicate StepLowers(rank: map<string, nat>, w: seq<string>, i: nat)
    requires 0 < i < |w|
  {
    w[i - 1] in rank && w[i] in rank && rank[w[i]] < rank[w[i - 1]]
  }

  /** A walk whose every step lowers a rank does not return to its start. */
  lemma {:induction false} RankFalls(rank: map<string, nat>, w: seq<string>)
    requires |w| >= 2 && forall i :: 0 < i < |w| ==> StepLowers(rank, w, i)
    ensures w[0] in rank && w[|w| - 1] in rank && rank[w[|w| - 1]] < rank[w[0]]
    decreases |w|
  {
    assert StepLowers(rank, w, |w| - 1);
    if |w| > 2 {
      var init := w[..|w| - 1];
      forall i | 0 < i < |init| ensures StepLowers(rank, init, i) {
        assert StepLowers(rank, w, i);
      }
      RankFalls(rank, init);
    }
  }
}
