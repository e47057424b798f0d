/** Rotations of a cycle's nodes and the choice of the least one (library_graph.rs, `canonical_cycle`). */
module Rotations {
  import opened Orders

  function Rotate(s: seq<string>, k: nat): (r: seq<string>)
    requires k <= |s|
    ensures |r| == |s|
  {
    s[k..] + s[..k]
  }

  ghost predicate IsRotation(a: seq<string>, b: seq<string>)
  {
    exists k: nat :: k <= |b| && a == Rotate(b, k)
  }

  lemma RotateAt(s: seq<string>, k: nat, i: nat)
    requires k <= |s| && i < |s|
    ensures Rotate(s, k)[i] == s[if i + k < |s| then i + k else i + k - |s|]
  {
  }

  lemma RotateTwice(s: seq<string>, j: nat, k: nat)
    requires j <= |s| && k <= |s|
    ensures Rotate(Rotate(s, j), k) == Rotate(s, if j + k <= |s| then j + k else j + k - |s|)
  {
    var m := if j + k <= |s| then j + k else j + k - |s|;
    var a, b := Rotate(Rotate(s, j), k), Rotate(s, m);
    forall i | 0 <= i < |s| ensures a[i] == b[i] {
      RotateAt(Rotate(s, j), k, i);
      RotateAt(s, j, if i + k < |s| then i + k else i + k - |s|);
      RotateAt(s, m, i);
    }
  }

  lemma RotationSymmetric(a: seq<string>, b: seq<string>)
    requires IsRotation(a, b)
    ensures IsRotation(b, a)
  {
    var k: nat :| k <= |b| && a == Rotate(b, k);
    RotateTwice(b, k, |b| - k);
    assert Rotate(b, |b|) == b;
    assert b == Rotate(a, |b| - k);
  }

  lemma RotationTransitive(a: seq<string>, b: seq<string>, c: seq<string>)
    requires IsRotation(a, b) && IsRotation(b, c)
    ensures IsRotation(a, c)
  {
    var k: nat :| k <= |b| && a == Rotate(b, k);
    var j: nat :| j <= |c| && b == Rotate(c, j);
    RotateTwice(c, j, k);
  }

  /** `best` is a rotation of `nodes` and no rotation of `nodes` comes before it. */
  ghost predicate IsLeastRotation(best: seq<string>, nodes: seq<string>)
  {
    IsRotation(best, nodes) && forall r :: IsRotation(r, nodes) ==> !NamesLess(r, best)
  }

  /** Two lists that are rotations of each other have the same least rotation. */
  lemma LeastRotationUnique(best: seq<string>, nodes: seq<string>, best': seq<string>, nodes': seq<string>)
    requires IsLeastRotation(best, nodes) && IsLeastRotation(best', nodes')
    requires IsRotation(nodes, nodes') || IsRotation(best, best')
    ensures best == best'
  {
    if IsRotation(nodes, nodes') {
      RotationTransitive(best, nodes, nodes');
      RotationSymmetric(nodes, nodes');
      RotationTransitive(best', nodes', nodes);
    } else {
      RotationTransitive(best, best', nodes');
      RotationSymmetric(best, best');
      RotationTransitive(best', best, nodes);
    }
    StringLessStrictTotal();
    LexTrichotomy(StringLess, best, best');
  }

  /** The least rotation closed with its first node; empty for no nodes. */
  method CanonicalCycle(nodes: seq<string>) returns (cycle: seq<string>)
    ensures nodes == [] ==> cycle == []
    ensures nodes != [] ==> |cycle| == |nodes| + 1 && cycle[|nodes|] == cycle[0]
    ensures nodes != [] ==> IsLeastRotation(cycle[..|nodes|], nodes)
  {
    if nodes == [] {
      return [];
    }
    StringLessStrictTotal();
    var best := nodes;
    assert nodes == Rotate(nodes, 0);
    LexIrreflexive(StringLess, nodes);
    var offset := 1;
    while offset < |nodes|
      invariant 1 <= offset <= |nodes|
      invariant IsRotation(best, nodes)
      invariant forall k: nat :: k < offset ==> !NamesLess(Rotate(nodes, k), best)
    {
      var rotated := nodes[offset..] + nodes[..offset];
      assert rotated == Rotate(nodes, offset);
      if NamesLess(rotated, best) {
        forall k: nat | k < offset ensures !NamesLess(Rotate(nodes, k), rotated) {
          if NamesLess(Rotate(nodes, k), rotated) {
            LexTransitive(StringLess, Rotate(nodes, k), rotated, best);
          }
        }
        LexIrreflexive(StringLess, rotated);
        best := rotated;
      } else {
        LexIrreflexive(StringLess, best);
      }
      offset := offset + 1;
    }
    forall r | IsRotation(r, nodes) ensures !NamesLess(r, best) {
      var k: nat :| k <= |nodes| && r == Rotate(nodes, k);
      assert Rotate(nodes, |nodes|) == Rotate(nodes, 0);
    }
    cycle := best + [best[0]];
    assert cycle[..|nodes|] == best;
  }

  // ----- Steps of a closed cycle -----

  ghost predicate StepIs(c: seq<string>, i: nat, u: string, v: string)
    requires 0 < i < |c|
  {
    c[i - 1] == u && c[i] == v
  }

  /** `c` takes a step from `u` to `v`. */
  ghost predicate HasStep(c: seq<string>, u: string, v: string)
  {
    exists i :: 0 < i < |c| && StepIs(c, i, u, v)
  }

  /** The position after `i` on a ring of `n` nodes. */
  function Wrap(n: nat, i: nat): nat
  {
    if i >= n then i - n else i
  }

  /** Closing any rotation of `nodes` gives a step between every two neighbours of the ring. */
  lemma RotationSteps(nodes: seq<string>, best: seq<string>, i: nat)
    requires IsRotation(best, nodes) && i < |nodes|
    ensures HasStep(best + [best[0]], nodes[i], nodes[Wrap(|nodes|, i + 1)])
  {
    var n := |nodes|;
    var k: nat :| k <= n && best == Rotate(nodes, k);
    var at: nat := if k == n then i else if i >= k then i - k else i - k + n;
    RotateAt(nodes, k, at);
    RotateAt(nodes, k, Wrap(n, at + 1));
    var c := best + [best[0]];
    assert c[at + 1] == best[Wrap(n, at + 1)];
    assert c[at] == best[at];
    assert StepIs(c, at + 1, nodes[i], nodes[Wrap(n, i + 1)]);
  }

  /** Conversely, every step of a closed rotation joins two neighbours of the ring. */
  lemma StepsOfRotation(nodes: seq<string>, best: seq<string>, j: nat) returns (i: nat)
    requires IsRotation(best, nodes) && j < |nodes|
    ensures i < |nodes|
    ensures (best + [best[0]])[j] == nodes[i] && (best + [best[0]])[j + 1] == nodes[Wrap(|nodes|, i + 1)]
  {
    var n := |nodes|;
    var k: nat :| k <= n && best == Rotate(nodes, k);
    i := Wrap(n, j + k);
    RotateAt(nodes, k, j);
    RotateAt(nodes, k, Wrap(n, j + 1));
    var c := best + [best[0]];
    assert c[j + 1] == best[Wrap(n, j + 1)];
    assert c[j] == best[j];
  }

  ghost predicate Distinct(s: seq<string>)
  {
    forall i, j :: 0 <= i < j < |s| ==> s[i] != s[j]
  }

  lemma RotationDistinct(nodes: seq<string>, best: seq<string>)
    requires IsRotation(best, nodes) && Distinct(nodes)
    ensures Distinct(best)
  {
    var k: nat :| k <= |nodes| && best == Rotate(nodes, k);
    forall i, j | 0 <= i < j < |best| ensures best[i] != best[j] {
      RotateAt(nodes, k, i);
      RotateAt(nodes, k, j);
    }
  }
}
