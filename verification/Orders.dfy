/** Lexicographic order on sequences, as used to compare names and rotations of a cycle. */
module Orders {

  ghost predicate StrictTotal<T(!new)>(less: (T, T) -> bool)
  {
    && (forall x :: !less(x, x))
    && (forall x, y :: x == y || less(x, y) || less(y, x))
    && (forall x, y, z :: less(x, y) && less(y, z) ==> less(x, z))
  }

  predicate LexLess<T(==)>(less: (T, T) -> bool, a: seq<T>, b: seq<T>)
  {
    if b == [] then false
    else if a == [] then true
    else less(a[0], b[0]) || (a[0] == b[0] && LexLess(less, a[1..], b[1..]))
  }

  lemma {:induction false} LexIrreflexive<T(!new)>(less: (T, T) -> bool, a: seq<T>)
    requires StrictTotal(less)
    ensures !LexLess(less, a, a)
  {
    if a != [] {
      LexIrreflexive(less, a[1..]);
    }
  }

  lemma {:induction false} LexTrichotomy<T(!new)>(less: (T, T) -> bool, a: seq<T>, b: seq<T>)
    requires StrictTotal(less)
    ensures a == b || LexLess(less, a, b) || LexLess(less, b, a)
  {
    if a != [] && b != [] && a[0] == b[0] {
      LexTrichotomy(less, a[1..], b[1..]);
      assert a == [a[0]] + a[1..] && b == [b[0]] + b[1..];
    }
  }

  lemma {:induction false} LexTransitive<T(!new)>(less: (T, T) -> bool, a: seq<T>, b: seq<T>, c: seq<T>)
    requires StrictTotal(less) && LexLess(less, a, b) && LexLess(less, b, c)
    ensures LexLess(less, a, c)
  {
    if a != [] && a[0] == b[0] && b[0] == c[0] {
      LexTransitive(less, a[1..], b[1..], c[1..]);
    }
  }

  predicate CharLess(x: char, y: char)
  {
    x < y
  }

  /** Order of names: by code points, which for UTF-8 is the order of the bytes. */
  predicate StringLess(a: string, b: string)
  {
    LexLess(CharLess, a, b)
  }

  lemma StringLessStrictTotal()
    ensures StrictTotal(StringLess)
  {
    forall x ensures !StringLess(x, x) {
      LexIrreflexive(CharLess, x);
    }
    forall x, y ensures x == y || StringLess(x, y) || StringLess(y, x) {
      LexTrichotomy(CharLess, x, y);
    }
    forall x, y, z | StringLess(x, y) && StringLess(y, z) ensures StringLess(x, z) {
      LexTransitive(CharLess, x, y, z);
    }
  }

  /** Order of name lists, as compared by the library graph. */
  predicate NamesLess(a: seq<string>, b: seq<string>)
  {
    LexLess(StringLess, a, b)
  }

  /** In increasing order without repetition. */
  ghost predicate StrictlySorted(s: seq<string>)
  {
    forall i, j :: 0 <= i < j < |s| ==> StringLess(s[i], s[j])
  }

  function InsertName(s: seq<string>, name: string): (r: seq<string>)
    ensures forall x :: x in r <==> x == name || x in s
  {
    if s == [] then [name]
    else if name == s[0] then s
    else if StringLess(name, s[0]) then [name] + s
    else [s[0]] + InsertName(s[1..], name)
  }

  /** The names of `s` in increasing order, each once. */
  function SortDedup(s: seq<string>): (r: seq<string>)
    ensures forall x :: x in r <==> x in s
  {
    if s == [] then [] else InsertName(SortDedup(s[1..]), s[0])
  }

  lemma {:induction false} InsertNameSorted(s: seq<string>, name: string)
    requires StrictlySorted(s)
    ensures StrictlySorted(InsertName(s, name))
  {
    StringLessStrictTotal();
    if s != [] && name != s[0] && !StringLess(name, s[0]) {
      InsertNameSorted(s[1..], name);
      var rest := InsertName(s[1..], name);
      forall j | 0 <= j < |rest| ensures StringLess(s[0], rest[j]) {
        assert rest[j] in rest;
      }
    }
  }

  lemma {:induction false} SortDedupSorted(s: seq<string>)
    ensures StrictlySorted(SortDedup(s))
  {
    if s != [] {
      SortDedupSorted(s[1..]);
      InsertNameSorted(SortDedup(s[1..]), s[0]);
    }
  }

  /** `a` is a proper prefix of `b`. */
  predicate ProperPrefix(a: string, b: string)
  {
    |a| < |b| && a == b[..|a|]
  }

  /** The texts agree up to position `k`, where `a` has the smaller character. */
  predicate SmallerAt(a: string, b: string, k: nat)
  {
    k < |a| && k < |b| && a[..k] == b[..k] && (a[k] as int) < b[k] as int
  }

  /** The order of names: the first difference decides, and a prefix comes first. */
  lemma {:induction false} FirstDifferenceDecides(a: string, b: string)
    ensures StringLess(a, b) <==> ProperPrefix(a, b) || exists k :: SmallerAt(a, b, k)
  {
    if a != [] && b != [] && a[0] == b[0] {
      FirstDifferenceDecides(a[1..], b[1..]);
      assert ProperPrefix(a, b) <==> ProperPrefix(a[1..], b[1..]) by {
        assert a == [a[0]] + a[1..] && b == [b[0]] + b[1..];
      }
      if k: nat :| SmallerAt(a[1..], b[1..], k) {
        assert a[..k + 1] == [a[0]] + a[1..][..k] && b[..k + 1] == [b[0]] + b[1..][..k];
        assert SmallerAt(a, b, k + 1);
      }
      if k: nat :| SmallerAt(a, b, k) {
        assert a[1..][..k - 1] == a[..k][1..] && b[1..][..k - 1] == b[..k][1..];
        assert SmallerAt(a[1..], b[1..], k - 1);
      }
    } else if a != [] && b != [] {
      assert a[..0] == b[..0];
      assert SmallerAt(a, b, 0) <==> StringLess(a, b);
      assert forall k :: k > 0 && SmallerAt(a, b, k) ==> a[..k][0] == b[..k][0];
    }
  }
}
