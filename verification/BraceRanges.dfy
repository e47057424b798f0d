/**
 * Which group a pattern expands first and what its options are, in terms of how the braces
 * balance, for every pattern, also one whose braces do not match.
 */
module BraceRanges {
  import opened Common
  import opened BraceExpansion

  /** Opening braces less closing ones, from `a` up to `i`. */
  function Balance(s: string, a: nat, i: nat): int
    requires i <= |s|
    decreases i
  {
    if i <= a then 0
    else Balance(s, a, i - 1) + (if s[i - 1] == '{' then 1 else if s[i - 1] == '}' then -1 else 0)
  }

  /** The first brace of the pattern opens at `a`, and its group closes at `b`. */
  predicate GroupAt(s: string, a: nat, b: nat)
  {
    && a < b < |s| && s[a] == '{' && (forall k :: 0 <= k < a ==> s[k] != '{' && s[k] != '}')
    && (forall j :: a < j <= b ==> Balance(s, a, j) > 0) && Balance(s, a, b + 1) == 0
  }

  /** The search inside the group opened at `start`. */
  lemma {:induction false} InsideGroup(s: string, i: nat, start: nat, a: nat, b: nat)
    requires start < i <= |s| && s[start] == '{' && forall k :: 0 <= k < start ==> s[k] != '{' && s[k] != '}'
    requires forall j :: start < j <= i ==> Balance(s, start, j) > 0
    ensures FindFrom(s, i, Balance(s, start, i), start) == Some((a, b)) <==> GroupAt(s, a, b)
    decreases |s| - i
  {
    GroupStarts(s, start, a, b);
    if i < |s| {
      if Balance(s, start, i + 1) > 0 {
        InsideGroup(s, i + 1, start, a, b);
      } else {
        assert GroupAt(s, start, i);
        GroupEnds(s, start, i, b);
      }
    }
  }

  /** The group starts at the first brace. */
  lemma GroupStarts(s: string, start: nat, a: nat, b: nat)
    requires start < |s| && s[start] == '{' && forall k :: 0 <= k < start ==> s[k] != '{' && s[k] != '}'
    ensures GroupAt(s, a, b) ==> a == start
  {
  }

  /** And ends only once. */
  lemma GroupEnds(s: string, a: nat, b: nat, c: nat)
    requires GroupAt(s, a, b)
    ensures GroupAt(s, a, c) ==> b == c
  {
  }

  lemma {:induction false} BeforeGroup(s: string, i: nat, a: nat, b: nat)
    requires i <= |s| && forall k :: 0 <= k < i ==> s[k] != '{' && s[k] != '}'
    ensures FindFrom(s, i, 0, 0) == Some((a, b)) <==> GroupAt(s, a, b)
    decreases |s| - i
  {
    if i < |s| {
      if s[i] == '{' {
        assert Balance(s, i, i) == 0 && Balance(s, i, i + 1) == 1;
        InsideGroup(s, i + 1, i, a, b);
        FromStart(s, i + 1, 1, i);
      } else if s[i] == '}' {
        assert GroupAt(s, a, b) ==> a < i || a > i;
      } else {
        BeforeGroup(s, i + 1, a, b);
      }
    }
  }

  /** The search opens a group at its first brace. */
  lemma FromStart(s: string, i: nat, depth: nat, start: nat)
    requires start < |s| && i == start + 1 && depth == 1 && s[start] == '{'
    ensures FindFrom(s, start, 0, 0) == FindFrom(s, i, depth, start)
  {
  }

  /** Main result: the group found opens at the first brace of all; none is found if that one closes, or stays open. */
  lemma FoundExactly(s: string, a: nat, b: nat)
    ensures FindBraceRange(s) == Some((a, b)) <==> GroupAt(s, a, b)
  {
    BeforeGroup(s, 0, a, b);
  }

  // ----- The options -----

  function Joined(options: seq<string>): string
    requires options != []
  {
    if |options| == 1 then options[0] else options[0] + "," + Joined(options[1..])
  }

  /** No prefix closes more braces than it opens. */
  predicate NeverBelow(s: string)
  {
    forall i :: 0 <= i <= |s| ==> Balance(s, 0, i) >= 0
  }

  /** Its commas are all inside braces, which match. */
  predicate OneOption(s: string)
  {
    NeverBelow(s) && forall i :: 0 <= i < |s| && s[i] == ',' ==> Balance(s, 0, i) > 0
  }

  /** The options between commas put together again are the text, also where braces do not match. */
  lemma {:induction false} SplitJoins(s: string, i: nat, last: nat, depth: nat)
    requires last <= i <= |s|
    ensures Joined(SplitFrom(s, i, last, depth)) == s[last..]
    decreases |s| - i
  {
    if i < |s| {
      if s[i] == '{' {
        SplitJoins(s, i + 1, last, depth + 1);
      } else if s[i] == '}' {
        SplitJoins(s, i + 1, last, if depth == 0 then 0 else depth - 1);
      } else if s[i] == ',' && depth == 0 {
        SplitJoins(s, i + 1, i + 1, 0);
        var rest := SplitFrom(s, i + 1, i + 1, 0);
        assert ([s[last..i]] + rest)[1..] == rest;
        assert s[last..] == s[last..i] + "," + s[i + 1..];
      } else {
        SplitJoins(s, i + 1, last, depth);
      }
    }
  }

  lemma {:induction false} BalanceSlice(s: string, a: nat, b: nat, i: nat)
    requires a <= i <= b <= |s|
    ensures Balance(s[a..b], 0, i - a) == Balance(s, 0, i) - Balance(s, 0, a)
  {
    if i > a {
      BalanceSlice(s, a, b, i - 1);
    }
  }

  /** Where the braces of the whole match, so they do in each option, and its commas are inside them. */
  lemma {:induction false} SplitWhole(s: string, i: nat, last: nat, k: nat)
    requires last <= i <= |s| && NeverBelow(s) && Balance(s, 0, last) == 0
    requires forall j :: last <= j < i && s[j] == ',' ==> Balance(s, 0, j) > 0
    requires k < |SplitFrom(s, i, last, Balance(s, 0, i))|
    ensures OneOption(SplitFrom(s, i, last, Balance(s, 0, i))[k])
    decreases |s| - i
  {
    if i == |s| {
      WholeSlice(s, last, |s|);
      assert s[last..] == s[last..|s|];
    } else if s[i] == ',' && Balance(s, 0, i) == 0 {
      if k == 0 {
        WholeSlice(s, last, i);
      } else {
        SplitWhole(s, i + 1, i + 1, k - 1);
      }
    } else {
      assert Balance(s, 0, i + 1) >= 0;
      SplitWhole(s, i + 1, last, k);
    }
  }

  lemma {:induction false} WholeSlice(s: string, a: nat, b: nat)
    requires a <= b <= |s| && NeverBelow(s) && Balance(s, 0, a) == 0
    requires forall j :: a <= j < b && s[j] == ',' ==> Balance(s, 0, j) > 0
    ensures OneOption(s[a..b])
  {
    forall i | 0 <= i <= b - a ensures Balance(s[a..b], 0, i) == Balance(s, 0, a + i) {
      BalanceSlice(s, a, b, a + i);
    }
  }

  /** What stands between the braces of a group never closes more than it opens. */
  lemma {:induction false} GroupInside(s: string, a: nat, b: nat)
    requires GroupAt(s, a, b)
    ensures NeverBelow(s[a + 1..b])
  {
    var inner := s[a + 1..b];
    forall i | 0 <= i <= |inner| ensures Balance(inner, 0, i) >= 0 {
      BalanceInside(s, a, b, i);
    }
  }

  lemma {:induction false} BalanceInside(s: string, a: nat, b: nat, i: nat)
    requires a < b < |s| && s[a] == '{' && i <= b - a - 1
    ensures Balance(s[a + 1..b], 0, i) == Balance(s, a, a + 1 + i) - 1
  {
    if i > 0 {
      BalanceInside(s, a, b, i - 1);
      assert s[a + 1..b][i - 1] == s[a + i];
    } else {
      assert Balance(s, a, a) == 0;
    }
  }

  /** Main result: the options of a group joined by commas are what its braces enclose, and each is one option. */
  lemma OptionsExactly(s: string)
    requires FindBraceRange(s).Some?
    ensures var (a, b) := FindBraceRange(s).value;
      var options := SplitOptions(s[a + 1..b]);
      Joined(options) == s[a + 1..b] && forall k :: 0 <= k < |options| ==> OneOption(options[k])
  {
    var (a, b) := FindBraceRange(s).value;
    FoundExactly(s, a, b);
    var inner := s[a + 1..b];
    GroupInside(s, a, b);
    SplitJoins(inner, 0, 0, 0);
    assert inner[0..] == inner;
    forall k | 0 <= k < |SplitOptions(inner)| ensures OneOption(SplitOptions(inner)[k]) {
      SplitWhole(inner, 0, 0, k);
    }
  }
}
