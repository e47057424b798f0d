/**
 * Brace expansion of glob patterns (session.rs, `expand_braces`, `find_brace_range` and
 * `split_brace_options`).
 */
module BraceExpansion {
  import opened Common

  // ----- Counting braces -----

  /** The number of opening braces. */
  function Braces(s: string): nat
  {
    if s == "" then 0 else (if s[0] == '{' then 1 else 0) + Braces(s[1..])
  }

  lemma {:induction false} BracesConcat(a: string, b: string)
    ensures Braces(a + b) == Braces(a) + Braces(b)
  {
    if a == "" {
      assert a + b == b;
    } else {
      assert (a + b)[1..] == a[1..] + b;
      BracesConcat(a[1..], b);
    }
  }

  lemma BracesSlice(s: string, i: nat, j: nat)
    requires i <= j <= |s|
    ensures Braces(s[i..j]) <= Braces(s)
  {
    assert s == s[..i] + (s[i..j] + s[j..]);
    BracesConcat(s[..i], s[i..j] + s[j..]);
    BracesConcat(s[i..j], s[j..]);
  }

  // ----- The first brace group -----

  /** Continues the search for the group opened at `start` from position `i`, `depth` braces deep. */
  function FindFrom(s: string, i: nat, depth: nat, start: nat): Option<(nat, nat)>
    requires i <= |s|
    decreases |s| - i
  {
    if i == |s| then None
    else if s[i] == '{' then FindFrom(s, i + 1, depth + 1, if depth == 0 then i else start)
    else if s[i] == '}' then
      if depth == 0 then None
      else if depth == 1 then Some((start, i))
      else FindFrom(s, i + 1, depth - 1, start)
    else FindFrom(s, i + 1, depth, start)
  }

  lemma {:induction false} FoundRange(s: string, i: nat, depth: nat, start: nat)
    requires i <= |s| && (depth > 0 ==> start < i && s[start] == '{')
    ensures FindFrom(s, i, depth, start).Some? ==>
      var (a, b) := FindFrom(s, i, depth, start).value; a < b < |s| && s[a] == '{' && s[b] == '}'
    decreases |s| - i
  {
    if i < |s| {
      if s[i] == '{' {
        FoundRange(s, i + 1, depth + 1, if depth == 0 then i else start);
      } else if s[i] == '}' {
        if depth > 1 {
          FoundRange(s, i + 1, depth - 1, start);
        }
      } else {
        FoundRange(s, i + 1, depth, start);
      }
    }
  }

  /** The outermost group that opens first, as positions of its braces. */
  function FindBraceRange(s: string): (r: Option<(nat, nat)>)
    ensures r.Some? ==> r.value.0 < r.value.1 < |s| && s[r.value.0] == '{' && s[r.value.1] == '}'
  {
    FoundRange(s, 0, 0, 0);
    FindFrom(s, 0, 0, 0)
  }

  method FindBraceRangeLoop(s: string) returns (r: Option<(nat, nat)>)
    ensures r == FindBraceRange(s)
  {
    var depth: nat, start: nat, idx: nat := 0, 0, 0;
    while idx < |s|
      invariant 0 <= idx <= |s|
      invariant FindBraceRange(s) == FindFrom(s, idx, depth, start)
    {
      if s[idx] == '{' {
        if depth == 0 {
          start := idx;
        }
        depth := depth + 1;
      } else if s[idx] == '}' {
        if depth == 0 {
          return None;
        }
        depth := depth - 1;
        if depth == 0 {
          return Some((start, idx));
        }
      }
      idx := idx + 1;
    }
    r := None;
  }

  // ----- Its options -----

  /** The options from position `last` on, having read up to `i`, `depth` braces deep. */
  function SplitFrom(s: string, i: nat, last: nat, depth: nat): (r: seq<string>)
    requires last <= i <= |s|
    ensures r != []
    decreases |s| - i
  {
    if i == |s| then [s[last..]]
    else if s[i] == '{' then SplitFrom(s, i + 1, last, depth + 1)
    else if s[i] == '}' then SplitFrom(s, i + 1, last, if depth == 0 then 0 else depth - 1)
    else if s[i] == ',' && depth == 0 then [s[last..i]] + SplitFrom(s, i + 1, i + 1, 0)
    else SplitFrom(s, i + 1, last, depth)
  }

  /** The options between the commas that no inner braces enclose; always at least one. */
  function SplitOptions(inner: string): (r: seq<string>)
    ensures r != []
  {
    SplitFrom(inner, 0, 0, 0)
  }

  lemma {:induction false} SplitBraces(s: string, i: nat, last: nat, depth: nat, k: nat)
    requires last <= i <= |s| && k < |SplitFrom(s, i, last, depth)|
    ensures Braces(SplitFrom(s, i, last, depth)[k]) <= Braces(s)
    decreases |s| - i
  {
    if i == |s| {
      assert s[last..] == s[last..|s|];
      BracesSlice(s, last, |s|);
    } else if s[i] == '{' {
      SplitBraces(s, i + 1, last, depth + 1, k);
    } else if s[i] == '}' {
      SplitBraces(s, i + 1, last, if depth == 0 then 0 else depth - 1, k);
    } else if s[i] == ',' && depth == 0 {
      if k == 0 {
        BracesSlice(s, last, i);
      } else {
        SplitBraces(s, i + 1, i + 1, 0, k - 1);
      }
    } else {
      SplitBraces(s, i + 1, last, depth, k);
    }
  }

  method SplitOptionsLoop(inner: string) returns (options: seq<string>)
    ensures options == SplitOptions(inner)
  {
    options := [];
    var depth: nat, last: nat, idx: nat := 0, 0, 0;
    while idx < |inner|
      invariant 0 <= last <= idx <= |inner|
      invariant SplitOptions(inner) == options + SplitFrom(inner, idx, last, depth)
    {
      if inner[idx] == '{' {
        depth := depth + 1;
      } else if inner[idx] == '}' {
        depth := if depth == 0 then 0 else depth - 1;
      } else if inner[idx] == ',' && depth == 0 {
        assert options + SplitFrom(inner, idx, last, depth)
            == options + [inner[last..idx]] + SplitFrom(inner, idx + 1, idx + 1, 0);
        options := options + [inner[last..idx]];
        last := idx + 1;
      }
      idx := idx + 1;
    }
    options := options + [inner[last..]];
  }

  // ----- Expansion -----

  /** Replacing a group by one of its options removes at least its opening brace. */
  lemma OptionFallsBelow(s: string, k: nat)
    requires FindBraceRange(s).Some?
    requires var (a, b) := FindBraceRange(s).value; k < |SplitOptions(s[a + 1..b])|
    ensures var (a, b) := FindBraceRange(s).value;
      Braces(s[..a] + SplitOptions(s[a + 1..b])[k] + s[b + 1..]) < Braces(s)
  {
    var (a, b) := FindBraceRange(s).value;
    var prefix, inner, suffix := s[..a], s[a + 1..b], s[b + 1..];
    var option := SplitOptions(inner)[k];
    SplitBraces(inner, 0, 0, 0, k);
    BracesConcat(prefix + option, suffix);
    BracesConcat(prefix, option);
    assert s == prefix + ("{" + (inner + ("}" + suffix)));
    BracesConcat(prefix, "{" + (inner + ("}" + suffix)));
    BracesConcat("{", inner + ("}" + suffix));
    BracesConcat(inner, "}" + suffix);
    BracesConcat("}", suffix);
    assert Braces("{") == 1;
  }

  /** All patterns that a pattern stands for; the number of opening braces falls on each call. */
  function Expand(s: string): seq<string>
    decreases Braces(s), 1, 0
  {
    match FindBraceRange(s)
    case None => [s]
    case Some((a, b)) =>
      var options := SplitOptions(s[a + 1..b]);
      assert forall k :: 0 <= k < |options| ==> Braces(s[..a] + options[k] + s[b + 1..]) < Braces(s) by {
        forall k | 0 <= k < |options| ensures Braces(s[..a] + options[k] + s[b + 1..]) < Braces(s) {
          OptionFallsBelow(s, k);
        }
      }
      ExpandEach(s[..a], options, s[b + 1..], Braces(s))
  }

  function ExpandEach(prefix: string, options: seq<string>, suffix: string, ghost bound: nat): seq<string>
    requires forall k :: 0 <= k < |options| ==> Braces(prefix + options[k] + suffix) < bound
    decreases bound, 0, |options|
  {
    if options == [] then []
    else Expand(prefix + options[0] + suffix) + ExpandEach(prefix, options[1..], suffix, bound)
  }

  method ExpandBraces(pattern: string) returns (results: seq<string>)
    ensures results == Expand(pattern)
    decreases Braces(pattern)
  {
    var range := FindBraceRangeLoop(pattern);
    if range.None? {
      return [pattern];
    }
    var (start, end) := range.value;
    var prefix, inner, suffix := pattern[..start], pattern[start + 1..end], pattern[end + 1..];
    var options := SplitOptionsLoop(inner);
    results := [];
    var i := 0;
    forall k | 0 <= k < |options| ensures Braces(prefix + options[k] + suffix) < Braces(pattern) {
      OptionFallsBelow(pattern, k);
    }
    while i < |options|
      invariant 0 <= i <= |options|
      invariant Expand(pattern) == results + ExpandEach(prefix, options[i..], suffix, Braces(pattern))
    {
      var expanded := ExpandBraces(prefix + options[i] + suffix);
      assert options[i..][1..] == options[i + 1..];
      results := results + expanded;
      i := i + 1;
    }
  }
}
