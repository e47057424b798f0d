/**
 * What brace expansion means: on the printed form of a tree of literals and choices it yields
 * exactly the tree's alternatives, the leftmost choice varying slowest.
 */
module BraceTrees {
  import opened Common
  import opened BraceExpansion

  /** A literal, or a choice between branches. */
  datatype Part = Literal(text: string) | Choice(options: seq<Branch>)

  datatype Branch = Branch(parts: seq<Part>)

  // ----- Printed form -----

  function Print(parts: seq<Part>): string
  {
    if parts == [] then "" else PrintPart(parts[0]) + Print(parts[1..])
  }

  function PrintPart(part: Part): string
  {
    match part
    case Literal(text) => text
    case Choice(options) => "{" + PrintOptions(options) + "}"
  }

  function PrintOptions(options: seq<Branch>): string
  {
    if options == [] then ""
    else if |options| == 1 then Print(options[0].parts)
    else Print(options[0].parts) + "," + PrintOptions(options[1..])
  }

  /** Literals hold no braces and, inside a choice, no commas; a choice has an option. */
  predicate WellFormed(parts: seq<Part>, nested: bool)
  {
    forall k :: 0 <= k < |parts| ==> WellFormedPart(parts[k], nested)
  }

  predicate WellFormedPart(part: Part, nested: bool)
  {
    match part
    case Literal(text) =>
      forall i :: 0 <= i < |text| ==> text[i] != '{' && text[i] != '}' && (nested ==> text[i] != ',')
    case Choice(options) =>
      options != [] && forall k :: 0 <= k < |options| ==> WellFormed(options[k].parts, true)
  }

  // ----- Alternatives -----

  function Prefixed(text: string, xs: seq<string>): (r: seq<string>)
    ensures |r| == |xs|
    ensures forall k :: 0 <= k < |xs| ==> r[k] == text + xs[k]
  {
    seq(|xs|, k requires 0 <= k < |xs| => text + xs[k])
  }

  /** Every concatenation, those of the first left text before those of the next. */
  function Product(xs: seq<string>, ys: seq<string>): seq<string>
  {
    if xs == [] then [] else Prefixed(xs[0], ys) + Product(xs[1..], ys)
  }

  /** All texts that the tree stands for, in order. */
  function Alternatives(parts: seq<Part>): seq<string>
  {
    if parts == [] then [""] else Product(PartAlternatives(parts[0]), Alternatives(parts[1..]))
  }

  function PartAlternatives(part: Part): seq<string>
  {
    match part
    case Literal(text) => [text]
    case Choice(options) => OptionAlternatives(options)
  }

  function OptionAlternatives(options: seq<Branch>): seq<string>
  {
    if options == [] then [] else Alternatives(options[0].parts) + OptionAlternatives(options[1..])
  }

  // ----- Products -----

  lemma {:induction false} ProductConcat(a: seq<string>, b: seq<string>, ys: seq<string>)
    ensures Product(a + b, ys) == Product(a, ys) + Product(b, ys)
  {
    if a == [] {
      assert a + b == b;
    } else {
      assert (a + b)[1..] == a[1..] + b;
      ProductConcat(a[1..], b, ys);
    }
  }

  lemma ProductOne(text: string, ys: seq<string>)
    ensures Product([text], ys) == Prefixed(text, ys)
  {
    assert [text][1..] == [];
  }

  lemma {:induction false} ProductUnit(ys: seq<string>)
    ensures Product([""], ys) == ys
  {
    ProductOne("", ys);
    assert forall k :: 0 <= k < |ys| ==> "" + ys[k] == ys[k];
  }

  lemma {:induction false} PrefixedProduct(text: string, xs: seq<string>, ys: seq<string>)
    ensures Product(Prefixed(text, xs), ys) == Prefixed(text, Product(xs, ys))
  {
    if xs != [] {
      PrefixedProduct(text, xs[1..], ys);
      assert Prefixed(text, xs)[1..] == Prefixed(text, xs[1..]);
      assert forall k :: 0 <= k < |ys| ==> (text + xs[0]) + ys[k] == text + (xs[0] + ys[k]);
      assert Prefixed(text + xs[0], ys) == Prefixed(text, Prefixed(xs[0], ys));
    }
  }

  lemma {:induction false} ProductAssociative(xs: seq<string>, ys: seq<string>, zs: seq<string>)
    ensures Product(Product(xs, ys), zs) == Product(xs, Product(ys, zs))
  {
    if xs != [] {
      ProductConcat(Prefixed(xs[0], ys), Product(xs[1..], ys), zs);
      PrefixedProduct(xs[0], ys, zs);
      ProductAssociative(xs[1..], ys, zs);
    }
  }

  /** The alternatives of two patterns in a row are the products of their alternatives. */
  lemma {:induction false} AlternativesConcat(a: seq<Part>, b: seq<Part>)
    ensures Alternatives(a + b) == Product(Alternatives(a), Alternatives(b))
  {
    if a == [] {
      assert a + b == b;
      ProductUnit(Alternatives(b));
    } else {
      assert (a + b)[1..] == a[1..] + b;
      AlternativesConcat(a[1..], b);
      ProductAssociative(PartAlternatives(a[0]), Alternatives(a[1..]), Alternatives(b));
    }
  }

  lemma {:induction false} PrintConcat(a: seq<Part>, b: seq<Part>)
    ensures Print(a + b) == Print(a) + Print(b)
  {
    if a == [] {
      assert a + b == b;
    } else {
      assert (a + b)[1..] == a[1..] + b;
      PrintConcat(a[1..], b);
    }
  }

  // ----- Scanning over printed text -----

  /** `t` stands in `s` at position `i`. */
  predicate At(s: string, i: nat, t: string)
  {
    i + |t| <= |s| && s[i..i + |t|] == t
  }

  lemma AtSplit(s: string, i: nat, a: string, b: string)
    requires At(s, i, a + b)
    ensures At(s, i, a) && At(s, i + |a|, b)
  {
    assert s[i..i + |a|] == s[i..i + |a + b|][..|a|];
    assert s[i + |a|..i + |a| + |b|] == s[i..i + |a + b|][|a|..];
  }

  /** Inside a group, the search for its end passes over printed patterns. */
  lemma {:induction false} FindSkips(s: string, i: nat, parts: seq<Part>, nested: bool, depth: nat, start: nat)
    requires WellFormed(parts, nested) && At(s, i, Print(parts)) && depth > 0
    ensures FindFrom(s, i, depth, start) == FindFrom(s, i + |Print(parts)|, depth, start)
    decreases parts, 1
  {
    hide FindFrom, WellFormedPart;
    if parts != [] {
      AtSplit(s, i, PrintPart(parts[0]), Print(parts[1..]));
      FindSkipsPart(s, i, parts[0], nested, depth, start);
      FindSkips(s, i + |PrintPart(parts[0])|, parts[1..], nested, depth, start);
    }
  }

  lemma {:induction false} FindSkipsPart(s: string, i: nat, part: Part, nested: bool, depth: nat, start: nat)
    requires WellFormedPart(part, nested) && At(s, i, PrintPart(part)) && depth > 0
    ensures FindFrom(s, i, depth, start) == FindFrom(s, i + |PrintPart(part)|, depth, start)
    decreases part, 0
  {
    match part
    case Literal(text) => FindSkipsText(s, i, text, depth, start);
    case Choice(options) =>
      ChoiceAt(s, i, options);
      FindSkipsOptions(s, i + 1, options, depth + 1, start);
  }

  /** Where the braces of a printed choice stand. */
  lemma {:induction false} ChoiceAt(s: string, i: nat, options: seq<Branch>)
    requires At(s, i, PrintPart(Choice(options)))
    ensures var end := i + 1 + |PrintOptions(options)|;
      end < |s| && s[i] == '{' && At(s, i + 1, PrintOptions(options)) && s[end] == '}'
      && i + |PrintPart(Choice(options))| == end + 1
  {
    var inner := PrintOptions(options);
    assert PrintPart(Choice(options)) == "{" + (inner + "}");
    AtSplit(s, i, "{", inner + "}");
    AtSplit(s, i + 1, inner, "}");
    assert s[i..i + 1][0] == s[i];
    assert s[i + 1 + |inner|..i + 2 + |inner|][0] == s[i + 1 + |inner|];
  }

  lemma {:induction false} FindSkipsOptions(s: string, i: nat, options: seq<Branch>, depth: nat, start: nat)
    requires forall k :: 0 <= k < |options| ==> WellFormed(options[k].parts, true)
    requires At(s, i, PrintOptions(options)) && depth > 0
    ensures FindFrom(s, i, depth, start) == FindFrom(s, i + |PrintOptions(options)|, depth, start)
    decreases options, 2
  {
    hide FindFrom, Print, PrintOptions, At, WellFormed;
    if options == [] {
      PrintNone();
    } else if |options| == 1 {
      PrintOne(options);
      FindSkips(s, i, options[0].parts, true, depth, start);
    } else {
      var comma := i + |Print(options[0].parts)|;
      FirstOption(s, i, options);
      FindPassesComma(s, comma, depth, start);
      FindSkips(s, i, options[0].parts, true, depth, start);
      FindSkipsOptions(s, comma + 1, options[1..], depth, start);
    }
  }

  lemma FindPassesComma(s: string, i: nat, depth: nat, start: nat)
    requires i < |s| && s[i] == ','
    ensures FindFrom(s, i, depth, start) == FindFrom(s, i + 1, depth, start)
  {
  }

  lemma {:induction false} PrintOne(options: seq<Branch>)
    requires |options| == 1
    ensures PrintOptions(options) == Print(options[0].parts)
  {
  }

  lemma PrintNone()
    ensures PrintOptions([]) == ""
  {
  }

  lemma {:induction false} FindSkipsText(s: string, i: nat, text: string, depth: nat, start: nat)
    requires At(s, i, text) && forall k :: 0 <= k < |text| ==> text[k] != '{' && text[k] != '}'
    ensures FindFrom(s, i, depth, start) == FindFrom(s, i + |text|, depth, start)
    decreases |text|
  {
    if text != "" {
      assert text == [text[0]] + text[1..];
      AtSplit(s, i, [text[0]], text[1..]);
      assert s[i] == text[0];
      FindSkipsText(s, i + 1, text[1..], depth, start);
    }
  }

  /** Splitting passes over printed nested patterns without seeing a comma. */
  lemma {:induction false} SplitSkips(s: string, i: nat, last: nat, parts: seq<Part>, nested: bool, depth: nat)
    requires WellFormed(parts, nested) && At(s, i, Print(parts)) && last <= i && (nested || depth > 0)
    ensures SplitFrom(s, i, last, depth) == SplitFrom(s, i + |Print(parts)|, last, depth)
    decreases parts, 1
  {
    hide SplitFrom, WellFormedPart;
    if parts != [] {
      AtSplit(s, i, PrintPart(parts[0]), Print(parts[1..]));
      SplitSkipsPart(s, i, last, parts[0], nested, depth);
      SplitSkips(s, i + |PrintPart(parts[0])|, last, parts[1..], nested, depth);
    }
  }

  lemma {:induction false} SplitSkipsPart(s: string, i: nat, last: nat, part: Part, nested: bool, depth: nat)
    requires WellFormedPart(part, nested) && At(s, i, PrintPart(part)) && last <= i && (nested || depth > 0)
    ensures SplitFrom(s, i, last, depth) == SplitFrom(s, i + |PrintPart(part)|, last, depth)
    decreases part, 0
  {
    match part
    case Literal(text) => SplitSkipsText(s, i, last, text, depth);
    case Choice(options) =>
      ChoiceAt(s, i, options);
      SplitSkipsOptions(s, i + 1, last, options, depth + 1);
  }

  lemma {:induction false} SplitSkipsOptions(s: string, i: nat, last: nat, options: seq<Branch>, depth: nat)
    requires forall k :: 0 <= k < |options| ==> WellFormed(options[k].parts, true)
    requires At(s, i, PrintOptions(options)) && last <= i && depth > 0
    ensures SplitFrom(s, i, last, depth) == SplitFrom(s, i + |PrintOptions(options)|, last, depth)
    decreases options, 2
  {
    hide SplitFrom, Print, PrintOptions, At, WellFormed;
    if options == [] {
      PrintNone();
    } else if |options| == 1 {
      PrintOne(options);
      SplitSkips(s, i, last, options[0].parts, true, depth);
    } else {
      var comma := i + |Print(options[0].parts)|;
      FirstOption(s, i, options);
      CommaPassed(s, comma, last, depth);
      SplitSkips(s, i, last, options[0].parts, true, depth);
      SplitSkipsOptions(s, comma + 1, last, options[1..], depth);
    }
  }

  /** A comma inside a group does not end an option. */
  lemma {:induction false} CommaPassed(s: string, i: nat, last: nat, depth: nat)
    requires last <= i < |s| && s[i] == ',' && depth > 0
    ensures SplitFrom(s, i, last, depth) == SplitFrom(s, i + 1, last, depth)
  {
  }

  lemma {:induction false} SplitSkipsText(s: string, i: nat, last: nat, text: string, depth: nat)
    requires At(s, i, text) && last <= i
    requires forall k :: 0 <= k < |text| ==> text[k] != '{' && text[k] != '}' && (depth == 0 ==> text[k] != ',')
    ensures SplitFrom(s, i, last, depth) == SplitFrom(s, i + |text|, last, depth)
    decreases |text|
  {
    if text != "" {
      assert text == [text[0]] + text[1..];
      AtSplit(s, i, [text[0]], text[1..]);
      assert s[i] == text[0];
      SplitSkipsText(s, i + 1, last, text[1..], depth);
    }
  }

  function Printed(options: seq<Branch>): (r: seq<string>)
    ensures |r| == |options|
    ensures forall k :: 0 <= k < |options| ==> r[k] == Print(options[k].parts)
  {
    seq(|options|, k requires 0 <= k < |options| => Print(options[k].parts))
  }

  lemma {:induction false} PrintedFirst(options: seq<Branch>)
    requires options != []
    ensures Printed(options) == [Print(options[0].parts)] + Printed(options[1..])
  {
    hide Print;
  }

  /** A comma outside inner groups ends an option. */
  lemma {:induction false} CommaSplits(s: string, i: nat, last: nat)
    requires last <= i < |s| && s[i] == ','
    ensures SplitFrom(s, i, last, 0) == [s[last..i]] + SplitFrom(s, i + 1, i + 1, 0)
  {
  }

  lemma {:induction false} PrintMore(options: seq<Branch>)
    requires |options| > 1
    ensures PrintOptions(options) == Print(options[0].parts) + "," + PrintOptions(options[1..])
  {
    hide Print;
  }

  lemma AtComma(s: string, i: nat, a: string, b: string)
    requires At(s, i, a + "," + b)
    ensures i + |a| < |s| && At(s, i, a) && s[i..i + |a|] == a
    ensures s[i + |a|] == ',' && At(s, i + |a| + 1, b)
  {
    AtSplit(s, i, a + ",", b);
    AtSplit(s, i, a, ",");
    assert s[i + |a|..i + |a| + 1][0] == ',';
  }

  /** Where the first of several printed options stands, and the rest behind its comma. */
  lemma {:induction false} FirstOption(s: string, i: nat, options: seq<Branch>)
    requires |options| > 1 && At(s, i, PrintOptions(options))
    ensures var first := Print(options[0].parts); var comma := i + |first|;
      && comma < |s| && At(s, i, first) && s[i..comma] == first && s[comma] == ','
      && At(s, comma + 1, PrintOptions(options[1..]))
      && i + |PrintOptions(options)| == comma + 1 + |PrintOptions(options[1..])|
  {
    var first, rest := Print(options[0].parts), PrintOptions(options[1..]);
    hide Print, PrintOptions, At;
    PrintMore(options);
    AtComma(s, i, first, rest);
  }

  /** Splitting the inside of a printed choice gives its printed options. */
  lemma {:induction false} SplitPrinted(s: string, i: nat, options: seq<Branch>)
    requires options != [] && forall k :: 0 <= k < |options| ==> WellFormed(options[k].parts, true)
    requires At(s, i, PrintOptions(options)) && i + |PrintOptions(options)| == |s|
    ensures SplitFrom(s, i, i, 0) == Printed(options)
    decreases |options|
  {
    var first := Print(options[0].parts);
    if |options| == 1 {
      SplitSkips(s, i, i, options[0].parts, true, 0);
      assert s[i..] == first;
    } else {
      FirstOption(s, i, options);
      CommaSplits(s, i + |first|, i);
      hide SplitFrom, WellFormed, Print, PrintOptions, At;
      SplitSkips(s, i, i, options[0].parts, true, 0);
      SplitPrinted(s, i + |first| + 1, options[1..]);
      PrintedFirst(options);
    }
  }

  // ----- Expansion of a literal prefix -----

  /** A prefix without braces shifts what is found. */
  lemma {:induction false} FindShifted(text: string, s: string, i: nat, depth: nat, start: nat)
    requires i <= |s|
    ensures FindFrom(text + s, |text| + i, depth, |text| + start) ==
      match FindFrom(s, i, depth, start)
      case Some((a, b)) => Some((|text| + a, |text| + b))
      case None => None
    decreases |s| - i
  {
    if i < |s| {
      assert (text + s)[|text| + i] == s[i];
      if s[i] == '{' {
        FindShifted(text, s, i + 1, depth + 1, if depth == 0 then i else start);
      } else if s[i] == '}' {
        if depth > 1 {
          FindShifted(text, s, i + 1, depth - 1, start);
        }
      } else {
        FindShifted(text, s, i + 1, depth, start);
      }
    }
  }

  /** At depth zero the remembered start is not used. */
  lemma {:induction false} StartIrrelevant(s: string, i: nat, a: nat, b: nat)
    requires i <= |s|
    ensures FindFrom(s, i, 0, a) == FindFrom(s, i, 0, b)
    decreases |s| - i
  {
    if i < |s| && s[i] != '{' && s[i] != '}' {
      StartIrrelevant(s, i + 1, a, b);
    }
  }

  lemma PrefixShifts(text: string, s: string)
    requires forall k :: 0 <= k < |text| ==> text[k] != '{' && text[k] != '}'
    ensures FindBraceRange(text + s) ==
      match FindBraceRange(s)
      case Some((a, b)) => Some((|text| + a, |text| + b))
      case None => None
  {
    assert (text + s)[0..|text|] == text;
    FindSkipsText(text + s, 0, text, 0, 0);
    StartIrrelevant(text + s, |text|, 0, |text|);
    FindShifted(text, s, 0, 0, 0);
  }

  /** Text without braces in front of a pattern stands in front of every expansion. */
  lemma {:induction false} ExpandPrefixed(text: string, s: string)
    requires forall k :: 0 <= k < |text| ==> text[k] != '{' && text[k] != '}'
    ensures Expand(text + s) == Prefixed(text, Expand(s))
    decreases Braces(s), 1, 0
  {
    hide SplitOptions, FindBraceRange, Braces;
    PrefixShifts(text, s);
    if FindBraceRange(s).Some? {
      var (a, b) := FindBraceRange(s).value;
      var whole := text + s;
      var options := SplitOptions(s[a + 1..b]);
      assert whole[..|text| + a] == text + s[..a];
      assert whole[|text| + a + 1..|text| + b] == s[a + 1..b];
      assert whole[|text| + b + 1..] == s[b + 1..];
      forall k | 0 <= k < |options|
        ensures Braces(s[..a] + options[k] + s[b + 1..]) < Braces(s)
        ensures Braces((text + s[..a]) + options[k] + s[b + 1..]) < Braces(whole)
      {
        OptionFallsBelow(s, k);
        OptionFallsBelow(whole, k);
      }
      ExpandEachPrefixed(text, s[..a], options, s[b + 1..], Braces(s), Braces(whole));
    }
  }

  lemma {:induction false} ExpandEachPrefixed(text: string, prefix: string, options: seq<string>, suffix: string, bound: nat, bound': nat)
    requires forall k :: 0 <= k < |text| ==> text[k] != '{' && text[k] != '}'
    requires forall k :: 0 <= k < |options| ==> Braces(prefix + options[k] + suffix) < bound
    requires forall k :: 0 <= k < |options| ==> Braces((text + prefix) + options[k] + suffix) < bound'
    ensures ExpandEach(text + prefix, options, suffix, bound') == Prefixed(text, ExpandEach(prefix, options, suffix, bound))
    decreases bound, 0, |options|
  {
    if options != [] {
      var s := prefix + options[0] + suffix;
      assert (text + prefix) + options[0] + suffix == text + s;
      ExpandPrefixed(text, s);
      forall k | 0 <= k < |options[1..]|
        ensures Braces(prefix + options[1..][k] + suffix) < bound
        ensures Braces((text + prefix) + options[1..][k] + suffix) < bound'
      {
        assert options[1..][k] == options[k + 1];
      }
      ExpandEachPrefixed(text, prefix, options[1..], suffix, bound, bound');
      PrefixedConcat(text, Expand(s), ExpandEach(prefix, options[1..], suffix, bound));
    }
  }

  lemma PrefixedConcat(text: string, xs: seq<string>, ys: seq<string>)
    ensures Prefixed(text, xs + ys) == Prefixed(text, xs) + Prefixed(text, ys)
  {
  }

  // ----- The meaning of expansion -----

  /** The first group of a pattern that starts with a choice is that choice. */
  lemma {:induction false} ChoiceFound(options: seq<Branch>, rest: string)
    requires options != [] && forall k :: 0 <= k < |options| ==> WellFormed(options[k].parts, true)
    ensures var s := "{" + PrintOptions(options) + "}" + rest; var b := 1 + |PrintOptions(options)|;
      && FindBraceRange(s) == Some((0, b))
      && s[..0] == "" && s[1..b] == PrintOptions(options) && s[b + 1..] == rest
      && SplitOptions(s[1..b]) == Printed(options)
  {
    var inner := PrintOptions(options);
    var s := "{" + inner + "}" + rest;
    var b := 1 + |inner|;
    assert s[1..b] == inner && s[b] == '}' && s[b + 1..] == rest;
    FindSkipsOptions(s, 1, options, 1, 0);
    assert At(inner, 0, inner);
    SplitPrinted(inner, 0, options);
  }

  lemma WellFormedAnywhere(parts: seq<Part>, rest: seq<Part>)
    requires WellFormed(parts, true) && WellFormed(rest, false)
    ensures WellFormed(parts + rest, false)
  {
  }

  /** Main result: expanding a printed tree yields its alternatives in order. */
  lemma {:induction false} ExpandPrinted(parts: seq<Part>)
    requires WellFormed(parts, false)
    ensures Expand(Print(parts)) == Alternatives(parts)
    decreases Braces(Print(parts)), 1, |parts|
  {
    if parts != [] {
      match parts[0] {
        case Literal(text) =>
          assert PrintPart(parts[0]) == text && Print(parts) == text + Print(parts[1..]);
          BracesConcat(text, Print(parts[1..]));
          ExpandPrinted(parts[1..]);
          ExpandPrefixed(text, Print(parts[1..]));
          ProductOne(text, Alternatives(parts[1..]));
        case Choice(options) =>
          var s := Print(parts);
          var rest := Print(parts[1..]);
          assert PrintPart(parts[0]) == "{" + PrintOptions(options) + "}" && s == PrintPart(parts[0]) + rest;
          ChoiceFound(options, rest);
          forall k | 0 <= k < |options| ensures Braces("" + Printed(options)[k] + rest) < Braces(s) {
            OptionFallsBelow(s, k);
          }
          ExpandOptionsPrinted(options, parts[1..], Braces(s));
      }
    }
  }

  lemma {:induction false} ExpandOptionsPrinted(options: seq<Branch>, rest: seq<Part>, bound: nat)
    requires WellFormed(rest, false) && forall k :: 0 <= k < |options| ==> WellFormed(options[k].parts, true)
    requires forall k :: 0 <= k < |options| ==> Braces("" + Printed(options)[k] + Print(rest)) < bound
    ensures ExpandEach("", Printed(options), Print(rest), bound) == Product(OptionAlternatives(options), Alternatives(rest))
    decreases bound, 0, |options|
  {
    if options != [] {
      assert Printed(options)[1..] == Printed(options[1..]);
      PrintConcat(options[0].parts, rest);
      assert "" + Print(options[0].parts) + Print(rest) == Print(options[0].parts + rest);
      WellFormedAnywhere(options[0].parts, rest);
      ExpandPrinted(options[0].parts + rest);
      AlternativesConcat(options[0].parts, rest);
      ExpandOptionsPrinted(options[1..], rest, bound);
      ProductConcat(Alternatives(options[0].parts), OptionAlternatives(options[1..]), Alternatives(rest));
    }
  }
}
