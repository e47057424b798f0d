/**
 * Log message templates (session.rs, `parse_log_message`): text with doubled braces, and
 * expressions between single braces, which a given compiler turns into code.
 */
module LogTemplate {
  import opened Common

  datatype Fragment<Code> = Text(text: string) | Expr(code: Code)

  datatype TemplateError = Unterminated | EmptyExpression | Unmatched | Rejected(reason: string)

  type Compiler<!Code> = string -> Result<Code, string>

  // ----- Trimming -----

  predicate IsSpace(c: char)
  {
    var n := c as int;
    9 <= n <= 13 || n == 0x20 || n == 0x85 || n == 0xA0 || n == 0x1680 || 0x2000 <= n <= 0x200A
    || n == 0x2028 || n == 0x2029 || n == 0x202F || n == 0x205F || n == 0x3000
  }

  function TrimStart(s: string): string
  {
    if s != "" && IsSpace(s[0]) then TrimStart(s[1..]) else s
  }

  function TrimEnd(s: string): string
  {
    if s != "" && IsSpace(s[|s| - 1]) then TrimEnd(s[..|s| - 1]) else s
  }

  function Trim(s: string): string
  {
    TrimEnd(TrimStart(s))
  }

  // ----- What a template parses to -----

  /** The position of the first closing brace. */
  function CloseAt(s: string): (r: Option<nat>)
    ensures r.Some? ==> r.value < |s| && s[r.value] == '}' && '}' !in s[..r.value]
    ensures r.None? ==> '}' !in s
  {
    if s == "" then None
    else if s[0] == '}' then Some(0)
    else
      assert s == [s[0]] + s[1..];
      match CloseAt(s[1..])
      case Some(k) =>
        assert s[..k + 1] == [s[0]] + s[1..][..k];
        Some(k + 1)
      case None => None
  }

  function PendingText<Code>(literal: string): seq<Fragment<Code>>
  {
    if literal == "" then [] else [Text(literal)]
  }

  function Before<Code>(first: seq<Fragment<Code>>, rest: Result<seq<Fragment<Code>>, TemplateError>): Result<seq<Fragment<Code>>, TemplateError>
  {
    match rest
    case Ok(fragments) => Ok(first + fragments)
    case Err(e) => Err(e)
  }

  /** The fragments of the rest of a template, `literal` being the text read since the last one. */
  function Parse<Code>(t: string, literal: string, compile: Compiler<Code>): Result<seq<Fragment<Code>>, TemplateError>
    decreases |t|
  {
    if t == "" then
      Ok(PendingText(literal))
    else if t[0] == '{' then
      if |t| > 1 && t[1] == '{' then
        Parse(t[2..], literal + "{", compile)
      else
        match CloseAt(t[1..])
        case None => Err(Unterminated)
        case Some(k) =>
          var expr := Trim(t[1..k + 1]);
          if expr == "" then Err(EmptyExpression)
          else
            match compile(expr)
            case Err(reason) => Err(Rejected(reason))
            case Ok(code) => Before(PendingText(literal) + [Expr(code)], Parse(t[k + 2..], "", compile))
    else if t[0] == '}' then
      if |t| > 1 && t[1] == '}' then Parse(t[2..], literal + "}", compile) else Err(Unmatched)
    else
      Parse(t[1..], literal + [t[0]], compile)
  }

  /** One step of parsing, by positions in the whole template. */
  lemma ParseStep<Code>(template: string, i: nat, literal: string, compile: Compiler<Code>)
    requires i < |template|
    ensures var doubled := i + 1 < |template| && template[i + 1] == template[i];
      Parse(template[i..], literal, compile) ==
        if template[i] == '{' then
          if doubled then Parse(template[i + 2..], literal + "{", compile) else ParseBraced(template, i + 1, literal, compile)
        else if template[i] == '}' then
          if doubled then Parse(template[i + 2..], literal + "}", compile) else Err(Unmatched)
        else Parse(template[i + 1..], literal + [template[i]], compile)
  {
    hide CloseAt, Trim;
    var rest := template[i..];
    assert rest[1..] == template[i + 1..];
    assert i + 1 < |template| ==> rest[2..] == template[i + 2..] && rest[1] == template[i + 1];
    if template[i] == '{' && CloseAt(template[i + 1..]).Some? {
      var k := CloseAt(template[i + 1..]).value;
      assert rest[1..k + 1] == template[i + 1..i + 1 + k];
      assert rest[k + 2..] == template[i + k + 2..];
    }
  }

  /** An expression that starts at `start`, and what follows it. */
  function ParseBraced<Code>(template: string, start: nat, literal: string, compile: Compiler<Code>): Result<seq<Fragment<Code>>, TemplateError>
    requires start <= |template|
  {
    match CloseAt(template[start..])
    case None => Err(Unterminated)
    case Some(k) =>
      var expr := Trim(template[start..start + k]);
      if expr == "" then Err(EmptyExpression)
      else
        match compile(expr)
        case Err(reason) => Err(Rejected(reason))
        case Ok(code) => Before(PendingText(literal) + [Expr(code)], Parse(template[start + k + 1..], "", compile))
  }

  method ParseLogMessage<Code>(template: string, compile: Compiler<Code>) returns (r: Result<seq<Fragment<Code>>, TemplateError>)
    ensures r == Parse(template, "", compile)
  {
    var fragments: seq<Fragment<Code>> := [];
    var literal := "";
    var i := 0;
    assert template[0..] == template;
    BeforeNothing(Parse(template, "", compile));
    hide Trim, CloseAt, Parse, PendingText, Before;
    while i < |template|
      invariant 0 <= i <= |template|
      invariant Parse(template, "", compile) == Before(fragments, Parse(template[i..], literal, compile))
    {
      ParseStep(template, i, literal, compile);
      FailsBehind(fragments);
      var ch := template[i];
      if ch == '{' {
        if i + 1 < |template| && template[i + 1] == '{' {
          literal := literal + "{";
          i := i + 2;
          continue;
        }
        var start := i + 1;
        var close := FirstClose(template, start);
        if close.None? {
          return Err(Unterminated);
        }
        var expr := Trim(template[start..close.value]);
        if expr == "" {
          return Err(EmptyExpression);
        }
        var code := compile(expr);
        if code.Err? {
          return Err(Rejected(code.error));
        }
        ExpressionBefore(fragments, literal, code.value, Parse(template[close.value + 1..], "", compile));
        if literal != "" {
          fragments := fragments + [Text(literal)];
        }
        fragments := fragments + [Expr(code.value)];
        literal := "";
        i := close.value + 1;
      } else if ch == '}' {
        if i + 1 < |template| && template[i + 1] == '}' {
          literal := literal + "}";
          i := i + 2;
        } else {
          return Err(Unmatched);
        }
      } else {
        literal := literal + [ch];
        i := i + 1;
      }
    }
    assert template[i..] == "";
    ParseNothing(literal, compile);
    TextBefore(fragments, literal);
    if literal != "" {
      fragments := fragments + [Text(literal)];
    }
    r := Ok(fragments);
  }

  /** An expression behind the fragments and the pending text. */
  lemma ExpressionBefore<Code>(fragments: seq<Fragment<Code>>, literal: string, code: Code, rest: Result<seq<Fragment<Code>>, TemplateError>)
    ensures var all := (if literal != "" then fragments + [Text(literal)] else fragments) + [Expr(code)];
      Before(all, rest) == Before(fragments, Before(PendingText(literal) + [Expr(code)], rest))
  {
    var all := (if literal != "" then fragments + [Text(literal)] else fragments) + [Expr(code)];
    assert all == fragments + (PendingText<Code>(literal) + [Expr(code)]);
    BeforeBefore(fragments, PendingText<Code>(literal) + [Expr(code)], rest);
  }

  /** An error behind any fragments is that error. */
  lemma FailsBehind<Code>(fragments: seq<Fragment<Code>>)
    ensures forall e :: Before(fragments, Err(e)) == Err(e)
  {
  }

  lemma TextBefore<Code>(fragments: seq<Fragment<Code>>, literal: string)
    ensures Before(fragments, Ok(PendingText(literal))) == Ok(if literal != "" then fragments + [Text(literal)] else fragments)
  {
    assert fragments + [] == fragments;
  }

  lemma ParseNothing<Code>(literal: string, compile: Compiler<Code>)
    ensures Parse("", literal, compile) == Ok(PendingText(literal))
  {
  }

  lemma BeforeNothing<Code>(rest: Result<seq<Fragment<Code>>, TemplateError>)
    ensures Before([], rest) == rest
  {
    if rest.Ok? {
      assert [] + rest.value == rest.value;
    }
  }

  lemma BeforeBefore<Code>(a: seq<Fragment<Code>>, b: seq<Fragment<Code>>, rest: Result<seq<Fragment<Code>>, TemplateError>)
    ensures Before(a + b, rest) == Before(a, Before(b, rest))
  {
    if rest.Ok? {
      assert (a + b) + rest.value == a + (b + rest.value);
    }
  }

  /** The first closing brace from a position on. */
  method FirstClose(s: string, start: nat) returns (close: Option<nat>)
    requires start <= |s|
    ensures close == match CloseAt(s[start..]) case Some(k) => Some(start + k) case None => None
  {
    hide CloseAt;
    var i := start;
    while i < |s|
      invariant start <= i <= |s|
      invariant match CloseAt(s[start..])
        case Some(k) => CloseAt(s[i..]) == Some(start + k - i)
        case None => CloseAt(s[i..]) == None
    {
      CloseStep(s, i);
      if s[i] == '}' {
        return Some(i);
      }
      i := i + 1;
    }
    CloseNowhere(s);
    close := None;
  }

  lemma CloseStep(s: string, i: nat)
    requires i < |s|
    ensures CloseAt(s[i..]) ==
      if s[i] == '}' then Some(0)
      else match CloseAt(s[i + 1..]) case Some(k) => Some(k + 1) case None => None
  {
    assert s[i..][1..] == s[i + 1..];
  }

  lemma CloseNowhere(s: string)
    ensures CloseAt(s[|s|..]) == None
  {
  }

  // ----- Printing -----

  /** A template before compilation: text, or the source of an expression. */
  datatype Piece = TextPiece(text: string) | ExprPiece(source: string)

  function Escaped(text: string): string
  {
    if text == "" then ""
    else (if text[0] == '{' then "{{" else if text[0] == '}' then "}}" else [text[0]]) + Escaped(text[1..])
  }

  function PrintPiece(piece: Piece): string
  {
    match piece
    case TextPiece(text) => Escaped(text)
    case ExprPiece(source) => "{" + source + "}"
  }

  function Print(pieces: seq<Piece>): string
  {
    if pieces == [] then "" else PrintPiece(pieces[0]) + Print(pieces[1..])
  }

  /** White space from one position up to another. */
  predicate Spaces(s: string, from: nat, to: nat)
    requires to <= |s|
  {
    forall k :: from <= k < to ==> IsSpace(s[k])
  }

  predicate Blank(s: string)
  {
    Spaces(s, 0, |s|)
  }

  /** The part from `a` to `b` has only white space around it, and none at its ends. */
  predicate Core(s: string, a: nat, b: nat)
  {
    a <= b <= |s| && Spaces(s, 0, a) && Spaces(s, b, |s|) && (a < b ==> !IsSpace(s[a]) && !IsSpace(s[b - 1]))
  }

  /** Non-empty texts, no two in a row; expressions that are not blank, without a closing or leading opening brace. */
  predicate NormalForm(pieces: seq<Piece>)
  {
    && (forall k :: 0 <= k < |pieces| ==> NormalPiece(pieces[k]))
    && (forall k :: 0 <= k < |pieces| - 1 ==> !(pieces[k].TextPiece? && pieces[k + 1].TextPiece?))
  }

  predicate NormalPiece(piece: Piece)
  {
    match piece
    case TextPiece(text) => text != ""
    case ExprPiece(source) => !Blank(source) && '}' !in source && source[0] != '{'
  }

  /** What remains when nothing more can be read: nothing, or the start of something wrong. */
  predicate Ends(tail: string, end: Option<TemplateError>)
  {
    match end
    case None => tail == ""
    case Some(Unterminated) => tail != "" && tail[0] == '{' && (|tail| == 1 || tail[1] != '{') && '}' !in tail
    case Some(EmptyExpression) => exists k :: 0 < k < |tail| && tail[0] == '{' && tail[k] == '}' && Blank(tail[1..k])
    case Some(Unmatched) => tail != "" && tail[0] == '}' && (|tail| == 1 || tail[1] != '}')
    case Some(Rejected(_)) => false
  }

  /** The fragments with each expression compiled; the first rejection if there is one, or else what is wrong at the end. */
  function Compiled<Code>(pieces: seq<Piece>, end: Option<TemplateError>, compile: Compiler<Code>): Result<seq<Fragment<Code>>, TemplateError>
  {
    if pieces == [] then
      if end.Some? then Err(end.value) else Ok([])
    else match pieces[0]
      case TextPiece(text) => Before([Text(text)], Compiled(pieces[1..], end, compile))
      case ExprPiece(source) =>
        match compile(Trim(source))
        case Ok(code) => Before([Expr(code)], Compiled(pieces[1..], end, compile))
        case Err(reason) => Err(Rejected(reason))
  }

  // ----- Trimming removes the white space around a text, and nothing else -----

  lemma {:induction false} TrimStartAt(s: string) returns (a: nat)
    ensures a <= |s| && TrimStart(s) == s[a..] && Spaces(s, 0, a) && (a < |s| ==> !IsSpace(s[a]))
  {
    hide IsSpace;
    a := 0;
    if s != "" && IsSpace(s[0]) {
      var rest := TrimStartAt(s[1..]);
      a := rest + 1;
      assert forall k :: 0 < k < |s| ==> s[k] == s[1..][k - 1];
    }
  }

  lemma {:induction false} TrimEndAt(s: string) returns (b: nat)
    ensures b <= |s| && TrimEnd(s) == s[..b] && Spaces(s, b, |s|) && (b > 0 ==> !IsSpace(s[b - 1]))
  {
    hide IsSpace;
    b := |s|;
    if s != "" && IsSpace(s[|s| - 1]) {
      b := TrimEndAt(s[..|s| - 1]);
      assert s[..|s| - 1][..b] == s[..b];
    }
  }

  lemma TrimCore(s: string) returns (a: nat, b: nat)
    ensures Core(s, a, b) && Trim(s) == s[a..b]
  {
    hide IsSpace;
    a := TrimStartAt(s);
    var rest := s[a..];
    var n := TrimEndAt(rest);
    b := a + n;
    assert forall k :: a <= k < |s| ==> s[k] == rest[k - a];
    assert rest[..n] == s[a..b];
  }

  /** There is only one part like that, unless all is white space. */
  lemma CoreUnique(s: string, a: nat, b: nat, c: nat, d: nat)
    requires Core(s, a, b) && Core(s, c, d)
    ensures (a < b <==> !Blank(s)) && (a < b ==> a == c && b == d)
  {
    hide IsSpace;
  }

  /** Trimming gives the part of the text that has only white space around it, and none at its ends. */
  lemma TrimExact(s: string, a: nat, b: nat)
    requires Core(s, a, b)
    ensures Trim(s) == s[a..b]
    ensures Trim(s) == "" <==> Blank(s)
  {
    hide IsSpace, Trim;
    var c, d := TrimCore(s);
    CoreUnique(s, a, b, c, d);
    CoreUnique(s, c, d, a, b);
  }

  lemma TrimBlank(s: string)
    ensures Trim(s) == "" <==> Blank(s)
  {
    var a, b := TrimCore(s);
    TrimExact(s, a, b);
  }

  // ----- Parsing what was printed -----

  lemma {:induction false} ParseEscaped<Code>(text: string, t: string, literal: string, compile: Compiler<Code>)
    ensures Parse(Escaped(text) + t, literal, compile) == Parse(t, literal + text, compile)
    decreases |text|
  {
    if text == "" {
      assert Escaped(text) + t == t && literal + text == literal;
    } else {
      var rest := Escaped(text[1..]) + t;
      ParseEscaped(text[1..], t, literal + [text[0]], compile);
      assert (literal + [text[0]]) + text[1..] == literal + text;
      ParseEscapedChar(text, t, rest, literal, compile);
    }
  }

  /** The first character of escaped text is read into the pending text. */
  lemma ParseEscapedChar<Code>(text: string, t: string, rest: string, literal: string, compile: Compiler<Code>)
    requires text != "" && rest == Escaped(text[1..]) + t
    ensures Parse(Escaped(text) + t, literal, compile) == Parse(rest, literal + [text[0]], compile)
  {
    var s := Escaped(text) + t;
    if text[0] == '{' {
      assert s == "{{" + rest && s[2..] == rest;
    } else if text[0] == '}' {
      assert s == "}}" + rest && s[2..] == rest;
    } else {
      assert s == [text[0]] + rest && s[1..] == rest;
    }
  }

  lemma {:induction false} CloseFound(source: string, t: string)
    requires '}' !in source
    ensures CloseAt(source + "}" + t) == Some(|source|)
  {
    var s := source + "}" + t;
    if source == "" {
      assert s[0] == '}';
    } else {
      assert source[0] in source;
      assert s[1..] == source[1..] + "}" + t;
      CloseFound(source[1..], t);
    }
  }

  lemma ParseExpression<Code>(source: string, t: string, literal: string, compile: Compiler<Code>)
    requires NormalPiece(ExprPiece(source))
    ensures Parse("{" + source + "}" + t, literal, compile) ==
      match compile(Trim(source))
      case Ok(code) => Before(PendingText(literal) + [Expr(code)], Parse(t, "", compile))
      case Err(reason) => Err(Rejected(reason))
  {
    var s := "{" + source + "}" + t;
    assert s[1] == source[0];
    assert s[1..] == source + "}" + t;
    CloseFound(source, t);
    TrimBlank(source);
    assert s[1..|source| + 1] == source && s[|source| + 2..] == t;
  }

  /** What is wrong at the end is found there. */
  lemma ParseEnd<Code>(tail: string, end: Option<TemplateError>, literal: string, compile: Compiler<Code>)
    requires Ends(tail, end)
    ensures Parse(tail, literal, compile) == if end.Some? then Err(end.value) else Ok(PendingText(literal))
  {
    match end
    case None =>
    case Some(Unterminated) =>
      assert forall k :: 0 <= k < |tail[1..]| ==> tail[1..][k] == tail[k + 1];
    case Some(EmptyExpression) =>
      var k :| 0 < k < |tail| && tail[0] == '{' && tail[k] == '}' && Blank(tail[1..k]);
      var blank := tail[1..k];
      NoBraceInBlank(blank);
      assert tail[1..] == blank + "}" + tail[k + 1..];
      CloseFound(blank, tail[k + 1..]);
      TrimBlank(blank);
      assert k > 1 ==> tail[1] == blank[0] && blank[0] in blank;
    case Some(Unmatched) =>
  }

  lemma NoBraceInBlank(s: string)
    requires Blank(s)
    ensures '}' !in s && '{' !in s
  {
  }

  /** Text read before goes in front, unless it runs on. */
  lemma {:induction false} ParseRest<Code>(pieces: seq<Piece>, tail: string, end: Option<TemplateError>, literal: string, compile: Compiler<Code>)
    requires NormalForm(pieces) && Ends(tail, end)
    requires pieces != [] && pieces[0].TextPiece? ==> literal == ""
    ensures Parse(Print(pieces) + tail, literal, compile) == Before(PendingText(literal), Compiled(pieces, end, compile))
    decreases |pieces|
  {
    hide Parse, Ends, Compiled, Print;
    if pieces == [] {
      ParseEnd(tail, end, literal, compile);
      NothingRead(tail, end, literal, compile);
    } else {
      NormalRest(pieces);
      hide NormalForm;
      match pieces[0]
      case TextPiece(text) =>
        ParseRest(pieces[1..], tail, end, text, compile);
        ParseTextFirst(pieces, tail, end, compile);
      case ExprPiece(source) =>
        ParseRest(pieces[1..], tail, end, "", compile);
        BeforeNothing(Compiled(pieces[1..], end, compile));
        ParseExpressionFirst(pieces, tail, end, literal, compile);
    }
  }

  lemma NothingRead<Code>(tail: string, end: Option<TemplateError>, literal: string, compile: Compiler<Code>)
    ensures Print([]) + tail == tail
    ensures Before(PendingText(literal), Compiled([], end, compile)) == if end.Some? then Err(end.value) else Ok(PendingText(literal))
  {
    assert PendingText<Code>(literal) + [] == PendingText<Code>(literal);
  }

  lemma {:induction false} PrintFront(pieces: seq<Piece>, tail: string)
    requires pieces != []
    ensures Print(pieces) + tail == PrintPiece(pieces[0]) + (Print(pieces[1..]) + tail)
  {
    hide PrintPiece;
    assert Print(pieces) == PrintPiece(pieces[0]) + Print(pieces[1..]);
  }

  lemma {:induction false} ParseTextFirst<Code>(pieces: seq<Piece>, tail: string, end: Option<TemplateError>, compile: Compiler<Code>)
    requires pieces != [] && pieces[0].TextPiece? && pieces[0].text != ""
    requires Parse(Print(pieces[1..]) + tail, pieces[0].text, compile)
          == Before(PendingText(pieces[0].text), Compiled(pieces[1..], end, compile))
    ensures Parse(Print(pieces) + tail, "", compile) == Before(PendingText(""), Compiled(pieces, end, compile))
  {
    PrintFront(pieces, tail);
    hide Parse, Escaped, Print;
    var text, rest := pieces[0].text, Print(pieces[1..]) + tail;
    ParseEscaped(text, rest, "", compile);
    assert "" + text == text;
    BeforeNothing(Compiled(pieces, end, compile));
  }

  lemma {:induction false} ParseExpressionFirst<Code>(pieces: seq<Piece>, tail: string, end: Option<TemplateError>, literal: string, compile: Compiler<Code>)
    requires pieces != [] && pieces[0].ExprPiece? && NormalPiece(pieces[0])
    requires Parse(Print(pieces[1..]) + tail, "", compile) == Compiled(pieces[1..], end, compile)
    ensures Parse(Print(pieces) + tail, literal, compile) == Before(PendingText(literal), Compiled(pieces, end, compile))
  {
    PrintFront(pieces, tail);
    hide Parse, Trim, NormalPiece, Print;
    var source, rest := pieces[0].source, Print(pieces[1..]) + tail;
    ParseExpression(source, rest, literal, compile);
    hide Before, PendingText;
    if compile(Trim(source)).Ok? {
      BeforeBefore(PendingText<Code>(literal), [Expr(compile(Trim(source)).value)], Compiled(pieces[1..], end, compile));
    }
  }

  lemma NormalRest(pieces: seq<Piece>)
    requires pieces != [] && NormalForm(pieces)
    ensures NormalForm(pieces[1..]) && NormalPiece(pieces[0])
    ensures pieces[0].TextPiece? && |pieces| > 1 ==> pieces[1].ExprPiece?
  {
    var rest := pieces[1..];
    assert forall k :: 0 <= k < |rest| ==> rest[k] == pieces[k + 1];
  }

  /**
   * Main result: a template printed from a normal form, with or without something wrong behind it,
   * parses to its fragments, each expression handed to the compiler without the white space around
   * it; the error is the first rejection, or what is wrong at the end.
   */
  lemma {:induction false} ParsePrinted<Code>(pieces: seq<Piece>, tail: string, end: Option<TemplateError>, compile: Compiler<Code>)
    requires NormalForm(pieces) && Ends(tail, end)
    ensures Parse(Print(pieces) + tail, "", compile) == Compiled(pieces, end, compile)
  {
    ParseRest(pieces, tail, end, "", compile);
    BeforeNothing(Compiled(pieces, end, compile));
  }

  // ----- Every template is of that kind -----

  /** The character in front, as text. */
  function WithChar(c: char, pieces: seq<Piece>): seq<Piece>
  {
    if pieces != [] && pieces[0].TextPiece? then [TextPiece([c] + pieces[0].text)] + pieces[1..] else [TextPiece([c])] + pieces
  }

  lemma WithCharPrinted(c: char, pieces: seq<Piece>)
    requires NormalForm(pieces)
    ensures NormalForm(WithChar(c, pieces)) && Print(WithChar(c, pieces)) == Escaped([c]) + Print(pieces)
  {
    WithCharNormal(c, pieces);
    var longer := WithChar(c, pieces);
    PrintOne(longer);
    if pieces != [] && pieces[0].TextPiece? {
      PrintOne(pieces);
      EscapedMore(c, pieces[0].text);
      assert longer[0] == TextPiece([c] + pieces[0].text) && longer[1..] == pieces[1..];
      hide NormalForm, WithChar, Print, Escaped;
      Associate(Escaped([c]), Escaped(pieces[0].text), Print(pieces[1..]));
    } else {
      assert longer[0] == TextPiece([c]) && longer[1..] == pieces;
    }
  }

  lemma {:induction false} PrintOne(pieces: seq<Piece>)
    requires pieces != []
    ensures Print(pieces) == PrintPiece(pieces[0]) + Print(pieces[1..])
  {
  }

  lemma Associate(a: string, b: string, c: string)
    ensures (a + b) + c == a + (b + c)
  {
  }

  lemma EscapedMore(c: char, text: string)
    ensures Escaped([c] + text) == Escaped([c]) + Escaped(text)
  {
    assert ([c] + text)[1..] == text && [c][1..] == "";
  }

  lemma WithCharNormal(c: char, pieces: seq<Piece>)
    requires NormalForm(pieces)
    ensures NormalForm(WithChar(c, pieces))
  {
    var longer := WithChar(c, pieces);
    hide NormalPiece;
    TextIsNormal([c]);
    if pieces != [] && pieces[0].TextPiece? {
      TextIsNormal([c] + pieces[0].text);
      forall k | 0 <= k < |longer| - 1 ensures !(longer[k].TextPiece? && longer[k + 1].TextPiece?) {
        assert longer[k + 1] == pieces[k + 1] && longer[k].TextPiece? == pieces[k].TextPiece?;
      }
    }
  }

  lemma TextIsNormal(text: string)
    requires text != ""
    ensures NormalPiece(TextPiece(text))
  {
  }

  lemma WithExpression(source: string, pieces: seq<Piece>)
    requires NormalForm(pieces) && NormalPiece(ExprPiece(source))
    ensures NormalForm([ExprPiece(source)] + pieces)
    ensures Print([ExprPiece(source)] + pieces) == "{" + source + "}" + Print(pieces)
  {
    hide NormalPiece;
    assert ([ExprPiece(source)] + pieces)[1..] == pieces;
  }

  lemma NothingPrinted(t: string)
    ensures NormalForm([]) && t == Print([]) + t
  {
  }

  lemma EscapedFront(t: string)
    requires t != ""
    ensures t[0] != '{' && t[0] != '}' ==> t == Escaped([t[0]]) + t[1..]
    ensures (t[0] == '{' || t[0] == '}') && |t| > 1 && t[1] == t[0] ==> t == Escaped([t[0]]) + t[2..]
  {
    assert [t[0]][1..] == "";
  }

  /** One more character of text in front of a template. */
  lemma {:induction false} CharInFront(t: string, c: char, rest: string, pieces: seq<Piece>, tail: string)
    requires t == Escaped([c]) + rest && rest == Print(pieces) + tail && NormalForm(pieces)
    ensures NormalForm(WithChar(c, pieces)) && t == Print(WithChar(c, pieces)) + tail
  {
    hide NormalForm, Print, Escaped, WithChar;
    WithCharPrinted(c, pieces);
    assert t == Escaped([c]) + Print(pieces) + tail;
  }

  /** One more expression in front of a template. */
  lemma {:induction false} ExpressionInFront(t: string, source: string, rest: string, pieces: seq<Piece>, tail: string)
    requires t == "{" + source + "}" + rest && rest == Print(pieces) + tail && NormalForm(pieces) && NormalPiece(ExprPiece(source))
    ensures NormalForm([ExprPiece(source)] + pieces) && t == Print([ExprPiece(source)] + pieces) + tail
  {
    hide NormalForm, NormalPiece, Print;
    WithExpression(source, pieces);
    assert t == ("{" + source + "}" + Print(pieces)) + tail;
  }

  /** Every template is printed from a normal form, with nothing or something wrong behind it. */
  lemma {:induction false} EveryTemplatePrinted(t: string) returns (pieces: seq<Piece>, tail: string, end: Option<TemplateError>)
    ensures NormalForm(pieces) && Ends(tail, end) && t == Print(pieces) + tail
    decreases |t|, 1
  {
    hide NormalForm, Print, Escaped, WithChar, IsSpace, NormalPiece;
    NothingPrinted(t);
    if t == "" {
      return [], "", None;
    } else if t[0] == '}' && (|t| == 1 || t[1] != '}') {
      return [], t, Some(Unmatched);
    }
    hide Ends;
    if t[0] == '{' && (|t| == 1 || t[1] != '{') {
      pieces, tail, end := BracedPrinted(t);
    } else {
      EscapedFront(t);
      var rest := if t[0] == '{' || t[0] == '}' then t[2..] else t[1..];
      pieces, tail, end := EveryTemplatePrinted(rest);
      CharInFront(t, t[0], rest, pieces, tail);
      pieces := WithChar(t[0], pieces);
    }
  }

  /** An opening brace without a closing one, or with the first closing one. */
  lemma BracedSource(t: string) returns (close: Option<nat>)
    requires t != "" && t[0] == '{' && (|t| > 1 ==> t[1] != '{')
    ensures close.None? ==> Ends(t, Some(Unterminated))
    ensures close.Some? ==> 0 < close.value < |t| && t == "{" + t[1..close.value] + "}" + t[close.value + 1..]
    ensures close.Some? && Blank(t[1..close.value]) ==> Ends(t, Some(EmptyExpression))
    ensures close.Some? && !Blank(t[1..close.value]) ==> NormalPiece(ExprPiece(t[1..close.value]))
  {
    hide IsSpace, CloseAt;
    match CloseAt(t[1..])
    case None =>
      assert forall k :: 0 < k < |t| ==> t[k] == t[1..][k - 1];
      close := None;
    case Some(k) =>
      close := Some(k + 1);
      assert t[1..][..k] == t[1..k + 1] && t[k + 1] == t[1..][k] == '}';
  }

  /** A template that starts with an expression. */
  lemma {:induction false} BracedPrinted(t: string) returns (pieces: seq<Piece>, tail: string, end: Option<TemplateError>)
    requires t != "" && t[0] == '{' && (|t| > 1 ==> t[1] != '{')
    ensures NormalForm(pieces) && Ends(tail, end) && t == Print(pieces) + tail
    decreases |t|, 0
  {
    NothingPrinted(t);
    hide Print, NormalForm, NormalPiece, Ends, Blank;
    var close := BracedSource(t);
    if close.None? {
      pieces, tail, end := [], t, Some(Unterminated);
    } else if Blank(t[1..close.value]) {
      pieces, tail, end := [], t, Some(EmptyExpression);
    } else {
      var rest := t[close.value + 1..];
      pieces, tail, end := EveryTemplatePrinted(rest);
      ExpressionInFront(t, t[1..close.value], rest, pieces, tail);
      pieces := [ExprPiece(t[1..close.value])] + pieces;
    }
  }
}
