/** What cJSON_Minify does to any text at all: the text in parts, and the parts that stay. */
module JsonMinifyParts {
  import opened Bytes
  import opened JsonString
  import opened JsonMinify

  /** A slash that begins no comment is taken out, too. */
  datatype Part = Blank(c: byte) | LineComment(text: bytes) | Comment(text: bytes) | Slash | Literal(content: bytes) | Other(c: byte)

  /** How a text may break off. */
  datatype Tail = Nothing | OpenLineComment(text: bytes) | OpenComment(text: bytes) | OpenLiteral(content: bytes)

  /** Every quote has a backslash before it. */
  predicate QuotesEscaped(content: bytes) {
    forall k | 0 <= k < |content| && content[k] as char == '"' :: k > 0 && content[k - 1] as char == '\\'
  }

  predicate NoCommentEnd(text: bytes) {
    forall k | 0 <= k < |text| - 1 :: !(text[k] as char == '*' && text[k + 1] as char == '/')
  }

  predicate IsBlank(c: byte) {
    c == 32 || c == 9 || c == 13 || c == 10
  }

  predicate GoodPart(p: Part) {
    match p
    case Blank(c) => IsBlank(c)
    case LineComment(text) => 10 !in text
    case Comment(text) => NoCommentEnd(text)
    case Slash => true
    case Literal(content) => QuotesEscaped(content) && (content != [] ==> content[|content| - 1] as char != '\\')
    case Other(c) => !IsBlank(c) && c as char != '/' && c as char != '"'
  }

  predicate GoodTail(t: Tail) {
    match t
    case Nothing => true
    case OpenLineComment(text) => 10 !in text
    case OpenComment(text) => NoCommentEnd(text)
    case OpenLiteral(content) => QuotesEscaped(content)
  }

  function PartText(p: Part): bytes {
    match p
    case Blank(c) => [c]
    case LineComment(text) => ['/' as int, '/' as int] + (text + [10])
    case Comment(text) => ['/' as int, '*' as int] + (text + ['*' as int, '/' as int])
    case Slash => ['/' as int]
    case Literal(content) => ['"' as int] + (content + ['"' as int])
    case Other(c) => [c]
  }

  function TailText(t: Tail): bytes {
    match t
    case Nothing => []
    case OpenLineComment(text) => ['/' as int, '/' as int] + text
    case OpenComment(text) => ['/' as int, '*' as int] + text
    case OpenLiteral(content) => ['"' as int] + content
  }

  function Render(parts: seq<Part>, tail: Tail): bytes {
    if parts == [] then TailText(tail) else PartText(parts[0]) + Render(parts[1..], tail)
  }

  predicate BeginsComment(rest: bytes) {
    rest != [] && (rest[0] as char == '/' || rest[0] as char == '*')
  }

  predicate Good(parts: seq<Part>, tail: Tail) {
    if parts == [] then GoodTail(tail)
    else GoodPart(parts[0]) && (parts[0] == Slash ==> !BeginsComment(Render(parts[1..], tail))) && Good(parts[1..], tail)
  }

  /** Literals stay, with their quotes, and so does every other byte that is neither blank nor slash. */
  function Kept(parts: seq<Part>, tail: Tail): bytes {
    if parts == [] then
      if tail.OpenLiteral? then TailText(tail) else []
    else (if parts[0].Literal? || parts[0].Other? then PartText(parts[0]) else []) + Kept(parts[1..], tail)
  }

  // ---------------------------------------------------------------------------------------------
  // Parts are minified one by one
  // ---------------------------------------------------------------------------------------------

  lemma {:induction false} LineCommentGoes(text: bytes, rest: bytes)
    requires 10 !in text
    ensures SkipLine(text + ([10] + rest)) == rest && SkipLine(text) == []
    decreases |text|
  {
    var t := text + ([10] + rest);
    if text == [] {
      assert t == [10] + rest;
    } else {
      assert t[1..] == text[1..] + ([10] + rest);
      LineCommentGoes(text[1..], rest);
    }
  }

  lemma {:induction false} CommentGoes(text: bytes, rest: bytes)
    requires NoCommentEnd(text)
    ensures SkipComment(text + (['*' as int, '/' as int] + rest)) == rest && SkipComment(text) == []
    decreases |text|
  {
    var t := text + (['*' as int, '/' as int] + rest);
    if text == [] {
      assert t == ['*' as int, '/' as int] + rest && t[2..] == rest;
    } else {
      assert t[1..] == text[1..] + (['*' as int, '/' as int] + rest);
      assert NoCommentEnd(text[1..]) by {
        forall k | 0 <= k < |text[1..]| - 1 ensures !(text[1..][k] as char == '*' && text[1..][k + 1] as char == '/') {
          assert text[1..][k] == text[k + 1];
        }
      }
      assert |t| > 1 && t[0] == text[0] && t[1] == if |text| > 1 then text[1] else '*' as int;
      CommentGoes(text[1..], rest);
    }
  }

  lemma QuotesInRest(content: bytes, n: nat)
    requires QuotesEscaped(content) && n <= |content| && (n < |content| ==> content[n] != QUOTE)
    ensures QuotesEscaped(content[n..])
  {
    forall k | 0 <= k < |content[n..]| && content[n..][k] as char == '"' ensures k > 0 && content[n..][k - 1] as char == '\\' {
      assert content[n..][k] == content[n + k];
    }
  }

  /** The bytes of a literal stay, up to a quote with no backslash before it. */
  lemma {:induction false} LiteralStays(content: bytes, rest: bytes)
    requires QuotesEscaped(content) && (content != [] ==> content[|content| - 1] != BACKSLASH)
    ensures InString(content + ([QUOTE] + rest)) == content + ([QUOTE] + Min(rest))
    decreases |content|
  {
    hide Min, InString;
    var t := content + ([QUOTE] + rest);
    InStringStep(t);
    if content == [] {
      assert t == [QUOTE] + rest && t[1..] == rest;
    } else if content[0] == BACKSLASH && content[1] == QUOTE {
      AfterPair(content);
      assert t[2..] == content[2..] + ([QUOTE] + rest);
      LiteralStays(content[2..], rest);
      assert content == [BACKSLASH] + ([QUOTE] + content[2..]);
    } else {
      QuotesInRest(content, 1);
      assert t[1..] == content[1..] + ([QUOTE] + rest);
      LiteralStays(content[1..], rest);
      assert content == [content[0]] + content[1..];
    }
  }

  lemma AfterPair(content: bytes)
    requires QuotesEscaped(content) && |content| > 1 && content[0] == BACKSLASH && content[1] == QUOTE
    ensures QuotesEscaped(content[2..])
  {
    QuotesInRest(content, 2);
  }

  lemma {:induction false} OpenLiteralStays(content: bytes)
    requires QuotesEscaped(content)
    ensures InString(content) == content
    decreases |content|
  {
    hide Min, InString;
    InStringStep(content);
    if content == [] {
    } else if content[0] == BACKSLASH && |content| > 1 && content[1] == QUOTE {
      AfterPair(content);
      OpenLiteralStays(content[2..]);
      assert content == [BACKSLASH] + ([QUOTE] + content[2..]);
    } else {
      QuotesInRest(content, 1);
      OpenLiteralStays(content[1..]);
      assert content == [content[0]] + content[1..];
    }
  }

  lemma TailMinified(tail: Tail)
    requires GoodTail(tail)
    ensures Min(TailText(tail)) == Kept([], tail)
  {
    hide Min, InString, SkipLine, SkipComment;
    var t := TailText(tail);
    MinStep(t);
    match tail
    case Nothing =>
    case OpenLineComment(text) =>
      assert t[2..] == text;
      LineCommentGoes(text, []);
      MinStep([]);
    case OpenComment(text) =>
      assert t[2..] == text;
      CommentGoes(text, []);
      MinStep([]);
    case OpenLiteral(content) =>
      assert t[1..] == content;
      OpenLiteralStays(content);
  }

  lemma LiteralMinified(content: bytes, rest: bytes)
    requires GoodPart(Literal(content))
    ensures Min(PartText(Literal(content)) + rest) == PartText(Literal(content)) + Min(rest)
  {
    hide Min, InString;
    var t := PartText(Literal(content)) + rest;
    MinStep(t);
    assert t[1..] == content + ([QUOTE] + rest);
    LiteralStays(content, rest);
    assert [QUOTE] + (content + ([QUOTE] + Min(rest))) == PartText(Literal(content)) + Min(rest);
  }

  lemma LineCommentMinified(text: bytes, rest: bytes)
    requires 10 !in text
    ensures Min(PartText(LineComment(text)) + rest) == Min(rest)
  {
    hide Min, SkipLine;
    var t := PartText(LineComment(text)) + rest;
    MinStep(t);
    assert t[2..] == text + ([10] + rest);
    LineCommentGoes(text, rest);
  }

  lemma CommentMinified(text: bytes, rest: bytes)
    requires NoCommentEnd(text)
    ensures Min(PartText(Comment(text)) + rest) == Min(rest)
  {
    hide Min, SkipComment, NoCommentEnd;
    var t := PartText(Comment(text)) + rest;
    MinStep(t);
    assert t[2..] == text + (['*' as int, '/' as int] + rest);
    CommentGoes(text, rest);
  }

  lemma PartMinified(p: Part, rest: bytes)
    requires GoodPart(p) && (p == Slash ==> !BeginsComment(rest))
    ensures Min(PartText(p) + rest) == (if p.Literal? || p.Other? then PartText(p) else []) + Min(rest)
  {
    hide Min;
    assert [] + Min(rest) == Min(rest);
    if p.Literal? {
      LiteralMinified(p.content, rest);
    } else if p.LineComment? {
      LineCommentMinified(p.text, rest);
    } else if p.Comment? {
      CommentMinified(p.text, rest);
    } else {
      var t := PartText(p) + rest;
      MinStep(t);
      assert t[1..] == rest;
    }
  }

  /** A text in parts is minified part by part. */
  lemma {:induction false} PartsMinified(parts: seq<Part>, tail: Tail)
    requires Good(parts, tail)
    ensures Min(Render(parts, tail)) == Kept(parts, tail)
    decreases parts
  {
    hide Min, PartText, GoodPart, TailText;
    if parts == [] {
      TailMinified(tail);
    } else {
      PartMinified(parts[0], Render(parts[1..], tail));
      PartsMinified(parts[1..], tail);
    }
  }

  // ---------------------------------------------------------------------------------------------
  // Every text has parts
  // ---------------------------------------------------------------------------------------------

  lemma {:induction false} LineCommentEnds(t: bytes) returns (text: bytes, rest: Option<bytes>)
    ensures 10 !in text && t == match rest case None => text case Some(r) => text + ([10] + r)
    decreases |t|
  {
    if t == [] {
      text, rest := [], None;
    } else if t[0] == 10 {
      text, rest := [], Some(t[1..]);
      assert t == [] + ([10] + t[1..]);
    } else {
      var text', rest' := LineCommentEnds(t[1..]);
      text, rest := [t[0]] + text', rest';
      assert t == [t[0]] + t[1..];
    }
  }

  lemma {:induction false} CommentEnds(t: bytes) returns (text: bytes, rest: Option<bytes>)
    ensures NoCommentEnd(text) && t == match rest case None => text case Some(r) => text + (['*' as int, '/' as int] + r)
    decreases |t|
  {
    if t == [] {
      text, rest := [], None;
    } else if t[0] == STAR && |t| > 1 && t[1] == SLASH {
      text, rest := [], Some(t[2..]);
      assert t == [] + ([STAR, SLASH] + t[2..]);
    } else {
      var text', rest' := CommentEnds(t[1..]);
      text, rest := [t[0]] + text', rest';
      assert t == [t[0]] + t[1..];
      assert |text'| > 0 ==> text'[0] == t[1];
    }
  }

  /** A quote has a backslash before it; escaped: there is one before the text. */
  predicate QuoteAt(content: bytes, k: nat, escaped: bool)
    requires k < |content|
  {
    content[k] == QUOTE ==> if k == 0 then escaped else content[k - 1] == BACKSLASH
  }

  predicate AllEscaped(content: bytes, escaped: bool) {
    forall k | 0 <= k < |content| :: QuoteAt(content, k, escaped)
  }

  lemma EscapedMore(c: byte, content: bytes, escaped: bool)
    requires AllEscaped(content, c == BACKSLASH) && (c == QUOTE ==> escaped)
    ensures AllEscaped([c] + content, escaped)
  {
    var all := [c] + content;
    forall k | 0 <= k < |all| ensures QuoteAt(all, k, escaped) {
      if k > 0 {
        assert QuoteAt(content, k - 1, c == BACKSLASH);
      }
    }
  }

  /** Up to the quote that ends the literal: the first one without a backslash before it. */
  lemma {:induction false} LiteralEnds(t: bytes, escaped: bool) returns (content: bytes, rest: Option<bytes>)
    ensures AllEscaped(content, escaped)
    ensures rest.Some? ==> if content == [] then !escaped else content[|content| - 1] != BACKSLASH
    ensures t == match rest case None => content case Some(r) => content + ([QUOTE] + r)
    decreases |t|
  {
    if t == [] {
      content, rest := [], None;
    } else if t[0] == QUOTE && !escaped {
      content, rest := [], Some(t[1..]);
      assert t == [] + ([QUOTE] + t[1..]);
    } else {
      hide AllEscaped;
      var content', rest' := LiteralEnds(t[1..], t[0] == BACKSLASH);
      content, rest := [t[0]] + content', rest';
      EscapedMore(t[0], content', escaped);
      assert t == [t[0]] + t[1..];
    }
  }

  lemma EscapedIs(content: bytes)
    requires AllEscaped(content, false)
    ensures QuotesEscaped(content)
  {
    forall k | 0 <= k < |content| && content[k] as char == '"' ensures k > 0 && content[k - 1] as char == '\\' {
      assert QuoteAt(content, k, false);
    }
  }

  lemma LiteralFirst(t: bytes) returns (content: bytes, rest: Option<bytes>)
    requires t != [] && t[0] == QUOTE
    ensures match rest
            case None => GoodTail(OpenLiteral(content)) && t == TailText(OpenLiteral(content))
            case Some(r) => GoodPart(Literal(content)) && t == PartText(Literal(content)) + r
  {
    hide AllEscaped, QuotesEscaped;
    content, rest := LiteralEnds(t[1..], false);
    EscapedIs(content);
    assert t == [QUOTE] + t[1..];
    if rest.Some? {
      assert [QUOTE] + (content + ([QUOTE] + rest.value)) == PartText(Literal(content)) + rest.value;
    }
  }

  lemma LineCommentFirst(t: bytes) returns (text: bytes, rest: Option<bytes>)
    requires |t| > 1 && t[0] == SLASH && t[1] == SLASH
    ensures match rest
            case None => GoodTail(OpenLineComment(text)) && t == TailText(OpenLineComment(text))
            case Some(r) => GoodPart(LineComment(text)) && t == PartText(LineComment(text)) + r
  {
    text, rest := LineCommentEnds(t[2..]);
    assert t == [SLASH, SLASH] + t[2..];
    if rest.Some? {
      assert [SLASH, SLASH] + (text + ([10] + rest.value)) == PartText(LineComment(text)) + rest.value;
    }
  }

  lemma CommentFirst(t: bytes) returns (text: bytes, rest: Option<bytes>)
    requires |t| > 1 && t[0] == SLASH && t[1] == STAR
    ensures match rest
            case None => GoodTail(OpenComment(text)) && t == TailText(OpenComment(text))
            case Some(r) => GoodPart(Comment(text)) && t == PartText(Comment(text)) + r
  {
    hide NoCommentEnd;
    text, rest := CommentEnds(t[2..]);
    assert t == [SLASH, STAR] + t[2..];
    if rest.Some? {
      assert [SLASH, STAR] + (text + (['*' as int, '/' as int] + rest.value)) == PartText(Comment(text)) + rest.value;
    }
  }

  /** The first part of a text, or its tail. */
  lemma FirstPart(t: bytes) returns (p: Part, rest: Option<bytes>, tail: Tail)
    requires t != []
    ensures match rest
            case None => GoodTail(tail) && t == TailText(tail)
            case Some(r) => GoodPart(p) && t == PartText(p) + r && (p == Slash ==> !BeginsComment(r))
  {
    hide GoodTail, TailText, QuotesEscaped, NoCommentEnd;
    p, rest, tail := Slash, Some(t[1..]), Nothing;
    if t[0] == QUOTE {
      var content, r := LiteralFirst(t);
      p, rest, tail := Literal(content), r, OpenLiteral(content);
    } else if |t| > 1 && t[0] == SLASH && t[1] == SLASH {
      var text, r := LineCommentFirst(t);
      p, rest, tail := LineComment(text), r, OpenLineComment(text);
    } else if |t| > 1 && t[0] == SLASH && t[1] == STAR {
      var text, r := CommentFirst(t);
      p, rest, tail := Comment(text), r, OpenComment(text);
    } else if IsBlank(t[0]) {
      p := Blank(t[0]);
    } else if t[0] != SLASH {
      p := Other(t[0]);
    }
  }

  lemma {:induction false} EveryTextHasParts(t: bytes) returns (parts: seq<Part>, tail: Tail)
    ensures Good(parts, tail) && t == Render(parts, tail)
    decreases |t|
  {
    hide GoodPart, GoodTail, BeginsComment;
    if t == [] {
      parts, tail := [], Nothing;
      assert GoodTail(Nothing) by { NothingIsGood(); }
    } else {
      var p, rest, end := FirstPart(t);
      match rest
      case None =>
        parts, tail := [], end;
      case Some(r) =>
        PartNotEmpty(p);
        var more;
        more, tail := EveryTextHasParts(r);
        parts := [p] + more;
        assert parts[1..] == more;
    }
  }

  lemma NothingIsGood()
    ensures GoodTail(Nothing)
  {}

  lemma PartNotEmpty(p: Part)
    ensures |PartText(p)| > 0
  {}

  /** Any text at all, whole or broken off: what is left of it is what its parts leave. */
  lemma MinifiedIsKept(t: bytes, r: bytes)
    ensures Min(t) == r <==> exists parts, tail :: Good(parts, tail) && t == Render(parts, tail) && r == Kept(parts, tail)
  {
    hide Min, Good, Render, Kept;
    if Min(t) == r {
      var parts, tail := EveryTextHasParts(t);
      PartsMinified(parts, tail);
    }
    if parts, tail :| Good(parts, tail) && t == Render(parts, tail) && r == Kept(parts, tail) {
      PartsMinified(parts, tail);
    }
  }

  // ---------------------------------------------------------------------------------------------
  // Twice is once
  // ---------------------------------------------------------------------------------------------

  function KeptParts(parts: seq<Part>): seq<Part> {
    if parts == [] then [] else (if parts[0].Literal? || parts[0].Other? then [parts[0]] else []) + KeptParts(parts[1..])
  }

  function KeptTail(tail: Tail): Tail {
    if tail.OpenLiteral? then tail else Nothing
  }

  lemma {:induction false} KeptIsGood(parts: seq<Part>, tail: Tail)
    requires Good(parts, tail)
    ensures var ps, t := KeptParts(parts), KeptTail(tail);
            Good(ps, t) && Render(ps, t) == Kept(parts, tail) && Kept(ps, t) == Kept(parts, tail)
    decreases parts
  {
    hide GoodPart, PartText;
    if parts != [] {
      KeptIsGood(parts[1..], tail);
      if parts[0].Literal? || parts[0].Other? {
        assert KeptParts(parts)[1..] == KeptParts(parts[1..]);
      } else {
        assert [] + KeptParts(parts[1..]) == KeptParts(parts[1..]);
        assert [] + Kept(parts[1..], tail) == Kept(parts[1..], tail);
      }
    }
  }

  /** A minified text is not changed by minifying it again. */
  lemma MinifiedTwice(t: bytes)
    ensures Min(Min(t)) == Min(t)
  {
    hide Min, Good, Render, Kept, KeptParts;
    var parts, tail := EveryTextHasParts(t);
    PartsMinified(parts, tail);
    KeptIsGood(parts, tail);
    PartsMinified(KeptParts(parts), KeptTail(tail));
  }
}
