/** The texts that the HTTP/1.x parsers accept, written out from their parts. */
module HttpRendering {
  import opened Bytes
  import opened HttpGrammar

  // ---------------------------------------------------------------------------------------------
  // Header blocks
  // ---------------------------------------------------------------------------------------------

  function Eol(crlf: bool): bytes {
    if crlf then [13, 10] else [10]
  }

  /** tchar of section 3.2.6 of RFC 7230. */
  predicate Tchar(c: byte) {
    c as char in "!#$%&'*+-.^_`|~" || '0' <= c as char <= '9' || 'a' <= c as char <= 'z' || 'A' <= c as char <= 'Z'
  }

  predicate IsBlank(c: byte) {
    c == 32 || c == 9
  }

  /** What stands in a line: no control character but the tab, and no DEL. */
  predicate IsTextByte(c: byte) {
    c == 9 || 32 <= c < 127 || 128 <= c
  }

  lemma TokenCharIsTchar(c: byte)
    ensures IsTokenChar(c) <==> Tchar(c)
  {}

  lemma TokenText(t: bytes)
    ensures IsToken(t) <==> |t| > 0 && forall k | 0 <= k < |t| :: IsTokenChar(t[k])
  {
    hide Tchar, IsTokenChar;
    forall k | 0 <= k < |t| ensures IsTokenChar(t[k]) <==> Tchar(t[k]) {
      TokenCharIsTchar(t[k]);
    }
  }

  lemma TextByteIs(c: byte)
    ensures IsTextByte(c) <==> !IsCtl(c)
    ensures IsBlank(c) <==> !NotBlank(c)
  {}

  /** A header line. A name has its colon and the blanks after it; a line that goes on with the one before has
      none, and its value begins with a blank. Blanks behind the value are not part of it. */
  datatype Line = Line(name: Option<bytes>, gap: bytes, value: bytes, trail: bytes, crlf: bool)

  predicate AllBlank(t: bytes) {
    forall k | 0 <= k < |t| :: IsBlank(t[k])
  }

  predicate IsToken(t: bytes) {
    |t| > 0 && forall k | 0 <= k < |t| :: Tchar(t[k])
  }

  predicate IsText(t: bytes) {
    forall k | 0 <= k < |t| :: IsTextByte(t[k])
  }

  predicate GoodLine(l: Line, first: bool) {
    && AllBlank(l.gap) && AllBlank(l.trail) && IsText(l.value) && (l.value != [] ==> !IsBlank(l.value[|l.value| - 1]))
    && match l.name
       case Some(name) => IsToken(name) && (if l.value == [] then l.trail == [] else !IsBlank(l.value[0]))
       case None => !first && l.gap == [] && l.value + l.trail != [] && IsBlank((l.value + l.trail)[0])
  }

  predicate GoodLines(ls: seq<Line>, first: bool) {
    forall k | 0 <= k < |ls| :: GoodLine(ls[k], first && k == 0)
  }

  function Front(name: Option<bytes>, gap: bytes): bytes {
    match name
    case Some(t) => t + ([':' as int] + gap)
    case None => gap
  }

  function NameSlice(name: Option<bytes>, i: nat): Option<Slice> {
    match name
    case Some(t) => Some(Slice(i, |t|))
    case None => None
  }

  function RenderLine(l: Line): bytes {
    Front(l.name, l.gap) + ((l.value + l.trail) + Eol(l.crlf))
  }

  /** Header lines and the empty line after them. */
  function RenderBlock(ls: seq<Line>, crlf: bool): bytes {
    if |ls| == 0 then Eol(crlf) else RenderLine(ls[0]) + RenderBlock(ls[1..], crlf)
  }

  /** The slices of a line that stands at i. */
  function LineSlices(l: Line, i: nat): Header {
    Header(NameSlice(l.name, i), Slice(i + |Front(l.name, l.gap)|, |l.value|))
  }

  function BlockSlices(ls: seq<Line>, i: nat): seq<Header> {
    if |ls| == 0 then [] else [LineSlices(ls[0], i)] + BlockSlices(ls[1..], i + |RenderLine(ls[0])|)
  }

  // ---------------------------------------------------------------------------------------------
  // A rendered block is parsed to its slices
  // ---------------------------------------------------------------------------------------------

  lemma EolReads(s: bytes, i: nat, crlf: bool)
    requires At(s, i, Eol(crlf))
    ensures i < |s| && AtLineEnd(s, i) && IsCtl(s[i]) && NewLine(s, i) == Ok(i + |Eol(crlf)|, ())
  {
    AtBytes(s, i, Eol(crlf));
  }

  lemma TextReads(s: bytes, i: nat, t: bytes, crlf: bool)
    requires At(s, i, t + Eol(crlf)) && IsText(t)
    ensures TokenToEol(s, i) == Ok(i + |t| + |Eol(crlf)|, |t|)
  {
    AtParts(s, i, t, Eol(crlf));
    AtBytes(s, i, t);
    EolReads(s, i + |t|, crlf);
    forall k | i <= k < i + |t| ensures !IsCtl(s[k]) {
      assert s[i + (k - i)] == t[k - i];
    }
    ScanUnique(s, i, IsCtl, i + |t|);
  }

  lemma BlanksAreText(t: bytes)
    requires AllBlank(t)
    ensures IsText(t)
  {}

  lemma {:induction false} TrimOf(s: bytes, a: nat, e: nat, b: nat)
    requires a <= e <= b <= |s| && (e > a ==> NotBlank(s[e - 1])) && forall k | e <= k < b :: !NotBlank(s[k])
    ensures TrimEnd(s, a, b) == e
    decreases b - e
  {
    if e < b {
      TrimOf(s, a, e, b - 1);
    }
  }

  lemma FrontReads(s: bytes, i: nat, l: Line, first: bool)
    requires GoodLine(l, first) && At(s, i, RenderLine(l))
    ensures i < |s| && HeaderName(s, i, first) == Ok(i + |Front(l.name, l.gap)|, NameSlice(l.name, i)) && !AtLineEnd(s, i)
  {
    hide At, IsTokenChar, HeaderName;
    var body, eol := l.value + l.trail, Eol(l.crlf);
    AtParts(s, i, Front(l.name, l.gap), body + eol);
    AtFits(s, i + |Front(l.name, l.gap)|, body + eol);
    AtByte(s, i + |Front(l.name, l.gap)|, body + eol, 0);
    BodyAhead(l, first);
    match l.name {
      case None => ContinuedFrontReads(s, i);
      case Some(name) => NamedFrontReads(s, i, name, l.gap, first);
    }
  }

  lemma BodyAhead(l: Line, first: bool)
    requires GoodLine(l, first)
    ensures NotBlank((l.value + l.trail + Eol(l.crlf))[0]) <==> l.name.Some?
  {}

  lemma ContinuedFrontReads(s: bytes, i: nat)
    requires i < |s| && !NotBlank(s[i])
    ensures HeaderName(s, i, false) == Ok(i, None) && !AtLineEnd(s, i)
  {}

  lemma NamedFrontReads(s: bytes, i: nat, name: bytes, gap: bytes, first: bool)
    requires IsToken(name) && AllBlank(gap) && At(s, i, name + ([':' as int] + gap))
    requires var v := i + |name| + 1 + |gap|; v < |s| && NotBlank(s[v])
    ensures i < |s| && HeaderName(s, i, first) == Ok(i + |name| + 1 + |gap|, Some(Slice(i, |name|))) && !AtLineEnd(s, i)
  {
    hide At, IsTokenChar, Token;
    var v := i + |name| + 1;
    AtParts(s, i, name, [':' as int] + gap);
    AtParts(s, i + |name|, [':' as int], gap);
    NameReads(s, i, name);
    AtBytes(s, v, gap);
    forall k | v <= k < v + |gap| ensures !NotBlank(s[k]) {
      assert s[v + (k - v)] == gap[k - v];
    }
    ScanUnique(s, v, NotBlank, v + |gap|);
  }

  lemma NameReads(s: bytes, i: nat, name: bytes)
    requires IsToken(name) && At(s, i, name) && At(s, i + |name|, [':' as int])
    ensures i < |s| && Token(s, i, ':' as int) == Ok(i + |name|, |name|) && !AtLineEnd(s, i) && NotBlank(s[i])
  {
    TokenReads(s, i, name, ':' as int);
  }

  lemma TokenReads(s: bytes, i: nat, t: bytes, next: byte)
    requires IsToken(t) && At(s, i, t) && At(s, i + |t|, [next]) && !IsTokenChar(next)
    ensures i < |s| && Token(s, i, next) == Ok(i + |t|, |t|) && IsTokenChar(s[i])
  {
    hide IsTokenChar, IsToken;
    TokenText(t);
    AtBytes(s, i, t);
    assert s[i + 0] == t[0];
    AtByte(s, i + |t|, [next], 0);
    AtFits(s, i + |t|, [next]);
    forall k | i <= k < i + |t| ensures !EndsToken(next)(s[k]) {
      assert s[i + (k - i)] == t[k - i];
    }
    ScanUnique(s, i, EndsToken(next), i + |t|);
  }

  lemma LineReads(s: bytes, i: nat, l: Line, first: bool)
    requires GoodLine(l, first) && At(s, i, RenderLine(l))
    ensures i < |s| && !AtLineEnd(s, i) && HeaderLine(s, i, first) == Ok(i + |RenderLine(l)|, LineSlices(l, i))
  {
    hide HeaderName, TokenToEol, AtLineEnd, TrimEnd, At, GoodLine, IsText, Front, Eol, HeaderLine;
    var body, v := l.value + l.trail, i + |Front(l.name, l.gap)|;
    FrontReads(s, i, l, first);
    AtParts(s, i, Front(l.name, l.gap), body + Eol(l.crlf));
    BodyIsText(l, first);
    TextReads(s, v, body, l.crlf);
    AtParts(s, v, body, Eol(l.crlf));
    AtFits(s, v, body);
    ValueEnds(s, v, l, first);
    LineFrom(s, i, first, v, NameSlice(l.name, i), v + |body| + |Eol(l.crlf)|, |body|);
  }

  lemma LineFrom(s: bytes, i: nat, first: bool, v: nat, name: Option<Slice>, n: nat, len: nat)
    requires i < |s| && v + len <= |s| && HeaderName(s, i, first) == Ok(v, name) && TokenToEol(s, v) == Ok(n, len)
    ensures HeaderLine(s, i, first) == Ok(n, Header(name, Slice(v, TrimEnd(s, v, v + len) - v)))
  {
    hide HeaderName, TokenToEol, TrimEnd;
  }

  lemma BodyIsText(l: Line, first: bool)
    requires GoodLine(l, first)
    ensures IsText(l.value + l.trail)
  {
    BlanksAreText(l.trail);
  }

  lemma ValueEnds(s: bytes, v: nat, l: Line, first: bool)
    requires At(s, v, l.value + l.trail) && GoodLine(l, first)
    ensures v + |l.value + l.trail| <= |s| && TrimEnd(s, v, v + |l.value + l.trail|) == v + |l.value|
  {
    var e := v + |l.value|;
    AtParts(s, v, l.value, l.trail);
    AtBytes(s, v, l.value);
    AtBytes(s, e, l.trail);
    forall k | e <= k < e + |l.trail| ensures !NotBlank(s[k]) {
      assert s[e + (k - e)] == l.trail[k - e];
    }
    TrimOf(s, v, e, e + |l.trail|);
  }

  /** Lines are taken as long as there is room for headers; with more lines than room, the block is refused. */
  lemma {:induction false} BlockReads(s: bytes, i: nat, ls: seq<Line>, crlf: bool, hs: seq<Header>, max: nat)
    requires At(s, i, RenderBlock(ls, crlf)) && GoodLines(ls, |hs| == 0) && |hs| <= max
    ensures i <= |s|
    ensures Headers(s, i, hs, max) == if |hs| + |ls| <= max then Ok(i + |RenderBlock(ls, crlf)|, hs + BlockSlices(ls, i)) else Bad
    decreases |ls|
  {
    hide HeaderLine, RenderLine, LineSlices, NewLine, GoodLine, AtLineEnd, At;
    AtFits(s, i, RenderBlock(ls, crlf));
    if |ls| == 0 {
      EolReads(s, i, crlf);
      assert hs + [] == hs;
    } else {
      assert GoodLine(ls[0], |hs| == 0);
      AtParts(s, i, RenderLine(ls[0]), RenderBlock(ls[1..], crlf));
      LineReads(s, i, ls[0], |hs| == 0);
      if |hs| < max {
        var h := LineSlices(ls[0], i);
        forall k | 0 <= k < |ls| - 1 ensures GoodLine(ls[1..][k], false) {
          assert GoodLine(ls[k + 1], false);
        }
        BlockReads(s, i + |RenderLine(ls[0])|, ls[1..], crlf, hs + [h], max);
        assert hs + ([h] + BlockSlices(ls[1..], i + |RenderLine(ls[0])|)) == hs + [h] + BlockSlices(ls[1..], i + |RenderLine(ls[0])|);
      }
    }
  }

  // ---------------------------------------------------------------------------------------------
  // An accepted block is a rendering
  // ---------------------------------------------------------------------------------------------

  lemma EolWasRead(s: bytes, i: nat) returns (crlf: bool)
    requires i < |s| && NewLine(s, i).Ok?
    ensures At(s, i, Eol(crlf)) && NewLine(s, i).pos == i + |Eol(crlf)|
  {
    crlf := s[i] == CR;
  }

  lemma TextWasRead(s: bytes, i: nat) returns (t: bytes, crlf: bool)
    requires i <= |s| && TokenToEol(s, i).Ok?
    ensures IsText(t) && TokenToEol(s, i) == Ok(i + |t| + |Eol(crlf)|, |t|)
    ensures At(s, i, t + Eol(crlf)) && t == s[i..i + |t|]
  {
    hide At;
    var e := Scan(s, i, IsCtl);
    t := s[i..e];
    crlf := EolWasRead(s, e);
    AtSlice(s, i, e);
    AtParts(s, i, t, Eol(crlf));
  }

  /** The front of a line as text: nothing, or a token, a colon and blanks. */
  lemma FrontWasRead(s: bytes, i: nat, first: bool) returns (name: Option<bytes>, gap: bytes)
    requires i < |s| && HeaderName(s, i, first).Ok?
    ensures var v := HeaderName(s, i, first).pos;
            && v == i + |Front(name, gap)| < |s| && At(s, i, Front(name, gap)) && NameSlice(name, i) == HeaderName(s, i, first).value
            && AllBlank(gap) && (match name case Some(t) => IsToken(t) && NotBlank(s[v]) case None => !first && gap == [] && !NotBlank(s[v]))
  {
    hide At, IsTokenChar, IsToken;
    if !first && !NotBlank(s[i]) {
      name, gap := None, [];
      AtSlice(s, i, i);
    } else {
      var colon := Token(s, i, ':' as int).pos;
      var v := HeaderName(s, i, first).pos;
      name, gap := Some(s[i..colon]), s[colon + 1..v];
      TokenText(s[i..colon]);
      AtSlice(s, i, v);
      assert s[i..v] == s[i..colon] + ([':' as int] + s[colon + 1..v]);
    }
  }

  lemma LineWasRead(s: bytes, i: nat, first: bool) returns (l: Line)
    requires i < |s| && HeaderLine(s, i, first).Ok?
    ensures GoodLine(l, first) && At(s, i, RenderLine(l))
    ensures HeaderLine(s, i, first) == Ok(i + |RenderLine(l)|, LineSlices(l, i))
  {
    hide HeaderName, TokenToEol, At, Eol, IsText, IsTokenChar, RenderLine, HeaderLine, Front, NameSlice, GoodLine, TrimEnd, IsToken;
    LineStages(s, i, first);
    var v := HeaderName(s, i, first).pos;
    var name, gap := FrontWasRead(s, i, first);
    var body, crlf := TextWasRead(s, v);
    var e := TrimEnd(s, v, v + |body|);
    l := Line(name, gap, s[v..e], s[e..v + |body|], crlf);
    assert l.value + l.trail == body;
    LineFrom(s, i, first, v, HeaderName(s, i, first).value, v + |body| + |Eol(crlf)|, |body|);
    RenderedLine(s, i, l);
    BodyIsGood(s, v, e, |body|, first, l);
  }

  lemma LineStages(s: bytes, i: nat, first: bool)
    requires i < |s| && HeaderLine(s, i, first).Ok?
    ensures HeaderName(s, i, first).Ok? && HeaderName(s, i, first).pos < |s| && TokenToEol(s, HeaderName(s, i, first).pos).Ok?
  {
    hide HeaderName, TokenToEol;
  }

  lemma RenderedLine(s: bytes, i: nat, l: Line)
    requires At(s, i, Front(l.name, l.gap)) && At(s, i + |Front(l.name, l.gap)|, l.value + l.trail + Eol(l.crlf))
    ensures At(s, i, RenderLine(l)) && |RenderLine(l)| == |Front(l.name, l.gap)| + |l.value + l.trail| + |Eol(l.crlf)|
  {
    hide At, Front, Eol;
    AtParts(s, i, Front(l.name, l.gap), l.value + l.trail + Eol(l.crlf));
  }

  lemma BodyIsGood(s: bytes, v: nat, e: nat, len: nat, first: bool, l: Line)
    requires v < |s| && v + len <= |s| && TokenToEol(s, v).Ok? && TokenToEol(s, v).value == len
    requires e == TrimEnd(s, v, v + len) && l.value == s[v..e] && l.trail == s[e..v + len] && AllBlank(l.gap)
    requires match l.name case Some(t) => IsToken(t) && NotBlank(s[v]) case None => !first && l.gap == [] && !NotBlank(s[v])
    ensures GoodLine(l, first)
  {
    hide TrimEnd, IsTokenChar;
    assert l.value + l.trail == s[v..v + len];
    if l.name.None? {
      assert !IsCtl(s[v]);
      assert len > 0;
    }
  }

  lemma {:induction false} BlockWasRead(s: bytes, i: nat, hs: seq<Header>, max: nat) returns (ls: seq<Line>, crlf: bool)
    requires i <= |s| && Headers(s, i, hs, max).Ok?
    ensures GoodLines(ls, |hs| == 0) && At(s, i, RenderBlock(ls, crlf))
    ensures Headers(s, i, hs, max) == Ok(i + |RenderBlock(ls, crlf)|, hs + BlockSlices(ls, i))
    decreases |s| - i
  {
    hide HeaderLine, RenderLine, LineSlices, NewLine, GoodLine, At;
    if AtLineEnd(s, i) {
      ls := [];
      crlf := EolWasRead(s, i);
      assert hs + [] == hs;
    } else {
      var l := LineWasRead(s, i, |hs| == 0);
      var h, n := LineSlices(l, i), i + |RenderLine(l)|;
      var rest: seq<Line>;
      rest, crlf := BlockWasRead(s, n, hs + [h], max);
      ls := [l] + rest;
      assert ls[1..] == rest;
      AtParts(s, i, RenderLine(l), RenderBlock(rest, crlf));
      assert hs + [h] + BlockSlices(rest, n) == hs + ([h] + BlockSlices(rest, n));
    }
  }
}
