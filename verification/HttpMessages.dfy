/** Requests and responses from their parts: the parsers accept these texts, and no others. */
module HttpMessages {
  import opened Bytes
  import opened HttpGrammar
  import opened HttpRendering

  function Spaces(n: nat): bytes {
    seq(n, _ => 32)
  }

  type digit = n: nat | n < 10

  /** HTTP/1.x. */
  function Version(minor: digit): bytes {
    Ascii("HTTP/1.") + ['0' as int + minor]
  }

  // ---------------------------------------------------------------------------------------------
  // Requests
  // ---------------------------------------------------------------------------------------------

  /** An empty line may come before the method; one or more spaces stand before the path and the version. */
  datatype RequestText = RequestText(leading: Option<bool>, httpMethod: bytes, gap: nat, path: bytes, gap2: nat, minor: digit, crlf: bool)

  predicate GoodRequestText(r: RequestText) {
    IsToken(r.httpMethod) && r.gap > 0 && r.gap2 > 0 && r.path != [] && IsPath(r.path)
  }

  /** No control character, no space and no DEL. */
  predicate IsPath(t: bytes) {
    forall k | 0 <= k < |t| :: 32 < t[k] != 127
  }

  function Leading(leading: Option<bool>): bytes {
    match leading
    case None => []
    case Some(crlf) => Eol(crlf)
  }

  function RenderRequestLine(r: RequestText): bytes {
    r.httpMethod + (Spaces(r.gap) + (r.path + (Spaces(r.gap2) + (Version(r.minor) + Eol(r.crlf)))))
  }

  function RenderRequest(r: RequestText, ls: seq<Line>, endCrlf: bool): bytes {
    Leading(r.leading) + (RenderRequestLine(r) + RenderBlock(ls, endCrlf))
  }

  function LineParts(r: RequestText, i: nat): (Slice, Slice, int) {
    (Slice(i, |r.httpMethod|), Slice(i + |r.httpMethod| + r.gap, |r.path|), r.minor)
  }

  function RequestSlices(r: RequestText, ls: seq<Line>): Request {
    var i := |Leading(r.leading)|;
    var line := LineParts(r, i);
    Request(line.0, line.1, line.2, BlockSlices(ls, i + |RenderRequestLine(r)|))
  }

  lemma SpacesRead(s: bytes, i: nat, n: nat)
    requires n > 0 && At(s, i, Spaces(n)) && i + n < |s| && s[i + n] != SP
    ensures SkipSpaces(s, i) == Ok(i + n, ())
  {
    AtBytes(s, i, Spaces(n));
    forall k | i + 1 <= k < i + n ensures !NotSpace(s[k]) {
      assert s[i + (k - i)] == Spaces(n)[k - i];
    }
    ScanUnique(s, i + 1, NotSpace, i + n);
  }

  lemma PathReads(s: bytes, i: nat, path: bytes)
    requires At(s, i, path) && i + |path| < |s| && s[i + |path|] == SP && IsPath(path)
    ensures Path(s, i) == Ok(i + |path|, |path|)
  {
    AtBytes(s, i, path);
    forall k | i <= k < i + |path| ensures !EndsPath(s[k]) {
      assert s[i + (k - i)] == path[k - i];
    }
    ScanUnique(s, i, EndsPath, i + |path|);
  }

  lemma VersionReads(s: bytes, i: nat, minor: digit)
    requires At(s, i, Version(minor)) && i + 8 < |s|
    ensures HttpVersion(s, i) == Ok(i + 8, minor) && s[i] == HTTP_1[0]
  {
    AtBytes(s, i, Version(minor));
  }

  /** Where the pieces of a request line lie. */
  lemma RequestLineParts(s: bytes, i: nat, r: RequestText)
    requires GoodRequestText(r) && At(s, i, RenderRequestLine(r))
    ensures var m := i + |r.httpMethod|;
            var p := m + r.gap;
            var q := p + |r.path|;
            var v := q + r.gap2;
            && At(s, i, r.httpMethod) && At(s, m, Spaces(r.gap)) && At(s, p, r.path) && At(s, q, Spaces(r.gap2))
            && At(s, v, Version(r.minor)) && At(s, v + 8, Eol(r.crlf)) && |RenderRequestLine(r)| == v + 8 + |Eol(r.crlf)| - i
            && v + 8 < |s| && s[m] == SP && s[p] != SP && s[q] == SP && s[v] != SP
  {
    hide At, Eol, IsTokenChar, Version, Spaces;
    var m := i + |r.httpMethod|;
    var p := m + r.gap;
    var q := p + |r.path|;
    var v := q + r.gap2;
    Lengths(r);
    AtParts(s, i, r.httpMethod, Spaces(r.gap) + (r.path + (Spaces(r.gap2) + (Version(r.minor) + Eol(r.crlf)))));
    AtParts(s, m, Spaces(r.gap), r.path + (Spaces(r.gap2) + (Version(r.minor) + Eol(r.crlf))));
    AtParts(s, p, r.path, Spaces(r.gap2) + (Version(r.minor) + Eol(r.crlf)));
    AtParts(s, q, Spaces(r.gap2), Version(r.minor) + Eol(r.crlf));
    AtParts(s, v, Version(r.minor), Eol(r.crlf));
    AtFits(s, v + 8, Eol(r.crlf));
    AtByte(s, m, Spaces(r.gap), 0);
    AtByte(s, p, r.path, 0);
    AtByte(s, q, Spaces(r.gap2), 0);
    AtByte(s, v, Version(r.minor), 0);
  }

  lemma Lengths(r: RequestText)
    requires GoodRequestText(r)
    ensures |Spaces(r.gap)| == r.gap && |Spaces(r.gap2)| == r.gap2 && |Version(r.minor)| == 8 && |Eol(r.crlf)| > 0
    ensures Spaces(r.gap)[0] == SP && Spaces(r.gap2)[0] == SP && Version(r.minor)[0] == HTTP_1[0]
  {}

  lemma RequestLineReads(s: bytes, i: nat, r: RequestText)
    requires GoodRequestText(r) && At(s, i, RenderRequestLine(r))
    ensures RequestLine(s, i) == Ok(i + |RenderRequestLine(r)|, LineParts(r, i))
    ensures i < |s| && IsTokenChar(s[i])
  {
    hide At, Eol, IsTokenChar, Version, Spaces, RenderRequestLine, Token, SkipSpaces, Path, HttpVersion, NewLine;
    var m := i + |r.httpMethod|;
    var p := m + r.gap;
    var q := p + |r.path|;
    var v := q + r.gap2;
    RequestLineParts(s, i, r);
    SpaceAt(s, m);
    TokenReads(s, i, r.httpMethod, SP);
    SpacesRead(s, m, r.gap);
    PathReads(s, p, r.path);
    SpacesRead(s, q, r.gap2);
    VersionReads(s, v, r.minor);
    EolReads(s, v + 8, r.crlf);
  }

  lemma SpaceAt(s: bytes, i: nat)
    requires i < |s| && s[i] == SP
    ensures At(s, i, [SP]) && !IsTokenChar(SP)
  {}

  lemma LeadingReads(s: bytes, leading: Option<bool>)
    requires At(s, 0, Leading(leading)) && |Leading(leading)| < |s|
    requires leading.None? ==> IsTokenChar(s[0])
    ensures LeadingLine(s) == Ok(|Leading(leading)|, ())
  {
    if leading.Some? {
      EolReads(s, 0, leading.value);
    }
  }

  /** Every request from such parts, whatever follows it, is parsed to its slices if there is room for its headers,
      and refused if there is not. */
  lemma RenderedRequestParses(r: RequestText, ls: seq<Line>, endCrlf: bool, rest: bytes, max: nat)
    requires GoodRequestText(r) && GoodLines(ls, true)
    ensures var text := RenderRequest(r, ls, endCrlf);
            ParseRequest(text + rest, max) == if |ls| <= max then Ok(|text|, RequestSlices(r, ls)) else Bad
  {
    hide At, Eol, RenderRequestLine, RenderBlock, RequestLine, Headers, BlockSlices, GoodLines, LeadingLine, Leading, IsTokenChar, LineParts;
    var line, block, i := RenderRequestLine(r), RenderBlock(ls, endCrlf), |Leading(r.leading)|;
    var s := RenderRequest(r, ls, endCrlf) + rest;
    AtStart(RenderRequest(r, ls, endCrlf), rest);
    AtParts(s, 0, Leading(r.leading), line + block);
    AtParts(s, i, line, block);
    RequestLineReads(s, i, r);
    if r.leading.None? {
      assert i == 0 by {
        NothingLeads();
      }
    }
    LeadingReads(s, r.leading);
    BlockReads(s, i + |line|, ls, endCrlf, [], max);
    assert [] + BlockSlices(ls, i + |line|) == BlockSlices(ls, i + |line|);
  }

  lemma NothingLeads()
    ensures Leading(None) == []
  {}

  lemma AtStart(t: bytes, rest: bytes)
    ensures At(t + rest, 0, t)
  {}

  // ---------------------------------------------------------------------------------------------
  // An accepted request is a rendering
  // ---------------------------------------------------------------------------------------------

  lemma SpacesWereRead(s: bytes, i: nat) returns (n: nat)
    requires i < |s| && s[i] == SP && SkipSpaces(s, i).Ok?
    ensures n > 0 && SkipSpaces(s, i).pos == i + n && At(s, i, Spaces(n))
  {
    n := SkipSpaces(s, i).pos - i;
    forall k | 0 <= k < n ensures s[i..i + n][k] == Spaces(n)[k] {
      assert s[i..i + n][k] == s[i + k];
    }
  }

  lemma VersionWasRead(s: bytes, i: nat)
    requires i <= |s| && HttpVersion(s, i).Ok?
    ensures HttpVersion(s, i).value < 10 && At(s, i, Version(HttpVersion(s, i).value))
  {
    var t := Version(HttpVersion(s, i).value);
    forall k | 0 <= k < 8 ensures s[i..i + 8][k] == t[k] {
      assert s[i..i + 8][k] == s[i + k];
    }
  }

  lemma TokenWasRead(s: bytes, i: nat)
    requires i <= |s| && Token(s, i, SP).Ok?
    ensures var token := Token(s, i, SP);
            && token.pos == i + token.value < |s| && s[token.pos] == SP && At(s, i, s[i..token.pos])
            && (token.value > 0 ==> IsToken(s[i..token.pos]))
  {
    hide IsTokenChar, IsToken;
    TokenText(s[i..Token(s, i, SP).pos]);
    AtSlice(s, i, Token(s, i, SP).pos);
  }

  lemma PathWasRead(s: bytes, i: nat)
    requires i <= |s| && Path(s, i).Ok?
    ensures var path := Path(s, i);
            && path.pos == i + path.value < |s| && s[path.pos] == SP && At(s, i, s[i..path.pos])
            && IsPath(s[i..path.pos])
  {
    AtSlice(s, i, Path(s, i).pos);
  }

  /** The stages of a request line that was accepted. */
  lemma RequestLineStages(s: bytes, i: nat)
    requires i <= |s| && RequestLine(s, i).Ok?
    ensures var token := Token(s, i, SP);
            && token.Ok? && token.value > 0 && SkipSpaces(s, token.pos).Ok?
            && var p := SkipSpaces(s, token.pos).pos;
               var path := Path(s, p);
               && path.Ok? && path.value > 0 && SkipSpaces(s, path.pos).Ok?
               && var v := SkipSpaces(s, path.pos).pos;
                  && HttpVersion(s, v).Ok? && NewLine(s, v + 8).Ok?
                  && RequestLine(s, i) == Ok(NewLine(s, v + 8).pos, (Slice(i, token.value), Slice(p, path.value), HttpVersion(s, v).value))
  {
    hide Token, SkipSpaces, Path, NewLine;
  }

  lemma RequestLineWasRead(s: bytes, i: nat) returns (r: RequestText)
    requires i <= |s| && RequestLine(s, i).Ok?
    ensures GoodRequestText(r) && r.leading == None && At(s, i, RenderRequestLine(r))
    ensures RequestLine(s, i) == Ok(i + |RenderRequestLine(r)|, LineParts(r, i))
  {
    hide At, Eol, IsToken, Token, Path, SkipSpaces, HttpVersion, Version, Spaces, NewLine, IsPath, RequestLine, RenderRequestLine;
    RequestLineStages(s, i);
    TokenWasRead(s, i);
    var m := Token(s, i, SP).pos;
    var gap := SpacesWereRead(s, m);
    var p := m + gap;
    PathWasRead(s, p);
    var q := Path(s, p).pos;
    var gap2 := SpacesWereRead(s, q);
    var v := q + gap2;
    VersionWasRead(s, v);
    var crlf := EolWasRead(s, v + 8);
    r := RequestText(None, s[i..m], gap, s[p..q], gap2, HttpVersion(s, v).value, crlf);
    RequestLineJoins(s, i, r);
  }

  lemma RequestLineJoins(s: bytes, i: nat, r: RequestText)
    requires GoodRequestText(r)
    requires var m := i + |r.httpMethod|;
             var p := m + r.gap;
             var q := p + |r.path|;
             var v := q + r.gap2;
             && At(s, i, r.httpMethod) && At(s, m, Spaces(r.gap)) && At(s, p, r.path) && At(s, q, Spaces(r.gap2))
             && At(s, v, Version(r.minor)) && At(s, v + 8, Eol(r.crlf))
    ensures At(s, i, RenderRequestLine(r))
    ensures |RenderRequestLine(r)| == |r.httpMethod| + r.gap + |r.path| + r.gap2 + 8 + |Eol(r.crlf)|
  {
    hide At, Eol, IsTokenChar, Version, Spaces;
    var m := i + |r.httpMethod|;
    var p := m + r.gap;
    var q := p + |r.path|;
    var v := q + r.gap2;
    Lengths(r);
    AtParts(s, v, Version(r.minor), Eol(r.crlf));
    AtParts(s, q, Spaces(r.gap2), Version(r.minor) + Eol(r.crlf));
    AtParts(s, p, r.path, Spaces(r.gap2) + (Version(r.minor) + Eol(r.crlf)));
    AtParts(s, m, Spaces(r.gap), r.path + (Spaces(r.gap2) + (Version(r.minor) + Eol(r.crlf))));
    AtParts(s, i, r.httpMethod, Spaces(r.gap) + (r.path + (Spaces(r.gap2) + (Version(r.minor) + Eol(r.crlf)))));
  }

  lemma LeadingWasRead(s: bytes) returns (leading: Option<bool>)
    requires LeadingLine(s).Ok?
    ensures At(s, 0, Leading(leading)) && LeadingLine(s).pos == |Leading(leading)|
  {
    if AtLineEnd(s, 0) {
      var crlf := EolWasRead(s, 0);
      leading := Some(crlf);
    } else {
      leading := None;
    }
  }

  /** Every accepted request is such a rendering: the bytes consumed are its text, and the slices are its parts. */
  lemma AcceptedRequestIsRendered(s: bytes, max: nat) returns (r: RequestText, ls: seq<Line>, endCrlf: bool)
    requires ParseRequest(s, max).Ok?
    ensures GoodRequestText(r) && GoodLines(ls, true) && |ls| <= max
    ensures At(s, 0, RenderRequest(r, ls, endCrlf))
    ensures ParseRequest(s, max) == Ok(|RenderRequest(r, ls, endCrlf)|, RequestSlices(r, ls))
  {
    hide At, Eol, RenderRequestLine, RenderBlock, RequestLine, Headers, BlockSlices, GoodLines, LeadingLine, Leading, LineParts, IsTokenChar;
    var leading := LeadingWasRead(s);
    var i := LeadingLine(s).pos;
    var line := RequestLineWasRead(s, i);
    var h := RequestLine(s, i).pos;
    ls, endCrlf := BlockWasRead(s, h, [], max);
    r := line.(leading := leading);
    SameLine(line, leading, i);
    AtParts(s, i, RenderRequestLine(r), RenderBlock(ls, endCrlf));
    AtParts(s, 0, Leading(leading), RenderRequestLine(r) + RenderBlock(ls, endCrlf));
    assert [] + BlockSlices(ls, h) == BlockSlices(ls, h);
    BlockReads(s, h, ls, endCrlf, [], max);
  }

  lemma SameLine(r: RequestText, leading: Option<bool>, i: nat)
    requires GoodRequestText(r)
    ensures RenderRequestLine(r.(leading := leading)) == RenderRequestLine(r) && LineParts(r.(leading := leading), i) == LineParts(r, i)
  {}

  /** The parts of a request text of n bytes whose slices are v. */
  ghost predicate HasRequestParts(s: bytes, n: nat, v: Request, max: nat, r: RequestText, ls: seq<Line>, endCrlf: bool) {
    && GoodRequestText(r) && GoodLines(ls, true) && |ls| <= max
    && n == |RenderRequest(r, ls, endCrlf)| && At(s, 0, RenderRequest(r, ls, endCrlf)) && v == RequestSlices(r, ls)
  }

  /** The requests accepted are exactly the texts that can be put together from such parts. */
  lemma RequestsAreRenderings(s: bytes, n: nat, v: Request, max: nat)
    ensures ParseRequest(s, max) == Ok(n, v) <==> exists r, ls, endCrlf :: HasRequestParts(s, n, v, max, r, ls, endCrlf)
  {
    hide ParseRequest, RenderRequest, RequestSlices, GoodRequestText, GoodLines;
    if ParseRequest(s, max) == Ok(n, v) {
      var r, ls, endCrlf := AcceptedRequestIsRendered(s, max);
      assert HasRequestParts(s, n, v, max, r, ls, endCrlf);
    }
    if r, ls, endCrlf :| HasRequestParts(s, n, v, max, r, ls, endCrlf) {
      RenderedRequestParses(r, ls, endCrlf, s[n..], max);
      assert s == s[..n] + s[n..] && s[..n] == s[0..n];
    }
  }

  // ---------------------------------------------------------------------------------------------
  // Responses
  // ---------------------------------------------------------------------------------------------

  /** The reason phrase, if it is not empty, stands behind one or more spaces. */
  datatype ResponseText = ResponseText(minor: digit, gap: nat, hundreds: digit, tens: digit, ones: digit, gap2: nat, reason: bytes, crlf: bool)

  predicate GoodResponseText(r: ResponseText) {
    r.gap > 0 && IsText(r.reason) && (r.reason != [] ==> r.gap2 > 0 && r.reason[0] != 32)
  }

  function StatusDigits(r: ResponseText): bytes {
    ['0' as int + r.hundreds, '0' as int + r.tens, '0' as int + r.ones]
  }

  function RenderStatusLine(r: ResponseText): bytes {
    Version(r.minor) + (Spaces(r.gap) + (StatusDigits(r) + ((Spaces(r.gap2) + r.reason) + Eol(r.crlf))))
  }

  function RenderResponse(r: ResponseText, ls: seq<Line>, endCrlf: bool): bytes {
    RenderStatusLine(r) + RenderBlock(ls, endCrlf)
  }

  function StatusParts(r: ResponseText): (int, int, Slice) {
    (r.minor, 100 * r.hundreds + 10 * r.tens + r.ones, Slice(8 + r.gap + 3 + r.gap2, |r.reason|))
  }

  function ResponseSlices(r: ResponseText, ls: seq<Line>): Response {
    var line := StatusParts(r);
    Response(line.0, line.1, line.2, BlockSlices(ls, |RenderStatusLine(r)|))
  }

  lemma ReasonReads(s: bytes, i: nat, gap: nat, reason: bytes, crlf: bool)
    requires At(s, i, (Spaces(gap) + reason) + Eol(crlf)) && IsText(reason) && (reason != [] ==> gap > 0 && reason[0] != SP)
    ensures Reason(s, i) == Ok(i + gap + |reason| + |Eol(crlf)|, Slice(i + gap, |reason|))
  {
    hide At, TokenToEol, IsCtl;
    var text := Spaces(gap) + reason;
    SpacesAreText(gap, reason);
    TextReads(s, i, text, crlf);
    AtBytes(s, i, text + Eol(crlf));
    AtFits(s, i, text + Eol(crlf));
    if text != [] {
      forall k | i <= k < i + gap ensures !NotSpace(s[k]) {
        assert s[i + (k - i)] == (text + Eol(crlf))[k - i];
      }
      assert s[i + gap] == (text + Eol(crlf))[gap];
      ScanUnique(s, i, NotSpace, i + gap);
    }
  }

  lemma SpacesAreText(gap: nat, reason: bytes)
    requires IsText(reason)
    ensures IsText(Spaces(gap) + reason) && |Spaces(gap)| == gap
  {}

  lemma StatusReads(s: bytes, i: nat, r: ResponseText)
    requires At(s, i, StatusDigits(r)) && i + 3 < |s|
    ensures Status(s, i) == Ok(i + 3, 100 * r.hundreds + 10 * r.tens + r.ones) && s[i] != SP
  {
    AtBytes(s, i, StatusDigits(r));
    assert s[i] == StatusDigits(r)[0] && s[i + 1] == StatusDigits(r)[1] && s[i + 2] == StatusDigits(r)[2];
  }

  lemma StatusLineJoins(s: bytes, r: ResponseText)
    ensures var q := 8 + r.gap;
            At(s, 0, RenderStatusLine(r)) <==>
              && At(s, 0, Version(r.minor)) && At(s, 8, Spaces(r.gap)) && At(s, q, StatusDigits(r))
              && At(s, q + 3, (Spaces(r.gap2) + r.reason) + Eol(r.crlf))
    ensures |RenderStatusLine(r)| == 8 + r.gap + 3 + r.gap2 + |r.reason| + |Eol(r.crlf)|
  {
    hide At, Eol;
    var q, text := 8 + r.gap, (Spaces(r.gap2) + r.reason) + Eol(r.crlf);
    assert |Version(r.minor)| == 8 && |Spaces(r.gap)| == r.gap && |Spaces(r.gap2)| == r.gap2;
    AtParts(s, q, StatusDigits(r), text);
    AtParts(s, 8, Spaces(r.gap), StatusDigits(r) + text);
    AtParts(s, 0, Version(r.minor), Spaces(r.gap) + (StatusDigits(r) + text));
  }

  lemma StatusLineReads(s: bytes, r: ResponseText)
    requires GoodResponseText(r) && At(s, 0, RenderStatusLine(r))
    ensures StatusLine(s) == Ok(|RenderStatusLine(r)|, StatusParts(r))
  {
    hide At, Eol, Version, Spaces, StatusDigits, IsText, HttpVersion, SkipSpaces, Status, Reason, RenderStatusLine;
    var q := 8 + r.gap;
    StatusLineJoins(s, r);
    AtFits(s, q + 3, (Spaces(r.gap2) + r.reason) + Eol(r.crlf));
    LineEndAhead(r);
    SpacesBegin(s, 8, r.gap);
    VersionReads(s, 0, r.minor);
    StatusReads(s, q, r);
    SpacesRead(s, 8, r.gap);
    ReasonReads(s, q + 3, r.gap2, r.reason, r.crlf);
  }

  lemma LineEndAhead(r: ResponseText)
    ensures |(Spaces(r.gap2) + r.reason) + Eol(r.crlf)| > 0
  {}

  lemma SpacesBegin(s: bytes, i: nat, n: nat)
    requires n > 0 && At(s, i, Spaces(n))
    ensures i < |s| && s[i] == SP
  {
    AtByte(s, i, Spaces(n), 0);
  }

  /** Every response from such parts, whatever follows it. */
  lemma RenderedResponseParses(r: ResponseText, ls: seq<Line>, endCrlf: bool, rest: bytes, max: nat)
    requires GoodResponseText(r) && GoodLines(ls, true)
    ensures var text := RenderResponse(r, ls, endCrlf);
            ParseResponse(text + rest, max) == if |ls| <= max then Ok(|text|, ResponseSlices(r, ls)) else Bad
  {
    hide At, RenderStatusLine, RenderBlock, StatusLine, Headers, BlockSlices, GoodLines, StatusParts, GoodResponseText;
    var line := RenderStatusLine(r);
    var s := RenderResponse(r, ls, endCrlf) + rest;
    AtStart(RenderResponse(r, ls, endCrlf), rest);
    AtParts(s, 0, line, RenderBlock(ls, endCrlf));
    StatusLineReads(s, r);
    BlockReads(s, |line|, ls, endCrlf, [], max);
    assert [] + BlockSlices(ls, |line|) == BlockSlices(ls, |line|);
  }

  lemma StatusWasRead(s: bytes, i: nat) returns (hundreds: digit, tens: digit, ones: digit)
    requires i <= |s| && Status(s, i).Ok?
    ensures Status(s, i).value == 100 * hundreds + 10 * tens + ones
    ensures At(s, i, ['0' as int + hundreds, '0' as int + tens, '0' as int + ones])
  {
    hundreds, tens, ones := s[i] - '0' as int, s[i + 1] - '0' as int, s[i + 2] - '0' as int;
    assert s[i..i + 3] == [s[i], s[i + 1], s[i + 2]];
  }

  lemma ReasonWasRead(s: bytes, i: nat) returns (gap: nat, reason: bytes, crlf: bool)
    requires i <= |s| && Reason(s, i).Ok?
    ensures At(s, i, (Spaces(gap) + reason) + Eol(crlf)) && IsText(reason) && (reason != [] ==> gap > 0 && reason[0] != SP)
    ensures Reason(s, i) == Ok(i + gap + |reason| + |Eol(crlf)|, Slice(i + gap, |reason|))
  {
    hide At, TokenToEol, IsCtl;
    var text;
    text, crlf := TextWasRead(s, i);
    gap := Reason(s, i).value.start - i;
    reason := text[gap..];
    forall k | 0 <= k < gap ensures text[k] == SP {
      assert text[k] == s[i + k];
      assert !NotSpace(s[i + k]);
    }
    assert text == Spaces(gap) + reason;
    if reason != [] {
      assert reason[0] == s[i + gap];
    }
  }

  lemma StatusLineStages(s: bytes)
    requires StatusLine(s).Ok?
    ensures var v := HttpVersion(s, 0);
            && v.Ok? && s[8] == SP && SkipSpaces(s, 8).Ok?
            && var q := SkipSpaces(s, 8).pos;
               && Status(s, q).Ok? && Reason(s, q + 3).Ok?
               && StatusLine(s) == Ok(Reason(s, q + 3).pos, (v.value, Status(s, q).value, Reason(s, q + 3).value))
  {
    hide SkipSpaces, Reason;
  }

  /** Every accepted response is such a rendering. */
  lemma AcceptedResponseIsRendered(s: bytes, max: nat) returns (r: ResponseText, ls: seq<Line>, endCrlf: bool)
    requires ParseResponse(s, max).Ok?
    ensures GoodResponseText(r) && GoodLines(ls, true) && |ls| <= max
    ensures At(s, 0, RenderResponse(r, ls, endCrlf))
    ensures ParseResponse(s, max) == Ok(|RenderResponse(r, ls, endCrlf)|, ResponseSlices(r, ls))
  {
    hide At, Eol, RenderStatusLine, RenderBlock, StatusLine, Headers, BlockSlices, GoodLines, StatusParts, IsText, Reason, Status, SkipSpaces, HttpVersion;
    r := StatusLineWasRead(s);
    var h := StatusLine(s).pos;
    ls, endCrlf := BlockWasRead(s, h, [], max);
    AtParts(s, 0, RenderStatusLine(r), RenderBlock(ls, endCrlf));
    assert [] + BlockSlices(ls, h) == BlockSlices(ls, h);
    BlockReads(s, h, ls, endCrlf, [], max);
  }

  lemma StatusLineWasRead(s: bytes) returns (r: ResponseText)
    requires StatusLine(s).Ok?
    ensures GoodResponseText(r) && At(s, 0, RenderStatusLine(r))
    ensures StatusLine(s) == Ok(|RenderStatusLine(r)|, StatusParts(r))
  {
    hide At, Eol, Version, Spaces, IsText, HttpVersion, SkipSpaces, Status, Reason, RenderStatusLine, StatusLine;
    StatusLineStages(s);
    VersionWasRead(s, 0);
    var gap := SpacesWereRead(s, 8);
    var q := 8 + gap;
    var hundreds, tens, ones := StatusWasRead(s, q);
    var gap2, reason, crlf := ReasonWasRead(s, q + 3);
    r := ResponseText(HttpVersion(s, 0).value, gap, hundreds, tens, ones, gap2, reason, crlf);
    StatusLineJoins(s, r);
  }

  ghost predicate HasResponseParts(s: bytes, n: nat, v: Response, max: nat, r: ResponseText, ls: seq<Line>, endCrlf: bool) {
    && GoodResponseText(r) && GoodLines(ls, true) && |ls| <= max
    && n == |RenderResponse(r, ls, endCrlf)| && At(s, 0, RenderResponse(r, ls, endCrlf)) && v == ResponseSlices(r, ls)
  }

  /** The same of responses. */
  lemma ResponsesAreRenderings(s: bytes, n: nat, v: Response, max: nat)
    ensures ParseResponse(s, max) == Ok(n, v) <==> exists r, ls, endCrlf :: HasResponseParts(s, n, v, max, r, ls, endCrlf)
  {
    hide ParseResponse, RenderResponse, ResponseSlices, GoodResponseText, GoodLines;
    if ParseResponse(s, max) == Ok(n, v) {
      var r, ls, endCrlf := AcceptedResponseIsRendered(s, max);
      assert HasResponseParts(s, n, v, max, r, ls, endCrlf);
    }
    if r, ls, endCrlf :| HasResponseParts(s, n, v, max, r, ls, endCrlf) {
      RenderedResponseParses(r, ls, endCrlf, s[n..], max);
      assert s == s[..n] + s[n..] && s[..n] == s[0..n];
    }
  }

  // ---------------------------------------------------------------------------------------------
  // Header blocks
  // ---------------------------------------------------------------------------------------------

  ghost predicate HasLines(s: bytes, n: nat, hs: seq<Header>, max: nat, ls: seq<Line>, endCrlf: bool) {
    && GoodLines(ls, true) && |ls| <= max
    && n == |RenderBlock(ls, endCrlf)| && At(s, 0, RenderBlock(ls, endCrlf)) && hs == BlockSlices(ls, 0)
  }

  /** The same of header blocks. */
  lemma HeaderBlocksAreRenderings(s: bytes, n: nat, hs: seq<Header>, max: nat)
    ensures ParseHeaders(s, max) == Ok(n, hs) <==> exists ls, endCrlf :: HasLines(s, n, hs, max, ls, endCrlf)
  {
    hide Headers, RenderBlock, BlockSlices, GoodLines, At;
    if ParseHeaders(s, max) == Ok(n, hs) {
      var ls, endCrlf := BlockWasRead(s, 0, [], max);
      assert [] + BlockSlices(ls, 0) == BlockSlices(ls, 0);
      BlockReads(s, 0, ls, endCrlf, [], max);
      assert HasLines(s, n, hs, max, ls, endCrlf);
    }
    if ls, endCrlf :| HasLines(s, n, hs, max, ls, endCrlf) {
      BlockReads(s, 0, ls, endCrlf, [], max);
      assert [] + BlockSlices(ls, 0) == BlockSlices(ls, 0);
    }
  }
}
