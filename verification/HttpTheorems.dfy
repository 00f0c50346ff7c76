/** What a successful parse looks like, and why the fast check for the blank line changes no success. */
module HttpTheorems {
  import opened Bytes
  import opened HttpGrammar
  import opened HttpStability
  import opened HttpBlankLine
  import opened HttpRendering

  // ---------------------------------------------------------------------------------------------
  // Every carriage return that was consumed is half of a line end, and a blank line comes last
  // ---------------------------------------------------------------------------------------------

  ghost predicate NoBareCr(s: bytes, i: nat, n: nat)
    requires n <= |s|
  {
    forall k | i <= k < n && s[k] == CR :: k + 1 < n && s[k + 1] == LF
  }

  lemma TokenToEolNoBareCr(s: bytes, i: nat)
    requires i <= |s| && TokenToEol(s, i).Ok?
    ensures NoBareCr(s, i, TokenToEol(s, i).pos)
  {}

  lemma HeaderLineNoBareCr(s: bytes, i: nat, first: bool)
    requires i < |s| && HeaderLine(s, i, first).Ok?
    ensures NoBareCr(s, i, HeaderLine(s, i, first).pos) && s[HeaderLine(s, i, first).pos - 1] == LF
  {
    hide TokenToEol, HeaderName, TrimEnd;
    TokenToEolNoBareCr(s, HeaderName(s, i, first).pos);
  }

  /** The blank line that ended the block starts at e: at the front of the block or after a line end. */
  lemma {:induction false} HeadersEnd(s: bytes, i: nat, hs: seq<Header>, max: nat) returns (e: nat)
    requires i <= |s| && Headers(s, i, hs, max).Ok?
    ensures NoBareCr(s, i, Headers(s, i, hs, max).pos)
    ensures i <= e < |s| && NewLine(s, e) == Ok(Headers(s, i, hs, max).pos, ())
    ensures (e == i && Headers(s, i, hs, max).value == hs) || (e > i && s[e - 1] == LF)
    decreases |s| - i
  {
    hide HeaderLine;
    if AtLineEnd(s, i) {
      e := i;
    } else {
      var line := HeaderLine(s, i, |hs| == 0);
      HeaderLineNoBareCr(s, i, |hs| == 0);
      e := HeadersEnd(s, line.pos, hs + [line.value], max);
    }
  }

  lemma RequestLineNoBareCr(s: bytes, i: nat)
    requires i <= |s| && RequestLine(s, i).Ok?
    ensures NoBareCr(s, i, RequestLine(s, i).pos) && s[RequestLine(s, i).pos - 1] == LF
  {
    hide Token, SkipSpaces, Path, HttpVersion;
  }

  lemma StatusLineNoBareCr(s: bytes)
    requires StatusLine(s).Ok?
    ensures NoBareCr(s, 0, StatusLine(s).pos) && s[StatusLine(s).pos - 1] == LF
  {
    hide SkipSpaces, HttpVersion, Status, TokenToEol;
    var q := SkipSpaces(s, HttpVersion(s, 0).pos).pos;
    TokenToEolNoBareCr(s, Status(s, q).pos);
  }

  lemma RequestEnd(s: bytes, max: nat) returns (e: nat)
    requires ParseRequest(s, max).Ok?
    ensures NoBareCr(s, 0, ParseRequest(s, max).pos)
    ensures 0 < e < |s| && NewLine(s, e) == Ok(ParseRequest(s, max).pos, ()) && s[e - 1] == LF
  {
    hide Headers, RequestLine;
    var i := LeadingLine(s).pos;
    RequestLineNoBareCr(s, i);
    e := HeadersEnd(s, RequestLine(s, i).pos, [], max);
  }

  lemma ResponseEnd(s: bytes, max: nat) returns (e: nat)
    requires ParseResponse(s, max).Ok?
    ensures NoBareCr(s, 0, ParseResponse(s, max).pos)
    ensures 0 < e < |s| && NewLine(s, e) == Ok(ParseResponse(s, max).pos, ()) && s[e - 1] == LF
  {
    hide Headers, StatusLine;
    StatusLineNoBareCr(s);
    e := HeadersEnd(s, StatusLine(s).pos, [], max);
  }

  // ---------------------------------------------------------------------------------------------
  // The fast check
  // ---------------------------------------------------------------------------------------------

  lemma {:induction false} BlankLineStable(s: bytes, t: bytes, m: nat, i: nat, lines: nat)
    requires i <= |s| && lines < 2 && Agree(s, t, m) && Decided(s, BlankLine(s, i, lines), 0, m)
    ensures i <= |t| && BlankLine(t, i, lines) == BlankLine(s, i, lines)
    decreases |s| - i
  {
    if AtLineEnd(s, i) {
      NewLineStable(s, t, m, i);
      if NewLine(s, i).Ok? && lines == 0 {
        BlankLineStable(s, t, m, NewLine(s, i).pos, 1);
      }
    } else {
      BlankLineStable(s, t, m, i + 1, 0);
    }
  }

  /** The blank line lies past what was already there, so three bytes back is far enough. */
  lemma CompleteWhenBlankLineIsNew(s: bytes, lastLen: nat, e: nat, n: nat)
    requires lastLen <= |s| && lastLen < n
    requires 0 < e < |s| && NewLine(s, e) == Ok(n, ()) && s[e - 1] == LF && NoBareCr(s, 0, n)
    ensures IsComplete(s, lastLen).Ok? && Blank(s, ScanStart(lastLen))
  {
    assert BlankAt(s, ScanStart(lastLen), 0, e);
    FoundWhenBlank(s, ScanStart(lastLen), 0, e);
  }

  lemma RequestComplete(s: bytes, lastLen: nat, max: nat)
    requires lastLen <= |s| && ParseRequest(s[..lastLen], max).Partial? && ParseRequest(s, max).Ok?
    ensures IsComplete(s, lastLen).Ok? && Blank(s, ScanStart(lastLen))
  {
    hide ParseRequest, IsComplete;
    var n := ParseRequest(s, max).pos;
    if n <= lastLen {
      RequestFinal(s, [], s[..lastLen], max);
      assert false;
    }
    var e := RequestEnd(s, max);
    CompleteWhenBlankLineIsNew(s, lastLen, e, n);
  }

  lemma ResponseComplete(s: bytes, lastLen: nat, max: nat)
    requires lastLen <= |s| && ParseResponse(s[..lastLen], max).Partial? && ParseResponse(s, max).Ok?
    ensures IsComplete(s, lastLen).Ok? && Blank(s, ScanStart(lastLen))
  {
    hide ParseResponse, IsComplete;
    var n := ParseResponse(s, max).pos;
    if n <= lastLen {
      ResponseFinal(s, [], s[..lastLen], max);
      assert false;
    }
    var e := ResponseEnd(s, max);
    CompleteWhenBlankLineIsNew(s, lastLen, e, n);
  }

  /** A call that was told how much an earlier, partial call saw succeeds exactly when a full parse does, with
      the same answer; and when it says -1, no continuation of the buffer would ever be accepted. */
  lemma RequestShortcutSound(s: bytes, lastLen: nat, x: bytes, max: nat)
    requires lastLen <= |s| && (lastLen > 0 ==> ParseRequest(s[..lastLen], max).Partial?)
    ensures var full := ParseRequest(s, max);
            var fast := Shortcut(s, lastLen, full);
            && (fast.Ok? <==> full.Ok?)
            && (full.Ok? ==> fast == full)
            && (fast.Bad? ==> !ParseRequest(s + x, max).Ok?)
  {
    hide ParseRequest;
    if lastLen == 0 {
      RequestFinal(s, x, s, max);
    } else {
      if ParseRequest(s, max).Ok? {
        RequestComplete(s, lastLen, max);
      }
      if ParseRequest(s + x, max).Ok? {
        assert (s + x)[..lastLen] == s[..lastLen];
        RequestComplete(s + x, lastLen, max);
        CompleteStable(s, x, lastLen);
        RequestFinal(s, x, s, max);
      }
    }
  }

  lemma CompleteStable(s: bytes, x: bytes, lastLen: nat)
    requires lastLen <= |s|
    ensures IsComplete(s, lastLen).Bad? ==> IsComplete(s + x, lastLen).Bad?
  {
    if IsComplete(s, lastLen).Bad? {
      BlankLineStable(s, s + x, |s|, ScanStart(lastLen), 0);
    }
  }

  lemma ResponseShortcutSound(s: bytes, lastLen: nat, x: bytes, max: nat)
    requires lastLen <= |s| && (lastLen > 0 ==> ParseResponse(s[..lastLen], max).Partial?)
    ensures var full := ParseResponse(s, max);
            var fast := Shortcut(s, lastLen, full);
            && (fast.Ok? <==> full.Ok?)
            && (full.Ok? ==> fast == full)
            && (fast.Bad? ==> !ParseResponse(s + x, max).Ok?)
  {
    hide ParseResponse;
    if lastLen == 0 {
      ResponseFinal(s, x, s, max);
    } else {
      if ParseResponse(s, max).Ok? {
        ResponseComplete(s, lastLen, max);
      }
      if ParseResponse(s + x, max).Ok? {
        assert (s + x)[..lastLen] == s[..lastLen];
        ResponseComplete(s + x, lastLen, max);
        CompleteStable(s, x, lastLen);
        ResponseFinal(s, x, s, max);
      }
    }
  }

  /** When a call that first looks for a blank line answers as the full parse does: there is one, or there is none
      and the scan refuses, for a bare carriage return, exactly what the full parse refuses. */
  ghost predicate AgreesWithScan<T>(s: bytes, i: nat, full: Res<T>) {
    Blank(s, i) || (!full.Ok? && (full.Bad? <==> HasBareCr(s, i)))
  }

  lemma ShortcutExact<T>(s: bytes, lastLen: nat, full: Res<T>)
    requires 0 < lastLen <= |s|
    ensures Shortcut(s, lastLen, full) == full <==> AgreesWithScan(s, if lastLen < 3 then 0 else lastLen - 3, full)
  {
    hide BlankLine, HasBareCr, Blank;
    ScanMeans(s, ScanStart(lastLen));
  }

  /** For every answer of the full parse, when the call with the earlier length gives the same. A success always
      is the same; else it takes a blank line in the range of the scan, or -1 and a bare carriage return there, or
      -2 and none. */
  lemma RequestShortcutExact(s: bytes, lastLen: nat, max: nat)
    requires lastLen <= |s| && (lastLen > 0 ==> ParseRequest(s[..lastLen], max).Partial?)
    ensures var full, i := ParseRequest(s, max), if lastLen < 3 then 0 else lastLen - 3;
            Shortcut(s, lastLen, full) == full <==>
              lastLen == 0 || full.Ok? || Blank(s, i) || (full.Bad? <==> HasBareCr(s, i))
  {
    hide ParseRequest, Blank, HasBareCr;
    if lastLen > 0 {
      ShortcutExact(s, lastLen, ParseRequest(s, max));
      if ParseRequest(s, max).Ok? {
        RequestComplete(s, lastLen, max);
      }
    }
  }

  lemma ResponseShortcutExact(s: bytes, lastLen: nat, max: nat)
    requires lastLen <= |s| && (lastLen > 0 ==> ParseResponse(s[..lastLen], max).Partial?)
    ensures var full, i := ParseResponse(s, max), if lastLen < 3 then 0 else lastLen - 3;
            Shortcut(s, lastLen, full) == full <==>
              lastLen == 0 || full.Ok? || Blank(s, i) || (full.Bad? <==> HasBareCr(s, i))
  {
    hide ParseResponse, Blank, HasBareCr;
    if lastLen > 0 {
      ShortcutExact(s, lastLen, ParseResponse(s, max));
      if ParseResponse(s, max).Ok? {
        ResponseComplete(s, lastLen, max);
      }
    }
  }

  lemma ScanWithoutLineFeed(s: bytes, lastLen: nat)
    requires lastLen <= |s| && forall k | 0 <= k < |s| :: s[k] != LF
    ensures IsComplete(s, lastLen) == if HasBareCr(s, ScanStart(lastLen)) then Bad else Partial
  {
    hide BlankLine, HasBareCr;
    BlankLineMeans(s, ScanStart(lastLen), 0);
  }

  /** "GET / H" CR "X": the full parse still asks for more, the scan says -1. */
  lemma RequestRefusedEarly()
    ensures var s: bytes := ['G' as int, 'E' as int, 'T' as int, SP, '/' as int, SP, 'H' as int, CR, 'X' as int];
            && ParseRequest(s[..1], 10).Partial? && ParseRequest(s, 10).Partial?
            && Shortcut(s, 1, ParseRequest(s, 10)).Bad?
  {
    var s: bytes := ['G' as int, 'E' as int, 'T' as int, SP, '/' as int, SP, 'H' as int, CR, 'X' as int];
    hide Headers, IsComplete, HasBareCr, Blank;
    ScanUnique(s[..1], 0, EndsToken(SP), 1);
    ScanUnique(s, 0, EndsToken(SP), 3);
    ScanUnique(s, 4, NotSpace, 4);
    ScanUnique(s, 4, EndsPath, 5);
    ScanUnique(s, 6, NotSpace, 6);
    BareCrAt(s, 0, 7);
    ScanWithoutLineFeed(s, 1);
  }

  lemma BareCrAt(s: bytes, i: nat, k: nat)
    requires i <= k < |s| && BareCr(s, k)
    ensures HasBareCr(s, i)
  {}

  /** "G@": the full parse says -1, the scan asks for more. */
  lemma RequestRefusedLate()
    ensures var s: bytes := ['G' as int, '@' as int];
            && ParseRequest(s[..1], 10).Partial? && ParseRequest(s, 10).Bad?
            && Shortcut(s, 1, ParseRequest(s, 10)).Partial?
  {
    var s: bytes := ['G' as int, '@' as int];
    ScanUnique(s[..1], 0, EndsToken(SP), 1);
    ScanUnique(s, 0, EndsToken(SP), 1);
    ScanWithoutLineFeed(s, 1);
  }

  /** The same of responses: "HTTP/1" CR "X" is refused by the scan alone, "XTTP/1.1 " by the full parse alone. */
  lemma ResponseAnswersDiffer()
    ensures var s: bytes := ['H' as int, 'T' as int, 'T' as int, 'P' as int, '/' as int, '1' as int, CR, 'X' as int];
            && ParseResponse(s[..1], 10).Partial? && ParseResponse(s, 10).Partial?
            && Shortcut(s, 1, ParseResponse(s, 10)).Bad?
    ensures var s: bytes := ['X' as int, 'T' as int, 'T' as int, 'P' as int, '/' as int, '1' as int, '.' as int, '1' as int, SP];
            && ParseResponse(s[..1], 10).Partial? && ParseResponse(s, 10).Bad?
            && Shortcut(s, 1, ParseResponse(s, 10)).Partial?
  {
    var s: bytes := ['H' as int, 'T' as int, 'T' as int, 'P' as int, '/' as int, '1' as int, CR, 'X' as int];
    assert BareCr(s, 6);
    ScanWithoutLineFeed(s, 1);
    var t: bytes := ['X' as int, 'T' as int, 'T' as int, 'P' as int, '/' as int, '1' as int, '.' as int, '1' as int, SP];
    ScanWithoutLineFeed(t, 1);
  }

  /** A header block has no line before it, so the scan can miss the end of an empty one. It does so exactly when
      the earlier call saw a CR alone and no blank line follows; otherwise the condition is as for requests. */
  lemma HeadersShortcutExact(s: bytes, lastLen: nat, max: nat)
    requires lastLen <= |s| && (lastLen > 0 ==> ParseHeaders(s[..lastLen], max).Partial?)
    ensures var full, i := ParseHeaders(s, max), if lastLen < 3 then 0 else lastLen - 3;
            Shortcut(s, lastLen, full) == full <==>
              lastLen == 0 || Blank(s, i) || if full.Ok? then s[..lastLen] != [13] else (full.Bad? <==> HasBareCr(s, i))
  {
    hide ParseHeaders, Blank, HasBareCr;
    if lastLen > 0 {
      ShortcutExact(s, lastLen, ParseHeaders(s, max));
      if ParseHeaders(s, max).Ok? && s[..lastLen] != [CR] {
        HeadersComplete(s, lastLen, max);
      }
    }
  }

  lemma OnlyCrBefore(s: bytes, lastLen: nat, n: nat)
    requires 0 < lastLen < n && |s| > 0 && NewLine(s, 0) == Ok(n, ())
    ensures s[..lastLen] == [CR]
  {}

  lemma HeadersComplete(s: bytes, lastLen: nat, max: nat)
    requires 0 < lastLen <= |s| && ParseHeaders(s[..lastLen], max).Partial? && ParseHeaders(s, max).Ok?
    requires s[..lastLen] != [CR]
    ensures Blank(s, ScanStart(lastLen))
  {
    hide Headers, IsComplete, Blank;
    var n := ParseHeaders(s, max).pos;
    if n <= lastLen {
      HeadersFinal(s, [], s[..lastLen], max);
      assert false;
    }
    var e := HeadersEnd(s, 0, [], max);
    if e == 0 {
      OnlyCrBefore(s, lastLen, n);
      assert false;
    }
    CompleteWhenBlankLineIsNew(s, lastLen, e, n);
  }

  /** The concrete case: the block CR LF arrives in two pieces and is not recognised. */
  lemma HeadersShortcutMissesEmptyBlock()
    ensures ParseHeaders([13], 10).Partial?
    ensures ParseHeaders([13, 10], 10) == Ok(2, [])
    ensures Shortcut([13, 10], 1, ParseHeaders([13, 10], 10)).Partial?
  {
    var s: bytes := [CR, LF];
    assert NewLine(s, 0) == Ok(2, ());
    assert BlankLine(s, 2, 1).Partial?;
    assert BlankLine(s, 0, 0).Partial?;
  }

  // ---------------------------------------------------------------------------------------------
  // The shape of what is returned
  // ---------------------------------------------------------------------------------------------

  function First(h: Header): nat {
    if h.name.Some? then h.name.value.start else h.value.start
  }

  function End(h: Header): nat {
    h.value.start + h.value.len
  }

  /** A header whose slices lie in [lo, hi): a non-empty token for a name, which only a continued line may
      lack, then a value without control bytes but tabs and without a blank at its end. */
  ghost predicate GoodHeader(s: bytes, h: Header, lo: nat, hi: nat, first: bool)
    requires hi <= |s|
  {
    && lo <= First(h) && End(h) < hi
    && (match h.name
        case Some(name) =>
          && name.len > 0 && name.start + name.len < h.value.start
          && s[name.start + name.len] == ':' as int
          && forall k | name.start <= k < name.start + name.len :: Tchar(s[k])
        case None => !first && IsBlank(s[First(h)]))
    && (forall k | h.value.start <= k < End(h) :: IsTextByte(s[k]))
    && (h.value.len > 0 ==> !IsBlank(s[End(h) - 1]))
  }

  lemma HeaderNameToken(s: bytes, i: nat, first: bool)
    requires i < |s| && HeaderName(s, i, first).Ok?
    ensures HeaderName(s, i, first).value.Some? ==>
              var name := HeaderName(s, i, first).value.value;
              && s[i + name.len] == ':' as int
              && forall k | i <= k < i + name.len :: Tchar(s[k])
    ensures HeaderName(s, i, first).value.None? ==> !NotBlank(s[i])
  {
    if HeaderName(s, i, first).value.Some? {
      var name := HeaderName(s, i, first).value.value;
      forall k | i <= k < i + name.len ensures Tchar(s[k]) {
        TokenCharIsTchar(s[k]);
      }
    }
  }

  lemma HeaderLineGood(s: bytes, i: nat, first: bool)
    requires i < |s| && HeaderLine(s, i, first).Ok?
    ensures GoodHeader(s, HeaderLine(s, i, first).value, i, HeaderLine(s, i, first).pos, first)
  {
    hide HeaderName, TokenToEol, Tchar;
    HeaderNameToken(s, i, first);
  }

  /** All headers, in order and disjoint, inside [lo, hi). */
  ghost predicate GoodHeaders(s: bytes, hs: seq<Header>, lo: nat, hi: nat)
    requires hi <= |s|
  {
    && (forall j | 0 <= j < |hs| :: GoodHeader(s, hs[j], lo, hi, j == 0))
    && (forall j, k | 0 <= j < k < |hs| :: End(hs[j]) < First(hs[k]))
  }

  lemma GoodHeaderWider(s: bytes, h: Header, lo: nat, hi: nat, first: bool, lo': nat, hi': nat)
    requires lo' <= lo && hi <= hi' <= |s| && GoodHeader(s, h, lo, hi, first)
    ensures GoodHeader(s, h, lo', hi', first)
  {}

  lemma GoodHeadersGrow(s: bytes, hs: seq<Header>, lo: nat, i: nat, n: nat)
    requires lo <= i <= n <= |s| && GoodHeaders(s, hs, lo, i)
    ensures GoodHeaders(s, hs, lo, n)
  {
    hide GoodHeader;
    forall j | 0 <= j < |hs| ensures GoodHeader(s, hs[j], lo, n, j == 0) {
      GoodHeaderWider(s, hs[j], lo, i, j == 0, lo, n);
    }
  }

  lemma GoodHeadersSnoc(s: bytes, hs: seq<Header>, lo: nat, i: nat, h: Header, n: nat)
    requires lo <= i <= n <= |s| && GoodHeaders(s, hs, lo, i) && GoodHeader(s, h, i, n, |hs| == 0)
    ensures GoodHeaders(s, hs + [h], lo, n)
  {
    GoodHeadersGrow(s, hs, lo, i, n);
    GoodHeaderWider(s, h, i, n, |hs| == 0, lo, n);
    forall j | 0 <= j < |hs| ensures End(hs[j]) < First(h) {
      assert GoodHeader(s, hs[j], lo, i, j == 0);
    }
  }

  lemma {:induction false} HeadersGood(s: bytes, lo: nat, i: nat, hs: seq<Header>, max: nat)
    requires lo <= i <= |s| && |hs| <= max && Headers(s, i, hs, max).Ok? && GoodHeaders(s, hs, lo, i)
    ensures var r := Headers(s, i, hs, max); |r.value| <= max && GoodHeaders(s, r.value, lo, r.pos)
    decreases |s| - i
  {
    hide HeaderLine, GoodHeader;
    if !AtLineEnd(s, i) {
      var line := HeaderLine(s, i, |hs| == 0);
      HeaderLineGood(s, i, |hs| == 0);
      GoodHeadersSnoc(s, hs, lo, i, line.value, line.pos);
      HeadersGood(s, lo, line.pos, hs + [line.value], max);
    } else {
      GoodHeadersGrow(s, hs, lo, i, NewLine(s, i).pos);
    }
  }

  lemma HeadersShape(s: bytes, max: nat)
    requires ParseHeaders(s, max).Ok?
    ensures var r := ParseHeaders(s, max); |r.value| <= max && GoodHeaders(s, r.value, 0, r.pos)
  {
    HeadersGood(s, 0, 0, [], max);
  }

  /** A non-empty method token and path, in order and each in its alphabet, come before the headers. */
  ghost predicate GoodRequest(s: bytes, n: nat, r: Request, max: nat)
    requires n <= |s|
  {
    var methodEnd, pathEnd := r.httpMethod.start + r.httpMethod.len, r.path.start + r.path.len;
    && r.httpMethod.len > 0 && r.path.len > 0 && 0 <= r.minorVersion <= 9
    && methodEnd < r.path.start && pathEnd < n
    && (forall k | r.httpMethod.start <= k < methodEnd :: Tchar(s[k]))
    && (forall k | r.path.start <= k < pathEnd :: 32 < s[k] != 127)
    && |r.headers| <= max && GoodHeaders(s, r.headers, pathEnd, n)
  }

  lemma RequestShape(s: bytes, max: nat)
    ensures var parsed := ParseRequest(s, max); parsed.Ok? ==> GoodRequest(s, parsed.pos, parsed.value, max)
  {
    hide Headers, Tchar, Token, SkipSpaces, Path, HttpVersion;
    if ParseRequest(s, max).Ok? {
      var i := LeadingLine(s).pos;
      var h, line := RequestLine(s, i).pos, RequestLine(s, i).value;
      HeadersGood(s, line.1.start + line.1.len, h, [], max);
      forall k | line.0.start <= k < line.0.start + line.0.len ensures Tchar(s[k]) {
        TokenCharIsTchar(s[k]);
      }
    }
  }

  /** The reason phrase has no leading space, no control byte but tabs, and ends at the end of its line. */
  ghost predicate GoodResponse(s: bytes, n: nat, r: Response, max: nat)
    requires n <= |s|
  {
    var msgEnd := r.msg.start + r.msg.len;
    && 0 <= r.minorVersion <= 9 && 0 <= r.status <= 999 && msgEnd < n
    && (s[msgEnd] == 13 || s[msgEnd] == 10)
    && (r.msg.len > 0 ==> s[r.msg.start] != 32)
    && (forall k | r.msg.start <= k < msgEnd :: IsTextByte(s[k]))
    && |r.headers| <= max && GoodHeaders(s, r.headers, msgEnd, n)
  }

  lemma ResponseShape(s: bytes, max: nat)
    ensures var parsed := ParseResponse(s, max); parsed.Ok? ==> GoodResponse(s, parsed.pos, parsed.value, max)
  {
    hide Headers, SkipSpaces, HttpVersion, Status;
    if ParseResponse(s, max).Ok? {
      var h, line := StatusLine(s).pos, StatusLine(s).value;
      HeadersGood(s, line.2.start + line.2.len, h, [], max);
    }
  }
}
