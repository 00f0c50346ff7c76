/** The parsers are re-run on a growing buffer: an answer other than -2 never changes, and a success
    depends only on the bytes it consumed. */
module HttpStability {
  import opened Bytes
  import opened HttpGrammar

  /** s and t start with the same m bytes. */
  ghost predicate Agree(s: bytes, t: bytes, m: nat) {
    m <= |s| && m <= |t| && forall k | 0 <= k < m :: s[k] == t[k]
  }

  /** An answer on s that no byte from m on had a part in, when it read `ahead` bytes past its end. */
  ghost predicate Decided<T>(s: bytes, r: Res<T>, ahead: nat, m: nat) {
    match r
    case Ok(n, _) => n + ahead <= m
    case Bad => m == |s|
    case Partial => false
  }

  lemma ScanStable(s: bytes, t: bytes, m: nat, i: nat, stop: byte -> bool)
    requires Agree(s, t, m) && i <= |s| && Scan(s, i, stop) < m
    ensures Scan(t, i, stop) == Scan(s, i, stop)
  {
    ScanUnique(t, i, stop, Scan(s, i, stop));
  }

  lemma NewLineStable(s: bytes, t: bytes, m: nat, i: nat)
    requires i < |s| && Agree(s, t, m) && Decided(s, NewLine(s, i), 0, m)
    ensures i < |t| && NewLine(t, i) == NewLine(s, i)
  {}

  lemma TokenToEolStable(s: bytes, t: bytes, m: nat, i: nat)
    requires i <= |s| && Agree(s, t, m) && Decided(s, TokenToEol(s, i), 0, m)
    ensures i <= |t| && TokenToEol(t, i) == TokenToEol(s, i)
  {
    ScanStable(s, t, m, i, IsCtl);
    NewLineStable(s, t, m, Scan(s, i, IsCtl));
  }

  lemma TokenStable(s: bytes, t: bytes, m: nat, i: nat, next: byte)
    requires i <= |s| && Agree(s, t, m) && Decided(s, Token(s, i, next), 1, m)
    ensures i <= |t| && Token(t, i, next) == Token(s, i, next)
  {
    ScanStable(s, t, m, i, EndsToken(next));
  }

  lemma SkipSpacesStable(s: bytes, t: bytes, m: nat, i: nat)
    requires i < |s| && Agree(s, t, m) && Decided(s, SkipSpaces(s, i), 1, m)
    ensures i < |t| && SkipSpaces(t, i) == SkipSpaces(s, i)
  {
    ScanStable(s, t, m, i + 1, NotSpace);
  }

  lemma PathStable(s: bytes, t: bytes, m: nat, i: nat)
    requires i <= |s| && Agree(s, t, m) && Decided(s, Path(s, i), 1, m)
    ensures i <= |t| && Path(t, i) == Path(s, i)
  {
    ScanStable(s, t, m, i, EndsPath);
  }

  lemma HttpVersionStable(s: bytes, t: bytes, m: nat, i: nat)
    requires i <= |s| && Agree(s, t, m) && Decided(s, HttpVersion(s, i), 1, m)
    ensures i <= |t| && HttpVersion(t, i) == HttpVersion(s, i)
  {}

  lemma StatusStable(s: bytes, t: bytes, m: nat, i: nat)
    requires i <= |s| && Agree(s, t, m) && Decided(s, Status(s, i), 1, m)
    ensures i <= |t| && Status(t, i) == Status(s, i)
  {}

  lemma {:induction false} TrimEndStable(s: bytes, t: bytes, m: nat, a: nat, b: nat)
    requires Agree(s, t, m) && a <= b <= m
    ensures TrimEnd(t, a, b) == TrimEnd(s, a, b)
    decreases b - a
  {
    if a < b && !NotBlank(s[b - 1]) {
      TrimEndStable(s, t, m, a, b - 1);
    }
  }

  lemma HeaderNameStable(s: bytes, t: bytes, m: nat, i: nat, first: bool)
    requires i < |s| && Agree(s, t, m) && Decided(s, HeaderName(s, i, first), 1, m)
    ensures i < |t| && HeaderName(t, i, first) == HeaderName(s, i, first)
  {
    if first || NotBlank(s[i]) {
      var token := Token(s, i, ':' as int);
      TokenStable(s, t, m, i, ':' as int);
      if token.Ok? && token.value > 0 {
        ScanStable(s, t, m, token.pos + 1, NotBlank);
      }
    }
  }

  lemma HeaderLineStable(s: bytes, t: bytes, m: nat, i: nat, first: bool)
    requires i < |s| && Agree(s, t, m) && Decided(s, HeaderLine(s, i, first), 0, m)
    ensures i < |t| && HeaderLine(t, i, first) == HeaderLine(s, i, first)
  {
    hide HeaderName, TokenToEol, TrimEnd;
    HeaderNameStable(s, t, m, i, first);
    var name := HeaderName(s, i, first);
    if name.Ok? {
      TokenToEolStable(s, t, m, name.pos);
      var eol := TokenToEol(s, name.pos);
      if eol.Ok? {
        TrimEndStable(s, t, m, name.pos, name.pos + eol.value);
      }
    }
  }

  lemma {:induction false} HeadersStable(s: bytes, t: bytes, m: nat, i: nat, hs: seq<Header>, max: nat)
    requires i <= |s| && Agree(s, t, m) && Decided(s, Headers(s, i, hs, max), 0, m)
    ensures i <= |t| && Headers(t, i, hs, max) == Headers(s, i, hs, max)
    decreases |s| - i
  {
    hide HeaderLine, NewLine;
    if AtLineEnd(s, i) {
      NewLineStable(s, t, m, i);
    } else if |hs| != max {
      HeaderLineStable(s, t, m, i, |hs| == 0);
      var line := HeaderLine(s, i, |hs| == 0);
      if line.Ok? {
        HeadersStable(s, t, m, line.pos, hs + [line.value], max);
      }
    }
  }

  lemma LeadingLineStable(s: bytes, t: bytes, m: nat)
    requires |s| > 0 && m > 0 && Agree(s, t, m) && Decided(s, LeadingLine(s), 0, m)
    ensures LeadingLine(t) == LeadingLine(s)
  {
    if AtLineEnd(s, 0) {
      NewLineStable(s, t, m, 0);
    }
  }

  lemma RequestLineStable(s: bytes, t: bytes, m: nat, i: nat)
    requires i <= |s| && Agree(s, t, m) && Decided(s, RequestLine(s, i), 0, m)
    ensures i <= |t| && RequestLine(t, i) == RequestLine(s, i)
  {
    hide Token, SkipSpaces, Path, HttpVersion, NewLine;
    var r1 := Token(s, i, SP);
    TokenStable(s, t, m, i, SP);
    if r1.Ok? {
      SkipSpacesStable(s, t, m, r1.pos);
      var r2 := SkipSpaces(s, r1.pos);
      if r2.Ok? {
        PathStable(s, t, m, r2.pos);
        var r3 := Path(s, r2.pos);
        if r3.Ok? {
          SkipSpacesStable(s, t, m, r3.pos);
          var r4 := SkipSpaces(s, r3.pos);
          if r4.Ok? && r1.value > 0 && r3.value > 0 {
            HttpVersionStable(s, t, m, r4.pos);
            var r5 := HttpVersion(s, r4.pos);
            if r5.Ok? {
              NewLineStable(s, t, m, r5.pos);
            }
          }
        }
      }
    }
  }

  lemma ReasonStable(s: bytes, t: bytes, m: nat, i: nat)
    requires i <= |s| && Agree(s, t, m) && Decided(s, Reason(s, i), 0, m)
    ensures i <= |t| && Reason(t, i) == Reason(s, i)
  {
    hide TokenToEol;
    TokenToEolStable(s, t, m, i);
    var eol := TokenToEol(s, i);
    if eol.Ok? && eol.value > 0 && s[i] == SP {
      assert NotSpace(s[i + eol.value]);
      ScanStable(s, t, m, i, NotSpace);
    }
  }

  lemma StatusLineStable(s: bytes, t: bytes, m: nat)
    requires Agree(s, t, m) && Decided(s, StatusLine(s), 0, m)
    ensures StatusLine(t) == StatusLine(s)
  {
    hide HttpVersion, SkipSpaces, Status, Reason;
    var r1 := HttpVersion(s, 0);
    HttpVersionStable(s, t, m, 0);
    if r1.Ok? && s[r1.pos] == SP {
      SkipSpacesStable(s, t, m, r1.pos);
      var r2 := SkipSpaces(s, r1.pos);
      if r2.Ok? {
        StatusStable(s, t, m, r2.pos);
        var r3 := Status(s, r2.pos);
        if r3.Ok? {
          ReasonStable(s, t, m, r3.pos);
        }
      }
    }
  }

  lemma RequestStable(s: bytes, t: bytes, m: nat, max: nat)
    requires Agree(s, t, m) && Decided(s, ParseRequest(s, max), 0, m)
    ensures ParseRequest(t, max) == ParseRequest(s, max)
  {
    hide LeadingLine, RequestLine, Headers;
    var r1 := LeadingLine(s);
    LeadingLineStable(s, t, m);
    if r1.Ok? {
      RequestLineStable(s, t, m, r1.pos);
      var r2 := RequestLine(s, r1.pos);
      if r2.Ok? {
        HeadersStable(s, t, m, r2.pos, [], max);
      }
    }
  }

  lemma ResponseStable(s: bytes, t: bytes, m: nat, max: nat)
    requires Agree(s, t, m) && Decided(s, ParseResponse(s, max), 0, m)
    ensures ParseResponse(t, max) == ParseResponse(s, max)
  {
    hide StatusLine, Headers;
    StatusLineStable(s, t, m);
    var r := StatusLine(s);
    if r.Ok? {
      HeadersStable(s, t, m, r.pos, [], max);
    }
  }

  // ---------------------------------------------------------------------------------------------
  // The promises of the three entry points when no earlier length is given
  // ---------------------------------------------------------------------------------------------

  /** Answers about a request are final, and a success stands on the bytes it consumed alone. */
  lemma RequestFinal(s: bytes, x: bytes, t: bytes, max: nat)
    ensures !ParseRequest(s, max).Partial? ==> ParseRequest(s + x, max) == ParseRequest(s, max)
    ensures ParseRequest(s, max).Ok? && Agree(s, t, ParseRequest(s, max).pos) ==> ParseRequest(t, max) == ParseRequest(s, max)
    ensures ParseRequest(s, max).Ok? ==> ParseRequest(s[..ParseRequest(s, max).pos], max) == ParseRequest(s, max)
  {
    hide ParseRequest;
    var r := ParseRequest(s, max);
    if !r.Partial? {
      RequestStable(s, s + x, |s|, max);
    }
    if r.Ok? {
      RequestStable(s, s[..r.pos], r.pos, max);
      if Agree(s, t, r.pos) {
        RequestStable(s, t, r.pos, max);
      }
    }
  }

  /** The same of responses. */
  lemma ResponseFinal(s: bytes, x: bytes, t: bytes, max: nat)
    ensures !ParseResponse(s, max).Partial? ==> ParseResponse(s + x, max) == ParseResponse(s, max)
    ensures ParseResponse(s, max).Ok? && Agree(s, t, ParseResponse(s, max).pos) ==> ParseResponse(t, max) == ParseResponse(s, max)
    ensures ParseResponse(s, max).Ok? ==> ParseResponse(s[..ParseResponse(s, max).pos], max) == ParseResponse(s, max)
  {
    hide ParseResponse;
    var r := ParseResponse(s, max);
    if !r.Partial? {
      ResponseStable(s, s + x, |s|, max);
    }
    if r.Ok? {
      ResponseStable(s, s[..r.pos], r.pos, max);
      if Agree(s, t, r.pos) {
        ResponseStable(s, t, r.pos, max);
      }
    }
  }

  /** The same of header blocks. */
  lemma HeadersFinal(s: bytes, x: bytes, t: bytes, max: nat)
    ensures !ParseHeaders(s, max).Partial? ==> ParseHeaders(s + x, max) == ParseHeaders(s, max)
    ensures ParseHeaders(s, max).Ok? && Agree(s, t, ParseHeaders(s, max).pos) ==> ParseHeaders(t, max) == ParseHeaders(s, max)
    ensures ParseHeaders(s, max).Ok? ==> ParseHeaders(s[..ParseHeaders(s, max).pos], max) == ParseHeaders(s, max)
  {
    hide Headers;
    var r := ParseHeaders(s, max);
    if !r.Partial? {
      HeadersStable(s, s + x, |s|, 0, [], max);
    }
    if r.Ok? {
      HeadersStable(s, s[..r.pos], r.pos, 0, [], max);
      if Agree(s, t, r.pos) {
        HeadersStable(s, t, r.pos, 0, [], max);
      }
    }
  }
}
