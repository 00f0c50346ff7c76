/** The parsers of http_parser.c: cursors that move over the caller's bytes, with the end-of-line scan
    unrolled eight times and the header array filled in place. */
module HttpParser {
  import opened Bytes
  import opened HttpGrammar
  import opened HttpBlankLine

  /** The int the entry points return. */
  function Code<T>(r: Res<T>): int {
    match r
    case Ok(n, _) => n
    case Bad => -1
    case Partial => -2
  }

  method GetTokenToEol(buf: bytes, start: nat) returns (r: Res<nat>)
    requires start <= |buf|
    ensures r == TokenToEol(buf, start)
  {
    var p := start;
    var foundCtl := false;
    while !foundCtl && |buf| - p >= 8
      invariant start <= p <= |buf|
      invariant forall k | start <= k < p :: !IsCtl(buf[k])
      invariant foundCtl ==> p < |buf| && IsCtl(buf[p])
      decreases !foundCtl, |buf| - p
    {
      // eight bytes without a look at the end of the buffer
      var n := 0;
      ghost var p0 := p;
      while n < 8 && IsPrintableAscii(buf[p])
        invariant 0 <= n <= 8 && p == p0 + n
        invariant forall k | start <= k < p :: !IsCtl(buf[k])
      {
        p := p + 1;
        n := n + 1;
      }
      if n < 8 {
        if IsCtl(buf[p]) {
          foundCtl := true;
        } else {
          p := p + 1;
        }
      }
    }
    while !foundCtl
      invariant start <= p <= |buf|
      invariant forall k | start <= k < p :: !IsCtl(buf[k])
      invariant foundCtl ==> p < |buf| && IsCtl(buf[p])
      decreases !foundCtl, |buf| - p
    {
      if p == |buf| {
        ScanUnique(buf, start, IsCtl, p);
        return Partial;
      }
      if !IsPrintableAscii(buf[p]) && IsCtl(buf[p]) {
        foundCtl := true;
      } else {
        p := p + 1;
      }
    }
    ScanUnique(buf, start, IsCtl, p);
    var len := p - start;
    if buf[p] == CR {
      p := p + 1;
      if p == |buf| {
        return Partial;
      }
      if buf[p] != LF {
        return Bad;
      }
      p := p + 1;
      return Ok(p, p - 2 - start);
    } else if buf[p] == LF {
      return Ok(p + 1, len);
    } else {
      return Bad;
    }
  }

  /** is_complete: a blank line from three bytes before the place given, else a bare carriage return, else neither. */
  method IsCompleteLoop(buf: bytes, lastLen: nat) returns (r: Res<()>)
    requires lastLen <= |buf|
    ensures r == IsComplete(buf, lastLen)
    ensures var i := if lastLen < 3 then 0 else lastLen - 3;
            && (r.Ok? <==> Blank(buf, i))
            && (r.Bad? <==> !Blank(buf, i) && HasBareCr(buf, i))
  {
    hide Blank, HasBareCr;
    ScanMeans(buf, ScanStart(lastLen));
    var lines := 0;
    var p := if lastLen < 3 then 0 else lastLen - 3;
    while true
      invariant p <= |buf| && 0 <= lines < 2
      invariant IsComplete(buf, lastLen) == BlankLine(buf, p, lines)
      decreases |buf| - p
    {
      if p == |buf| {
        return Partial;
      }
      if buf[p] == CR {
        p := p + 1;
        if p == |buf| {
          return Partial;
        }
        if buf[p] != LF {
          return Bad;
        }
        p := p + 1;
        lines := lines + 1;
      } else if buf[p] == LF {
        p := p + 1;
        lines := lines + 1;
      } else {
        p := p + 1;
        lines := 0;
      }
      if lines == 2 {
        return Ok(p, ());
      }
    }
  }

  method ParseToken(buf: bytes, start: nat, next: byte) returns (r: Res<nat>)
    requires start <= |buf|
    ensures r == Token(buf, start, next)
  {
    var p := start;
    if p == |buf| {
      return Partial;
    }
    while true
      invariant start <= p < |buf|
      invariant forall k | start <= k < p :: !EndsToken(next)(buf[k])
      decreases |buf| - p
    {
      if buf[p] == next {
        break;
      } else if !IsTokenChar(buf[p]) {
        ScanUnique(buf, start, EndsToken(next), p);
        return Bad;
      }
      p := p + 1;
      if p == |buf| {
        ScanUnique(buf, start, EndsToken(next), p);
        return Partial;
      }
    }
    ScanUnique(buf, start, EndsToken(next), p);
    return Ok(p, p - start);
  }

  /** The do-while that steps over one byte and the spaces after it. */
  method StepOverSpaces(buf: bytes, start: nat) returns (r: Res<()>)
    requires start < |buf|
    ensures r == SkipSpaces(buf, start)
  {
    var p := start + 1;
    while p < |buf| && buf[p] == SP
      invariant start < p <= |buf|
      invariant forall k | start < k < p :: !NotSpace(buf[k])
    {
      p := p + 1;
    }
    ScanUnique(buf, start + 1, NotSpace, p);
    return if p == |buf| then Partial else Ok(p, ());
  }

  /** The text up to a space, by ADVANCE_TOKEN. */
  method AdvanceToken(buf: bytes, start: nat) returns (r: Res<nat>)
    requires start <= |buf|
    ensures r == Path(buf, start)
  {
    var p := start;
    if p == |buf| {
      return Partial;
    }
    while true
      invariant start <= p < |buf|
      invariant forall k | start <= k < p :: !EndsPath(buf[k])
      decreases |buf| - p
    {
      if buf[p] == SP {
        break;
      } else if !IsPrintableAscii(buf[p]) && (buf[p] < 32 || buf[p] == 127) {
        ScanUnique(buf, start, EndsPath, p);
        return Bad;
      }
      p := p + 1;
      if p == |buf| {
        ScanUnique(buf, start, EndsPath, p);
        return Partial;
      }
    }
    ScanUnique(buf, start, EndsPath, p);
    return Ok(p, p - start);
  }

  lemma HeadersUnfold(s: bytes, i: nat, hs: seq<Header>, max: nat)
    requires i <= |s|
    ensures Headers(s, i, hs, max) ==
            if i == |s| then Partial
            else if AtLineEnd(s, i) then
              match NewLine(s, i) { case Ok(n, _) => Ok(n, hs) case Bad => Bad case Partial => Partial }
            else if |hs| == max then Bad
            else match HeaderLine(s, i, |hs| == 0) {
              case Ok(n, h) => Headers(s, n, hs + [h], max)
              case Bad => Bad
              case Partial => Partial
            }
  {
    hide HeaderLine, NewLine;
  }

  /** The header loop; the array holds the headers, at most as many as it has room for. */
  method FillHeaders(buf: bytes, start: nat, headers: array<Header>) returns (r: Res<()>, numHeaders: nat)
    requires start <= |buf|
    modifies headers
    ensures numHeaders <= headers.Length
    ensures match Headers(buf, start, [], headers.Length)
            case Ok(n, hs) => r == Ok(n, ()) && headers[..numHeaders] == hs
            case Bad => r == Bad
            case Partial => r == Partial
  {
    hide HeaderLine, Headers;
    var p := start;
    numHeaders := 0;
    while true
      invariant start <= p <= |buf| && numHeaders <= headers.Length
      invariant Headers(buf, start, [], headers.Length) == Headers(buf, p, headers[..numHeaders], headers.Length)
      decreases |buf| - p
    {
      HeadersUnfold(buf, p, headers[..numHeaders], headers.Length);
      if p == |buf| {
        return Partial, numHeaders;
      }
      if buf[p] == CR || buf[p] == LF {
        var empty := EatNewLine(buf, p);
        return empty, numHeaders;
      }
      if numHeaders == headers.Length {
        return Bad, numHeaders;
      }
      var line := ReadHeaderLine(buf, p, numHeaders == 0);
      if line.IsFailure() {
        return line.PropagateFailure(), numHeaders;
      }
      ghost var hs := headers[..numHeaders];
      headers[numHeaders] := line.value;
      assert headers[..numHeaders + 1] == hs + [line.value];
      numHeaders := numHeaders + 1;
      p := line.pos;
    }
  }

  method ReadHeaderName(buf: bytes, start: nat, first: bool) returns (r: Res<Option<Slice>>)
    requires start < |buf|
    ensures r == HeaderName(buf, start, first)
  {
    hide Token;
    if !first && (buf[start] == SP || buf[start] == TAB) {
      return Ok(start, None);
    }
    var token := ParseToken(buf, start, ':' as int);
    if token.IsFailure() {
      return token.PropagateFailure();
    }
    if token.value == 0 {
      return Bad;
    }
    var p := token.pos + 1;
    while p < |buf| && (buf[p] == SP || buf[p] == TAB)
      invariant token.pos < p <= |buf|
      invariant forall k | token.pos < k < p :: !NotBlank(buf[k])
    {
      p := p + 1;
    }
    ScanUnique(buf, token.pos + 1, NotBlank, p);
    return if p == |buf| then Partial else Ok(p, Some(Slice(start, token.value)));
  }

  method CutTrailingBlanks(buf: bytes, value: nat, end: nat) returns (valueEnd: nat)
    requires value <= end <= |buf|
    ensures valueEnd == TrimEnd(buf, value, end)
  {
    valueEnd := end;
    while valueEnd != value && (buf[valueEnd - 1] == SP || buf[valueEnd - 1] == TAB)
      invariant value <= valueEnd <= end
      invariant TrimEnd(buf, value, end) == TrimEnd(buf, value, valueEnd)
    {
      valueEnd := valueEnd - 1;
    }
  }

  method ReadHeaderLine(buf: bytes, start: nat, first: bool) returns (r: Res<Header>)
    requires start < |buf|
    ensures r == HeaderLine(buf, start, first)
  {
    hide HeaderName, TokenToEol, TrimEnd;
    var name := ReadHeaderName(buf, start, first);
    if name.IsFailure() {
      return name.PropagateFailure();
    }
    var value := name.pos;
    var eol := GetTokenToEol(buf, value);
    if eol.IsFailure() {
      return eol.PropagateFailure();
    }
    var valueEnd := CutTrailingBlanks(buf, value, value + eol.value);
    return Ok(eol.pos, Header(name.value, Slice(value, valueEnd - value)));
  }

  method EatNewLine(buf: bytes, start: nat) returns (r: Res<()>)
    requires start < |buf|
    ensures r == NewLine(buf, start)
  {
    if buf[start] == CR {
      if start + 1 == |buf| {
        return Partial;
      }
      return if buf[start + 1] != LF then Bad else Ok(start + 2, ());
    } else if buf[start] == LF {
      return Ok(start + 1, ());
    }
    return Bad;
  }

  method ReadRequestLine(buf: bytes, start: nat) returns (r: Res<(Slice, Slice, int)>)
    requires start <= |buf|
    ensures r == RequestLine(buf, start)
  {
    hide Token, SkipSpaces, Path, HttpVersion, NewLine;
    var httpMethod := ParseToken(buf, start, SP);
    if httpMethod.IsFailure() {
      return httpMethod.PropagateFailure();
    }
    var spaces := StepOverSpaces(buf, httpMethod.pos);
    if spaces.IsFailure() {
      return spaces.PropagateFailure();
    }
    var path := AdvanceToken(buf, spaces.pos);
    if path.IsFailure() {
      return path.PropagateFailure();
    }
    var spaces2 := StepOverSpaces(buf, path.pos);
    if spaces2.IsFailure() {
      return spaces2.PropagateFailure();
    }
    if httpMethod.value == 0 || path.value == 0 {
      return Bad;
    }
    var version := HttpVersion(buf, spaces2.pos);
    if version.IsFailure() {
      return version.PropagateFailure();
    }
    var eol := EatNewLine(buf, version.pos);
    if eol.IsFailure() {
      return eol.PropagateFailure();
    }
    return Ok(eol.pos, (Slice(start, httpMethod.value), Slice(spaces.pos, path.value), version.value));
  }

  method ReadReason(buf: bytes, start: nat) returns (r: Res<Slice>)
    requires start <= |buf|
    ensures r == Reason(buf, start)
  {
    var eol := GetTokenToEol(buf, start);
    if eol.IsFailure() {
      return eol.PropagateFailure();
    }
    var msg, msgLen: nat := start, eol.value;
    if msgLen == 0 {
      return Ok(eol.pos, Slice(msg, 0));
    }
    if buf[msg] != SP {
      return Bad;
    }
    // no end to look for: the line ends in something other than a space
    assert NotSpace(buf[start + eol.value]);
    while buf[msg] == SP
      invariant start <= msg <= start + eol.value && msgLen == start + eol.value - msg
      invariant forall k | start <= k < msg :: !NotSpace(buf[k])
      decreases msgLen
    {
      msg, msgLen := msg + 1, msgLen - 1;
    }
    ScanUnique(buf, start, NotSpace, msg);
    return Ok(eol.pos, Slice(msg, msgLen));
  }

  method ReadStatusLine(buf: bytes) returns (r: Res<(int, int, Slice)>)
    ensures r == StatusLine(buf)
  {
    hide SkipSpaces, HttpVersion, Status, Reason;
    var version := HttpVersion(buf, 0);
    if version.IsFailure() {
      return version.PropagateFailure();
    }
    if buf[version.pos] != SP {
      return Bad;
    }
    var spaces := StepOverSpaces(buf, version.pos);
    if spaces.IsFailure() {
      return spaces.PropagateFailure();
    }
    var status := Status(buf, spaces.pos);
    if status.IsFailure() {
      return status.PropagateFailure();
    }
    var msg := ReadReason(buf, status.pos);
    if msg.IsFailure() {
      return msg.PropagateFailure();
    }
    return Ok(msg.pos, (version.value, status.value, msg.value));
  }

  /** phr_parse_request. The header array bounds how many headers are taken. */
  method PhrParseRequest(buf: bytes, headers: array<Header>, lastLen: nat)
      returns (ret: int, httpMethod: Slice, path: Slice, minorVersion: int, numHeaders: nat)
    requires lastLen <= |buf|
    modifies headers
    ensures numHeaders <= headers.Length
    ensures ret == match Shortcut(buf, lastLen, ParseRequest(buf, headers.Length)) { case Ok(n, _) => n case Bad => -1 case Partial => -2 }
    ensures ret >= 0 ==> ParseRequest(buf, headers.Length) == Ok(ret, Request(httpMethod, path, minorVersion, headers[..numHeaders]))
  {
    hide IsComplete, RequestLine, Headers;
    httpMethod, path, minorVersion, numHeaders := Slice(0, 0), Slice(0, 0), -1, 0;
    if lastLen != 0 {
      var complete := IsCompleteLoop(buf, lastLen);
      if complete.IsFailure() {
        ret := Code(complete);
        return;
      }
    }
    if |buf| == 0 {
      ret := -2;
      return;
    }
    var p := 0;
    if buf[0] == CR || buf[0] == LF {
      var empty := EatNewLine(buf, 0);
      if empty.IsFailure() {
        ret := Code(empty);
        return;
      }
      p := empty.pos;
    }
    var line := ReadRequestLine(buf, p);
    if line.IsFailure() {
      ret := Code(line);
      return;
    }
    var rest;
    rest, numHeaders := FillHeaders(buf, line.pos, headers);
    httpMethod, path, minorVersion := line.value.0, line.value.1, line.value.2;
    ret := Code(rest);
  }

  /** phr_parse_response. */
  method PhrParseResponse(buf: bytes, headers: array<Header>, lastLen: nat)
      returns (ret: int, minorVersion: int, status: int, msg: Slice, numHeaders: nat)
    requires lastLen <= |buf|
    modifies headers
    ensures numHeaders <= headers.Length
    ensures ret == match Shortcut(buf, lastLen, ParseResponse(buf, headers.Length)) { case Ok(n, _) => n case Bad => -1 case Partial => -2 }
    ensures ret >= 0 ==> ParseResponse(buf, headers.Length) == Ok(ret, Response(minorVersion, status, msg, headers[..numHeaders]))
  {
    hide IsComplete, StatusLine, Headers;
    minorVersion, status, msg, numHeaders := -1, 0, Slice(0, 0), 0;
    if lastLen != 0 {
      var complete := IsCompleteLoop(buf, lastLen);
      if complete.IsFailure() {
        ret := Code(complete);
        return;
      }
    }
    var line := ReadStatusLine(buf);
    if line.IsFailure() {
      ret := Code(line);
      return;
    }
    var rest;
    rest, numHeaders := FillHeaders(buf, line.pos, headers);
    minorVersion, status, msg := line.value.0, line.value.1, line.value.2;
    ret := Code(rest);
  }

  /** phr_parse_headers. */
  method PhrParseHeaders(buf: bytes, headers: array<Header>, lastLen: nat) returns (ret: int, numHeaders: nat)
    requires lastLen <= |buf|
    modifies headers
    ensures numHeaders <= headers.Length
    ensures ret == match Shortcut(buf, lastLen, ParseHeaders(buf, headers.Length)) { case Ok(n, _) => n case Bad => -1 case Partial => -2 }
    ensures ret >= 0 ==> ParseHeaders(buf, headers.Length) == Ok(ret, headers[..numHeaders])
  {
    hide IsComplete, Headers;
    numHeaders := 0;
    if lastLen != 0 {
      var complete := IsCompleteLoop(buf, lastLen);
      if complete.IsFailure() {
        ret := Code(complete);
        return;
      }
    }
    var rest;
    rest, numHeaders := FillHeaders(buf, 0, headers);
    ret := Code(rest);
  }
}
