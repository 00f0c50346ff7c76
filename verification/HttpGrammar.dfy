/** What the HTTP/1.x parsers of http_parser.c accept, position by position.

    Every piece answers as the source does: where it stopped and what it read, -1 for a text that can never
    be accepted, or -2 for a text that has to grow first. */
module HttpGrammar {
  import opened Bytes

  datatype Res<+T> = Ok(pos: nat, value: T) | Bad | Partial {
    predicate IsFailure() {
      !Ok?
    }

    function PropagateFailure<U>(): Res<U>
      requires !Ok?
    {
      if Bad? then Res<U>.Bad else Res<U>.Partial
    }

    function Extract(): (nat, T)
      requires Ok?
    {
      (pos, value)
    }
  }

  /** A slice of the caller's buffer. */
  datatype Slice = Slice(start: nat, len: nat)

  /** A header line; a line that continues the one before has no name. */
  datatype Header = Header(name: Option<Slice>, value: Slice)

  datatype Request = Request(httpMethod: Slice, path: Slice, minorVersion: int, headers: seq<Header>)

  datatype Response = Response(minorVersion: int, status: int, msg: Slice, headers: seq<Header>)

  // ---------------------------------------------------------------------------------------------
  // Characters
  // ---------------------------------------------------------------------------------------------

  predicate IsPrintableAscii(c: byte) {
    32 <= c < 127
  }

  /** What ends a line of text: a control character other than the tab. */
  predicate IsCtl(c: byte) {
    (c < 32 && c != TAB) || c == 127
  }

  /** The ones of token_char_map, row by row. */
  predicate IsTokenChar(c: byte) {
    || c == '!' as int || '#' as int <= c <= '\'' as int || c == '*' as int || c == '+' as int
    || c == '-' as int || c == '.' as int || IsDigit(c)
    || 'A' as int <= c <= 'Z' as int || c == '^' as int || c == '_' as int
    || c == '`' as int || 'a' as int <= c <= 'z' as int || c == '|' as int || c == '~' as int
  }

  predicate NotSpace(c: byte) {
    c != SP
  }

  predicate NotBlank(c: byte) {
    c != SP && c != TAB
  }

  predicate EndsPath(c: byte) {
    c <= 32 || c == 127
  }

  function EndsToken(next: byte): byte -> bool {
    (c: byte) => c == next || !IsTokenChar(c)
  }

  // ---------------------------------------------------------------------------------------------
  // Pieces
  // ---------------------------------------------------------------------------------------------

  /** A line end: LF, or CR LF. */
  function NewLine(s: bytes, i: nat): (r: Res<()>)
    requires i < |s|
    ensures r.Ok? ==> i < r.pos <= |s| && s[r.pos - 1] == LF && (r.pos == i + 1 || (r.pos == i + 2 && s[i] == CR))
    ensures r.Ok? ==> s[i] == CR || s[i] == LF
  {
    if s[i] == CR then
      if i + 1 == |s| then Partial
      else if s[i + 1] == LF then Ok(i + 2, ())
      else Bad
    else if s[i] == LF then Ok(i + 1, ())
    else Bad
  }

  /** Text up to the end of the line; its length is the value. */
  function TokenToEol(s: bytes, i: nat): (r: Res<nat>)
    requires i <= |s|
    ensures r.Ok? ==> i + r.value < r.pos <= |s| && s[r.pos - 1] == LF
    ensures r.Ok? ==> forall k | i <= k < i + r.value :: !IsCtl(s[k])
    ensures r.Ok? ==> r.pos == i + r.value + 1 || (r.pos == i + r.value + 2 && s[i + r.value] == CR)
    ensures r.Ok? ==> s[i + r.value] == CR || s[i + r.value] == LF
  {
    var e := Scan(s, i, IsCtl);
    if e == |s| then Partial
    else
      var (n, _) :- NewLine(s, e);
      Ok(n, e - i)
  }

  /** A token that ends at next. */
  function Token(s: bytes, i: nat, next: byte): (r: Res<nat>)
    requires i <= |s|
    ensures r.Ok? ==> r.pos == i + r.value < |s| && s[r.pos] == next
    ensures r.Ok? ==> forall k | i <= k < r.pos :: IsTokenChar(s[k]) && s[k] != next
  {
    var e := Scan(s, i, EndsToken(next));
    if e == |s| then Partial
    else if s[e] == next then Ok(e, e - i)
    else Bad
  }

  /** One byte and the spaces after it. */
  function SkipSpaces(s: bytes, i: nat): (r: Res<()>)
    requires i < |s|
    ensures r.Ok? ==> i < r.pos < |s| && s[r.pos] != SP && forall k | i < k < r.pos :: s[k] == SP
  {
    var e := Scan(s, i + 1, NotSpace);
    if e == |s| then Partial else Ok(e, ())
  }

  function Path(s: bytes, i: nat): (r: Res<nat>)
    requires i <= |s|
    ensures r.Ok? ==> r.pos == i + r.value < |s| && s[r.pos] == SP && forall k | i <= k < r.pos :: !EndsPath(s[k])
  {
    var e := Scan(s, i, EndsPath);
    if e == |s| then Partial
    else if s[e] == SP then Ok(e, e - i)
    else Bad
  }

  const HTTP_1: bytes := ['H' as int, 'T' as int, 'T' as int, 'P' as int, '/' as int, '1' as int, '.' as int]

  /** HTTP/1.x, not looked at before one more byte is there. */
  function HttpVersion(s: bytes, i: nat): (r: Res<int>)
    requires i <= |s|
    ensures r.Ok? ==> r.pos == i + 8 < |s| && 0 <= r.value <= 9
    ensures r.Ok? ==> forall k | i <= k < i + 8 :: s[k] != CR
  {
    if |s| - i < 9 then Partial
    else if s[i] != HTTP_1[0] || s[i + 1] != HTTP_1[1] || s[i + 2] != HTTP_1[2] || s[i + 3] != HTTP_1[3]
         || s[i + 4] != HTTP_1[4] || s[i + 5] != HTTP_1[5] || s[i + 6] != HTTP_1[6] then Bad
    else if !IsDigit(s[i + 7]) then Bad
    else Ok(i + 8, s[i + 7] - '0' as int)
  }

  /** Three digits, not looked at before one more byte is there. */
  function Status(s: bytes, i: nat): (r: Res<int>)
    requires i <= |s|
    ensures r.Ok? ==> r.pos == i + 3 < |s| && 0 <= r.value <= 999
    ensures r.Ok? ==> forall k | i <= k < i + 3 :: s[k] != CR
  {
    if |s| - i < 4 then Partial
    else if !IsDigit(s[i]) || !IsDigit(s[i + 1]) || !IsDigit(s[i + 2]) then Bad
    else Ok(i + 3, 100 * (s[i] - '0' as int) + 10 * (s[i + 1] - '0' as int) + (s[i + 2] - '0' as int))
  }

  // ---------------------------------------------------------------------------------------------
  // Header lines
  // ---------------------------------------------------------------------------------------------

  /** Where the text [a..b) ends once trailing spaces and tabs are cut off. */
  function TrimEnd(s: bytes, a: nat, b: nat): (e: nat)
    requires a <= b <= |s|
    ensures a <= e <= b
    ensures e > a ==> NotBlank(s[e - 1])
    ensures forall k | e <= k < b :: !NotBlank(s[k])
  {
    if a < b && !NotBlank(s[b - 1]) then TrimEnd(s, a, b - 1) else b
  }

  /** The name of a header line and the blanks after its colon; the position is where the value starts. */
  function HeaderName(s: bytes, i: nat, first: bool): (r: Res<Option<Slice>>)
    requires i < |s|
    ensures r.Ok? ==> i <= r.pos < |s|
    ensures r.Ok? && r.value.Some? ==> r.value.value.start == i && 0 < r.value.value.len < r.pos - i
    ensures r.Ok? && r.value.Some? ==> forall k | i <= k < i + r.value.value.len :: IsTokenChar(s[k])
    ensures r.Ok? && r.value.None? ==> !first && r.pos == i
    ensures r.Ok? ==> forall k | i <= k < r.pos :: s[k] != CR
  {
    if !first && !NotBlank(s[i]) then Ok(i, None)
    else
      var (colon, len) :- Token(s, i, ':' as int);
      if len == 0 then Bad
      else
        var v := Scan(s, colon + 1, NotBlank);
        if v == |s| then Partial else Ok(v, Some(Slice(i, len)))
  }

  function HeaderLine(s: bytes, i: nat, first: bool): (r: Res<Header>)
    requires i < |s|
    ensures r.Ok? ==> i < r.pos <= |s|
  {
    var (v, name) :- HeaderName(s, i, first);
    var (n, len) :- TokenToEol(s, v);
    Ok(n, Header(name, Slice(v, TrimEnd(s, v, v + len) - v)))
  }

  predicate AtLineEnd(s: bytes, i: nat)
    requires i < |s|
  {
    s[i] == CR || s[i] == LF
  }

  /** Header lines up to and with the empty line; hs are those already read, at most max are taken. */
  function Headers(s: bytes, i: nat, hs: seq<Header>, max: nat): (r: Res<seq<Header>>)
    requires i <= |s|
    ensures r.Ok? ==> i < r.pos <= |s|
    decreases |s| - i
  {
    if i == |s| then Partial
    else if AtLineEnd(s, i) then
      var (n, _) :- NewLine(s, i);
      Ok(n, hs)
    else if |hs| == max then Bad
    else
      var (n, h) :- HeaderLine(s, i, |hs| == 0);
      Headers(s, n, hs + [h], max)
  }

  // ---------------------------------------------------------------------------------------------
  // Messages
  // ---------------------------------------------------------------------------------------------

  /** An empty line before the request is skipped. */
  function LeadingLine(s: bytes): (r: Res<()>)
    ensures r.Ok? ==> r.pos <= |s|
    ensures !r.Partial? ==> |s| > 0
  {
    if |s| == 0 then Partial
    else if AtLineEnd(s, 0) then NewLine(s, 0)
    else Ok(0, ())
  }

  /** The request line: method, path and version. */
  function RequestLine(s: bytes, i: nat): (r: Res<(Slice, Slice, int)>)
    requires i <= |s|
    ensures r.Ok? ==> i < r.pos <= |s|
  {
    var (m, methodLen) :- Token(s, i, SP);
    var (p, _) :- SkipSpaces(s, m);
    var (q, pathLen) :- Path(s, p);
    var (v, _) :- SkipSpaces(s, q);
    if methodLen == 0 || pathLen == 0 then Bad
    else
      var (e, minor) :- HttpVersion(s, v);
      var (n, _) :- NewLine(s, e);
      Ok(n, (Slice(i, methodLen), Slice(p, pathLen), minor))
  }

  function ParseRequest(s: bytes, max: nat): (r: Res<Request>)
    ensures r.Ok? ==> 0 < r.pos <= |s|
  {
    var (i, _) :- LeadingLine(s);
    var (h, line) :- RequestLine(s, i);
    var (n, hs) :- Headers(s, h, [], max);
    Ok(n, Request(line.0, line.1, line.2, hs))
  }

  /** The reason phrase without the spaces before it; anything else than a space first is an error. */
  function Reason(s: bytes, i: nat): (r: Res<Slice>)
    requires i <= |s|
    ensures r.Ok? ==> i < r.pos <= |s| && i <= r.value.start && r.value.start + r.value.len < r.pos
  {
    var (n, len) :- TokenToEol(s, i);
    if len == 0 then Ok(n, Slice(i, 0))
    else if s[i] != SP then Bad
    else
      var m := Scan(s, i, NotSpace);
      assert m <= i + len by {
        assert NotSpace(s[i + len]);
      }
      Ok(n, Slice(m, i + len - m))
  }

  function StatusLine(s: bytes): (r: Res<(int, int, Slice)>)
    ensures r.Ok? ==> 0 < r.pos <= |s|
  {
    var (v, minor) :- HttpVersion(s, 0);
    if s[v] != SP then Bad
    else
      var (q, _) :- SkipSpaces(s, v);
      var (m, status) :- Status(s, q);
      var (n, msg) :- Reason(s, m);
      Ok(n, (minor, status, msg))
  }

  function ParseResponse(s: bytes, max: nat): (r: Res<Response>)
    ensures r.Ok? ==> 0 < r.pos <= |s|
  {
    var (h, line) :- StatusLine(s);
    var (n, hs) :- Headers(s, h, [], max);
    Ok(n, Response(line.0, line.1, line.2, hs))
  }

  function ParseHeaders(s: bytes, max: nat): (r: Res<seq<Header>>)
    ensures r.Ok? ==> 0 < r.pos <= |s|
  {
    Headers(s, 0, [], max)
  }

  // ---------------------------------------------------------------------------------------------
  // The fast check for the end of the header block
  // ---------------------------------------------------------------------------------------------

  /** Whether two line ends in a row lie at or after i; lines of them were just passed. */
  function BlankLine(s: bytes, i: nat, lines: nat): (r: Res<()>)
    requires i <= |s| && lines < 2
    ensures r.Ok? ==> i < r.pos <= |s|
    decreases |s| - i
  {
    if i == |s| then Partial
    else if AtLineEnd(s, i) then
      var (n, _) :- NewLine(s, i);
      if lines + 1 == 2 then Ok(n, ()) else BlankLine(s, n, lines + 1)
    else BlankLine(s, i + 1, 0)
  }

  /** Three bytes before the end of what was there at the last call. */
  function ScanStart(lastLen: nat): nat {
    if lastLen < 3 then 0 else lastLen - 3
  }

  function IsComplete(s: bytes, lastLen: nat): Res<()>
    requires lastLen <= |s|
  {
    BlankLine(s, ScanStart(lastLen), 0)
  }

  /** A parse that first makes the fast check, unless there was no earlier call. */
  function Shortcut<T>(s: bytes, lastLen: nat, full: Res<T>): Res<T>
    requires lastLen <= |s|
  {
    if lastLen != 0 && IsComplete(s, lastLen).IsFailure() then IsComplete(s, lastLen).PropagateFailure() else full
  }
}
