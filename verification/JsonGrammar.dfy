/** What the parser of cjson.c accepts, position by position. */
module JsonGrammar {
  import opened Bytes
  import opened JsonString
  import opened JsonTree

  /** OtherNumber: the text holds a number that is not a 32-bit integer written in decimal digits. */
  datatype Outcome<+T> = Parsed(next: nat, value: T) | Rejected | OtherNumber {
    predicate IsFailure() {
      !Parsed?
    }

    function PropagateFailure<U>(): Outcome<U>
      requires !Parsed?
    {
      if Rejected? then Outcome<U>.Rejected else Outcome<U>.OtherNumber
    }

    function Extract(): (nat, T)
      requires Parsed?
    {
      (next, value)
    }
  }

  /** Past the white space; at the end of the text, back to its last byte. */
  function SkipWhitespace(s: bytes, i: nat): (r: nat)
    ensures i <= r
    ensures i <= |s| ==> r <= |s|
    ensures i < |s| ==> r < |s|
  {
    if i >= |s| then i
    else
      var j := Scan(s, i, c => c > 32);
      if j == |s| then j - 1 else j
  }

  lemma SkipBounds(s: bytes, i: nat)
    requires i <= |s|
    ensures i <= SkipWhitespace(s, i) <= |s| && (i < |s| ==> SkipWhitespace(s, i) < |s|)
  {}

  // ---------------------------------------------------------------------------------------------
  // Numbers
  // ---------------------------------------------------------------------------------------------

  predicate IsExponentMark(c: byte) {
    c == 'e' as int || c == 'E' as int
  }

  predicate IsNumberChar(c: byte) {
    IsDigit(c) || c == '+' as int || c == MINUS || IsExponentMark(c) || c == '.' as int
  }

  const NUMBER_SIZE: nat := 64

  /** The characters that are handed to strtod: at most 63 of them. */
  function NumberText(s: bytes, i: nat): (r: bytes)
    requires i <= |s|
    ensures i + |r| <= |s|
  {
    var end := Scan(s, i, (c: byte) => !IsNumberChar(c));
    s[i..if end - i < NUMBER_SIZE then end else i + NUMBER_SIZE - 1]
  }

  function Value(digits: bytes): int {
    if digits == [] then 0 else 10 * Value(digits[..|digits| - 1]) + digits[|digits| - 1] - '0' as int
  }

  predicate DigitAt(t: bytes, i: nat) {
    i < |t| && IsDigit(t[i])
  }

  predicate HasExponent(t: bytes, i: nat) {
    && i < |t| && IsExponentMark(t[i])
    && (DigitAt(t, i + 1) || (i + 1 < |t| && (t[i + 1] == '+' as int || t[i + 1] == MINUS) && DigitAt(t, i + 2)))
  }

  /** strtod on a text that begins with a minus sign or a digit: the number of characters it takes, and the
      number when it is an integer without fraction or exponent. */
  function DecimalPrefix(t: bytes): (r: Outcome<int>)
    ensures r.Parsed? ==> 0 < r.next <= |t|
  {
    var start := if t != [] && t[0] == MINUS then 1 else 0;
    var end := Scan(t, start, (c: byte) => !IsDigit(c));
    if end < |t| && t[end] == '.' as int && (start < end || DigitAt(t, end + 1)) then OtherNumber
    else if end == start then Rejected
    else if HasExponent(t, end) then OtherNumber
    else
      var n := Value(t[start..end]);
      Parsed(end, if start == 1 then -n else n)
  }

  function ParseNumber(s: bytes, i: nat): (r: Outcome<Json>)
    requires i <= |s|
    ensures r.Parsed? ==> i < r.next <= |s|
  {
    var (length, n) :- DecimalPrefix(NumberText(s, i));
    if -0x8000_0000 <= n <= 0x7fff_ffff then Parsed(i + length, Num(n)) else OtherNumber
  }

  // ---------------------------------------------------------------------------------------------
  // Strings, arrays, objects
  // ---------------------------------------------------------------------------------------------

  /** What a C program sees of some bytes. */
  function CString(t: bytes): cstring {
    t[..Scan(t, 0, c => c == 0)]
  }

  function ParseString(s: bytes, i: nat): (r: Outcome<cstring>)
    requires i < |s|
    ensures r.Parsed? ==> i < r.next <= |s|
  {
    if s[i] != QUOTE then Rejected
    else
      match FindEnd(s, i + 1)
      case None => Rejected
      case Some(end) =>
        match Unescape(s, i + 1, end)
        case None => Rejected
        case Some(t) => Parsed(end + 1, CString(t))
  }

  predicate Is(s: bytes, i: nat, c: byte) {
    i < |s| && s[i] == c
  }

  function ParseValue(s: bytes, i: nat, depth: nat): (r: Outcome<Json>)
    requires i <= |s|
    ensures r.Parsed? ==> i < r.next <= |s|
    decreases |s| - i, 1
  {
    if At(s, i, NULL_TEXT) then Parsed(i + 4, Null)
    else if At(s, i, FALSE_TEXT) then Parsed(i + 5, False)
    else if At(s, i, TRUE_TEXT) then Parsed(i + 4, True)
    else if Is(s, i, QUOTE) then
      var (next, t) :- ParseString(s, i);
      Parsed(next, Str(t))
    else if i < |s| && (s[i] == MINUS || IsDigit(s[i])) then ParseNumber(s, i)
    else if Is(s, i, OPEN_ARRAY) then ParseArray(s, i, depth)
    else if Is(s, i, OPEN_OBJECT) then ParseObject(s, i, depth)
    else Rejected
  }

  function ParseArray(s: bytes, i: nat, depth: nat): (r: Outcome<Json>)
    requires i < |s|
    ensures r.Parsed? ==> i < r.next <= |s|
    decreases |s| - i, 0
  {
    var j := SkipWhitespace(s, i + 1);
    if depth >= NESTING_LIMIT then Rejected
    else if Is(s, j, CLOSE_ARRAY) then Parsed(j + 1, Arr([]))
    else
      var (next, items) :- ParseItems(s, j, depth + 1);
      Parsed(next, Arr(items))
  }

  /** The items from j to the closing bracket. */
  function ParseItems(s: bytes, j: nat, depth: nat): (r: Outcome<seq<Json>>)
    requires j <= |s|
    ensures r.Parsed? ==> j < r.next <= |s|
    decreases |s| - j, 2
  {
    var (afterValue, v) :- ParseValue(s, j, depth);
    var k := SkipWhitespace(s, afterValue);
    if Is(s, k, COMMA) then
      var (next, rest) :- ParseItems(s, SkipWhitespace(s, k + 1), depth);
      Parsed(next, [v] + rest)
    else if Is(s, k, CLOSE_ARRAY) then Parsed(k + 1, [v])
    else Rejected
  }

  function ParseObject(s: bytes, i: nat, depth: nat): (r: Outcome<Json>)
    requires i < |s|
    ensures r.Parsed? ==> i < r.next <= |s|
    decreases |s| - i, 0
  {
    var j := SkipWhitespace(s, i + 1);
    if depth >= NESTING_LIMIT then Rejected
    else if Is(s, j, CLOSE_OBJECT) then Parsed(j + 1, Obj([]))
    else
      var (next, members) :- ParseMembers(s, j, depth + 1);
      Parsed(next, Obj(members))
  }

  /** A name and its value, from j, which is past the white space. */
  function ParseMember(s: bytes, j: nat, depth: nat): (r: Outcome<Member>)
    requires j <= |s|
    ensures r.Parsed? ==> j < r.next <= |s|
    decreases |s| - j, 1
  {
    if j == |s| then Rejected
    else
      var (afterKey, key) :- ParseString(s, j);
      var k := SkipWhitespace(s, afterKey);
      if !Is(s, k, COLON) then Rejected
      else
        var (next, v) :- ParseValue(s, SkipWhitespace(s, k + 1), depth);
        Parsed(next, Member(key, v))
  }

  function ParseMembers(s: bytes, j: nat, depth: nat): (r: Outcome<seq<Member>>)
    requires j <= |s|
    ensures r.Parsed? ==> j < r.next <= |s|
    decreases |s| - j, 2
  {
    var (afterValue, m) :- ParseMember(s, j, depth);
    var k := SkipWhitespace(s, afterValue);
    if Is(s, k, COMMA) then
      var (next, rest) :- ParseMembers(s, SkipWhitespace(s, k + 1), depth);
      Parsed(next, [m] + rest)
    else if Is(s, k, CLOSE_OBJECT) then Parsed(k + 1, [m])
    else Rejected
  }

  // ---------------------------------------------------------------------------------------------
  // Whole documents
  // ---------------------------------------------------------------------------------------------

  const BOM: bytes := [0xef, 0xbb, 0xbf]

  /** cJSON_ParseWithLengthOpts on a buffer of |s| bytes. */
  function ParseDocument(s: bytes, requireNullTerminated: bool): (r: Outcome<Json>) {
    if s == [] then Rejected
    else
      var start := SkipWhitespace(s, if |s| > 4 && At(s, 0, BOM) then 3 else 0);
      var (next, v) :- ParseValue(s, start, 0);
      if !requireNullTerminated then Parsed(next, v)
      else
        var end := SkipWhitespace(s, next);
        if Is(s, end, 0) then Parsed(end, v) else Rejected
  }
}
