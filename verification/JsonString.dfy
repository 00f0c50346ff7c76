/** String literals of JSON text: how cjson.c measures, decodes and writes them. */
module JsonString {
  import opened Bytes

  const QUOTE: byte := 34
  const BACKSLASH: byte := 92

  // ---------------------------------------------------------------------------------------------
  // The first pass: where the literal ends, and how much memory it gets
  // ---------------------------------------------------------------------------------------------

  /** The closing quote, searched from i, where a backslash takes the byte after it along. */
  function FindEnd(s: bytes, i: nat): (r: Option<nat>)
    ensures r.Some? ==> i <= r.value < |s| && s[r.value] == QUOTE
    decreases |s| - i
  {
    if i >= |s| then None
    else if s[i] == QUOTE then Some(i)
    else if s[i] != BACKSLASH then FindEnd(s, i + 1)
    else if i + 1 >= |s| then None
    else FindEnd(s, i + 2)
  }

  /** Escapes and plain bytes between i and the closing quote, each counted once. */
  function Units(s: bytes, i: nat): nat
    decreases |s| - i
  {
    if i >= |s| || s[i] == QUOTE then 0
    else if s[i] != BACKSLASH then 1 + Units(s, i + 1)
    else 1 + Units(s, i + 2)
  }

  method MeasureString(content: bytes, start: nat) returns (r: Option<(nat, nat)>)
    requires start <= |content|
    ensures r.Some? <==> FindEnd(content, start).Some?
    ensures r.Some? ==> r.value.0 == FindEnd(content, start).value
    ensures r.Some? ==> r.value.0 - start - r.value.1 == Units(content, start)
  {
    var inputEnd, skipped := start, 0;
    while inputEnd < |content| && content[inputEnd] != QUOTE
      invariant inputEnd <= |content|
      invariant FindEnd(content, start) == FindEnd(content, inputEnd)
      invariant inputEnd - start - skipped + Units(content, inputEnd) == Units(content, start)
      decreases |content| - inputEnd
    {
      if content[inputEnd] == BACKSLASH {
        if inputEnd + 1 >= |content| {
          return None;
        }
        skipped := skipped + 1;
        inputEnd := inputEnd + 1;
      }
      inputEnd := inputEnd + 1;
    }
    if inputEnd >= |content| {
      return None;
    }
    return Some((inputEnd, skipped));
  }

  // ---------------------------------------------------------------------------------------------
  // The second pass: what the literal means
  // ---------------------------------------------------------------------------------------------

  /** Four digits; a text with another byte in it counts as zero. */
  function Hex4(s: bytes): (r: nat)
    requires |s| == 4
    ensures r < 0x1_0000
  {
    if AllHex(s) then
      HexValue4(s);
      HexValue(s)
    else 0
  }

  lemma HexValue4(s: bytes)
    requires |s| == 4 && AllHex(s)
    ensures HexValue(s) == ((HexDigit(s[0]).value * 16 + HexDigit(s[1]).value) * 16 + HexDigit(s[2]).value) * 16 + HexDigit(s[3]).value
  {
    hide HexDigit;
    assert s[..3][..2] == s[..2] && s[..2][..1] == s[..1] && s[..1][..0] == [];
    assert HexValue(s[..1]) == HexDigit(s[0]).value;
    assert HexValue(s[..2]) == 16 * HexValue(s[..1]) + HexDigit(s[1]).value;
    assert HexValue(s[..3]) == 16 * HexValue(s[..2]) + HexDigit(s[2]).value;
  }

  /** The number that the four digits spell; a byte that is no digit makes the whole zero. */
  lemma Hex4Means(s: bytes)
    requires |s| == 4
    ensures if exists k | 0 <= k < 4 :: NoHex(s[k]) then Hex4(s) == 0 else SpellsHex(s, Hex4(s))
  {
    hide HexDigit, NoHex, SpellsHex, HexValue;
    HexValueIs(s, Hex4(s));
    forall k | 0 <= k < 4 ensures NoHex(s[k]) <==> HexDigit(s[k]) == None {
      HexDigitIs(s[k]);
    }
  }

  method ParseHex4(content: bytes, start: nat) returns (h: nat)
    requires start + 4 <= |content|
    ensures var s := content[start..start + 4];
            h == Hex4(s) && if exists k | 0 <= k < 4 :: NoHex(s[k]) then h == 0 else SpellsHex(s, h)
  {
    hide HexDigit, NoHex, SpellsHex;
    ghost var digits := content[start..start + 4];
    Hex4Means(digits);
    h := 0;
    for i := 0 to 4
      invariant AllHex(digits[..i])
      invariant h == HexValue(digits[..i]) * if 0 < i < 4 then 16 else 1
    {
      var d := HexDigit(content[start + i]);
      assert digits[i] == content[start + i];
      assert digits[..i + 1][..i] == digits[..i];
      match d {
        case None => return 0;
        case Some(n) =>
          h := h + n;
          if i < 3 {
            h := h * 16;
          }
      }
    }
    assert digits[..4] == digits;
  }

  /** A code point in UTF-8, by the table of section 3 of RFC 3629. */
  function Utf8(codepoint: nat): (r: bytes)
    requires codepoint <= 0x10ffff
    ensures 1 <= |r| <= 4
    ensures codepoint < 0x1_0000 ==> |r| <= 3
  {
    if codepoint < 0x80 then [codepoint]
    else if codepoint < 0x800 then [0xc0 + codepoint / 0x40, 0x80 + codepoint % 0x40]
    else if codepoint < 0x1_0000 then [0xe0 + codepoint / 0x1000, 0x80 + codepoint / 0x40 % 0x40, 0x80 + codepoint % 0x40]
    else [0xf0 + codepoint / 0x4_0000, 0x80 + codepoint / 0x1000 % 0x40, 0x80 + codepoint / 0x40 % 0x40, 0x80 + codepoint % 0x40]
  }

  /** What one step of the second pass writes, and how much of the text it takes. */
  datatype Piece = Piece(output: bytes, length: nat)

  predicate IsLowSurrogate(code: nat) {
    0xdc00 <= code <= 0xdfff
  }

  predicate IsHighSurrogate(code: nat) {
    0xd800 <= code <= 0xdbff
  }

  function PairedCode(first: nat, second: nat): (r: nat)
    ensures 0x1_0000 <= r <= 0x10ffff
  {
    0x1_0000 + first % 0x400 * 0x400 + second % 0x400
  }

  /** \uXXXX, or two of them for a surrogate pair. */
  function Utf16Literal(s: bytes, p: nat, end: nat): (r: Option<Piece>)
    requires p < end < |s|
    ensures r.Some? ==> 1 <= |r.value.output| && p + r.value.length <= end
    ensures r.Some? ==> (r.value.length == 6 && |r.value.output| <= 3) || (r.value.length == 12 && |r.value.output| <= 4)
    ensures r.Some? && r.value.length == 6 && s[p + 5] == BACKSLASH ==> |r.value.output| == 1
  {
    if end - p < 6 then None
    else
      var first := Hex4(s[p + 2..p + 6]);
      assert s[p + 5] == s[p + 2..p + 6][3];
      if IsLowSurrogate(first) then None
      else if !IsHighSurrogate(first) then Some(Piece(Utf8(first), 6))
      else if end - (p + 6) < 6 || s[p + 6] != BACKSLASH || s[p + 7] != 'u' as int then None
      else
        var second := Hex4(s[p + 8..p + 12]);
        if !IsLowSurrogate(second) then None
        else Some(Piece(Utf8(PairedCode(first, second)), 12))
  }

  /** The escapes of two bytes. */
  function ShortEscape(c: byte): Option<byte> {
    if c == 'b' as int then Some(8)
    else if c == 'f' as int then Some(12)
    else if c == 'n' as int then Some(LF)
    else if c == 'r' as int then Some(CR)
    else if c == 't' as int then Some(TAB)
    else if c == QUOTE || c == BACKSLASH || c == '/' as int then Some(c)
    else None
  }

  function NextPiece(s: bytes, p: nat, end: nat): (r: Option<Piece>)
    requires p < end < |s|
    ensures r.Some? ==> 1 <= |r.value.output| && 1 <= r.value.length && p + r.value.length <= end + 1
  {
    if s[p] != BACKSLASH then Some(Piece([s[p]], 1))
    else if s[p + 1] == 'u' as int then Utf16Literal(s, p, end)
    else
      match ShortEscape(s[p + 1])
      case None => None
      case Some(c) => Some(Piece([c], 2))
  }

  /** The decoded bytes of the literal between p and its closing quote. */
  function Unescape(s: bytes, p: nat, end: nat): Option<bytes>
    requires p <= end + 1 <= |s|
    decreases end + 1 - p
  {
    if p >= end then Some([])
    else
      match NextPiece(s, p, end)
      case None => None
      case Some(piece) => Prepend(piece.output, Unescape(s, p + piece.length, end))
  }

  function Prepend(front: bytes, r: Option<bytes>): Option<bytes> {
    if r.Some? then Some(front + r.value) else None
  }

  // ---------------------------------------------------------------------------------------------
  // The second pass stays inside the memory that the first pass asked for
  // ---------------------------------------------------------------------------------------------

  /** b is where the first pass put the boundary of an escape or a plain byte, p where the second pass is, and
      w how much it has written. A pass that cut the text elsewhere has at least two bytes to spare. */
  ghost predicate Fits(s: bytes, b: nat, p: nat, end: nat, w: nat, units: nat) {
    && FindEnd(s, b) == Some(end)
    && if p <= end then (b == p && w + Units(s, b) <= units) || (b == p + 1 && w + Units(s, b) + 3 <= units)
       else w < units
  }

  /** The boundaries of the first pass reach q or q + 1, and a plain byte or an escape is at most two bytes. */
  lemma {:induction false} NextBoundary(s: bytes, b: nat, q: nat, end: nat) returns (c: nat)
    requires FindEnd(s, b) == Some(end) && b <= q <= end
    ensures c == q || (c == q + 1 && q > b && s[q - 1] == BACKSLASH)
    ensures FindEnd(s, c) == Some(end)
    ensures 2 * (Units(s, b) - Units(s, c)) >= c - b
    decreases q - b
  {
    if b == q {
      c := b;
    } else if s[b] != BACKSLASH {
      c := NextBoundary(s, b + 1, q, end);
    } else if b + 1 == q {
      c := b + 2;
    } else {
      c := NextBoundary(s, b + 2, q, end);
    }
  }

  /** A piece has room, and leaves the rest of the literal with enough. */
  lemma PieceFits(s: bytes, b: nat, p: nat, end: nat, w: nat, units: nat) returns (c: nat)
    requires p < end < |s| && Fits(s, b, p, end, w, units) && NextPiece(s, p, end).Some?
    ensures var piece := NextPiece(s, p, end).value;
            w + |piece.output| <= units && Fits(s, c, p + piece.length, end, w + |piece.output|, units)
  {
    hide Utf16Literal;
    var piece := NextPiece(s, p, end).value;
    if p + piece.length == end + 1 {
      c := end;
      assert b == p + 1;
    } else if s[p] != BACKSLASH {
      c := p + 1;
    } else if b == p && piece.length == 2 {
      c := p + 2;
    } else {
      c := NextBoundary(s, b, p + piece.length, end);
    }
  }

  /** Whatever the second pass makes of the text, the output is never longer than what the first pass counted:
      the terminator fits, and one byte more. */
  lemma {:induction false} OutputFits(s: bytes, b: nat, p: nat, end: nat, w: nat, units: nat)
    requires p <= end + 1 <= |s| && Fits(s, b, p, end, w, units) && Unescape(s, p, end).Some?
    ensures w + |Unescape(s, p, end).value| <= units
    decreases end + 1 - p
  {
    hide NextPiece, Units;
    if p < end {
      var piece := NextPiece(s, p, end).value;
      var c := PieceFits(s, b, p, end, w, units);
      OutputFits(s, c, p + piece.length, end, w + |piece.output|, units);
    }
  }

  // ---------------------------------------------------------------------------------------------
  // The second pass, writing into that memory
  // ---------------------------------------------------------------------------------------------

  /** The low n groups of six bits, each in a byte of its own. */
  function Continuation(code: nat, n: nat): (r: bytes)
    ensures |r| == n
  {
    if n == 0 then [] else Continuation(code / 0x40, n - 1) + [0x80 + code % 0x40]
  }

  function DropGroups(code: nat, n: nat): nat {
    if n == 0 then code else DropGroups(code / 0x40, n - 1)
  }

  function Mark(n: nat): nat {
    match n case 0 => 0 case 1 => 0xc0 case 2 => 0xe0 case _ => 0xf0
  }

  lemma GroupsOf(code: nat)
    ensures DropGroups(code, 0) == code && Continuation(code, 0) == []
    ensures DropGroups(code, 1) == code / 0x40 && DropGroups(code, 2) == code / 0x1000 && DropGroups(code, 3) == code / 0x4_0000
    ensures Continuation(code, 1) == [0x80 + code % 0x40]
    ensures Continuation(code, 2) == [0x80 + code / 0x40 % 0x40, 0x80 + code % 0x40]
    ensures Continuation(code, 3) == [0x80 + code / 0x1000 % 0x40, 0x80 + code / 0x40 % 0x40, 0x80 + code % 0x40]
  {
    var c1, c2 := code / 0x40, code / 0x1000;
    assert c1 / 0x40 == c2;
    assert Continuation(c2, 1) == [0x80 + c2 % 0x40];
    assert Continuation(c1, 2) == [0x80 + c2 % 0x40, 0x80 + c1 % 0x40];
    assert DropGroups(code, 3) == DropGroups(c1, 2) == DropGroups(c2, 1);
  }

  lemma Utf8Groups(codepoint: nat)
    requires codepoint <= 0x10ffff
    ensures var n := |Utf8(codepoint)| - 1;
            var first := Mark(n) + DropGroups(codepoint, n);
            first < 256 && Utf8(codepoint) == [first] + Continuation(codepoint, n)
  {
    GroupsOf(codepoint);
    hide Continuation, DropGroups;
  }

  /** The bytes of a code point, written from the last one to the first. */
  method EncodeUtf8(codepoint: nat, output: array<byte>, w: nat) returns (utf8Length: nat)
    requires codepoint <= 0x10ffff && w + |Utf8(codepoint)| <= output.Length
    modifies output
    ensures utf8Length == |Utf8(codepoint)|
    ensures output[..w + utf8Length] == old(output[..w]) + Utf8(codepoint)
  {
    var firstByteMark := 0;
    if codepoint < 0x80 {
      utf8Length := 1;
    } else if codepoint < 0x800 {
      utf8Length, firstByteMark := 2, 0xc0;
    } else if codepoint < 0x1_0000 {
      utf8Length, firstByteMark := 3, 0xe0;
    } else {
      utf8Length, firstByteMark := 4, 0xf0;
    }
    Utf8Groups(codepoint);
    WriteGroups(codepoint, utf8Length, firstByteMark, output, w);
  }

  /** The groups one by one: which one a byte holds, and how to get to the next. */
  lemma {:induction false} GroupAt(code: nat, n: nat, k: nat)
    requires k < n
    ensures Continuation(code, n)[k] == 0x80 + DropGroups(code, n - 1 - k) % 0x40
  {
    if k < n - 1 {
      GroupAt(code / 0x40, n - 1, k);
    }
  }

  lemma {:induction false} NextGroup(code: nat, n: nat)
    ensures DropGroups(code, 0) == code && DropGroups(code, n + 1) == DropGroups(code, n) / 0x40
  {
    if n > 0 {
      NextGroup(code / 0x40, n - 1);
    }
  }

  method WriteGroups(codepoint: nat, utf8Length: nat, firstByteMark: nat, output: array<byte>, w: nat)
    requires utf8Length > 0 && w + utf8Length <= output.Length
    requires firstByteMark + DropGroups(codepoint, utf8Length - 1) < 256
    modifies output
    ensures output[..w + utf8Length]
         == old(output[..w]) + [firstByteMark + DropGroups(codepoint, utf8Length - 1)] + Continuation(codepoint, utf8Length - 1)
  {
    hide Continuation, DropGroups;
    var code, position := codepoint, utf8Length - 1;
    ghost var tail := Continuation(codepoint, utf8Length - 1);
    NextGroup(codepoint, 0);
    while position > 0
      invariant 0 <= position < utf8Length
      invariant code == DropGroups(codepoint, utf8Length - 1 - position)
      invariant forall k | position <= k < |tail| :: output[w + 1 + k] == tail[k]
      invariant forall k | 0 <= k < w :: output[k] == old(output[k])
    {
      GroupAt(codepoint, utf8Length - 1, position - 1);
      NextGroup(codepoint, utf8Length - 1 - position);
      output[w + position] := 0x80 + code % 0x40;
      code := code / 0x40;
      position := position - 1;
    }
    output[w] := firstByteMark + code;
    assert output[w + 1..w + utf8Length] == tail;
    assert output[..w + utf8Length] == output[..w] + [output[w]] + output[w + 1..w + utf8Length];
  }

  method Utf16LiteralToUtf8(content: bytes, p: nat, end: nat, output: array<byte>, w: nat) returns (sequenceLength: nat, written: nat)
    requires p < end < |content| && w <= output.Length
    requires var piece := Utf16Literal(content, p, end); piece.Some? ==> w + |piece.value.output| <= output.Length
    modifies output
    ensures match Utf16Literal(content, p, end)
            case None => sequenceLength == 0
            case Some(piece) =>
              && sequenceLength == piece.length && written == w + |piece.output| <= output.Length
              && output[..written] == old(output[..w]) + piece.output
  {
    hide Hex4, Utf8, NoHex, SpellsHex;
    sequenceLength, written := 0, w;
    if end - p < 6 {
      return;
    }
    var firstCode := ParseHex4(content, p + 2);
    if 0xdc00 <= firstCode <= 0xdfff {
      return;
    }
    var codepoint := firstCode;
    var length := 6;
    if 0xd800 <= firstCode <= 0xdbff {
      length := 12;
      var second := p + 6;
      if end - second < 6 {
        return;
      }
      if content[second] != BACKSLASH || content[second + 1] != 'u' as int {
        return;
      }
      var secondCode := ParseHex4(content, second + 2);
      if secondCode < 0xdc00 || secondCode > 0xdfff {
        return;
      }
      codepoint := PairedCode(firstCode, secondCode);
    }
    var utf8Length := EncodeUtf8(codepoint, output, w);
    return length, w + utf8Length;
  }

  /** Decodes into memory of the size that the first pass computed: one byte for each unit, one that stays
      unused, and the terminator. */
  method UnescapeInto(content: bytes, start: nat, end: nat, output: array<byte>) returns (written: Option<nat>)
    requires FindEnd(content, start) == Some(end) && output.Length == Units(content, start) + 2
    modifies output
    ensures match Unescape(content, start, end)
            case None => written == None
            case Some(t) => written == Some(|t|) && |t| + 1 < output.Length && output[..|t| + 1] == t + [0]
  {
    hide Unescape, Units, Utf16Literal;
    var inputPointer, w := start, 0;
    ghost var b := start;
    ghost var units := Units(content, start);
    assert output[..0] == [];
    PrependNothing(Unescape(content, start, end));
    while inputPointer < end
      invariant inputPointer <= end + 1
      invariant Fits(content, b, inputPointer, end, w, units) && w <= units
      invariant Unescape(content, start, end) == Prepend(output[..w], Unescape(content, inputPointer, end))
      decreases end + 1 - inputPointer
    {
      UnescapeAt(content, inputPointer, end);
      ghost var before, piece := output[..w], NextPiece(content, inputPointer, end);
      if piece.Some? {
        b := PieceFits(content, b, inputPointer, end, w, units);
        PrependTwice(before, piece.value.output, Unescape(content, inputPointer + piece.value.length, end));
      }
      if content[inputPointer] != BACKSLASH {
        output[w] := content[inputPointer];
        w, inputPointer := w + 1, inputPointer + 1;
      } else {
        var c := content[inputPointer + 1];
        if c == 'u' as int {
          var sequenceLength, next := Utf16LiteralToUtf8(content, inputPointer, end, output, w);
          if sequenceLength == 0 {
            return None;
          }
          w, inputPointer := next, inputPointer + sequenceLength;
        } else {
          match ShortEscape(c) {
            case None => return None;
            case Some(d) =>
              output[w] := d;
              w, inputPointer := w + 1, inputPointer + 2;
          }
        }
      }
      assert output[..w] == before + piece.value.output;
    }
    UnescapeAt(content, inputPointer, end);
    output[w] := 0;
    written := Some(w);
  }

  lemma PrependNothing(r: Option<bytes>)
    ensures Prepend([], r) == r
  {
    if r.Some? {
      assert [] + r.value == r.value;
    }
  }

  lemma PrependTwice(a: bytes, b: bytes, r: Option<bytes>)
    ensures Prepend(a, Prepend(b, r)) == Prepend(a + b, r)
  {
    if r.Some? {
      assert a + (b + r.value) == a + b + r.value;
    }
  }

  lemma UnescapeAt(s: bytes, p: nat, end: nat)
    requires p <= end + 1 <= |s|
    ensures p >= end ==> Unescape(s, p, end) == Some([])
    ensures p < end ==> Unescape(s, p, end) == match NextPiece(s, p, end)
                                               case None => None
                                               case Some(piece) => Prepend(piece.output, Unescape(s, p + piece.length, end))
  {}

  // ---------------------------------------------------------------------------------------------
  // Writing a string
  // ---------------------------------------------------------------------------------------------

  function LowerHex(n: nat): byte
    requires n < 16
  {
    if n < 10 then '0' as int + n else 'a' as int + n - 10
  }

  /** The letter of a two-byte escape. */
  function EscapeLetter(c: byte): Option<byte> {
    if c == BACKSLASH || c == QUOTE then Some(c)
    else if c == 8 then Some('b' as int)
    else if c == 12 then Some('f' as int)
    else if c == LF then Some('n' as int)
    else if c == CR then Some('r' as int)
    else if c == TAB then Some('t' as int)
    else None
  }

  function EscapeByte(c: byte): (r: bytes)
    ensures |r| > 0
  {
    if c > 31 && c != QUOTE && c != BACKSLASH then [c]
    else
      match EscapeLetter(c)
      case Some(letter) => [BACKSLASH, letter]
      case None => [BACKSLASH, 'u' as int, '0' as int, '0' as int, LowerHex(c / 16), LowerHex(c % 16)]
  }

  function Escaped(t: bytes): bytes {
    if t == [] then [] else EscapeByte(t[0]) + Escaped(t[1..])
  }

  function Quoted(t: bytes): bytes {
    [QUOTE] + Escaped(t) + [QUOTE]
  }

  lemma SmallHex(s: bytes, n: nat)
    requires n < 32 && s == ['0' as int, '0' as int, LowerHex(n / 16), LowerHex(n % 16)]
    ensures Hex4(s) == n
  {
    assert HexDigit('0' as int) == Some(0);
    assert HexDigit(LowerHex(n / 16)) == Some(n / 16) && HexDigit(LowerHex(n % 16)) == Some(n % 16);
    assert AllHex(s);
    HexValue4(s);
  }

  /** What is written for a byte is one piece, it means that byte, and both passes step over it whole. */
  lemma PieceOfEscape(s: bytes, p: nat, end: nat, c: byte)
    requires At(s, p, EscapeByte(c)) && p + |EscapeByte(c)| <= end < |s|
    ensures NextPiece(s, p, end) == Some(Piece([c], |EscapeByte(c)|))
    ensures FindEnd(s, p) == FindEnd(s, p + |EscapeByte(c)|)
  {
    var e := EscapeByte(c);
    AtByte(s, p, e, 0);
    if |e| > 1 {
      AtByte(s, p, e, 1);
    }
    if |e| == 6 {
      SmallControl(s, p, end, c);
    }
  }

  lemma SmallControl(s: bytes, p: nat, end: nat, c: byte)
    requires At(s, p, EscapeByte(c)) && p + 6 <= end < |s| && |EscapeByte(c)| == 6
    ensures Utf16Literal(s, p, end) == Some(Piece([c], 6))
    ensures FindEnd(s, p) == FindEnd(s, p + 6)
  {
    hide Hex4, HexDigit;
    var e := EscapeByte(c);
    assert s[p + 2..p + 6] == e[2..6] by {
      assert s[p..p + 6][2..6] == s[p + 2..p + 6];
    }
    SmallHex(e[2..6], c);
    AtByte(s, p, e, 0);
    AtByte(s, p, e, 1);
    AtByte(s, p, e, 2);
    AtByte(s, p, e, 3);
    AtByte(s, p, e, 4);
    AtByte(s, p, e, 5);
    assert FindEnd(s, p) == FindEnd(s, p + 2) == FindEnd(s, p + 3) == FindEnd(s, p + 4) == FindEnd(s, p + 5);
  }

  lemma EscapedParts(s: bytes, p: nat, t: bytes)
    requires At(s, p, Escaped(t) + [QUOTE]) && t != []
    ensures var e := EscapeByte(t[0]);
            |Escaped(t)| == |e| + |Escaped(t[1..])| && At(s, p, e) && At(s, p + |e|, Escaped(t[1..]) + [QUOTE])
  {
    hide EscapeByte;
    var e, rest := EscapeByte(t[0]), Escaped(t[1..]);
    assert Escaped(t) + [QUOTE] == e + (rest + [QUOTE]);
    AtParts(s, p, e, rest + [QUOTE]);
  }

  /** What the printer writes for a string, the parser reads back: wherever the literal stands, the first pass
      finds its own closing quote, and the second pass gives the string. */
  lemma {:induction false} StringRoundTrip(s: bytes, p: nat, t: bytes)
    requires At(s, p, Escaped(t) + [QUOTE])
    ensures var end := p + |Escaped(t)|; FindEnd(s, p) == Some(end) && Unescape(s, p, end) == Some(t)
    decreases t
  {
    hide EscapeByte, NextPiece, Unescape;
    var end := p + |Escaped(t)|;
    UnescapeAt(s, p, end);
    if t == [] {
      AtByte(s, p, Escaped(t) + [QUOTE], 0);
    } else {
      hide FindEnd, Escaped, At;
      var e := EscapeByte(t[0]);
      EscapedParts(s, p, t);
      AtFits(s, p + |e|, Escaped(t[1..]) + [QUOTE]);
      PieceOfEscape(s, p, end, t[0]);
      StringRoundTrip(s, p + |e|, t[1..]);
      assert [t[0]] + t[1..] == t;
    }
  }
}
