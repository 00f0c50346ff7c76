/** Characters written as \uXXXX literals (section 7 of RFC 8259) come out as UTF-8 (RFC 3629). */
module JsonUnicode {
  import opened Bytes
  import opened JsonString
  import opened JsonLiterals
  import opened JsonGrammar
  import opened JsonTokens
  import opened JsonTree

  type scalar = c: nat | c <= 0xd7ff || 0xe000 <= c <= 0x10ffff

  /** Six characters for a 16-bit code, with hexadecimal digits in either case. */
  ghost predicate SpellsUnit(t: bytes, code: nat) {
    |t| == 6 && t[0] as char == '\\' && t[1] as char == 'u' && SpellsHex(t[2..], code)
  }

  /** A literal for a character: outside the basic plane, the two halves of a surrogate pair. */
  ghost predicate Spells(t: bytes, c: scalar) {
    if c < 0x1_0000 then SpellsUnit(t, c)
    else |t| == 12 && SpellsUnit(t[..6], 0xd800 + (c - 0x1_0000) / 0x400) && SpellsUnit(t[6..], 0xdc00 + (c - 0x1_0000) % 0x400)
  }

  function Utf8Text(cs: seq<scalar>): bytes {
    if cs == [] then [] else Utf8(cs[0]) + Utf8Text(cs[1..])
  }

  // ---------------------------------------------------------------------------------------------
  // Reading UTF-8, by the syntax of section 4 of RFC 3629
  // ---------------------------------------------------------------------------------------------

  predicate IsTail(c: byte) {
    0x80 <= c <= 0xbf
  }

  function Tail(c: byte): nat {
    c % 0x40
  }

  /** The first character of a text, and its number of bytes: no surrogate and no longer form than needed. */
  function FirstScalar(t: bytes): (r: Option<(scalar, nat)>)
    ensures r.Some? ==> 1 <= r.value.1 <= |t|
  {
    if t == [] then None
    else if t[0] < 0x80 then Some((t[0], 1))
    else if |t| < 2 || !IsTail(t[1]) then None
    else if 0xc2 <= t[0] <= 0xdf then Some(((t[0] - 0xc0) * 0x40 + Tail(t[1]), 2))
    else if |t| < 3 || !IsTail(t[2]) then None
    else if 0xe0 <= t[0] <= 0xef then
      var c := (t[0] - 0xe0) * 0x1000 + Tail(t[1]) * 0x40 + Tail(t[2]);
      if c < 0x800 || IsHighSurrogate(c) || IsLowSurrogate(c) then None else Some((c, 3))
    else if |t| < 4 || !IsTail(t[3]) then None
    else if 0xf0 <= t[0] <= 0xf4 then
      var c := (t[0] - 0xf0) * 0x4_0000 + Tail(t[1]) * 0x1000 + Tail(t[2]) * 0x40 + Tail(t[3]);
      if c < 0x1_0000 || c > 0x10ffff then None else Some((c, 4))
    else None
  }

  function Scalars(t: bytes): Option<seq<scalar>> {
    if t == [] then Some([])
    else
      match FirstScalar(t)
      case None => None
      case Some((c, n)) =>
        match Scalars(t[n..])
        case None => None
        case Some(rest) => Some([c] + rest)
  }

  lemma FirstScalarOfUtf8(c: scalar, rest: bytes)
    ensures FirstScalar(Utf8(c) + rest) == Some((c, |Utf8(c)|))
  {
    if c < 0x80 {
    } else if c < 0x800 {
      FirstOfTwo(c, rest);
    } else if c < 0x1_0000 {
      FirstOfThree(c, rest);
    } else {
      FirstOfFour(c, rest);
    }
  }

  lemma TailOf(n: nat)
    ensures 0x80 + n % 0x40 < 0xc0 && IsTail(0x80 + n % 0x40) && Tail(0x80 + n % 0x40) == n % 0x40
  {}

  lemma FirstOfTwo(c: scalar, rest: bytes)
    requires 0x80 <= c < 0x800
    ensures FirstScalar([0xc0 + c / 0x40, 0x80 + c % 0x40] + rest) == Some((c, 2))
  {
    hide IsTail, Tail;
    TailOf(c);
  }

  lemma FirstOfThree(c: scalar, rest: bytes)
    requires 0x800 <= c < 0x1_0000
    ensures FirstScalar([0xe0 + c / 0x1000, 0x80 + c / 0x40 % 0x40, 0x80 + c % 0x40] + rest) == Some((c, 3))
  {
    hide IsTail, Tail;
    TailOf(c);
    TailOf(c / 0x40);
    Groups3(c);
  }

  lemma FirstOfFour(c: scalar, rest: bytes)
    requires 0x1_0000 <= c
    ensures FirstScalar([0xf0 + c / 0x4_0000, 0x80 + c / 0x1000 % 0x40, 0x80 + c / 0x40 % 0x40, 0x80 + c % 0x40] + rest) == Some((c, 4))
  {
    hide IsTail, Tail;
    TailOf(c);
    TailOf(c / 0x40);
    TailOf(c / 0x1000);
    Groups4(c);
  }

  lemma Groups3(c: nat)
    ensures c / 0x1000 * 0x1000 + c / 0x40 % 0x40 * 0x40 + c % 0x40 == c
  {}

  lemma Groups4(c: nat)
    ensures c / 0x4_0000 * 0x4_0000 + c / 0x1000 % 0x40 * 0x1000 + c / 0x40 % 0x40 * 0x40 + c % 0x40 == c
  {
    Groups3(c);
    var d := c / 0x1000;
    assert d / 0x40 == c / 0x4_0000;
    assert d / 0x40 * 0x40 + d % 0x40 == d;
  }

  /** The encoding loses nothing: reading it gives the characters back. */
  lemma {:induction false} Utf8ReadsBack(cs: seq<scalar>)
    ensures Scalars(Utf8Text(cs)) == Some(cs)
  {
    hide Utf8, FirstScalar;
    if cs != [] {
      FirstScalarOfUtf8(cs[0], Utf8Text(cs[1..]));
      assert Utf8Text(cs)[|Utf8(cs[0])|..] == Utf8Text(cs[1..]);
      Utf8ReadsBack(cs[1..]);
      assert [cs[0]] + cs[1..] == cs;
    }
  }

  // ---------------------------------------------------------------------------------------------
  // The literals
  // ---------------------------------------------------------------------------------------------

  lemma UnitAt(s: bytes, p: nat, t: bytes, code: nat)
    requires At(s, p, t) && SpellsUnit(t, code)
    ensures s[p] == BACKSLASH && s[p + 1] == 'u' as int && Hex4(s[p + 2..p + 6]) == code
    ensures p + 6 < |s| ==> FindEnd(s, p) == FindEnd(s, p + 6)
  {
    hide Hex4, HexDigit, HexValue, SpellsHex;
    HexValueIs(t[2..], code);
    assert s[p + 2..p + 6] == t[2..] by {
      assert s[p..p + 6][2..6] == s[p + 2..p + 6];
    }
    assert Hex4(t[2..]) == code by {
      HexIsHex4(t[2..]);
    }
    AtByte(s, p, t, 0);
    AtByte(s, p, t, 1);
    PlainHex(s, p + 2);
  }

  lemma HexIsHex4(t: bytes)
    requires |t| == 4 && AllHex(t)
    ensures Hex4(t) == HexValue(t)
  {}

  lemma PlainHex(s: bytes, p: nat)
    requires p + 4 <= |s| && AllHex(s[p..p + 4])
    ensures p + 4 < |s| ==> FindEnd(s, p) == FindEnd(s, p + 4)
  {
    forall i | p <= i < p + 4 ensures s[i] != QUOTE && s[i] != BACKSLASH {
      assert HexDigit(s[p..p + 4][i - p]).Some?;
    }
    assert FindEnd(s, p) == FindEnd(s, p + 1) == FindEnd(s, p + 2) == FindEnd(s, p + 3);
  }

  lemma LiteralAt(s: bytes, p: nat, end: nat, t: bytes, c: scalar)
    requires At(s, p, t) && Spells(t, c) && p + |t| <= end < |s|
    ensures NextPiece(s, p, end) == Some(Piece(Utf8(c), |t|))
    ensures FindEnd(s, p) == FindEnd(s, p + |t|)
  {
    hide Hex4, HexDigit, HexValue, Utf8, FindEnd, AllHex;
    if c < 0x1_0000 {
      UnitAt(s, p, t, c);
    } else {
      PairAt(s, p, end, t, c);
    }
  }

  lemma PairAt(s: bytes, p: nat, end: nat, t: bytes, c: scalar)
    requires At(s, p, t) && Spells(t, c) && p + |t| <= end < |s| && c >= 0x1_0000
    ensures NextPiece(s, p, end) == Some(Piece(Utf8(c), |t|))
    ensures FindEnd(s, p) == FindEnd(s, p + |t|)
  {
    hide Hex4, HexDigit, HexValue, Utf8, FindEnd, AllHex, SpellsUnit, IsHighSurrogate, IsLowSurrogate, PairedCode;
    assert t == t[..6] + t[6..];
    AtParts(s, p, t[..6], t[6..]);
    var high, low := 0xd800 + (c - 0x1_0000) / 0x400, 0xdc00 + (c - 0x1_0000) % 0x400;
    UnitAt(s, p, t[..6], high);
    UnitAt(s, p + 6, t[6..], low);
    Pairing(c);
    assert Hex4(s[p + 2..p + 6]) == high && Hex4(s[p + 8..p + 12]) == low;
    assert Utf16Literal(s, p, end) == Some(Piece(Utf8(PairedCode(high, low)), 12));
  }

  lemma Pairing(c: nat)
    requires 0x1_0000 <= c <= 0x10ffff
    ensures var high, low := 0xd800 + (c - 0x1_0000) / 0x400, 0xdc00 + (c - 0x1_0000) % 0x400;
            IsHighSurrogate(high) && !IsLowSurrogate(high) && IsLowSurrogate(low) && PairedCode(high, low) == c
  {}

  lemma FlattenParts(s: bytes, p: nat, texts: seq<bytes>)
    requires At(s, p, Flatten(texts) + [QUOTE]) && texts != []
    ensures var t := texts[0];
            && |Flatten(texts)| == |t| + |Flatten(texts[1..])|
            && At(s, p, t) && At(s, p + |t|, Flatten(texts[1..]) + [QUOTE])
  {
    var t, rest := texts[0], Flatten(texts[1..]);
    assert Flatten(texts) + [QUOTE] == t + (rest + [QUOTE]);
    AtParts(s, p, t, rest + [QUOTE]);
  }

  // ---------------------------------------------------------------------------------------------
  // Whole strings
  // ---------------------------------------------------------------------------------------------

  /** Any way to write some bytes of a string: a byte as it is, a short escape, or a character as a literal. */
  ghost predicate SpellsPiece(t: bytes, output: bytes) {
    || (|t| == 1 && t[0] as char != '"' && t[0] as char != '\\' && output == t)
    || (|t| == 2 && t[0] as char == '\\' && exists c: byte :: IsEscape(t[1], c) && output == [c])
    || exists c: scalar :: Spells(t, c) && output == Utf8(c)
  }

  lemma EscapeOf(t: bytes, output: bytes)
    requires |t| == 2 && SpellsPiece(t, output)
    ensures t[0] == BACKSLASH && t[1] != 'u' as int && exists c: byte :: ShortEscape(t[1]) == Some(c) && output == [c]
  {
    hide IsEscape, ShortEscape;
    var c: byte :| IsEscape(t[1], c) && output == [c];
    EscapeIs(t[1], c);
    UIsNoEscape();
  }

  lemma PieceAt(s: bytes, p: nat, end: nat, t: bytes, output: bytes)
    requires At(s, p, t) && SpellsPiece(t, output) && p + |t| <= end < |s|
    ensures NextPiece(s, p, end) == Some(Piece(output, |t|))
    ensures FindEnd(s, p) == FindEnd(s, p + |t|)
  {
    if |t| == 1 {
      AtByte(s, p, t, 0);
      assert t == [t[0]];
    } else if |t| == 2 {
      AtByte(s, p, t, 0);
      AtByte(s, p, t, 1);
      EscapeOf(t, output);
    } else {
      hide NextPiece, Spells, FindEnd, Utf8;
      var c: scalar :| Spells(t, c) && output == Utf8(c);
      LiteralAt(s, p, end, t, c);
    }
  }

  /** A string whose parts are written in any of these ways is measured and decoded to what the parts stand for. */
  lemma {:induction false} PiecesDecode(s: bytes, p: nat, texts: seq<bytes>, outputs: seq<bytes>)
    requires |texts| == |outputs| && forall i | 0 <= i < |texts| :: SpellsPiece(texts[i], outputs[i])
    requires At(s, p, Flatten(texts) + [QUOTE])
    ensures var end := p + |Flatten(texts)|; FindEnd(s, p) == Some(end) && Unescape(s, p, end) == Some(Flatten(outputs))
    decreases texts
  {
    hide SpellsPiece, NextPiece, Unescape, FindEnd, At, Flatten;
    var end := p + |Flatten(texts)|;
    if texts == [] {
      NothingDecodes(s, p);
    } else {
      FlattenOf(outputs);
      FlattenParts(s, p, texts);
      AtFits(s, p + |texts[0]|, Flatten(texts[1..]) + [QUOTE]);
      PieceAt(s, p, end, texts[0], outputs[0]);
      NotEmpty(texts[0], outputs[0]);
      UnescapeAt(s, p, end);
      PiecesDecode(s, p + |texts[0]|, texts[1..], outputs[1..]);
    }
  }

  lemma NothingDecodes(s: bytes, p: nat)
    requires At(s, p, Flatten([]) + [QUOTE])
    ensures Flatten([]) == [] && FindEnd(s, p) == Some(p) && Unescape(s, p, p) == Some([])
  {
    AtByte(s, p, Flatten([]) + [QUOTE], 0);
  }

  lemma FlattenOf(pieces: seq<bytes>)
    requires pieces != []
    ensures Flatten(pieces) == pieces[0] + Flatten(pieces[1..])
  {}

  lemma NotEmpty(t: bytes, output: bytes)
    requires SpellsPiece(t, output)
    ensures t != []
  {}

  lemma SpelledDecodes(texts: seq<bytes>, outputs: seq<bytes>)
    requires |texts| == |outputs| && forall i | 0 <= i < |texts| :: SpellsPiece(texts[i], outputs[i])
    ensures Decodes([QUOTE] + Flatten(texts) + [QUOTE], CString(Flatten(outputs)))
  {
    hide SpellsPiece, FindEnd, Unescape, CString, At, Flatten;
    var lit := [QUOTE] + (Flatten(texts) + [QUOTE]);
    assert lit == [QUOTE] + Flatten(texts) + [QUOTE];
    AtSlice(lit, 0, |lit|);
    assert lit[0..|lit|] == lit;
    AtParts(lit, 0, [QUOTE], Flatten(texts) + [QUOTE]);
    PiecesDecode(lit, 1, texts, outputs);
  }

  /** With its quotes it is a literal of the string: the bytes that its parts stand for, up to a zero byte. */
  lemma SpelledLiteral(texts: seq<bytes>, outputs: seq<bytes>, t: cstring)
    requires |texts| == |outputs| && forall i | 0 <= i < |texts| :: SpellsPiece(texts[i], outputs[i])
    requires Shows(Flatten(outputs), t)
    ensures IsLiteral(Ascii("\"") + Flatten(texts) + Ascii("\""), t)
  {
    hide SpellsPiece, Decodes, CString, Flatten, IsLiteral, Shows;
    assert Ascii("\"") == [QUOTE];
    SpelledDecodes(texts, outputs);
    ShowsCString(Flatten(outputs), t);
    LiteralIs([QUOTE] + Flatten(texts) + [QUOTE], t);
  }

  function Utf8Each(cs: seq<scalar>): (r: seq<bytes>)
    ensures |r| == |cs| && forall i | 0 <= i < |cs| :: r[i] == Utf8(cs[i])
  {
    seq(|cs|, i requires 0 <= i < |cs| => Utf8(cs[i]))
  }

  lemma {:induction false} Utf8TextIsFlat(cs: seq<scalar>)
    ensures Flatten(Utf8Each(cs)) == Utf8Text(cs)
  {
    hide Utf8;
    if cs != [] {
      assert Utf8Each(cs)[1..] == Utf8Each(cs[1..]);
      Utf8TextIsFlat(cs[1..]);
    }
  }

  /** Characters written as literals are decoded to their UTF-8 text. */
  lemma LiteralsDecode(s: bytes, p: nat, texts: seq<bytes>, cs: seq<scalar>)
    requires |texts| == |cs| && forall i | 0 <= i < |cs| :: Spells(texts[i], cs[i])
    requires At(s, p, Flatten(texts) + [QUOTE])
    ensures var end := p + |Flatten(texts)|; FindEnd(s, p) == Some(end) && Unescape(s, p, end) == Some(Utf8Text(cs))
  {
    hide Spells, Unescape, FindEnd, At, Flatten;
    var outputs := Utf8Each(cs);
    forall i | 0 <= i < |texts| ensures SpellsPiece(texts[i], outputs[i]) {
      assert Spells(texts[i], cs[i]);
    }
    Utf8TextIsFlat(cs);
    PiecesDecode(s, p, texts, outputs);
  }
}
