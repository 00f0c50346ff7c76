/** String literals without the two passes that read them: which texts they are, and what they mean. */
module JsonLiterals {
  import opened Bytes
  import opened JsonString

  // ---------------------------------------------------------------------------------------------
  // Where a literal ends
  // ---------------------------------------------------------------------------------------------

  /** A byte that is neither quote nor backslash, or a backslash and any byte. */
  predicate IsUnit(t: bytes) {
    (|t| == 1 && t[0] != 34 && t[0] != 92) || (|t| == 2 && t[0] == 92)
  }

  ghost predicate IsContent(content: bytes) {
    exists units: seq<bytes> :: (forall k | 0 <= k < |units| :: IsUnit(units[k])) && content == Flatten(units)
  }

  /** Such units are what the first pass counts, and the quote behind them is what it finds. */
  lemma {:induction false} ContentEnds(s: bytes, p: nat, units: seq<bytes>, e: nat)
    requires (forall k | 0 <= k < |units| :: IsUnit(units[k])) && p <= e < |s| && s[e] == 34 && s[p..e] == Flatten(units)
    ensures FindEnd(s, p) == Some(e) && Units(s, p) == |units|
    decreases units
  {
    if units != [] {
      var u := units[0];
      var n := p + |u|;
      assert |s[p..e]| == e - p && |Flatten(units)| >= |u|;
      assert s[p] == Flatten(units)[0] == u[0];
      assert s[n..e] == s[p..e][|u|..] == Flatten(units[1..]);
      ContentEnds(s, n, units[1..], e);
    }
  }

  lemma {:induction false} ContentBeforeEnd(s: bytes, p: nat) returns (units: seq<bytes>)
    requires FindEnd(s, p).Some?
    ensures p <= FindEnd(s, p).value
    ensures (forall k | 0 <= k < |units| :: IsUnit(units[k])) && s[p..FindEnd(s, p).value] == Flatten(units)
    decreases |s| - p
  {
    var e := FindEnd(s, p).value;
    if s[p] == 34 {
      units := [];
    } else {
      var n := if s[p] == 92 then p + 2 else p + 1;
      var rest := ContentBeforeEnd(s, n);
      units := [s[p..n]] + rest;
      assert units[1..] == rest;
      assert s[p..e] == s[p..n] + s[n..e];
    }
  }

  /** The closing quote is the one behind such units. */
  lemma EndIs(s: bytes, p: nat, e: nat)
    ensures FindEnd(s, p) == Some(e) <==> p <= e < |s| && s[e] == 34 && IsContent(s[p..e])
  {
    hide FindEnd, IsUnit;
    if FindEnd(s, p) == Some(e) {
      var units := ContentBeforeEnd(s, p);
    }
    if p <= e < |s| && s[e] == 34 && IsContent(s[p..e]) {
      var units: seq<bytes> :| (forall k | 0 <= k < |units| :: IsUnit(units[k])) && s[p..e] == Flatten(units);
      ContentEnds(s, p, units, e);
    }
  }

  // ---------------------------------------------------------------------------------------------
  // What it means
  // ---------------------------------------------------------------------------------------------

  /** The escapes of two bytes, by letter and by meaning. */
  predicate EscapeAt(k: nat, letter: byte, meaning: byte) {
    k < 8 && letter as char == "bfnrt\"\\/"[k] && meaning == [8, 12, 10, 13, 9, 34, 92, 47][k]
  }

  ghost predicate IsEscape(letter: byte, meaning: byte) {
    exists k: nat :: EscapeAt(k, letter, meaning)
  }

  /** Four bytes behind the u: a number in hexadecimal digits, or anything else, which counts as zero. */
  ghost predicate IsCode(t: bytes, code: nat) {
    && |t| == 6 && t[0] == 92 && t[1] == 'u' as int
    && if exists k | 2 <= k < 6 :: NoHex(t[k]) then code == 0 else SpellsHex(t[2..], code)
  }

  /** The piece of a literal and the bytes that it stands for. Halves of surrogate pairs come in pairs. */
  ghost predicate IsPiece(t: bytes, output: bytes) {
    || (|t| == 1 && t[0] != 92 && output == t)
    || (|t| == 2 && t[0] == 92 && exists c: byte :: IsEscape(t[1], c) && output == [c])
    || (exists code: nat :: IsCode(t, code) && code <= 0xffff && !(0xd800 <= code <= 0xdfff) && output == Utf8(code))
    || IsPair(t, output)
  }

  ghost predicate IsPair(t: bytes, output: bytes) {
    && |t| == 12
    && exists high: nat, low: nat ::
         && IsCode(t[..6], high) && IsCode(t[6..], low) && 0xd800 <= high <= 0xdbff && 0xdc00 <= low <= 0xdfff
         && output == Utf8(0x1_0000 + 0x400 * (high - 0xd800) + (low - 0xdc00))
  }

  lemma EscapeIs(letter: byte, meaning: byte)
    ensures ShortEscape(letter) == Some(meaning) <==> IsEscape(letter, meaning)
  {
    assert IsEscape(letter, meaning) <==>
      || EscapeAt(0, letter, meaning) || EscapeAt(1, letter, meaning) || EscapeAt(2, letter, meaning) || EscapeAt(3, letter, meaning)
      || EscapeAt(4, letter, meaning) || EscapeAt(5, letter, meaning) || EscapeAt(6, letter, meaning) || EscapeAt(7, letter, meaning);
  }

  lemma CodeIs(t: bytes, code: nat)
    ensures IsCode(t, code) <==> |t| == 6 && t[0] == 92 && t[1] == 'u' as int && Hex4(t[2..]) == code
  {
    hide HexDigit, NoHex, SpellsHex, HexValue;
    if |t| == 6 {
      var digits := t[2..];
      assert digits[0] == t[2] && digits[1] == t[3] && digits[2] == t[4] && digits[3] == t[5];
      HexValueIs(digits, code);
      HexDigitIs(t[2]);
      HexDigitIs(t[3]);
      HexDigitIs(t[4]);
      HexDigitIs(t[5]);
      assert AllHex(digits) <==> !exists k | 2 <= k < 6 :: NoHex(t[k]);
    }
  }

  lemma PairedCodeIs(high: nat, low: nat)
    requires 0xd800 <= high <= 0xdbff && 0xdc00 <= low <= 0xdfff
    ensures PairedCode(high, low) == 0x1_0000 + 0x400 * (high - 0xd800) + (low - 0xdc00)
  {}

  lemma CodeAt(s: bytes, p: nat, t: bytes, code: nat)
    requires At(s, p, t) && IsCode(t, code)
    ensures p + 6 <= |s| && s[p] == 92 && s[p + 1] == 'u' as int && Hex4(s[p + 2..p + 6]) == code
  {
    hide Hex4, IsCode;
    CodeIs(t, code);
    AtByte(s, p, t, 0);
    AtByte(s, p, t, 1);
    assert s[p + 2..p + 6] == s[p..p + 6][2..6] == t[2..];
  }

  /** Such a piece is what the second pass takes. */
  lemma PieceIsNext(s: bytes, p: nat, end: nat, t: bytes, output: bytes)
    requires At(s, p, t) && IsPiece(t, output) && p < end < |s| && (p + |t| <= end || t == [92, 34])
    ensures NextPiece(s, p, end) == Some(Piece(output, |t|))
  {
    hide IsCode, Hex4, Utf8;
    if |t| == 1 {
      AtByte(s, p, t, 0);
      assert t == [t[0]];
      NoCodeOfLength1(t);
    } else if |t| == 2 {
      AtByte(s, p, t, 0);
      AtByte(s, p, t, 1);
      ShortPieceIsNext(t, output);
    } else if |t| == 12 {
      PairIsNext(s, p, end, t, output);
    } else {
      var code: nat :| IsCode(t, code) && code <= 0xffff && !(0xd800 <= code <= 0xdfff) && output == Utf8(code);
      CodeAt(s, p, t, code);
      CodeLength(t, code);
    }
  }

  lemma CodeLength(t: bytes, code: nat)
    requires IsCode(t, code)
    ensures |t| == 6
  {}

  lemma NoCodeOfLength1(t: bytes)
    ensures |t| != 6 ==> forall code: nat :: !IsCode(t, code)
  {}

  lemma ShortPieceIsNext(t: bytes, output: bytes)
    requires |t| == 2 && IsPiece(t, output)
    ensures t[0] == 92 && t[1] != 'u' as int && exists c: byte :: ShortEscape(t[1]) == Some(c) && output == [c]
  {
    hide IsEscape, ShortEscape, IsCode;
    NoCodeOfLength1(t);
    var c: byte :| IsEscape(t[1], c) && output == [c];
    EscapeIs(t[1], c);
    UIsNoEscape();
  }

  lemma UIsNoEscape()
    ensures ShortEscape('u' as int) == None
  {}

  lemma PairIsNext(s: bytes, p: nat, end: nat, t: bytes, output: bytes)
    requires At(s, p, t) && |t| == 12 && IsPiece(t, output) && p + 12 <= end < |s|
    ensures NextPiece(s, p, end) == Some(Piece(output, 12))
  {
    hide IsCode, Hex4, Utf8, PairedCode;
    NoCodeOfLength1(t);
    var high: nat, low: nat :| IsCode(t[..6], high) && IsCode(t[6..], low) && 0xd800 <= high <= 0xdbff && 0xdc00 <= low <= 0xdfff
      && output == Utf8(0x1_0000 + 0x400 * (high - 0xd800) + (low - 0xdc00));
    assert t == t[..6] + t[6..];
    AtParts(s, p, t[..6], t[6..]);
    CodeAt(s, p, t[..6], high);
    CodeAt(s, p + 6, t[6..], low);
    PairedCodeIs(high, low);
  }

  /** And what the second pass takes is such a piece. */
  lemma NextIsPiece(s: bytes, p: nat, end: nat)
    requires p < end < |s| && s[end] == 34 && NextPiece(s, p, end).Some?
    ensures var piece := NextPiece(s, p, end).value;
            var n := p + piece.length;
            n <= |s| && IsPiece(s[p..n], piece.output) && (n <= end || (n == end + 1 && s[p..n] == [92, 34]))
  {
    hide Hex4, Utf8, IsCode, IsEscape, ShortEscape;
    var piece := NextPiece(s, p, end).value;
    if s[p] == 92 {
      if s[p + 1] == 'u' as int {
        NextIsCode(s, p, end);
      } else {
        EscapeIs(s[p + 1], piece.output[0]);
        assert s[p..p + 2] == [92, s[p + 1]];
      }
    } else {
      assert s[p..p + 1] == [s[p]];
    }
  }

  lemma CodeOf(s: bytes, p: nat)
    requires p + 6 <= |s| && s[p] == 92 && s[p + 1] == 'u' as int
    ensures IsCode(s[p..p + 6], Hex4(s[p + 2..p + 6]))
  {
    hide Hex4, IsCode;
    assert s[p..p + 6][2..] == s[p + 2..p + 6];
    CodeIs(s[p..p + 6], Hex4(s[p + 2..p + 6]));
  }

  lemma NextIsCode(s: bytes, p: nat, end: nat)
    requires p < end < |s| && s[p] == 92 && s[p + 1] == 'u' as int && NextPiece(s, p, end).Some?
    ensures var piece := NextPiece(s, p, end).value;
            p + piece.length <= end && IsPiece(s[p..p + piece.length], piece.output)
  {
    hide Hex4, Utf8, IsCode, PairedCode;
    var piece := NextPiece(s, p, end).value;
    CodeOf(s, p);
    if piece.length == 12 {
      CodeOf(s, p + 6);
      var t := s[p..p + 12];
      assert t[..6] == s[p..p + 6] && t[6..] == s[p + 6..p + 12];
      PairedCodeIs(Hex4(s[p + 2..p + 6]), Hex4(s[p + 8..p + 12]));
    }
  }

  /** Pieces with their meanings, put together. */
  ghost predicate ArePieces(texts: seq<bytes>, outputs: seq<bytes>) {
    |texts| == |outputs| && forall k | 0 <= k < |texts| :: IsPiece(texts[k], outputs[k])
  }

  /** The content of a literal as pieces. They end with it, or with its quote, when they take the last backslash of
      it for the beginning of an escape. */
  ghost predicate Covers(content: bytes, texts: seq<bytes>) {
    || Flatten(texts) == content
    || (texts != [] && texts[|texts| - 1] == [92, 34] && Flatten(texts) == content + [34])
  }

  ghost predicate Means(content: bytes, output: bytes) {
    exists texts: seq<bytes>, outputs: seq<bytes> ::
      ArePieces(texts, outputs) && Covers(content, texts) && output == Flatten(outputs)
  }

  lemma {:induction false} MeaningIsRead(s: bytes, p: nat, end: nat, texts: seq<bytes>, outputs: seq<bytes>)
    requires p <= end < |s| && s[end] == 34 && ArePieces(texts, outputs) && Covers(s[p..end], texts)
    ensures Unescape(s, p, end) == Some(Flatten(outputs))
    decreases texts
  {
    hide NextPiece, Unescape, IsPiece, Covers, Flatten;
    if texts == [] {
      NothingCovered(s[p..end], outputs);
      UnescapeAt(s, p, end);
    } else {
      FirstAndRest(outputs);
      PieceIsNotEmpty(texts[0], outputs[0]);
      FirstPieceAt(s, p, end, texts);
      var n := p + |texts[0]|;
      PieceIsNext(s, p, end, texts[0], outputs[0]);
      UnescapeAt(s, p, end);
      if n <= end {
        RestIsCovered(s, p, end, texts);
        MeaningIsRead(s, n, end, texts[1..], outputs[1..]);
      } else {
        UnescapeAt(s, n, end);
        OnlyPiece(s, p, end, texts);
      }
    }
  }

  lemma NothingCovered(content: bytes, outputs: seq<bytes>)
    requires Covers(content, [])
    ensures content == [] && (outputs == [] ==> Flatten(outputs) == [])
  {}

  lemma PieceIsNotEmpty(t: bytes, output: bytes)
    requires IsPiece(t, output)
    ensures t != []
  {}

  lemma {:induction false} LastIsInside(texts: seq<bytes>)
    requires |texts| > 1
    ensures |Flatten(texts)| >= |texts[0]| + |texts[|texts| - 1]|
    decreases |texts|
  {
    if |texts| > 2 {
      LastIsInside(texts[1..]);
    } else {
      assert Flatten(texts[1..]) == texts[1] + Flatten(texts[1..][1..]);
    }
  }

  lemma FirstPieceAt(s: bytes, p: nat, end: nat, texts: seq<bytes>)
    requires p <= end < |s| && s[end] == 34 && texts != [] && texts[0] != [] && Covers(s[p..end], texts)
    ensures At(s, p, texts[0]) && p < end && (p + |texts[0]| <= end || texts[0] == [92, 34])
  {
    if |texts| > 1 {
      LastIsInside(texts);
    } else {
      assert Flatten(texts[1..]) == [];
    }
    assert s[p..end] + [34] == s[p..end + 1];
    var whole := if Flatten(texts) == s[p..end] then end else end + 1;
    assert Flatten(texts) == s[p..whole];
    assert texts[0] == Flatten(texts)[..|texts[0]|] == s[p..p + |texts[0]|];
  }

  lemma FirstAndRest(texts: seq<bytes>)
    requires texts != []
    ensures Flatten(texts) == texts[0] + Flatten(texts[1..]) && (|texts| == 1 ==> Flatten(texts[1..]) == [])
  {}

  lemma RestIsCovered(s: bytes, p: nat, end: nat, texts: seq<bytes>)
    requires p <= end < |s| && s[end] == 34 && texts != [] && Covers(s[p..end], texts) && p + |texts[0]| <= end
    ensures Covers(s[p + |texts[0]|..end], texts[1..])
  {
    hide Flatten;
    var t, rest := texts[0], Flatten(texts[1..]);
    FirstAndRest(texts);
    var content := s[p + |t|..end];
    assert s[p..end] == s[p..p + |t|] + content;
    assert (t + rest)[|t|..] == rest;
    if t + rest == s[p..end] {
      assert rest == content;
    } else {
      assert s[p..end] + [34] == s[p..p + |t|] + (content + [34]);
      assert rest == content + [34];
    }
  }

  lemma OnlyPiece(s: bytes, p: nat, end: nat, texts: seq<bytes>)
    requires p <= end < |s| && s[end] == 34 && texts != [] && Covers(s[p..end], texts) && p + |texts[0]| > end
    ensures |texts| == 1
  {
    if |texts| > 1 {
      LastIsInside(texts);
    }
  }

  lemma {:induction false} ReadIsMeaning(s: bytes, p: nat, end: nat) returns (texts: seq<bytes>, outputs: seq<bytes>)
    requires p <= end < |s| && s[end] == 34 && Unescape(s, p, end).Some?
    ensures ArePieces(texts, outputs) && Covers(s[p..end], texts) && Flatten(outputs) == Unescape(s, p, end).value
    decreases end - p
  {
    hide NextPiece, Unescape, IsPiece;
    UnescapeAt(s, p, end);
    if p == end {
      texts, outputs := [], [];
    } else {
      NextIsPiece(s, p, end);
      var piece := NextPiece(s, p, end).value;
      var n := p + piece.length;
      var t := s[p..n];
      if n <= end {
        var texts', outputs' := ReadIsMeaning(s, n, end);
        texts, outputs := [t] + texts', [piece.output] + outputs';
        assert texts[1..] == texts' && outputs[1..] == outputs';
        CoversMore(s, p, n, end, texts');
      } else {
        texts, outputs := [t], [piece.output];
        UnescapeAt(s, n, end);
        assert Flatten(texts) == t + Flatten([]) && Flatten(outputs) == piece.output + Flatten([]);
        assert s[p..end] + [34] == t;
      }
    }
  }

  lemma CoversMore(s: bytes, p: nat, n: nat, end: nat, texts: seq<bytes>)
    requires p <= n <= end < |s| && Covers(s[n..end], texts)
    ensures Covers(s[p..end], [s[p..n]] + texts)
  {
    var all := [s[p..n]] + texts;
    assert all[1..] == texts;
    assert s[p..n] + s[n..end] == s[p..end];
  }

  /** The second pass gives what the content means, and nothing when it means nothing. */
  lemma MeaningIs(s: bytes, p: nat, end: nat, output: bytes)
    requires p <= end < |s| && s[end] == 34
    ensures Unescape(s, p, end) == Some(output) <==> Means(s[p..end], output)
  {
    hide Unescape, ArePieces, Covers;
    if Unescape(s, p, end) == Some(output) {
      var texts, outputs := ReadIsMeaning(s, p, end);
    }
    if Means(s[p..end], output) {
      var texts: seq<bytes>, outputs: seq<bytes> :| ArePieces(texts, outputs) && Covers(s[p..end], texts) && output == Flatten(outputs);
      MeaningIsRead(s, p, end, texts, outputs);
    }
  }

  // ---------------------------------------------------------------------------------------------
  // What is written
  // ---------------------------------------------------------------------------------------------

  /** A byte in printed text: as it is, in a short escape, or as a code in lower-case digits. */
  function WrittenByte(c: byte): bytes {
    if c == 34 then Ascii("\\\"")
    else if c == 92 then Ascii("\\\\")
    else if c == 8 then Ascii("\\b")
    else if c == 12 then Ascii("\\f")
    else if c == 10 then Ascii("\\n")
    else if c == 13 then Ascii("\\r")
    else if c == 9 then Ascii("\\t")
    else if c < 32 then Ascii("\\u00") + ["0123456789abcdef"[c / 16] as int, "0123456789abcdef"[c % 16] as int]
    else [c]
  }

  lemma EscapeByteIs(c: byte)
    ensures EscapeByte(c) == WrittenByte(c)
  {
    if c < 32 && EscapeLetter(c).None? {
      LowerHexIs(c / 16);
      LowerHexIs(c % 16);
    }
  }

  lemma LowerHexIs(n: nat)
    requires n < 16
    ensures LowerHex(n) == "0123456789abcdef"[n] as int
  {}

  function WrittenBytes(t: bytes): bytes {
    if t == [] then [] else WrittenByte(t[0]) + WrittenBytes(t[1..])
  }

  lemma {:induction false} EscapedIs(t: bytes)
    ensures Escaped(t) == WrittenBytes(t)
  {
    hide WrittenByte, EscapeByte;
    if t != [] {
      EscapeByteIs(t[0]);
      EscapedIs(t[1..]);
    }
  }

  /** A printed string, byte by byte. */
  lemma QuotedIs(t: bytes)
    ensures Quoted(t) == Ascii("\"") + WrittenBytes(t) + Ascii("\"")
  {
    EscapedIs(t);
    assert Ascii("\"") == [QUOTE];
  }
}
