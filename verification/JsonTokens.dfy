/** The tokens of JSON text where they stand: white space, numbers and string literals, in any form that the parser
    of cjson.c takes. */
module JsonTokens {
  import opened Bytes
  import opened JsonString
  import opened JsonLiterals
  import opened JsonTree
  import opened JsonGrammar

  // ---------------------------------------------------------------------------------------------
  // White space
  // ---------------------------------------------------------------------------------------------

  predicate White(w: bytes) {
    forall k | 0 <= k < |w| :: w[k] <= 32
  }

  lemma SkipsTo(s: bytes, i: nat, j: nat)
    requires i <= j < |s| && s[j] > 32 && forall k | i <= k < j :: s[k] <= 32
    ensures SkipWhitespace(s, i) == j
  {
    ScanUnique(s, i, c => c > 32, j);
  }

  lemma WhiteIsSkipped(s: bytes, i: nat, w: bytes)
    requires At(s, i, w) && White(w) && i + |w| < |s| && s[i + |w|] > 32
    ensures SkipWhitespace(s, i) == i + |w|
  {
    AtBytes(s, i, w);
    forall k | i <= k < i + |w| ensures s[k] <= 32 {
      assert s[i + (k - i)] == w[k - i];
    }
    SkipsTo(s, i, i + |w|);
  }

  lemma SkippedIsWhite(s: bytes, i: nat)
    requires i <= |s| && SkipWhitespace(s, i) < |s| && s[SkipWhitespace(s, i)] > 32
    ensures White(s[i..SkipWhitespace(s, i)]) && At(s, i, s[i..SkipWhitespace(s, i)])
  {}

  // ---------------------------------------------------------------------------------------------
  // Numbers
  // ---------------------------------------------------------------------------------------------

  predicate NumberByte(c: byte) {
    c as char in "0123456789+-eE."
  }

  lemma NumberByteIs(c: byte)
    ensures NumberByte(c) <==> IsNumberChar(c)
  {}

  /** A number is followed by nothing that could go on with it. */
  ghost predicate Ends(s: bytes, p: nat) {
    p < |s| ==> !NumberByte(s[p])
  }

  lemma EndsIs(s: bytes, p: nat)
    ensures Ends(s, p) <==> (p < |s| ==> !IsNumberChar(s[p]))
  {
    if p < |s| {
      NumberByteIs(s[p]);
    }
  }

  function SignLength(t: bytes): nat {
    if t != [] && t[0] == MINUS then 1 else 0
  }

  /** A number in decimal digits. */
  predicate SpellsDecimal(t: bytes, n: nat)
    decreases |t|
  {
    if t == [] then n == 0 else t[|t| - 1] as char == "0123456789"[n % 10] && SpellsDecimal(t[..|t| - 1], n / 10)
  }

  /** An integer in decimal digits, with leading zeros or without: at most 63 characters. */
  predicate IsDecimal(t: bytes, n: int) {
    && |t| < 64
    && if t != [] && t[0] as char == '-' then n <= 0 && |t| > 1 && SpellsDecimal(t[1..], -n)
       else n >= 0 && t != [] && SpellsDecimal(t, n)
  }

  /** What the parser makes of its characters. */
  predicate Decimally(t: bytes, n: int) {
    var start := SignLength(t);
    && start < |t| < NUMBER_SIZE && (forall k | start <= k < |t| :: IsDigit(t[k]))
    && n == if start == 1 then -Value(t[start..]) else Value(t[start..])
  }

  lemma DigitIs(c: byte, n: nat)
    requires n < 10
    ensures c as char == "0123456789"[n] <==> IsDigit(c) && c - '0' as int == n
  {}

  lemma {:induction false} ValueIs(t: bytes, n: nat)
    ensures SpellsDecimal(t, n) <==> (forall k | 0 <= k < |t| :: IsDigit(t[k])) && Value(t) == n
    decreases |t|
  {
    hide IsDigit;
    if t != [] {
      var front, last := t[..|t| - 1], t[|t| - 1];
      DigitIs(last, n % 10);
      ValueIs(front, n / 10);
      if IsDigit(last) {
        DigitRange(last);
      }
      assert t == front + [last];
    }
  }

  lemma DigitRange(c: byte)
    requires IsDigit(c)
    ensures 0 <= c - '0' as int < 10
  {}

  lemma {:induction false} ValueIsNatural(t: bytes)
    requires forall k | 0 <= k < |t| :: IsDigit(t[k])
    ensures Value(t) >= 0
    decreases |t|
  {
    if t != [] {
      ValueIsNatural(t[..|t| - 1]);
    }
  }

  lemma DecimalIs(t: bytes, n: int)
    ensures IsDecimal(t, n) <==> Decimally(t, n)
  {
    hide SpellsDecimal, Value, IsDigit;
    var start := SignLength(t);
    var d := t[start..];
    assert (forall k | 0 <= k < |d| :: IsDigit(d[k])) <==> forall k | start <= k < |t| :: IsDigit(t[k]) by {
      if forall k | 0 <= k < |d| :: IsDigit(d[k]) {
        forall k | start <= k < |t| ensures IsDigit(t[k]) {
          assert t[k] == d[k - start];
        }
      }
    }
    if forall k | 0 <= k < |d| :: IsDigit(d[k]) {
      ValueIsNatural(d);
    }
    if start == 1 && n <= 0 {
      ValueIs(d, -n);
    } else if start == 0 && n >= 0 {
      assert d == t;
      ValueIs(d, n);
    }
  }

  lemma DecimalStarts(t: bytes, n: int)
    requires IsDecimal(t, n)
    ensures t != [] && (t[0] == MINUS || IsDigit(t[0]))
  {
    hide IsDecimal;
    DecimalIs(t, n);
  }

  lemma DecimalIsPrefix(t: bytes, n: int)
    requires Decimally(t, n)
    ensures DecimalPrefix(t) == Parsed(|t|, n)
    ensures forall k | 0 <= k < |t| :: IsNumberChar(t[k])
    ensures t[0] == MINUS || IsDigit(t[0])
  {
    var start := SignLength(t);
    ScanUnique(t, start, (c: byte) => !IsDigit(c), |t|);
    assert t[start..|t|] == t[start..];
  }

  lemma DecimalReads(s: bytes, i: nat, t: bytes, n: int32)
    requires At(s, i, t) && IsDecimal(t, n) && Ends(s, i + |t|)
    ensures ParseNumber(s, i) == Parsed(i + |t|, Num(n))
    ensures i < |s| && (s[i] == MINUS || IsDigit(s[i]))
  {
    hide IsDecimal;
    EndsIs(s, i + |t|);
    DecimalIs(t, n);
    DecimalIsPrefix(t, n);
    AtByte(s, i, t, 0);
    AtBytes(s, i, t);
    hide DecimalPrefix, IsNumberChar;
    forall k | i <= k < i + |t| ensures IsNumberChar(s[k]) {
      assert s[i + (k - i)] == t[k - i];
    }
    ScanUnique(s, i, (c: byte) => !IsNumberChar(c), i + |t|);
    assert NumberText(s, i) == t;
  }

  lemma DecimalWasRead(s: bytes, i: nat)
    requires i <= |s| && ParseNumber(s, i).Parsed? && Ends(s, ParseNumber(s, i).next)
    ensures var o := ParseNumber(s, i);
            o.value.Num? && At(s, i, s[i..o.next]) && IsDecimal(s[i..o.next], o.value.n)
  {
    var t := NumberText(s, i);
    var end := DecimalPrefix(t).next;
    NumberTextIs(s, i);
    WholeText(s, i, t, end);
    assert t == s[i..i + |t|];
    hide IsDecimal, Decimally;
    PrefixIsDecimal(t);
    DecimalIs(t, DecimalPrefix(t).value);
  }

  lemma WholeText(s: bytes, i: nat, t: bytes, end: nat)
    requires At(s, i, t) && end <= |t| && Ends(s, i + end) && forall k | 0 <= k < |t| :: IsNumberChar(t[k])
    ensures end == |t|
  {
    EndsIs(s, i + end);
    hide IsNumberChar;
    AtBytes(s, i, t);
  }

  lemma NumberTextIs(s: bytes, i: nat)
    requires i <= |s|
    ensures var t := NumberText(s, i);
            |t| < NUMBER_SIZE && At(s, i, t) && forall k | 0 <= k < |t| :: IsNumberChar(t[k])
  {
    hide IsNumberChar;
  }

  lemma PrefixIsDecimal(t: bytes)
    requires |t| < NUMBER_SIZE && DecimalPrefix(t).Parsed? && DecimalPrefix(t).next == |t|
    ensures Decimally(t, DecimalPrefix(t).value)
  {
    var start := SignLength(t);
    assert t[start..|t|] == t[start..];
  }

  lemma {:induction false} ValueOfDigits(n: nat)
    ensures Value(Digits(n)) == n
  {
    if n >= 10 {
      ValueOfDigits(n / 10);
    } else {
      assert Value([]) == 0;
    }
  }

  lemma {:induction false} DigitsAreFew(n: nat, size: nat, bound: nat)
    requires size > 0 && n < bound && bound == PowerOfTen(size)
    ensures |Digits(n)| <= size
  {
    if n >= 10 {
      DigitsAreFew(n / 10, size - 1, bound / 10);
    }
  }

  function PowerOfTen(n: nat): nat {
    if n == 0 then 1 else 10 * PowerOfTen(n - 1)
  }

  lemma TenDigits()
    ensures PowerOfTen(10) == 1_0000_000_000
  {
    assert PowerOfTen(5) == 100_000;
    assert PowerOfTen(10) == 100_000 * PowerOfTen(5);
  }

  /** What the printer writes for a number is one. */
  lemma PrintedIsDecimal(n: int32)
    ensures IsDecimal(Decimal(n), n)
  {
    hide Value, PowerOfTen, IsDecimal;
    DecimalIs(Decimal(n), n);
    var t, d := Decimal(n), Digits(Magnitude(n));
    DigitsRange(Magnitude(n));
    ValueOfDigits(Magnitude(n));
    TenDigits();
    DigitsAreFew(Magnitude(n), 10, 1_0000_000_000);
    hide Digits;
    var start := if n < 0 then 1 else 0;
    assert t[start..] == d;
    assert SignLength(t) == start;
    forall k | start <= k < |t| ensures IsDigit(t[k]) {
      assert t[k] == d[k - start];
    }
  }

  /** Without needless zeros, and no minus sign before a zero. */
  predicate IsShortest(t: bytes) {
    && t != []
    && if t[0] as char == '-' then |t| > 1 && t[1] as char != '0' else (t[0] as char == '0' ==> |t| == 1)
  }

  lemma {:induction false} ShortestDigits(t: bytes, n: nat)
    requires t != [] && SpellsDecimal(t, n) && (t[0] as char == '0' ==> |t| == 1)
    ensures t == Digits(n)
    decreases |t|
  {
    var front, last := t[..|t| - 1], t[|t| - 1];
    DigitIs(last, n % 10);
    assert t == front + [last];
    if front == [] {
      assert SpellsDecimal([], n / 10);
    } else {
      assert front[0] == t[0];
      NotZero(front, n / 10);
      ShortestDigits(front, n / 10);
    }
  }

  /** Digits that do not begin with a zero are more than zero. */
  lemma {:induction false} NotZero(t: bytes, n: nat)
    requires t != [] && SpellsDecimal(t, n) && t[0] as char != '0'
    ensures n > 0
    decreases |t|
  {
    var front, last := t[..|t| - 1], t[|t| - 1];
    DigitIs(last, n % 10);
    if front != [] {
      assert front[0] == t[0];
      NotZero(front, n / 10);
    }
  }

  lemma {:induction false} DigitsAreShortest(n: nat)
    ensures Digits(n)[0] as char == '0' ==> n == 0
    ensures n < 10 ==> |Digits(n)| == 1
  {
    if n >= 10 {
      DigitsAreShortest(n / 10);
    }
  }

  /** Of the ways to write a number, the printer takes the shortest. */
  lemma PrintedIsShortest(n: int32, t: bytes)
    ensures t == Decimal(n) <==> IsDecimal(t, n) && IsShortest(t)
  {
    var d := Digits(Magnitude(n));
    PrintedIsDecimal(n);
    DigitsAreShortest(Magnitude(n));
    DigitsRange(Magnitude(n));
    hide SpellsDecimal, Digits;
    if IsDecimal(t, n) && IsShortest(t) {
      if t[0] as char == '-' {
        ShortestDigits(t[1..], Magnitude(n));
        assert t == [t[0]] + t[1..];
        if n == 0 {
          ZeroDigits();
        }
      } else {
        ShortestDigits(t, n);
      }
    }
  }

  lemma ZeroDigits()
    ensures Digits(0)[0] as char == '0'
  {}

  // ---------------------------------------------------------------------------------------------
  // String literals
  // ---------------------------------------------------------------------------------------------

  /** What a C program sees of some bytes: those before the first zero. */
  predicate Shows(output: bytes, t: cstring) {
    t <= output && (t == output || output[|t|] == 0)
  }

  /** A literal with its quotes, and the C string that it means. */
  ghost predicate IsLiteral(lit: bytes, t: cstring) {
    && |lit| >= 2 && lit[0] == 34 && lit[|lit| - 1] == 34 && IsContent(lit[1..|lit| - 1])
    && exists output: bytes :: Means(lit[1..|lit| - 1], output) && Shows(output, t)
  }

  /** What the two passes make of it. */
  predicate Decodes(lit: bytes, t: cstring) {
    && |lit| >= 2 && lit[0] == QUOTE && FindEnd(lit, 1) == Some(|lit| - 1)
    && Unescape(lit, 1, |lit| - 1).Some? && t == CString(Unescape(lit, 1, |lit| - 1).value)
  }

  lemma ShowsCString(output: bytes, t: cstring)
    ensures Shows(output, t) <==> t == CString(output)
  {
    if Shows(output, t) {
      ScanUnique(output, 0, c => c == 0, |t|);
    }
  }

  lemma LiteralIs(lit: bytes, t: cstring)
    ensures IsLiteral(lit, t) <==> Decodes(lit, t)
  {
    hide FindEnd, Unescape, CString, Shows, Means, IsContent;
    if |lit| >= 2 && lit[0] == 34 && lit[|lit| - 1] == 34 {
      var content := lit[1..|lit| - 1];
      EndIs(lit, 1, |lit| - 1);
      if output: bytes :| Means(content, output) && Shows(output, t) {
        MeaningIs(lit, 1, |lit| - 1, output);
        ShowsCString(output, t);
      }
      if Unescape(lit, 1, |lit| - 1).Some? {
        var output := Unescape(lit, 1, |lit| - 1).value;
        MeaningIs(lit, 1, |lit| - 1, output);
        ShowsCString(output, t);
      }
    } else if Decodes(lit, t) {
      EndIs(lit, 1, |lit| - 1);
    }
  }

  /** Both passes look at the literal only, wherever it stands. */
  lemma {:induction false} FindEndInside(s: bytes, i: nat, lit: bytes, p: nat)
    requires At(s, i, lit) && FindEnd(lit, p).Some?
    ensures FindEnd(s, i + p) == Some(i + FindEnd(lit, p).value)
    decreases |lit| - p
  {
    AtBytes(s, i, lit);
    if lit[p] != QUOTE {
      if lit[p] == BACKSLASH {
        FindEndInside(s, i, lit, p + 2);
      } else {
        FindEndInside(s, i, lit, p + 1);
      }
    }
  }

  lemma {:induction false} FindEndOfCut(s: bytes, i: nat, p: nat, end: nat)
    requires i <= p && FindEnd(s, p) == Some(end)
    ensures FindEnd(s[i..end + 1], p - i) == Some(end - i)
    decreases |s| - p
  {
    var lit := s[i..end + 1];
    assert lit[p - i] == s[p];
    if s[p] != QUOTE {
      if s[p] == BACKSLASH {
        FindEndOfCut(s, i, p + 2, end);
      } else {
        FindEndOfCut(s, i, p + 1, end);
      }
    }
  }

  lemma PieceInside(s: bytes, i: nat, lit: bytes, p: nat, end: nat)
    requires At(s, i, lit) && p < end < |lit|
    ensures NextPiece(s, i + p, i + end) == NextPiece(lit, p, end)
  {
    hide Hex4, Utf8;
    AtBytes(s, i, lit);
    assert s[i + p] == lit[p] && s[i + p + 1] == s[i + (p + 1)] == lit[p + 1];
    if lit[p] == BACKSLASH && lit[p + 1] == 'u' as int {
      LiteralInside(s, i, lit, p, end);
    }
  }

  lemma LiteralInside(s: bytes, i: nat, lit: bytes, p: nat, end: nat)
    requires At(s, i, lit) && p < end < |lit|
    ensures Utf16Literal(s, i + p, i + end) == Utf16Literal(lit, p, end)
  {
    hide Hex4, Utf8;
    if end - p >= 6 {
      SliceInside(s, i, lit, p + 2, p + 6);
    }
    if end - p >= 12 {
      SliceInside(s, i, lit, p + 8, p + 12);
      AtByte(s, i, lit, p + 6);
      AtByte(s, i, lit, p + 7);
    }
  }

  lemma SliceInside(s: bytes, i: nat, lit: bytes, a: nat, b: nat)
    requires At(s, i, lit) && a <= b <= |lit|
    ensures i + b <= |s| && s[i + a..i + b] == lit[a..b]
  {
    AtBytes(s, i, lit);
    forall k | 0 <= k < b - a ensures s[i + a..i + b][k] == lit[a..b][k] {
      assert s[i + (a + k)] == lit[a + k];
    }
  }

  lemma {:induction false} UnescapeInside(s: bytes, i: nat, lit: bytes, p: nat, end: nat)
    requires At(s, i, lit) && p <= end + 1 <= |lit|
    ensures i + end + 1 <= |s| && Unescape(s, i + p, i + end) == Unescape(lit, p, end)
    decreases end + 1 - p
  {
    hide NextPiece, Unescape;
    AtFits(s, i, lit);
    UnescapeAt(s, i + p, i + end);
    UnescapeAt(lit, p, end);
    if p < end {
      PieceInside(s, i, lit, p, end);
      if NextPiece(lit, p, end).Some? {
        PieceBounds(lit, p, end);
        UnescapeInside(s, i, lit, p + NextPiece(lit, p, end).value.length, end);
      }
    }
  }

  lemma PieceBounds(s: bytes, p: nat, end: nat)
    requires p < end < |s| && NextPiece(s, p, end).Some?
    ensures var n := NextPiece(s, p, end).value.length; n > 0 && p + n <= end + 1
  {}

  lemma LiteralReads(s: bytes, i: nat, lit: bytes, t: cstring)
    requires At(s, i, lit) && IsLiteral(lit, t)
    ensures i < |s| && s[i] == QUOTE && ParseString(s, i) == Parsed(i + |lit|, t)
  {
    hide FindEnd, Unescape, CString, IsLiteral;
    LiteralIs(lit, t);
    AtFits(s, i, lit);
    AtByte(s, i, lit, 0);
    FindEndInside(s, i, lit, 1);
    UnescapeInside(s, i, lit, 1, |lit| - 1);
  }

  lemma LiteralWasRead(s: bytes, i: nat)
    requires i < |s| && ParseString(s, i).Parsed?
    ensures var o := ParseString(s, i);
            i < o.next <= |s| && At(s, i, s[i..o.next]) && IsLiteral(s[i..o.next], o.value)
  {
    hide FindEnd, Unescape, CString, IsLiteral;
    var end := FindEnd(s, i + 1).value;
    EndBounds(s, i + 1);
    var lit := s[i..end + 1];
    AtSlice(s, i, end + 1);
    FindEndOfCut(s, i, i + 1, end);
    UnescapeInside(s, i, lit, 1, |lit| - 1);
    LiteralIs(lit, ParseString(s, i).value);
  }

  lemma EndBounds(s: bytes, i: nat)
    requires FindEnd(s, i).Some?
    ensures i <= FindEnd(s, i).value < |s|
  {}

  lemma KeepsCString(t: cstring)
    ensures CString(t) == t
  {
    ScanUnique(t, 0, c => c == 0, |t|);
  }

  /** What the printer writes for a string is one. */
  lemma QuotedIsLiteral(t: cstring)
    ensures IsLiteral(Quoted(t), t)
  {
    hide FindEnd, Unescape, Escaped, CString, At, IsLiteral;
    var lit := Quoted(t);
    LiteralIs(lit, t);
    assert lit == [QUOTE] + (Escaped(t) + [QUOTE]);
    AtSlice(lit, 0, |lit|);
    assert lit[0..|lit|] == lit;
    AtParts(lit, 0, [QUOTE], Escaped(t) + [QUOTE]);
    StringRoundTrip(lit, 1, t);
    KeepsCString(t);
  }

  // ---------------------------------------------------------------------------------------------
  // Names
  // ---------------------------------------------------------------------------------------------

  lemma OtherFirst(s: bytes, i: nat, t: bytes)
    requires t != []
    ensures At(s, i, t) ==> i < |s| && s[i] == t[0]
  {
    if At(s, i, t) {
      AtByte(s, i, t, 0);
    }
  }

  /** No name starts here. */
  lemma NoName(s: bytes, i: nat)
    requires i < |s| && s[i] != 'n' as int && s[i] != 'f' as int && s[i] != 't' as int
    ensures !At(s, i, NULL_TEXT) && !At(s, i, FALSE_TEXT) && !At(s, i, TRUE_TEXT)
  {
    OtherFirst(s, i, NULL_TEXT);
    OtherFirst(s, i, FALSE_TEXT);
    OtherFirst(s, i, TRUE_TEXT);
  }
}
