/** Which numbers of a JSON text are read as 32-bit integers, against the numbers that strtod takes in the C locale. */
module JsonNumbers {
  import opened Bytes
  import opened JsonTree
  import opened JsonGrammar
  import opened JsonTokens

  // ---------------------------------------------------------------------------------------------
  // The text that is handed over
  // ---------------------------------------------------------------------------------------------

  /** The longest run of bytes of numbers from i on, cut off after 63 of them. */
  ghost predicate IsRun(s: bytes, i: nat, t: bytes) {
    && At(s, i, t) && |t| <= 63 && (forall k | 0 <= k < |t| :: NumberByte(t[k]))
    && (|t| == 63 || i + |t| == |s| || !NumberByte(s[i + |t|]))
  }

  lemma RunIs(s: bytes, i: nat, t: bytes)
    requires i <= |s| && IsRun(s, i, t)
    ensures NumberText(s, i) == t
  {
    hide IsNumberChar, NumberByte;
    AtBytes(s, i, t);
    forall k | i <= k < i + |t| ensures IsNumberChar(s[k]) {
      assert s[i + (k - i)] == t[k - i];
      NumberByteIs(t[k - i]);
    }
    var e := Scan(s, i, (c: byte) => !IsNumberChar(c));
    if |t| < 63 {
      if i + |t| < |s| {
        NumberByteIs(s[i + |t|]);
      }
      ScanUnique(s, i, (c: byte) => !IsNumberChar(c), i + |t|);
    } else {
      assert e >= i + 63;
    }
  }

  // ---------------------------------------------------------------------------------------------
  // The numbers of strtod
  // ---------------------------------------------------------------------------------------------

  predicate AllDigits(t: bytes) {
    forall k | 0 <= k < |t| :: IsDecimalDigit(t[k])
  }

  predicate IsDecimalDigit(c: byte) {
    '0' <= c as char <= '9'
  }

  datatype Exponent = Exponent(mark: byte, sign: bytes, digits: bytes)

  /** A decimal floating-point number of section 7.20.1.3 of ISO C99: digits with at most one point among them, and an
      exponent. */
  datatype Float = Float(sign: bytes, whole: bytes, fraction: Option<bytes>, exponent: Option<Exponent>)

  predicate IsSign(t: bytes) {
    t == [] || t == ['-' as int] || t == ['+' as int]
  }

  predicate GoodFloat(f: Float) {
    && IsSign(f.sign) && AllDigits(f.whole)
    && (match f.fraction case None => f.whole != [] case Some(t) => AllDigits(t) && f.whole + t != [])
    && (f.exponent.Some? ==> GoodExponent(f.exponent.value))
  }

  predicate GoodExponent(e: Exponent) {
    (e.mark as char == 'e' || e.mark as char == 'E') && IsSign(e.sign) && AllDigits(e.digits) && e.digits != []
  }

  function FractionText(f: Float): bytes {
    match f.fraction case None => [] case Some(t) => ['.' as int] + t
  }

  function ExponentText(f: Float): bytes {
    match f.exponent case None => [] case Some(e) => [e.mark] + (e.sign + e.digits)
  }

  function FloatText(f: Float): bytes {
    f.sign + (f.whole + (FractionText(f) + ExponentText(f)))
  }

  ghost predicate IsFloat(t: bytes) {
    exists f :: GoodFloat(f) && t == FloatText(f)
  }

  /** Where the digits behind the sign end. */
  function DigitsEnd(t: bytes): (e: nat)
    ensures SignLength(t) <= e <= |t|
  {
    Scan(t, SignLength(t), (c: byte) => !IsDigit(c))
  }

  /** The sign and the digits of a number at the beginning of a text are among its own; a point or an exponent comes
      right behind all of them. */
  lemma FloatBegins(t: bytes, m: nat, f: Float)
    requires m <= |t| && GoodFloat(f) && t[..m] == FloatText(f)
    requires t != [] && (t[0] == MINUS || IsDigit(t[0]))
    ensures |f.sign| == SignLength(t) && SignLength(t) + |f.whole| <= DigitsEnd(t)
    ensures f.fraction.Some? ==> SignLength(t) + |f.whole| == DigitsEnd(t) < |t| && t[DigitsEnd(t)] == '.' as int
    ensures f.fraction.None? && f.exponent.Some? ==> SignLength(t) + |f.whole| == DigitsEnd(t) < |t| && IsExponentMark(t[DigitsEnd(t)])
  {
    SignOf(t, m, f);
    var n, rest := |f.sign|, FractionText(f) + ExponentText(f);
    var w := n + |f.whole|;
    assert t[..m] == f.sign + f.whole + rest;
    forall k | n <= k < w ensures IsDigit(t[k]) {
      assert t[k] == t[..m][k] == f.whole[k - n];
      assert IsDecimalDigit(f.whole[k - n]);
    }
    assert w <= DigitsEnd(t);
    if rest != [] {
      assert t[w] == t[..m][w] == rest[0];
      assert !IsDigit(t[w]);
      ScanUnique(t, n, (c: byte) => !IsDigit(c), w);
    }
  }

  lemma SignOf(t: bytes, m: nat, f: Float)
    requires m <= |t| && GoodFloat(f) && t[..m] == FloatText(f)
    requires t != [] && (t[0] == MINUS || IsDigit(t[0]))
    ensures |f.sign| == SignLength(t)
  {
    assert |FloatText(f)| > 0;
    assert t[0] == t[..m][0] == FloatText(f)[0];
    if f.sign == [] {
      if f.whole != [] {
        assert FloatText(f)[0] == f.whole[0];
        assert IsDecimalDigit(f.whole[0]);
      } else {
        assert FloatText(f)[0] == '.' as int;
      }
    }
  }

  // ---------------------------------------------------------------------------------------------
  // What the parser answers
  // ---------------------------------------------------------------------------------------------

  predicate Starts(t: bytes) {
    t != [] && (t[0] == MINUS || IsDigit(t[0]))
  }

  lemma DigitsBefore(t: bytes, a: nat, b: nat)
    requires a <= b <= |t| && forall k | a <= k < b :: IsDigit(t[k])
    ensures AllDigits(t[a..b])
  {}

  lemma FloatAt(t: bytes, m: nat, f: Float)
    requires m <= |t| && GoodFloat(f) && FloatText(f) == t[..m]
    ensures IsFloat(t[..m])
  {}

  /** Sign and digits are a number. */
  lemma PlainFloat(t: bytes)
    requires Starts(t) && SignLength(t) < DigitsEnd(t)
    ensures IsFloat(t[..DigitsEnd(t)])
  {
    var a, e := SignLength(t), DigitsEnd(t);
    var f := Float(t[..a], t[a..e], None, None);
    DigitsBefore(t, a, e);
    assert t[..a] + (t[a..e] + ([] + [])) == t[..e];
    FloatAt(t, e, f);
  }

  /** A point behind digits or before one makes a longer number. */
  lemma PointFloat(t: bytes) returns (m: nat)
    requires Starts(t) && DigitsEnd(t) < |t| && t[DigitsEnd(t)] == '.' as int
    requires SignLength(t) < DigitsEnd(t) || DigitAt(t, DigitsEnd(t) + 1)
    ensures DigitsEnd(t) < m <= |t| && IsFloat(t[..m])
  {
    var a, e := SignLength(t), DigitsEnd(t);
    m := if a < e then e + 1 else e + 2;
    var f := Float(t[..a], t[a..e], Some(t[e + 1..m]), None);
    DigitsBefore(t, a, e);
    DigitsBefore(t, e + 1, m);
    assert t[..a] + (t[a..e] + (['.' as int] + t[e + 1..m] + [])) == t[..m];
    FloatAt(t, m, f);
  }

  lemma ExponentIsThere(t: bytes, e: nat) returns (d: nat)
    requires HasExponent(t, e)
    ensures e < d < |t| && GoodExponent(Exponent(t[e], t[e + 1..d], t[d..d + 1]))
  {
    d := if DigitAt(t, e + 1) then e + 1 else e + 2;
  }

  lemma ExponentFloat(t: bytes) returns (m: nat)
    requires Starts(t) && SignLength(t) < DigitsEnd(t) && HasExponent(t, DigitsEnd(t))
    ensures DigitsEnd(t) < m <= |t| && IsFloat(t[..m])
  {
    hide HasExponent, GoodExponent, AllDigits;
    var a, e := SignLength(t), DigitsEnd(t);
    var d := ExponentIsThere(t, e);
    m := d + 1;
    var f := Float(t[..a], t[a..e], None, Some(Exponent(t[e], t[e + 1..d], t[d..m])));
    DigitsBefore(t, a, e);
    assert t[..a] + (t[a..e] + ([] + ([t[e]] + (t[e + 1..d] + t[d..m])))) == t[..m];
    FloatAt(t, m, f);
  }

  /** Without a point and an exponent, no number is longer than sign and digits. */
  lemma NoLongerFloat(t: bytes, m: nat)
    requires Starts(t) && m <= |t| && IsFloat(t[..m])
    ensures SignLength(t) < DigitsEnd(t) || (DigitsEnd(t) < |t| && t[DigitsEnd(t)] == '.' as int && DigitAt(t, DigitsEnd(t) + 1))
    ensures m <= DigitsEnd(t) || (DigitsEnd(t) < |t| && t[DigitsEnd(t)] == '.' as int) || HasExponent(t, DigitsEnd(t))
  {
    var f :| GoodFloat(f) && t[..m] == FloatText(f);
    var e := DigitsEnd(t);
    FloatBegins(t, m, f);
    if f.fraction.Some? {
      FractionBehind(t, m, f);
    } else if f.exponent.Some? {
      ExponentBehind(t, m, f);
    }
  }

  lemma FractionBehind(t: bytes, m: nat, f: Float)
    requires m <= |t| && GoodFloat(f) && t[..m] == FloatText(f) && f.fraction.Some?
    requires |f.sign| + |f.whole| == DigitsEnd(t)
    ensures f.whole == [] ==> DigitAt(t, DigitsEnd(t) + 1)
  {
    var e := DigitsEnd(t);
    assert FloatText(f) == f.sign + f.whole + (FractionText(f) + ExponentText(f));
    if f.whole == [] {
      assert t[e + 1] == t[..m][e + 1] == (FractionText(f) + ExponentText(f))[1] == f.fraction.value[0];
      assert IsDecimalDigit(f.fraction.value[0]);
    }
  }

  lemma ExponentBehind(t: bytes, m: nat, f: Float)
    requires m <= |t| && GoodFloat(f) && t[..m] == FloatText(f) && f.fraction.None? && f.exponent.Some?
    requires |f.sign| + |f.whole| == DigitsEnd(t) < |t| && IsExponentMark(t[DigitsEnd(t)])
    ensures HasExponent(t, DigitsEnd(t))
  {
    hide GoodExponent, HasExponent, FloatText, AllDigits, IsExponentMark;
    var e, x := DigitsEnd(t), f.exponent.value;
    TextWithoutFraction(f);
    BytesBehind(t, m, f.sign + f.whole, [x.mark] + (x.sign + x.digits));
    ExponentAt(t, e, x);
  }

  lemma TextWithoutFraction(f: Float)
    requires f.fraction.None? && f.exponent.Some?
    ensures var x := f.exponent.value; FloatText(f) == f.sign + f.whole + ([x.mark] + (x.sign + x.digits))
  {
    assert FractionText(f) == [];
  }

  /** The last part of a beginning stands behind the first part. */
  lemma BytesBehind(t: bytes, m: nat, a: bytes, b: bytes)
    requires m <= |t| && t[..m] == a + b
    ensures At(t, |a|, b)
  {
    assert t[|a|..|a| + |b|] == t[..m][|a|..] == b;
  }

  lemma ExponentAt(t: bytes, e: nat, x: Exponent)
    requires GoodExponent(x) && At(t, e, [x.mark] + (x.sign + x.digits))
    ensures HasExponent(t, e)
  {
    var text := [x.mark] + (x.sign + x.digits);
    AtFits(t, e, text);
    AtByte(t, e, text, 0);
    AtByte(t, e, text, 1);
    assert IsDecimalDigit(x.digits[0]);
    if x.sign != [] {
      AtByte(t, e, text, 2);
    }
  }

  lemma DecimalInside(t: bytes, n: nat, v: int)
    requires Starts(t) && n <= |t| && IsDecimal(t[..n], v)
    ensures SignLength(t) < n <= DigitsEnd(t)
    ensures n == DigitsEnd(t) ==> DecimalPrefix(t) == Parsed(n, v) || !DecimalPrefix(t).Parsed?
  {
    hide IsDecimal, Value, HasExponent;
    DecimalIs(t[..n], v);
    var a := SignLength(t);
    assert SignLength(t[..n]) == a;
    forall k | a <= k < n ensures IsDigit(t[k]) {
      assert t[k] == t[..n][k];
    }
    assert n <= DigitsEnd(t);
    assert t[..n][a..] == t[a..n];
  }

  lemma WholeDecimal(t: bytes)
    requires Starts(t) && |t| <= 63 && SignLength(t) < DigitsEnd(t) && DecimalPrefix(t).Parsed?
    ensures DecimalPrefix(t).next == DigitsEnd(t) && IsDecimal(t[..DigitsEnd(t)], DecimalPrefix(t).value)
  {
    hide IsDecimal, Value, HasExponent;
    var a, e := SignLength(t), DigitsEnd(t);
    assert t[..e][a..] == t[a..e];
    DecimalIs(t[..e], DecimalPrefix(t).value);
  }

  /** Of a text that begins with a minus sign or a digit: an integer in decimal digits is taken when no longer number
      begins the text, and nothing when no number does. */
  lemma PrefixMeans(t: bytes, n: nat, v: int)
    requires Starts(t) && |t| <= 63
    ensures DecimalPrefix(t) == Parsed(n, v) <==> n <= |t| && IsDecimal(t[..n], v) && forall m | n < m <= |t| :: !IsFloat(t[..m])
    ensures DecimalPrefix(t).Rejected? <==> forall m | 0 <= m <= |t| :: !IsFloat(t[..m])
  {
    hide IsDecimal, IsFloat, Value, HasExponent;
    var a, e := SignLength(t), DigitsEnd(t);
    if n <= |t| && IsDecimal(t[..n], v) {
      DecimalInside(t, n, v);
    }
    if e < |t| && t[e] == '.' as int && (a < e || DigitAt(t, e + 1)) {
      var m := PointFloat(t);
      assert DecimalPrefix(t).OtherNumber?;
    } else if e == a {
      forall m | 0 <= m <= |t| ensures !IsFloat(t[..m]) {
        if IsFloat(t[..m]) {
          NoLongerFloat(t, m);
        }
      }
    } else if HasExponent(t, e) {
      PlainFloat(t);
      var m := ExponentFloat(t);
      assert DecimalPrefix(t).OtherNumber?;
    } else {
      PlainFloat(t);
      WholeDecimal(t);
      forall m | e < m <= |t| ensures !IsFloat(t[..m]) {
        if IsFloat(t[..m]) {
          NoLongerFloat(t, m);
        }
      }
    }
  }

  /** A number in its text: the 32-bit integers among the numbers of strtod are read, each to its end, and what begins
      no number at all is refused. */
  lemma NumberMeans(s: bytes, i: nat, t: bytes, n: nat, v: int32)
    requires i <= |s| && IsRun(s, i, t) && Starts(t)
    ensures ParseNumber(s, i) == Parsed(i + n, Num(v))
       <==> n <= |t| && IsDecimal(t[..n], v) && forall m | n < m <= |t| :: !IsFloat(t[..m])
    ensures ParseNumber(s, i).Rejected? <==> forall m | 0 <= m <= |t| :: !IsFloat(t[..m])
  {
    hide IsDecimal, IsFloat, DecimalPrefix, IsRun;
    RunIs(s, i, t);
    RunIsShort(s, i, t);
    PrefixMeans(t, n, v);
  }

  lemma RunIsShort(s: bytes, i: nat, t: bytes)
    requires IsRun(s, i, t)
    ensures |t| <= 63
  {}
}
