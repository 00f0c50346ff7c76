/** What the register of the checksum has to do with polynomials over the field of two elements. */
module Crc32Polynomial {
  import opened Crc32

  /** The coefficients of a polynomial, highest power first. */
  type poly = seq<bool>

  function Zeros(n: nat): (r: poly)
    ensures |r| == n
  {
    seq(n, _ => false)
  }

  /** The sum, which is also the difference. */
  function Plus(a: poly, b: poly): (r: poly)
    requires |a| == |b|
    ensures |r| == |a| && forall i | 0 <= i < |r| :: r[i] == (a[i] != b[i])
  {
    seq(|a|, i requires 0 <= i < |a| => a[i] != b[i])
  }

  predicate Top(v: bv32) {
    v & 0x8000_0000 != 0
  }

  function Twice(v: bv32): bv32 {
    v << 1
  }

  /** The first n bits of a word, as the coefficients that they are. */
  function Coefficients(v: bv32, n: nat): (r: poly)
    ensures |r| == n
    decreases n
  {
    if n == 0 then [] else [Top(v)] + Coefficients(Twice(v), n - 1)
  }

  /** The powers in the generator of section 3.2.9 of IEEE 802.3. */
  predicate InGenerator(power: nat) {
    power in {32, 26, 23, 22, 16, 12, 11, 10, 8, 7, 5, 4, 2, 1, 0}
  }

  /** The generator with its leading term. */
  function Divisor(): (r: poly)
    ensures |r| == 33 && r[0]
  {
    seq(33, i requires 0 <= i < 33 => InGenerator(32 - i))
  }

  /** Four coefficients at a time. */
  lemma FourCoefficients(v: bv32, n: nat)
    requires n >= 4
    ensures Coefficients(v, n) == [Top(v), Top(v << 1), Top(v << 2), Top(v << 3)] + Coefficients(v << 4, n - 4)
  {
    hide Top, Twice, Coefficients;
    Shifts(v);
    FirstCoefficient(v, n);
    FirstCoefficient(Twice(v), n - 1);
    FirstCoefficient(Twice(Twice(v)), n - 2);
    FirstCoefficient(Twice(Twice(Twice(v))), n - 3);
  }

  lemma FirstCoefficient(v: bv32, n: nat)
    requires n > 0
    ensures Coefficients(v, n) == [Top(v)] + Coefficients(Twice(v), n - 1)
  {}

  lemma Shifts(v: bv32)
    ensures Twice(v) == v << 1 && Twice(Twice(v)) == v << 2 && Twice(Twice(Twice(v))) == v << 3 && Twice(Twice(Twice(Twice(v)))) == v << 4
  {}

  /** Four bits of a word at its upper end. */
  lemma UpperBits(v: bv32)
    ensures var d := v >> 28;
            && (Top(v) <==> d & 8 != 0) && (Top(v << 1) <==> d & 4 != 0) && (Top(v << 2) <==> d & 2 != 0) && (Top(v << 3) <==> d & 1 != 0)
  {}

  lemma DivisorPart(v: bv32, n: nat)
    requires n >= 4
    ensures var d := v >> 28;
            Coefficients(v, n) == [d & 8 != 0, d & 4 != 0, d & 2 != 0, d & 1 != 0] + Coefficients(v << 4, n - 4)
  {
    hide Coefficients, Top;
    FourCoefficients(v, n);
    UpperBits(v);
  }

  lemma CoefficientsEnd(v: bv32)
    ensures Coefficients(v, 0) == []
  {}

  lemma LowerTerms()
    ensures Coefficients(0x1DB7_0000, 16)
         == [false, false, false, true, true, true, false, true, true, false, true, true, false, true, true, true]
  {
    hide Coefficients;
    DivisorPart(0x1DB7_0000, 16);
    DivisorPart(0xDB70_0000, 12);
    DivisorPart(0xB700_0000, 8);
    DivisorPart(0x7000_0000, 4);
    CoefficientsEnd(0);
  }

  lemma UpperTerms()
    ensures Coefficients(0x04C1_1DB7, 32)
         == [false, false, false, false, false, true, false, false, true, true, false, false, false, false, false, true]
            + Coefficients(0x1DB7_0000, 16)
  {
    hide Coefficients;
    DivisorPart(0x04C1_1DB7, 32);
    DivisorPart(0x4C11_DB70, 28);
    DivisorPart(0xC11D_B700, 24);
    DivisorPart(0x11DB_7000, 20);
  }

  /** The word of the long division holds the lower terms of the generator. */
  lemma DivisorIs()
    ensures Divisor() == [true] + Coefficients(GENERATOR, 32)
  {
    hide Coefficients;
    UpperTerms();
    LowerTerms();
  }

  /** A quotient times the divisor: for each of its terms, the divisor at that place. */
  function Times(q: poly): (r: poly)
    ensures |r| == |q| + 32
  {
    if q == [] then Zeros(32) else Plus(Term(q[0], |q| - 1), [false] + Times(q[1..]))
  }

  function Term(present: bool, power: nat): (r: poly)
    ensures |r| == power + 33 && r[0] == present
  {
    if present then Divisor() + Zeros(power) else Zeros(power + 33)
  }

  /** The message times the 32nd power, and the register in front of it. */
  function Dividend(r: bv32, bits: seq<bool>): (d: poly)
    ensures |d| == |bits| + 32
  {
    Plus(Coefficients(r, 32) + Zeros(|bits|), bits + Zeros(32))
  }

  function Quotient(r: bv32, bits: seq<bool>): (q: poly)
    ensures |q| == |bits|
    decreases |bits|
  {
    if |bits| == 0 then [] else [Top(r) != bits[0]] + Quotient(DivideStep(r, bits[0]), bits[1..])
  }

  // ---------------------------------------------------------------------------------------------
  // Words and coefficients
  // ---------------------------------------------------------------------------------------------

  lemma TopXor(a: bv32, b: bv32)
    ensures Top(Xor(a, b)) == (Top(a) != Top(b))
  {}

  lemma TwiceXor(a: bv32, b: bv32)
    ensures Twice(Xor(a, b)) == Xor(Twice(a), Twice(b))
  {}

  lemma {:induction false} CoefficientsXor(a: bv32, b: bv32, n: nat)
    ensures Coefficients(Xor(a, b), n) == Plus(Coefficients(a, n), Coefficients(b, n))
    decreases n
  {
    hide Xor, Top, Twice;
    if n > 0 {
      TopXor(a, b);
      TwiceXor(a, b);
      CoefficientsXor(Twice(a), Twice(b), n - 1);
    }
  }

  function Shifted(v: bv32, n: nat): bv32
    decreases n
  {
    if n == 0 then v else Shifted(Twice(v), n - 1)
  }

  lemma {:induction false} ShiftedTwice(v: bv32, m: nat, n: nat)
    ensures Shifted(Shifted(v, m), n) == Shifted(v, m + n)
    decreases m
  {
    hide Twice;
    if m > 0 {
      ShiftedTwice(Twice(v), m - 1, n);
    }
  }

  lemma ShiftBits(v: bv32)
    ensures Twice(Twice(v)) == v << 2 && (v << 2) << 2 == v << 4 && (v << 4) << 4 == v << 8 && (v << 8) << 8 == v << 16
    ensures (v << 16) << 16 == 0
  {}

  lemma ShiftedByTwo(v: bv32)
    ensures Shifted(v, 1) == Twice(v) && Shifted(v, 2) == v << 2
  {
    hide Twice;
    ShiftBits(v);
    assert Shifted(v, 1) == Shifted(Twice(v), 0);
    assert Shifted(v, 2) == Shifted(Twice(v), 1) == Shifted(Twice(Twice(v)), 0);
  }

  lemma ShiftedByFour(v: bv32)
    ensures Shifted(v, 4) == v << 4
  {
    hide Shifted, Twice;
    ShiftedTwice(v, 2, 2);
    ShiftedByTwo(v);
    ShiftedByTwo(v << 2);
    ShiftBits(v);
  }

  lemma ShiftedByEight(v: bv32)
    ensures Shifted(v, 8) == v << 8
  {
    hide Shifted, Twice;
    ShiftedTwice(v, 4, 4);
    ShiftedByFour(v);
    ShiftedByFour(v << 4);
    ShiftBits(v);
  }

  lemma ShiftedByPowers(v: bv32)
    ensures Shifted(v, 1) == v << 1 && Shifted(v, 2) == v << 2 && Shifted(v, 4) == v << 4
    ensures Shifted(v, 8) == v << 8 && Shifted(v, 16) == v << 16
  {
    hide Shifted, Twice;
    ShiftedByTwo(v);
    TwiceIsShift(v);
    ShiftedByFour(v);
    ShiftedTwice(v, 8, 8);
    ShiftedByEight(v);
    ShiftedByEight(v << 8);
    ShiftBits(v);
  }

  lemma TwiceIsShift(v: bv32)
    ensures Twice(v) == v << 1
  {}

  lemma AllShiftedOut(v: bv32)
    ensures Shifted(v, 32) == 0
  {
    ShiftedTwice(v, 16, 16);
    ShiftedByPowers(v);
    ShiftedByPowers(v << 16);
    ShiftBits(v);
  }

  lemma {:induction false} OneMoreCoefficient(v: bv32, n: nat)
    ensures Coefficients(v, n + 1) == Coefficients(v, n) + [Top(Shifted(v, n))]
    decreases n
  {
    hide Twice, Top;
    if n == 0 {
      assert Coefficients(v, 1) == [Top(v)] + [];
    } else {
      OneMoreCoefficient(Twice(v), n - 1);
    }
  }

  lemma TwiceMovesUp(v: bv32)
    ensures Coefficients(Twice(v), 32) == Coefficients(v, 32)[1..] + [false]
    ensures Coefficients(v, 32)[0] == Top(v)
  {
    hide Twice;
    OneMoreCoefficient(v, 32);
    AllShiftedOut(v);
    assert !Top(0);
    RotatedIn(Coefficients(v, 33), Coefficients(v, 32), Coefficients(Twice(v), 32), Top(v));
  }

  lemma RotatedIn(all: poly, low: poly, high: poly, top: bool)
    requires all == [top] + high && all == low + [false] && |low| > 0
    ensures high == low[1..] + [false] && low[0] == top
  {
    assert all[1..] == high;
    assert all[0] == low[0];
  }

  // ---------------------------------------------------------------------------------------------
  // Division
  // ---------------------------------------------------------------------------------------------

  lemma StepIs(r: bv32, bit: bool)
    ensures DivideStep(r, bit) == if Top(r) != bit then Xor(Twice(r), GENERATOR) else Twice(r)
  {}

  /** One bit: the divisor is taken away once or not at all, and the leading coefficient is gone. */
  lemma DividendStep(r: bv32, bits: seq<bool>)
    requires |bits| > 0
    ensures Dividend(r, bits)
         == Plus(Term(Top(r) != bits[0], |bits| - 1), [false] + Dividend(DivideStep(r, bits[0]), bits[1..]))
  {
    hide Top, Twice, Xor, DivideStep, Coefficients, Term;
    var m, next := |bits| - 1, DivideStep(r, bits[0]);
    TwiceMovesUp(r);
    RegisterStep(r, bits[0], m);
    StepOfSums(Coefficients(r, 32), Coefficients(next, 32), Term(Top(r) != bits[0], m), bits, m);
  }

  lemma StepOfSums(c: poly, next: poly, term: poly, bits: poly, m: nat)
    requires |c| == |next| == 32 && |term| == m + 33 && |bits| == m + 1 && term[0] == (c[0] != bits[0])
    requires forall i | 0 < i < m + 33 :: (c + Zeros(m + 1))[i] == (term[i] != ([false] + (next + Zeros(m)))[i])
    ensures Plus(c + Zeros(m + 1), bits + Zeros(32)) == Plus(term, [false] + Plus(next + Zeros(m), bits[1..] + Zeros(32)))
  {
    hide Plus, Zeros;
    var x, y := c + Zeros(m + 1), bits + Zeros(32);
    var z := Plus(next + Zeros(m), bits[1..] + Zeros(32));
    assert y[1..] == bits[1..] + Zeros(32);
    forall i | 0 <= i < m + 33 ensures Plus(x, y)[i] == Plus(term, [false] + z)[i] {
      if i > 0 {
        assert y[i] == y[1..][i - 1];
        assert z[i - 1] == ((next + Zeros(m))[i - 1] != y[i]);
        assert x[i] == (term[i] != ([false] + (next + Zeros(m)))[i]);
      }
    }
  }

  lemma RegisterStep(r: bv32, bit: bool, m: nat)
    ensures var term, next := Term(Top(r) != bit, m), Coefficients(DivideStep(r, bit), 32);
            && |Coefficients(r, 32)| == |next| == 32 && |term| == m + 33 && term[0] == (Coefficients(r, 32)[0] != bit)
            && forall i | 0 < i < m + 33 :: (Coefficients(r, 32) + Zeros(m + 1))[i] == (term[i] != ([false] + (next + Zeros(m)))[i])
  {
    hide Top, Twice, Xor, DivideStep, Coefficients;
    NextCoefficients(r, bit);
    TermAt(Top(r) != bit, m);
    var c, next, low := Coefficients(r, 32), Coefficients(DivideStep(r, bit), 32), if Top(r) != bit then Coefficients(GENERATOR, 32) else Zeros(32);
    forall i | 0 < i < m + 33 ensures (c + Zeros(m + 1))[i] == (Term(Top(r) != bit, m)[i] != ([false] + (next + Zeros(m)))[i]) {
      if i <= 32 {
        assert next[i - 1] == ((c[1..] + [false])[i - 1] != low[i - 1]);
      }
    }
  }

  lemma NextCoefficients(r: bv32, bit: bool)
    ensures var c, g := Coefficients(r, 32), if Top(r) != bit then Coefficients(GENERATOR, 32) else Zeros(32);
            && |c| == |g| == 32 && c[0] == Top(r) && |Coefficients(GENERATOR, 32)| == 32
            && Coefficients(DivideStep(r, bit), 32) == Plus(c[1..] + [false], g)
  {
    hide Top, Twice, Xor, DivideStep;
    TwiceMovesUp(r);
    StepIs(r, bit);
    CoefficientsXor(Twice(r), GENERATOR, 32);
    PlusZeros(Coefficients(Twice(r), 32));
  }

  /** The term by its parts: a leading coefficient, the generator or nothing, and zeros. */
  lemma TermAt(present: bool, power: nat)
    ensures var low := if present then Coefficients(GENERATOR, 32) else Zeros(32);
            |low| == 32 && Term(present, power) == [present] + low + Zeros(power)
  {
    hide Coefficients, Divisor;
    DivisorIs();
  }

  /** Long division: the register ends as the remainder of the message times the 32nd power, and quotient and
      remainder are the only ones. */
  lemma {:induction false} RegisterIsRemainder(r: bv32, bits: seq<bool>, q: poly, c: poly)
    requires |q| == |bits| && |c| == 32
    ensures Dividend(r, bits) == Plus(Times(q), Zeros(|bits|) + c)
        <==> q == Quotient(r, bits) && c == Coefficients(Divide(r, bits), 32)
    decreases |bits|
  {
    hide Top, Twice, DivideStep, Coefficients, Term, Dividend;
    var n := |bits|;
    if n == 0 {
      NothingToDivide(r, bits);
      PlusZeros(c);
      assert Zeros(0) + c == c;
    } else {
      var next := DivideStep(r, bits[0]);
      DividendStep(r, bits);
      RegisterIsRemainder(next, bits[1..], q[1..], c);
      assert Zeros(n) + c == [false] + (Zeros(n - 1) + c);
      SumOfTerms(q, Zeros(n - 1) + c);
      SameSum(Top(r) != bits[0], q[0], n - 1, Dividend(next, bits[1..]), Plus(Times(q[1..]), Zeros(n - 1) + c));
      assert q == [q[0]] + q[1..];
    }
  }

  lemma NothingToDivide(r: bv32, bits: seq<bool>)
    requires |bits| == 0
    ensures Dividend(r, bits) == Coefficients(r, 32)
  {
    hide Coefficients;
    PlusZeros(Coefficients(r, 32));
    assert Coefficients(r, 32) + Zeros(0) == Coefficients(r, 32) && bits + Zeros(32) == Zeros(32);
  }

  lemma PlusZeros(a: poly)
    requires |a| == 32
    ensures Plus(a, Zeros(32)) == a && Plus(Zeros(32), a) == a
  {}

  lemma SumOfTerms(q: poly, c: poly)
    requires q != [] && |c| == |q| + 31
    ensures Plus(Times(q), [false] + c) == Plus(Term(q[0], |q| - 1), [false] + Plus(Times(q[1..]), c))
  {
    TimesStep(q);
    SumBehind(Term(q[0], |q| - 1), Times(q[1..]), c);
  }

  lemma SumBehind(a: poly, b: poly, c: poly)
    requires |b| == |c| && |a| == |b| + 1
    ensures Plus(Plus(a, [false] + b), [false] + c) == Plus(a, [false] + Plus(b, c))
  {}

  lemma SameSum(p: bool, q: bool, power: nat, a: poly, b: poly)
    requires |a| == |b| == power + 32
    ensures Plus(Term(p, power), [false] + a) == Plus(Term(q, power), [false] + b) <==> p == q && a == b
  {
    hide Term;
    var x, y := Plus(Term(p, power), [false] + a), Plus(Term(q, power), [false] + b);
    if x == y {
      assert x[0] == p && y[0] == q;
      forall i | 0 <= i < |a| ensures a[i] == b[i] {
        assert x[i + 1] == y[i + 1];
      }
    }
  }

  lemma AllOnesReversed()
    ensures Reverse(INITIAL) == INITIAL
  {}

  /** The checksum of an image, its bits read in the opposite order, is the remainder of the message by the
      generator, from a register of ones. */
  lemma ChecksumIsRemainder(image: seq<bv8>, q: poly, c: poly)
    requires |q| == |BitStream(image)| && |c| == 32
    ensures Dividend(0xffff_ffff, BitStream(image)) == Plus(Times(q), Zeros(|q|) + c)
        <==> q == Quotient(0xffff_ffff, BitStream(image)) && c == Coefficients(Reverse(BitSerialCrc(image)), 32)
  {
    hide Reverse, BitStream, Coefficients, Times, Dividend, Quotient, FeedBits;
    AllOnesReversed();
    RegisterIsReversedRemainder(INITIAL, BitStream(image));
    RegisterIsRemainder(INITIAL, BitStream(image), q, c);
  }

  // ---------------------------------------------------------------------------------------------
  // When two messages have the same checksum
  // ---------------------------------------------------------------------------------------------

  /** A polynomial is a quotient times the generator; the zeros in front of it are no part of its value. */
  ghost predicate IsMultiple(d: poly) {
    exists q: poly :: Multiplies(q, d)
  }

  predicate Multiplies(q: poly, d: poly) {
    |q| == |d| && Zeros(32) + d == Times(q)
  }

  lemma {:induction false} LastCoefficient(q: poly)
    requires q != []
    ensures Times(q)[|q| + 31] == q[|q| - 1]
    decreases |q|
  {
    hide Times, Term;
    TimesStep(q);
    LastOfTerm(q[0], |q| - 1);
    if |q| == 1 {
      TimesNothing();
    } else {
      LastCoefficient(q[1..]);
    }
  }

  /** The generator has a lowest coefficient. */
  lemma LastOfTerm(present: bool, power: nat)
    ensures |Term(present, power)| == power + 33 && Term(present, power)[power + 32] == (present && power == 0)
  {
    hide InGenerator;
    LowestOfGenerator();
  }

  lemma TimesNothing()
    ensures Times([]) == Zeros(32)
  {}

  lemma TimesStep(q: poly)
    requires q != []
    ensures Times(q) == Plus(Term(q[0], |q| - 1), [false] + Times(q[1..]))
  {
    hide Term;
  }

  lemma LowestOfGenerator()
    ensures Divisor()[32]
  {}

  /** A quotient that ends in a zero is one times the unknown, and so is its product. */
  lemma {:induction false} TimesUnknown(q: poly)
    ensures Times(q + [false]) == Times(q) + [false]
    decreases |q|
  {
    hide Term, Coefficients, Times;
    var p := q + [false];
    TimesStep(p);
    if q == [] {
      TimesNothing();
      TermAt(false, 0);
      assert p[1..] == [] && Zeros(32) + [false] == Plus(Term(false, 0), [false] + Zeros(32));
    } else {
      assert p[1..] == q[1..] + [false] && p[0] == q[0];
      TimesUnknown(q[1..]);
      TimesStep(q);
      TermUnknown(q[0], |q| - 1);
      SumUnknown(Term(q[0], |q| - 1), [false] + Times(q[1..]));
      assert [false] + (Times(q[1..]) + [false]) == [false] + Times(q[1..]) + [false];
    }
  }

  lemma TermUnknown(present: bool, power: nat)
    ensures Term(present, power + 1) == Term(present, power) + [false]
  {
    hide Coefficients;
    TermAt(present, power);
    TermAt(present, power + 1);
    assert Zeros(power + 1) == Zeros(power) + [false];
  }

  lemma SumUnknown(a: poly, b: poly)
    requires |a| == |b|
    ensures Plus(a + [false], b + [false]) == Plus(a, b) + [false]
  {}

  lemma TimesZeroFirst(q: poly)
    ensures Times([false] + q) == [false] + Times(q)
  {
    hide Coefficients;
    TermAt(false, |q|);
    assert ([false] + q)[1..] == q;
  }

  /** d with zeros in front and behind, 32 of them together. */
  function Padded(d: poly, front: nat): (r: poly)
    requires front <= 32
    ensures |r| == |d| + 32
  {
    Zeros(front) + d + Zeros(32 - front)
  }

  ghost predicate MultipleAt(d: poly, front: nat)
    requires front <= 32
  {
    exists q: poly :: IsQuotient(d, front, q)
  }

  ghost predicate IsQuotient(d: poly, front: nat, q: poly)
    requires front <= 32
  {
    |q| == |d| && Padded(d, front) == Times(q)
  }

  lemma PaddedRotates(d: poly, front: nat)
    requires front < 32
    ensures var x, y, n := Padded(d, front), Padded(d, front + 1), |d| + 31;
            !x[n] && !y[0] && y == [false] + x[..n] && x == y[1..] + [false]
  {}

  lemma QuotientForward(d: poly, front: nat, q: poly) returns (p: poly)
    requires front < 32 && IsQuotient(d, front, q)
    ensures IsQuotient(d, front + 1, p)
  {
    hide Times, Padded;
    PaddedRotates(d, front);
    if q == [] {
      p := [];
      TimesNothing();
      assert Padded(d, front + 1) == Zeros(32);
    } else {
      LastCoefficient(q);
      var m := q[..|q| - 1];
      assert q == m + [false];
      TimesUnknown(m);
      p := [false] + m;
      TimesZeroFirst(m);
      assert Padded(d, front)[..|d| + 31] == Times(m);
    }
  }

  lemma FirstCoefficientOf(q: poly)
    requires q != []
    ensures Times(q)[0] == q[0]
  {
    TimesStep(q);
  }

  lemma QuotientBackward(d: poly, front: nat, q: poly) returns (p: poly)
    requires front < 32 && IsQuotient(d, front + 1, q)
    ensures IsQuotient(d, front, p)
  {
    hide Times, Padded;
    PaddedRotates(d, front);
    if q == [] {
      p := [];
      TimesNothing();
      assert Padded(d, front) == Zeros(32);
    } else {
      FirstCoefficientOf(q);
      var m := q[1..];
      assert q == [false] + m;
      TimesZeroFirst(m);
      TimesUnknown(m);
      p := m + [false];
      assert Padded(d, front + 1)[1..] == Times(m);
    }
  }

  /** The 32nd power in front makes no difference: the generator has a lowest coefficient. */
  lemma {:induction false} MultipleAnywhere(d: poly, front: nat)
    requires front <= 32
    ensures MultipleAt(d, 0) <==> MultipleAt(d, front)
    decreases front
  {
    hide IsQuotient;
    if front > 0 {
      var before := front - 1;
      MultipleAnywhere(d, before);
      if q :| IsQuotient(d, before, q) {
        var p := QuotientForward(d, before, q);
      }
      if q :| IsQuotient(d, front, q) {
        var p := QuotientBackward(d, before, q);
      }
    }
  }

  lemma MultipleIs(d: poly)
    ensures MultipleAt(d, 32) <==> IsMultiple(d)
  {
    hide Times;
    assert Padded(d, 32) == Zeros(32) + d;
    if q :| IsQuotient(d, 32, q) {
      assert Multiplies(q, d);
    }
    if q: poly :| Multiplies(q, d) {
      assert IsQuotient(d, 32, q);
    }
  }

  /** Multiplication goes over sums. */
  lemma {:induction false} TimesPlus(p: poly, q: poly)
    requires |p| == |q|
    ensures Times(Plus(p, q)) == Plus(Times(p), Times(q))
    decreases |p|
  {
    hide Coefficients, Times;
    if p == [] {
      assert Plus(p, q) == [] && q == [];
      TimesNothing();
      assert Plus(Zeros(32), Zeros(32)) == Zeros(32);
    } else {
      var s := Plus(p, q);
      assert s[1..] == Plus(p[1..], q[1..]);
      TimesPlus(p[1..], q[1..]);
      TimesStep(p);
      TimesStep(q);
      TimesStep(s);
      TermPlus(p[0], q[0], |p| - 1);
      SumsOfTerms(Term(p[0], |p| - 1), Term(q[0], |p| - 1), Times(p[1..]), Times(q[1..]));
    }
  }

  lemma TermPlus(p: bool, q: bool, power: nat)
    ensures Term(p != q, power) == Plus(Term(p, power), Term(q, power))
  {
    hide Coefficients;
    TermAt(p, power);
    TermAt(q, power);
    TermAt(p != q, power);
  }

  lemma SumsOfTerms(a: poly, b: poly, x: poly, y: poly)
    requires |a| == |b| == |x| + 1 == |y| + 1
    ensures Plus(Plus(a, b), [false] + Plus(x, y)) == Plus(Plus(a, [false] + x), Plus(b, [false] + y))
  {}

  lemma {:induction false} NoCoefficients(v: bv32, n: nat)
    requires Coefficients(v, n) == Zeros(n) && Shifted(v, n) == 0
    ensures v == 0
    decreases n
  {
    hide Twice, Top;
    if n > 0 {
      assert Coefficients(v, n)[0] == Top(v);
      assert Coefficients(Twice(v), n - 1) == Coefficients(v, n)[1..] == Zeros(n - 1);
      NoCoefficients(Twice(v), n - 1);
      OnlyTopIsLost(v);
    }
  }

  lemma OnlyTopIsLost(v: bv32)
    ensures Twice(v) == 0 && !Top(v) ==> v == 0
  {}

  /** A word is given by its coefficients. */
  lemma SameCoefficients(a: bv32, b: bv32)
    requires Coefficients(a, 32) == Coefficients(b, 32)
    ensures a == b
  {
    hide Coefficients, Shifted;
    CoefficientsXor(a, b, 32);
    var c := Coefficients(a, 32);
    assert Plus(c, c) == Zeros(32);
    AllShiftedOut(Xor(a, b));
    NoCoefficients(Xor(a, b), 32);
    XorZero(a, b);
  }

  lemma XorZero(a: bv32, b: bv32)
    ensures Xor(a, b) == 0 ==> a == b
  {}

  lemma DividendsDiffer(r: bv32, x: seq<bool>, y: seq<bool>)
    requires |x| == |y|
    ensures Plus(Dividend(r, x), Dividend(r, y)) == Plus(x, y) + Zeros(32)
  {
    hide Coefficients;
  }

  lemma SumCancels(a: poly, b: poly, c: poly, d: poly, e: poly)
    requires |a| == |b| == |c| == |d| == |e|
    ensures a == Plus(b, e) && c == Plus(d, e) ==> Plus(a, c) == Plus(b, d)
    ensures a == Plus(b, e) && Plus(a, c) == d ==> c == Plus(Plus(b, d), e)
  {}

  /** Two messages leave the same remainder exactly when their difference is a multiple of the generator. */
  lemma SameRemainder(r: bv32, x: seq<bool>, y: seq<bool>)
    requires |x| == |y|
    ensures Divide(r, x) == Divide(r, y) <==> MultipleAt(Plus(x, y), 0)
  {
    hide Coefficients, Times, Dividend, Quotient, DivideStep, Divide, IsQuotient;
    var n, p, q := |x|, Quotient(r, x), Quotient(r, y);
    var c, e := Coefficients(Divide(r, x), 32), Coefficients(Divide(r, y), 32);
    Sizes(r, x, y);
    RegisterIsRemainder(r, x, p, c);
    RegisterIsRemainder(r, y, q, e);
    DividendsDiffer(r, x, y);
    assert Padded(Plus(x, y), 0) == Plus(x, y) + Zeros(32);
    if Divide(r, x) == Divide(r, y) {
      SumCancels(Dividend(r, x), Times(p), Dividend(r, y), Times(q), Zeros(n) + c);
      TimesPlus(p, q);
      QuotientFound(Plus(x, y), Plus(p, q));
    }
    if t :| IsQuotient(Plus(x, y), 0, t) {
      QuotientIs(Plus(x, y), t);
      SumCancels(Dividend(r, x), Times(p), Dividend(r, y), Times(t), Zeros(n) + c);
      TimesPlus(p, t);
      RegisterIsRemainder(r, y, Plus(p, t), c);
      SameCoefficients(Divide(r, x), Divide(r, y));
    }
  }

  lemma Sizes(r: bv32, x: seq<bool>, y: seq<bool>)
    requires |x| == |y|
    ensures |Quotient(r, x)| == |Quotient(r, y)| == |x| && |Dividend(r, x)| == |Dividend(r, y)| == |x| + 32
    ensures |Coefficients(Divide(r, x), 32)| == |Coefficients(Divide(r, y), 32)| == 32
    ensures forall q: poly :: |Times(q)| == |q| + 32
  {}

  lemma QuotientFound(d: poly, q: poly)
    requires |q| == |d| && Padded(d, 0) == Times(q)
    ensures MultipleAt(d, 0)
  {
    assert IsQuotient(d, 0, q);
  }

  lemma QuotientIs(d: poly, q: poly)
    requires IsQuotient(d, 0, q)
    ensures |q| == |d| && Padded(d, 0) == Times(q)
  {}

  lemma ReverseTwice(v: bv32)
    ensures Reverse(Reverse(v)) == v
  {}

  /** Two images of the same size have the same checksum exactly when the difference of their bit streams is a
      multiple of the generator. */
  lemma SameChecksum(p: seq<bv8>, q: seq<bv8>)
    requires |p| == |q|
    ensures BitSerialCrc(p) == BitSerialCrc(q) <==> IsMultiple(Plus(BitStream(p), BitStream(q)))
  {
    hide Reverse, BitStream, FeedBits, Divide, IsMultiple, MultipleAt;
    var x, y := BitStream(p), BitStream(q);
    AllOnesReversed();
    RegisterIsReversedRemainder(INITIAL, x);
    RegisterIsReversedRemainder(INITIAL, y);
    ReverseTwice(BitSerialCrc(p));
    ReverseTwice(BitSerialCrc(q));
    SameRemainder(INITIAL, x, y);
    MultipleAnywhere(Plus(x, y), 32);
    MultipleIs(Plus(x, y));
  }
}
