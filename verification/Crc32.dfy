/** The image checksum of the boot loader: bootloader_CRCGenerate in bootloader_common.c.

    The table-driven loop is proved against a register that takes one message bit at a time. The register
    is tied to division by the standard generator in the usual bit order, and because it can be run
    backwards it tells apart any two images that differ in one burst of at most 32 bits.

    The proofs see the 32-bit word only through Xor, Half and Odd and their laws. */
module Crc32 {

  // The reflected polynomial as the source spells it.
  const POLY: bv32 := 0xEDB88320

  // The generator of section 3.2.9 of IEEE 802.3 without its leading term, highest power first.
  const GENERATOR: bv32 := 0x04C11DB7

  const INITIAL: bv32 := 0xffff_ffff

  // ---------------------------------------------------------------------------------------------
  // The word and its laws
  // ---------------------------------------------------------------------------------------------

  function Xor(a: bv32, b: bv32): bv32 { a ^ b }

  function Half(v: bv32): bv32 { v >> 1 }

  predicate Odd(v: bv32) { v & 1 != 0 }

  lemma XorCommutes(a: bv32, b: bv32)
    ensures Xor(a, b) == Xor(b, a)
  {}

  lemma XorAssociates(a: bv32, b: bv32, c: bv32)
    ensures Xor(Xor(a, b), c) == Xor(a, Xor(b, c))
  {}

  lemma XorUnit(a: bv32)
    ensures Xor(a, 0) == a && Xor(0, a) == a && Xor(a, a) == 0
  {}

  lemma HalfXor(a: bv32, b: bv32)
    ensures Half(Xor(a, b)) == Xor(Half(a), Half(b))
  {}

  lemma OddXor(a: bv32, b: bv32)
    ensures Odd(Xor(a, b)) == (Odd(a) != Odd(b))
  {}

  lemma HalfOddInjective(a: bv32, b: bv32)
    requires Half(a) == Half(b) && Odd(a) == Odd(b)
    ensures a == b
  {}

  // ---------------------------------------------------------------------------------------------
  // The reference: one register, one message bit at a time
  // ---------------------------------------------------------------------------------------------

  /** One message bit of a bit-serial CRC: the bit is compared with the one that falls out. */
  function Feed(crc: bv32, bit: bool): bv32 {
    if Odd(crc) != bit then Xor(Half(crc), POLY) else Half(crc)
  }

  function FeedBits(crc: bv32, bits: seq<bool>): bv32
    decreases |bits|
  {
    if |bits| == 0 then crc else FeedBits(Feed(crc, bits[0]), bits[1..])
  }

  /** The lowest n bits of t, lowest first. */
  function LowBits(t: bv32, n: nat): (bits: seq<bool>)
    ensures |bits| == n
  {
    if n == 0 then [] else [Odd(t)] + LowBits(Half(t), n - 1)
  }

  /** The bits of a byte in transmission order. */
  function BitsOf(b: bv8): (bits: seq<bool>)
    ensures |bits| == 8
  {
    LowBits(b as bv32, 8)
  }

  function BitStream(data: seq<bv8>): (bits: seq<bool>)
    ensures |bits| == 8 * |data|
    decreases |data|
  {
    if |data| == 0 then [] else BitsOf(data[0]) + BitStream(data[1..])
  }

  /** The register of section 3.2.9 of IEEE 802.3 over a whole image, without the final complement. */
  function BitSerialCrc(data: seq<bv8>): bv32 {
    FeedBits(INITIAL, BitStream(data))
  }

  lemma FeedBitsStep(crc: bv32, bit: bool, bits: seq<bool>)
    ensures FeedBits(crc, [bit] + bits) == FeedBits(Feed(crc, bit), bits)
  {
    assert ([bit] + bits)[1..] == bits;
  }

  lemma {:induction false} FeedBitsConcat(crc: bv32, p: seq<bool>, q: seq<bool>)
    ensures FeedBits(crc, p + q) == FeedBits(FeedBits(crc, p), q)
    decreases |p|
  {
    hide Feed;
    if |p| == 0 {
      assert p + q == q;
    } else {
      assert (p + q)[1..] == p[1..] + q;
      FeedBitsConcat(Feed(crc, p[0]), p[1..], q);
    }
  }

  lemma {:induction false} BitStreamConcat(p: seq<bv8>, q: seq<bv8>)
    ensures BitStream(p + q) == BitStream(p) + BitStream(q)
    decreases |p|
  {
    hide BitsOf;
    if |p| == 0 {
      assert p + q == q;
    } else {
      assert (p + q)[1..] == p[1..] + q;
      BitStreamConcat(p[1..], q);
      assert BitsOf(p[0]) + (BitStream(p[1..]) + BitStream(q)) == BitStream(p) + BitStream(q);
    }
  }

  // ---------------------------------------------------------------------------------------------
  // The same register in the usual bit order: division by the generator
  // ---------------------------------------------------------------------------------------------

  /** The bits in the opposite order: neighbouring groups of 1, 2, 4, 8 and 16 bits change places. */
  function Reverse(v: bv32): bv32 {
    var v1 := ((v >> 1) & 0x5555_5555) | ((v & 0x5555_5555) << 1);
    var v2 := ((v1 >> 2) & 0x3333_3333) | ((v1 & 0x3333_3333) << 2);
    var v4 := ((v2 >> 4) & 0x0F0F_0F0F) | ((v2 & 0x0F0F_0F0F) << 4);
    var v8 := ((v4 >> 8) & 0x00FF_00FF) | ((v4 & 0x00FF_00FF) << 8);
    (v8 >> 16) | (v8 << 16)
  }

  /** One step of long division by the generator, highest power first. */
  function DivideStep(r: bv32, bit: bool): bv32 {
    if (r & 0x8000_0000 != 0) != bit then (r << 1) ^ GENERATOR else r << 1
  }

  function Divide(r: bv32, bits: seq<bool>): bv32
    decreases |bits|
  {
    if |bits| == 0 then r else Divide(DivideStep(r, bits[0]), bits[1..])
  }

  lemma ReverseShift(v: bv32)
    ensures Reverse(v >> 1) == Reverse(v) << 1
  {}

  lemma ReverseOdd(v: bv32)
    ensures Odd(v) <==> (Reverse(v) & 0x8000_0000 != 0)
  {}

  lemma ReverseHalfPoly(v: bv32)
    ensures Reverse(Xor(Half(v), POLY)) == (Reverse(v) << 1) ^ GENERATOR
  {}

  lemma FeedReversed(crc: bv32, bit: bool)
    ensures Reverse(Feed(crc, bit)) == DivideStep(Reverse(crc), bit)
  {
    hide Reverse, Odd, Xor;
    ReverseOdd(crc);
    ReverseShift(crc);
    ReverseHalfPoly(crc);
  }

  /** Read in the opposite bit order, the register holds the remainder of long division. */
  lemma {:induction false} RegisterIsReversedRemainder(crc: bv32, bits: seq<bool>)
    ensures Reverse(FeedBits(crc, bits)) == Divide(Reverse(crc), bits)
    decreases |bits|
  {
    hide Reverse, Feed, DivideStep;
    if |bits| > 0 {
      FeedReversed(crc, bits[0]);
      RegisterIsReversedRemainder(Feed(crc, bits[0]), bits[1..]);
    }
  }

  // ---------------------------------------------------------------------------------------------
  // The table form
  // ---------------------------------------------------------------------------------------------

  /** One step of the shift register, as the inner loop of the table fill does it. */
  function Shift(value: bv32): bv32 {
    if Odd(value) then Xor(Half(value), POLY) else Half(value)
  }

  function ShiftBy(value: bv32, n: nat): bv32 {
    if n == 0 then value else Shift(ShiftBy(value, n - 1))
  }

  /** Message bits that already sit in the register are fed one by one as it shifts. */
  lemma ShiftFeeds(r: bv32, t: bv32)
    ensures Shift(Xor(r, t)) == Xor(Feed(r, Odd(t)), Half(t))
  {
    hide Half, Odd, Xor;
    HalfXor(r, t);
    OddXor(r, t);
    XorAssociates(Half(r), POLY, Half(t));
    XorAssociates(Half(r), Half(t), POLY);
    XorCommutes(Half(t), POLY);
  }

  function Drop(t: bv32, n: nat): bv32 {
    if n == 0 then t else Drop(Half(t), n - 1)
  }

  lemma {:induction false} ShiftByFromInside(v: bv32, n: nat)
    ensures ShiftBy(v, n + 1) == ShiftBy(Shift(v), n)
  {
    hide Shift;
    if n > 0 {
      ShiftByFromInside(v, n - 1);
    }
  }

  /** The general form of both uses below: the low bits of t are fed, the rest of t is carried along. */
  lemma {:induction false} ShiftByFeeds(r: bv32, t: bv32, n: nat)
    ensures ShiftBy(Xor(r, t), n) == Xor(FeedBits(r, LowBits(t, n)), Drop(t, n))
    decreases n
  {
    hide Half, Odd, Xor, Feed, Shift;
    if n > 0 {
      ShiftByFromInside(Xor(r, t), n - 1);
      ShiftFeeds(r, t);
      ShiftByFeeds(Feed(r, Odd(t)), Half(t), n - 1);
      FeedBitsStep(r, Odd(t), LowBits(Half(t), n - 1));
    }
  }

  lemma {:induction false} DropMonotone(t: bv32, m: bv32, n: nat)
    requires t <= m && Drop(m, n) == 0
    ensures Drop(t, n) == 0
    decreases n
  {
    hide Half;
    if n > 0 {
      HalfMonotone(t, m);
      DropMonotone(Half(t), Half(m), n - 1);
    } else {
      OnlyZeroIsBelowZero(t);
    }
  }

  lemma HalfMonotone(t: bv32, m: bv32)
    requires t <= m
    ensures Half(t) <= Half(m)
  {}

  lemma OnlyZeroIsBelowZero(t: bv32)
    ensures t <= 0 ==> t == 0
  {}

  lemma DropStep(t: bv32, half: bv32, n: nat)
    requires half == Half(t) && Drop(half, n) == 0
    ensures Drop(t, n + 1) == 0
  {}

  lemma DropByte(b: bv8)
    ensures Drop(b as bv32, 8) == 0
  {
    DropStep(1, 0, 0);
    DropStep(3, 1, 1);
    DropStep(7, 3, 2);
    DropStep(15, 7, 3);
    DropStep(31, 15, 4);
    DropStep(63, 31, 5);
    DropStep(127, 63, 6);
    DropStep(255, 127, 7);
    DropMonotone(b as bv32, 255, 8);
  }

  /** Eight feeds of one byte are eight shifts of the register with the byte folded in. */
  lemma FeedByte(crc: bv32, b: bv8)
    ensures FeedBits(crc, BitsOf(b)) == ShiftBy(Xor(crc, b as bv32), 8)
  {
    hide Xor, LowBits, FeedBits, ShiftBy;
    DropByte(b);
    ShiftByFeeds(crc, b as bv32, 8);
    XorUnit(FeedBits(crc, BitsOf(b)));
  }

  /** The lowest n bits of z are clear and w is what is left above them. */
  predicate Above(z: bv32, w: bv32, n: nat) {
    if n == 0 then z == w else !Odd(z) && Above(Half(z), w, n - 1)
  }

  lemma AboveStep(z: bv32, half: bv32, w: bv32, n: nat)
    requires half == Half(z) && !Odd(z) && Above(half, w, n)
    ensures Above(z, w, n + 1)
  {}

  lemma EightHalves(z: bv32, z1: bv32, z2: bv32, z3: bv32, z4: bv32, z5: bv32, z6: bv32, z7: bv32, w: bv32)
    requires z & 0xff == 0 && z1 == Half(z) && z2 == Half(z1) && z3 == Half(z2) && z4 == Half(z3)
    requires z5 == Half(z4) && z6 == Half(z5) && z7 == Half(z6) && w == z >> 8
    ensures !Odd(z) && !Odd(z1) && !Odd(z2) && !Odd(z3) && !Odd(z4) && !Odd(z5) && !Odd(z6) && !Odd(z7)
    ensures Half(z7) == w
  {}

  lemma UpperBytesAbove(z: bv32, w: bv32)
    requires z & 0xff == 0 && w == z >> 8
    ensures Above(z, w, 8)
  {
    var z1 := Half(z);
    var z2 := Half(z1);
    var z3 := Half(z2);
    var z4 := Half(z3);
    var z5 := Half(z4);
    var z6 := Half(z5);
    var z7 := Half(z6);
    EightHalves(z, z1, z2, z3, z4, z5, z6, z7, w);
    hide Half, Odd;
    AboveStep(z7, w, w, 0);
    AboveStep(z6, z7, w, 1);
    AboveStep(z5, z6, w, 2);
    AboveStep(z4, z5, w, 3);
    AboveStep(z3, z4, w, 4);
    AboveStep(z2, z3, w, 5);
    AboveStep(z1, z2, w, 6);
    AboveStep(z, z1, w, 7);
  }

  lemma FeedZeroIsShift(r: bv32)
    ensures Feed(r, false) == Shift(r)
  {}

  lemma {:induction false} ShiftByCarries(r: bv32, z: bv32, w: bv32, n: nat)
    requires Above(z, w, n)
    ensures ShiftBy(Xor(r, z), n) == Xor(ShiftBy(r, n), w)
    decreases n
  {
    hide Shift, Feed, Xor, Half, Odd;
    if n > 0 {
      ShiftByFromInside(Xor(r, z), n - 1);
      ShiftByFromInside(r, n - 1);
      ShiftFeeds(r, z);
      FeedZeroIsShift(r);
      ShiftByCarries(Shift(r), Half(z), w, n - 1);
    }
  }

  function LowByte(v: bv32): bv32 { v & 0xff }

  function AboveLowByte(v: bv32): bv32 { v & 0xffff_ff00 }

  function UpperBytes(v: bv32): bv32 { v >> 8 }

  lemma SplitLowByte(y: bv32)
    ensures y == Xor(LowByte(y), AboveLowByte(y))
  {}

  lemma AboveLowByteIsAbove(y: bv32)
    ensures Above(AboveLowByte(y), UpperBytes(y), 8)
  {
    UpperBytesAbove(y & 0xffff_ff00, y >> 8);
  }

  lemma UpperBytesUntouched(crc: bv32, b: bv8)
    ensures UpperBytes(Xor(crc, b as bv32)) == UpperBytes(crc)
  {}

  /** The register after one table lookup. */
  function Lookup(crc: bv32, b: bv8): bv32 {
    Xor(ShiftBy(LowByte(Xor(crc, b as bv32)), 8), UpperBytes(crc))
  }

  lemma TableStep(crc: bv32, b: bv8)
    ensures ShiftBy(Xor(crc, b as bv32), 8) == Lookup(crc, b)
  {
    hide Xor, ShiftBy, Above, LowByte, AboveLowByte, UpperBytes;
    var y := Xor(crc, b as bv32);
    SplitLowByte(y);
    AboveLowByteIsAbove(y);
    UpperBytesUntouched(crc, b);
    ShiftByCarries(LowByte(y), AboveLowByte(y), UpperBytes(crc), 8);
  }

  lemma OneMoreByte(crc: bv32, data: seq<bv8>, b: bv8)
    ensures FeedBits(crc, BitStream(data + [b])) == Lookup(FeedBits(crc, BitStream(data)), b)
  {
    hide Xor, FeedBits, BitsOf, ShiftBy, Lookup;
    var r := FeedBits(crc, BitStream(data));
    BitStreamConcat(data, [b]);
    assert BitStream([b]) == BitsOf(b);
    FeedBitsConcat(crc, BitStream(data), BitsOf(b));
    FeedByte(r, b);
    TableStep(r, b);
  }

  lemma LowByteBound(v: bv32)
    ensures LowByte(v) <= 255
  {}

  lemma ByteAsIndex(x: bv32)
    requires x <= 255
    ensures x as int < 256
  {}

  lemma IndexAsWord(x: bv32)
    ensures (x as int) as bv32 == x
  {}

  lemma LookupInTable(table: seq<bv32>, crc: bv32, b: bv8, x: bv32)
    requires |table| == 256 && forall k | 0 <= k < 256 :: table[k] == ShiftBy(k as bv32, 8)
    requires x == LowByte(Xor(crc, b as bv32))
    ensures x as int < 256 && Xor(table[x as int], UpperBytes(crc)) == Lookup(crc, b)
  {
    hide Xor, ShiftBy, LowByte, UpperBytes;
    LowByteBound(Xor(crc, b as bv32));
    ByteAsIndex(x);
    IndexAsWord(x);
  }

  method FillTable(table: array<bv32>)
    requires table.Length == 256
    modifies table
    ensures forall k | 0 <= k < 256 :: table[k] == ShiftBy(k as bv32, 8)
  {
    for i := 0 to 256
      invariant forall k | 0 <= k < i :: table[k] == ShiftBy(k as bv32, 8)
    {
      var value := i as bv32;
      for j := 0 to 8
        invariant value == ShiftBy(i as bv32, j)
      {
        if value & 1 != 0 {
          value := (value >> 1) ^ POLY;
        } else {
          value := value >> 1;
        }
      }
      table[i] := value;
    }
  }

  lemma LoopStep(entries: seq<bv32>, image: seq<bv8>, i: nat, crc: bv32, x: bv32)
    requires |entries| == 256 && forall k | 0 <= k < 256 :: entries[k] == ShiftBy(k as bv32, 8)
    requires i < |image| && crc == FeedBits(INITIAL, BitStream(image[..i]))
    requires x == LowByte(Xor(crc, image[i] as bv32))
    ensures x as int < 256
    ensures Xor(entries[x as int], UpperBytes(crc)) == FeedBits(INITIAL, BitStream(image[..i + 1]))
  {
    hide ShiftBy, BitStream, FeedBits, Lookup, LowByte, Xor, UpperBytes;
    LookupInTable(entries, crc, image[i], x);
    OneMoreByte(INITIAL, image[..i], image[i]);
    assert image[..i] + [image[i]] == image[..i + 1];
  }

  /** The checksum of the image bytes, read in address order. */
  method Generate(image: seq<bv8>) returns (crc: bv32)
    ensures crc == BitSerialCrc(image)
  {
    var table := new bv32[256];
    FillTable(table);
    crc := INITIAL;
    ghost var entries := table[..];
    for i := 0 to |image|
      invariant table[..] == entries
      invariant crc == FeedBits(INITIAL, BitStream(image[..i]))
    {
      hide ShiftBy, BitStream, FeedBits, Xor, LowByte, UpperBytes;
      var x := LowByte(Xor(crc, image[i] as bv32));
      LoopStep(entries, image, i, crc, x);
      crc := Xor(table[x as int], UpperBytes(crc));
    }
    assert image[..|image|] == image;
  }

  // ---------------------------------------------------------------------------------------------
  // What the checksum detects
  // ---------------------------------------------------------------------------------------------

  lemma PolyTopBit(a: bv32)
    ensures Xor(Half(a), POLY) != Half(a)
    ensures Xor(Half(a), POLY) & 0x8000_0000 != 0 && Half(a) & 0x8000_0000 == 0
  {}

  lemma XorPolyInjective(a: bv32, b: bv32)
    requires Xor(a, POLY) == Xor(b, POLY)
    ensures a == b
  {}

  /** The register can be run backwards: the message bit and the new value give the old one. */
  lemma FeedInjective(a: bv32, b: bv32, bit: bool)
    requires Feed(a, bit) == Feed(b, bit)
    ensures a == b
  {
    hide Half, Odd, Xor;
    PolyTopBit(a);
    PolyTopBit(b);
    if Xor(Half(a), POLY) == Xor(Half(b), POLY) {
      XorPolyInjective(Half(a), Half(b));
    }
    assert Half(a) == Half(b) && Odd(a) == Odd(b);
    HalfOddInjective(a, b);
  }

  lemma {:induction false} FeedBitsInjective(a: bv32, b: bv32, bits: seq<bool>)
    requires FeedBits(a, bits) == FeedBits(b, bits)
    ensures a == b
    decreases |bits|
  {
    hide Feed;
    if |bits| > 0 {
      FeedBitsInjective(Feed(a, bits[0]), Feed(b, bits[0]), bits[1..]);
      FeedInjective(a, b, bits[0]);
    }
  }

  lemma {:induction false} DropZero(n: nat)
    ensures Drop(0, n) == 0
  {
    if n > 0 {
      DropZero(n - 1);
    }
  }

  lemma {:induction false} DropMore(t: bv32, m: nat, n: nat)
    requires m <= n && Drop(t, m) == 0
    ensures Drop(t, n) == 0
    decreases m
  {
    if m == 0 {
      DropZero(n);
    } else {
      DropMore(Half(t), m - 1, n - 1);
    }
  }

  lemma DropLeaves(t: bv32, half: bv32, n: nat)
    requires half == Half(t) && Drop(half, n) != 0
    ensures Drop(t, n + 1) != 0
  {}

  lemma TopBitLasts()
    ensures Drop(0x8000_0000, 31) != 0
  {
    DropLeaves(0x2, 0x1, 0);
    DropLeaves(0x4, 0x2, 1);
    DropLeaves(0x8, 0x4, 2);
    DropLeaves(0x10, 0x8, 3);
    DropLeaves(0x20, 0x10, 4);
    DropLeaves(0x40, 0x20, 5);
    DropLeaves(0x80, 0x40, 6);
    DropLeaves(0x100, 0x80, 7);
    DropLeaves(0x200, 0x100, 8);
    DropLeaves(0x400, 0x200, 9);
    DropLeaves(0x800, 0x400, 10);
    DropLeaves(0x1000, 0x800, 11);
    DropLeaves(0x2000, 0x1000, 12);
    DropLeaves(0x4000, 0x2000, 13);
    DropLeaves(0x8000, 0x4000, 14);
    DropLeaves(0x1_0000, 0x8000, 15);
    DropLeaves(0x2_0000, 0x1_0000, 16);
    DropLeaves(0x4_0000, 0x2_0000, 17);
    DropLeaves(0x8_0000, 0x4_0000, 18);
    DropLeaves(0x10_0000, 0x8_0000, 19);
    DropLeaves(0x20_0000, 0x10_0000, 20);
    DropLeaves(0x40_0000, 0x20_0000, 21);
    DropLeaves(0x80_0000, 0x40_0000, 22);
    DropLeaves(0x100_0000, 0x80_0000, 23);
    DropLeaves(0x200_0000, 0x100_0000, 24);
    DropLeaves(0x400_0000, 0x200_0000, 25);
    DropLeaves(0x800_0000, 0x400_0000, 26);
    DropLeaves(0x1000_0000, 0x800_0000, 27);
    DropLeaves(0x2000_0000, 0x1000_0000, 28);
    DropLeaves(0x4000_0000, 0x2000_0000, 29);
    DropLeaves(0x8000_0000, 0x4000_0000, 30);
  }

  lemma TopBitIsLarge(v: bv32)
    requires v & 0x8000_0000 != 0
    ensures 0x8000_0000 <= v
  {}

  /** A word that holds the polynomial over a half keeps a bit through 31 more halvings. */
  lemma PolyOverHalfLasts(h: bv32, n: nat)
    requires n <= 31
    ensures Drop(Xor(Half(h), POLY), n) != 0
  {
    hide Drop, Xor, Half;
    var v := Xor(Half(h), POLY);
    PolyTopBit(h);
    TopBitIsLarge(v);
    TopBitLasts();
    if Drop(v, n) == 0 {
      DropMonotone(0x8000_0000, v, n);
      DropMore(0x8000_0000, n, 31);
    }
  }

  lemma XorOfBothPolys(a: bv32, b: bv32)
    ensures Xor(Xor(a, POLY), Xor(b, POLY)) == Xor(a, b)
  {}

  lemma XorOfOnePoly(a: bv32, b: bv32)
    ensures Xor(Xor(a, POLY), b) == Xor(Xor(a, b), POLY)
  {}

  /** How the difference of two registers moves when each is fed a bit of its own. */
  lemma FeedDifference(a: bv32, b: bv32, x: bool, y: bool)
    ensures Xor(Feed(a, x), Feed(b, y)) == if (Odd(a) != x) == (Odd(b) != y) then Half(Xor(a, b)) else Xor(Half(Xor(a, b)), POLY)
  {
    hide Half, Odd, Xor;
    HalfXor(a, b);
    XorOfBothPolys(Half(a), Half(b));
    XorOfOnePoly(Half(a), Half(b));
    XorOfOnePoly(Half(b), Half(a));
    XorCommutes(Half(a), Half(b));
    XorCommutes(Half(a), Xor(Half(b), POLY));
  }

  /** Registers that meet after m more bits, m at most 31, differed in their lowest m bits only. */
  lemma {:induction false} MeetingRegisters(a: bv32, b: bv32, x: seq<bool>, y: seq<bool>)
    requires |x| == |y| <= 31
    requires FeedBits(a, x) == FeedBits(b, y)
    ensures Drop(Xor(a, b), |x|) == 0
    decreases |x|
  {
    hide Feed, Half, Odd, Xor;
    if |x| == 0 {
      XorUnit(a);
    } else {
      FeedDifference(a, b, x[0], y[0]);
      MeetingRegisters(Feed(a, x[0]), Feed(b, y[0]), x[1..], y[1..]);
      PolyOverHalfLasts(Xor(a, b), |x| - 1);
    }
  }

  /** From equal registers, different bursts of at most 32 bits lead to different registers. */
  lemma {:induction false} BurstChangesRegister(crc: bv32, x: seq<bool>, y: seq<bool>)
    requires |x| == |y| <= 32 && x != y
    ensures FeedBits(crc, x) != FeedBits(crc, y)
    decreases |x|
  {
    hide Feed, Half, Odd, Xor;
    assert |x| > 0;
    if x[0] == y[0] {
      assert x == [x[0]] + x[1..] && y == [y[0]] + y[1..];
      BurstChangesRegister(Feed(crc, x[0]), x[1..], y[1..]);
    } else if FeedBits(crc, x) == FeedBits(crc, y) {
      FeedDifference(crc, crc, x[0], y[0]);
      MeetingRegisters(Feed(crc, x[0]), Feed(crc, y[0]), x[1..], y[1..]);
      PolyOverHalfLasts(Xor(crc, crc), |x| - 1);
    }
  }

  /** Two bit streams that differ only inside one run of at most 32 bits have different registers. */
  lemma {:induction false} BurstDetected(crc: bv32, before: seq<bool>, x: seq<bool>, y: seq<bool>, after: seq<bool>)
    requires |x| == |y| <= 32 && x != y
    ensures FeedBits(crc, before + x + after) != FeedBits(crc, before + y + after)
  {
    hide FeedBits;
    var r := FeedBits(crc, before);
    FeedBitsConcat(crc, before, x);
    FeedBitsConcat(crc, before, y);
    FeedBitsConcat(crc, before + x, after);
    FeedBitsConcat(crc, before + y, after);
    BurstChangesRegister(r, x, y);
    if FeedBits(FeedBits(r, x), after) == FeedBits(FeedBits(r, y), after) {
      FeedBitsInjective(FeedBits(r, x), FeedBits(r, y), after);
    }
  }

  lemma {:induction false} LowBitsInjective(a: bv32, b: bv32, n: nat)
    requires LowBits(a, n) == LowBits(b, n) && Drop(a, n) == Drop(b, n)
    ensures a == b
    decreases n
  {
    hide Half, Odd;
    if n > 0 {
      assert LowBits(a, n)[0] == Odd(a) && LowBits(b, n)[0] == Odd(b);
      assert LowBits(a, n)[1..] == LowBits(Half(a), n - 1) && LowBits(b, n)[1..] == LowBits(Half(b), n - 1);
      LowBitsInjective(Half(a), Half(b), n - 1);
      HalfOddInjective(a, b);
    }
  }

  lemma WordOfByteInjective(a: bv8, b: bv8)
    requires a as bv32 == b as bv32
    ensures a == b
  {}

  lemma {:induction false} BitStreamInjective(p: seq<bv8>, q: seq<bv8>)
    requires |p| == |q| && BitStream(p) == BitStream(q)
    ensures p == q
    decreases |p|
  {
    hide BitsOf;
    if |p| > 0 {
      assert BitStream(p)[..8] == BitsOf(p[0]) && BitStream(q)[..8] == BitsOf(q[0]);
      assert BitStream(p)[8..] == BitStream(p[1..]) && BitStream(q)[8..] == BitStream(q[1..]);
      BitsOfInjective(p[0], q[0]);
      BitStreamInjective(p[1..], q[1..]);
      assert p == [p[0]] + p[1..] && q == [q[0]] + q[1..];
    }
  }

  lemma BitsOfInjective(a: bv8, b: bv8)
    requires BitsOf(a) == BitsOf(b)
    ensures a == b
  {
    hide LowBits, Drop;
    DropByte(a);
    DropByte(b);
    LowBitsInjective(a as bv32, b as bv32, 8);
    WordOfByteInjective(a, b);
  }

  /** Images of equal length that differ only inside one window of at most four consecutive bytes. */
  lemma WindowDetected(before: seq<bv8>, x: seq<bv8>, y: seq<bv8>, after: seq<bv8>)
    requires |x| == |y| <= 4 && x != y
    ensures BitSerialCrc(before + x + after) != BitSerialCrc(before + y + after)
  {
    hide BitStream, FeedBits;
    BitStreamConcat(before, x);
    BitStreamConcat(before, y);
    BitStreamConcat(before + x, after);
    BitStreamConcat(before + y, after);
    if BitStream(x) == BitStream(y) {
      BitStreamInjective(x, y);
    }
    BurstDetected(INITIAL, BitStream(before), BitStream(x), BitStream(y), BitStream(after));
  }
}
