/** The frame that ws_client_send builds, against a reader of masked frames. */
module WsSend {
  import opened Bytes
  import opened WsReassembly

  // ---------------------------------------------------------------------------------------------
  // Reading a frame as sections 5.2 and 5.3 of RFC 6455 lay it out
  // ---------------------------------------------------------------------------------------------

  datatype Received = Received(fin: bool, reserved: nat, opcode: nat, masked: bool, form: LengthForm, payload: bytes, rest: bytes)

  function PowerOfTwo(n: nat): (r: nat)
    ensures r > 0
  {
    if n == 0 then 1 else 2 * PowerOfTwo(n - 1)
  }

  /** Bit by bit exclusive or of the low n bits of two numbers. */
  function XorBits(a: nat, b: nat, n: nat): (r: nat)
    ensures r < PowerOfTwo(n)
  {
    if n == 0 then 0 else (a % 2 + b % 2) % 2 + 2 * XorBits(a / 2, b / 2, n - 1)
  }

  function Xor(a: byte, b: byte): byte {
    assert PowerOfTwo(8) == 256;
    XorBits(a, b, 8)
  }

  /** Octet i of the payload is combined with octet i modulo 4 of the key; the same step undoes it. */
  function Mask(t: bytes, key: bytes): (r: bytes)
    requires |key| == 4
    ensures |r| == |t|
  {
    seq(|t|, i requires 0 <= i < |t| => Xor(t[i], key[i % 4]))
  }

  /** One bit of the exclusive or. */
  function XorBit(a: byte, b: byte, weight: nat): nat
    requires weight > 0
  {
    (a / weight % 2 + b / weight % 2) % 2
  }

  /** Exclusive or, bit for bit. */
  function BitXor(a: byte, b: byte): byte {
    XorBit(a, b, 1) + 2 * XorBit(a, b, 2) + 4 * XorBit(a, b, 4) + 8 * XorBit(a, b, 8) + 16 * XorBit(a, b, 16)
    + 32 * XorBit(a, b, 32) + 64 * XorBit(a, b, 64) + 128 * XorBit(a, b, 128)
  }

  function Unmask(payload: bytes, key: bytes): bytes
    requires |key| == 4
  {
    seq(|payload|, i requires 0 <= i < |payload| => BitXor(payload[i], key[i % 4]))
  }

  function ReadBody(t: bytes, form: LengthForm, start: nat, len: nat): Option<Received>
    requires |t| >= 2
  {
    var masked := t[1] >= 128;
    var body := if masked then start + 4 else start;
    if |t| < body + len then None
    else
      var payload := t[body..body + len];
      Some(Received(t[0] >= 128, (t[0] / 16) % 8, t[0] % 16, masked, form,
                    if masked then Unmask(payload, t[start..start + 4]) else payload, t[body + len..]))
  }

  /** A number in network byte order. */
  function Number16(t: bytes): nat
    requires |t| == 2
  {
    var a: nat, b: nat := t[0], t[1];
    0x100 * a + b
  }

  function Number64(t: bytes): nat
    requires |t| == 8
  {
    var a: nat, b: nat, c: nat, d: nat, e: nat, f: nat, g: nat, h: nat := t[0], t[1], t[2], t[3], t[4], t[5], t[6], t[7];
    0x100_0000_0000_0000 * a + 0x1_0000_0000_0000 * b + 0x100_0000_0000 * c + 0x1_0000_0000 * d
    + 0x100_0000 * e + 0x1_0000 * f + 0x100 * g + h
  }

  function ReadFrame(t: bytes): Option<Received> {
    if |t| < 2 then None
    else
      match t[1] % 128
      case 126 => if |t| < 4 then None else ReadBody(t, Extended16, 4, Number16(t[2..4]))
      case 127 => if |t| < 10 then None else ReadBody(t, Extended64, 10, Number64(t[2..10]))
      case n => ReadBody(t, Short, 2, n)
  }

  lemma Number16Is(t: bytes)
    requires |t| == 2
    ensures Number16(t) == BigEndian(t)
  {
    assert BigEndian(t[..1]) == t[0];
  }

  lemma Number64Is(t: bytes)
    requires |t| == 8
    ensures Number64(t) == BigEndian(t)
  {
    hide BigEndian;
    BigEndianStep(t, 7);
    BigEndianStep(t, 6);
    BigEndianStep(t, 5);
    BigEndianStep(t, 4);
    BigEndianStep(t, 3);
    BigEndianStep(t, 2);
    BigEndianStep(t, 1);
    BigEndianStep(t, 0);
    assert t[..8] == t;
    NothingIsZero(t[..0]);
  }

  lemma NothingIsZero(t: bytes)
    requires |t| == 0
    ensures BigEndian(t) == 0
  {}

  lemma BigEndianStep(t: bytes, n: nat)
    requires n < |t|
    ensures BigEndian(t[..n + 1]) == 256 * BigEndian(t[..n]) + t[n]
  {
    assert t[..n + 1][..n] == t[..n];
  }

  lemma Halves(a: nat)
    ensures a / 2 / 2 == a / 4 && a / 4 / 2 == a / 8 && a / 8 / 2 == a / 16 && a / 16 / 2 == a / 32
    ensures a / 32 / 2 == a / 64 && a / 64 / 2 == a / 128 && a / 128 / 2 == a / 256
  {}

  /** One step of the recursion takes one bit. */
  lemma XorFrom(a: byte, b: byte, weight: nat, n: nat)
    requires weight > 0 && n > 0
    ensures XorBits(a / weight, b / weight, n) == XorBit(a, b, weight) + 2 * XorBits(a / weight / 2, b / weight / 2, n - 1)
  {
    XorStep(a / weight, b / weight, n);
  }

  lemma XorIs(a: byte, b: byte)
    ensures Xor(a, b) == BitXor(a, b)
  {
    hide XorBits, XorBit;
    Halves(a);
    Halves(b);
    XorFrom(a, b, 1, 8);
    XorFrom(a, b, 2, 7);
    XorFrom(a, b, 4, 6);
    XorFrom(a, b, 8, 5);
    XorFrom(a, b, 16, 4);
    XorFrom(a, b, 32, 3);
    XorFrom(a, b, 64, 2);
    XorFrom(a, b, 128, 1);
    NoBits(a / 256, b / 256);
  }

  lemma UnmaskIs(payload: bytes, key: bytes)
    requires |key| == 4
    ensures Unmask(payload, key) == Mask(payload, key)
  {
    hide Xor, BitXor;
    forall i | 0 <= i < |payload| ensures Unmask(payload, key)[i] == Mask(payload, key)[i] {
      XorIs(payload[i], key[i % 4]);
    }
  }

  /** The shortest length form that the length allows. */
  function ShortestForm(len: nat): LengthForm {
    if len <= 125 then Short else if len <= 0xffff then Extended16 else Extended64
  }

  lemma SplitLow(low: nat, x: nat)
    requires low < 2
    ensures (low + 2 * x) % 2 == low && (low + 2 * x) / 2 == x
  {}

  lemma XorStep(a: nat, k: nat, n: nat)
    requires n > 0
    ensures XorBits(a, k, n) == (a % 2 + k % 2) % 2 + 2 * XorBits(a / 2, k / 2, n - 1)
  {}

  lemma LowBitTwice(a: nat, k: nat)
    ensures ((a % 2 + k % 2) % 2 + k % 2) % 2 + 2 * (a / 2) == a
  {}

  lemma {:induction false} XorBitsTwice(a: nat, k: nat, n: nat)
    requires a < PowerOfTwo(n)
    ensures XorBits(XorBits(a, k, n), k, n) == a
  {
    hide XorBits;
    if n > 0 {
      var x, low := XorBits(a / 2, k / 2, n - 1), (a % 2 + k % 2) % 2;
      XorBitsTwice(a / 2, k / 2, n - 1);
      XorStep(a, k, n);
      XorStep(low + 2 * x, k, n);
      SplitLow(low, x);
      LowBitTwice(a, k);
    } else {
      NoBits(XorBits(a, k, 0), k);
    }
  }

  lemma NoBits(a: nat, k: nat)
    ensures XorBits(a, k, 0) == 0
  {}

  lemma XorTwice(a: byte, k: byte)
    ensures Xor(Xor(a, k), k) == a
  {
    assert PowerOfTwo(8) == 256;
    XorBitsTwice(a, k, 8);
  }

  lemma MaskTwice(t: bytes, key: bytes)
    requires |key| == 4
    ensures Mask(Mask(t, key), key) == t
  {
    forall i | 0 <= i < |t| ensures Mask(Mask(t, key), key)[i] == t[i] {
      XorTwice(t[i], key[i % 4]);
    }
  }

  // ---------------------------------------------------------------------------------------------
  // Building the frame
  // ---------------------------------------------------------------------------------------------

  /** The bytes of the length field, as they lie between the second byte and the key. */
  function LengthField(len: nat): bytes {
    if len <= 125 then [] else if len <= 0xffff then Bytes8(len, 2) else Bytes8(len, 8)
  }

  function SmallLength(len: nat): byte {
    if len <= 125 then len else if len <= 0xffff then 126 else 127
  }

  function TextFrame(t: bytes, key: bytes): bytes
    requires |key| == 4
  {
    [0x81, SmallLength(|t|) + 0x80] + LengthField(|t|) + key + Mask(t, key)
  }

  /** The byte i of the field is the byte of the number that a little-endian memory holds at width - 1 - i. */
  lemma {:induction false} Bytes8At(n: nat, width: nat, i: nat)
    requires i < width
    ensures Bytes8(n, width)[i] == MemoryByte(n, width - 1 - i)
    decreases width
  {
    if i < width - 1 {
      Bytes8At(n / 256, width - 1, i);
      assert Bytes8(n, width)[i] == Bytes8(n / 256, width - 1)[i];
    }
  }

  /** The byte of a number at an address of its little-endian memory. */
  function MemoryByte(n: nat, address: nat): byte {
    if address == 0 then n % 256 else MemoryByte(n / 256, address - 1)
  }

  /** The frame for a text, in memory of exactly frame_size bytes. The loop index of the source is an int, so
      the text is shorter than 2^31; mask is what the random number gave. */
  method BuildFrame(strdata: bytes, mask: bytes) returns (data: array<byte>, frameSize: nat)
    requires |mask| == 4 && |strdata| < 0x8000_0000
    ensures fresh(data) && data.Length == frameSize && data[..] == TextFrame(strdata, mask)
  {
    hide Bytes8;
    var payloadLen := |strdata|;
    var payloadOffset := 6;
    var small: byte;
    if payloadLen <= 125 {
      frameSize := 6 + payloadLen;
      small := payloadLen;
    } else if payloadLen <= 0xffff {
      frameSize := 8 + payloadLen;
      small := 126;
      payloadOffset := payloadOffset + 2;
    } else {
      frameSize := 14 + payloadLen;
      small := 127;
      payloadOffset := payloadOffset + 8;
    }
    data := new byte[frameSize](_ => 0);
    data[0] := 0x81;
    data[1] := small + 0x80;
    var lenSize := payloadOffset - 6;
    for i := 0 to lenSize
      invariant data[0] == 0x81 && data[1] == small + 0x80
      invariant data[2..2 + i] == LengthField(payloadLen)[..i]
    {
      Bytes8At(payloadLen, lenSize, i);
      data[2 + i] := MemoryByte(payloadLen, lenSize - i - 1);
      assert data[2..2 + i + 1] == data[2..2 + i] + [data[2 + i]];
    }
    ghost var front := [0x81, small + 0x80] + LengthField(payloadLen);
    assert data[..payloadOffset - 4] == front;
    FillBody(data, payloadOffset, strdata, mask);
  }

  /** The key, the copied text, and the mask over it. */
  method FillBody(data: array<byte>, payloadOffset: nat, strdata: bytes, mask: bytes)
    requires |mask| == 4 && 4 <= payloadOffset && payloadOffset + |strdata| == data.Length
    modifies data
    ensures data[..] == old(data[..payloadOffset - 4]) + mask + Mask(strdata, mask)
  {
    hide Xor;
    ghost var front := data[..payloadOffset - 4];
    for i := 0 to 4
      invariant data[..payloadOffset - 4] == front
      invariant data[payloadOffset - 4..payloadOffset - 4 + i] == mask[..i]
    {
      data[payloadOffset - 4 + i] := mask[i];
      assert mask[..i + 1] == mask[..i] + [mask[i]];
    }
    assert data[payloadOffset - 4..payloadOffset] == mask;
    forall j | payloadOffset <= j < data.Length {
      data[j] := strdata[j - payloadOffset];
    }
    assert data[..payloadOffset - 4] == front && data[payloadOffset - 4..payloadOffset] == mask;
    for i := 0 to |strdata|
      invariant data[..payloadOffset - 4] == front && data[payloadOffset - 4..payloadOffset] == mask
      invariant forall k | 0 <= k < i :: data[payloadOffset + k] == Xor(strdata[k], mask[k % 4])
      invariant forall k | i <= k < |strdata| :: data[payloadOffset + k] == strdata[k]
    {
      data[payloadOffset + i] := Xor(data[payloadOffset + i], mask[i % 4]);
    }
    forall k | 0 <= k < |strdata| ensures data[payloadOffset..][k] == Mask(strdata, mask)[k] {
      assert data[payloadOffset..][k] == data[payloadOffset + k];
    }
    assert data[payloadOffset..] == Mask(strdata, mask);
    assert data[..] == data[..payloadOffset - 4] + data[payloadOffset - 4..payloadOffset] + data[payloadOffset..];
  }

  // ---------------------------------------------------------------------------------------------
  // What a receiver reads
  // ---------------------------------------------------------------------------------------------

  lemma FrameLayout(t: bytes, key: bytes, rest: bytes)
    requires |key| == 4
    ensures var s := TextFrame(t, key) + rest;
            var n := |LengthField(|t|)|;
            && |TextFrame(t, key)| == 6 + n + |t|
            && s[0] == 0x81 && s[1] == SmallLength(|t|) + 0x80
            && s[2..2 + n] == LengthField(|t|) && s[2 + n..6 + n] == key
            && s[6 + n..6 + n + |t|] == Mask(t, key) && s[6 + n + |t|..] == rest
  {
    hide Mask, Bytes8;
  }

  lemma LengthFieldReads(len: nat)
    requires len < 0x8000_0000_0000_0000
    ensures 125 < len <= 0xffff ==> Number16(LengthField(len)) == len
    ensures len > 0xffff ==> Number64(LengthField(len)) == len
    ensures |LengthField(len)| == match ShortestForm(len) { case Short => 0 case Extended16 => 2 case Extended64 => 8 }
  {
    hide Bytes8, BigEndian, Power256, Number16, Number64;
    Power256Values();
    if 125 < len <= 0xffff {
      BigEndianOfBytes8(len, 2);
      Number16Is(LengthField(len));
    } else if len > 0xffff {
      BigEndianOfBytes8(len, 8);
      Number64Is(LengthField(len));
    }
  }

  /** For every text: one final text frame, no reserved bit, masked, in the shortest length form, and
      unmasking it gives the text back; the frame ends where the next one starts. */
  lemma {:induction false} ReceiverReadsText(t: bytes, key: bytes, rest: bytes)
    requires |key| == 4 && |t| < 0x8000_0000_0000_0000
    ensures ReadFrame(TextFrame(t, key) + rest) == Some(Received(true, 0, 1, true, ShortestForm(|t|), t, rest))
    ensures |TextFrame(t, key)| == |t| + match ShortestForm(|t|) { case Short => 6 case Extended16 => 8 case Extended64 => 14 }
  {
    hide TextFrame, Mask, Unmask, Bytes8, LengthField, Number16, Number64;
    FrameLayout(t, key, rest);
    LengthFieldReads(|t|);
    MaskTwice(t, key);
    UnmaskIs(Mask(t, key), key);
  }

  /** tcp_client_send takes the size as 16 bits: the whole frame is queued exactly up to 65527 bytes of text. */
  lemma WholeFrameIsQueued(t: bytes, key: bytes)
    requires |key| == 4 && |t| < 0x8000_0000
    ensures var frame := TextFrame(t, key);
            frame[..|frame| % 0x1_0000] == frame <==> |t| <= 65527
  {
    hide Mask, Bytes8;
    LengthFieldReads(|t|);
    FrameLayout(t, key, []);
  }

  /** One byte more, and the size that arrives is 0. */
  lemma LongFrameIsLost(key: bytes)
    requires |key| == 4
    ensures var frame := TextFrame(seq(65528, _ => 'a' as int), key);
            |frame| % 0x1_0000 == 0 && frame[..|frame| % 0x1_0000] != frame
  {
    hide Mask, Bytes8;
    var t: bytes := seq(65528, _ => 'a' as int);
    LengthFieldReads(|t|);
    FrameLayout(t, key, []);
  }
}
