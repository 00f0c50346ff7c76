/** Receiving WebSocket data as values: what one more byte does to the frames held so far, and what a run of
    well-formed messages delivers. */
module WsReassembly {
  import opened Bytes

  // payload_offset + payload_len is computed in an unsigned long long.
  const SUM_RANGE := 0x1_0000_0000_0000_0000

  // ---------------------------------------------------------------------------------------------
  // One frame
  // ---------------------------------------------------------------------------------------------

  /** What complete_frame finds in the bytes of a frame so far. */
  datatype Parsed = Incomplete | Masked | Complete(fin: bool, opcode: nat, offset: nat, len: nat)

  function BigEndian(t: bytes): nat {
    if |t| == 0 then 0 else BigEndian(t[..|t| - 1]) * 256 + t[|t| - 1]
  }

  function Sized(raw: bytes, offset: nat, len: nat): Parsed
    requires |raw| >= 2
  {
    if |raw| < (offset + len) % SUM_RANGE then Incomplete
    else Complete(raw[0] >= 0x80, raw[0] % 16, offset, len)
  }

  function ParseFrame(raw: bytes): Parsed {
    if |raw| < 2 then Incomplete
    else if raw[1] >= 0x80 then Masked
    else
      match raw[1]
      case 126 => if |raw| < 4 then Incomplete else Sized(raw, 4, BigEndian(raw[2..4]))
      case 127 => if |raw| < 10 then Incomplete else Sized(raw, 10, BigEndian(raw[2..10]))
      case n => Sized(raw, 2, n)
  }

  // ---------------------------------------------------------------------------------------------
  // The chain of frames
  // ---------------------------------------------------------------------------------------------

  /** A finished frame of a message that goes on. */
  datatype Fragment = Fragment(opcode: nat, payload: bytes)

  /** The finished frames of the message under way, and the bytes of the frame being read. */
  datatype Held = Held(fragments: seq<Fragment>, raw: bytes)

  const NOTHING := Held([], [])

  /** What a byte causes: a message for the application, a control frame to handle, a masked frame (the
      connection is to be closed), or a copy that runs past the memory it was given. */
  datatype Event = Message(opcode: nat, payload: bytes) | Control(opcode: nat, payload: bytes) | MaskedFrame | Overrun

  function Concat(fs: seq<Fragment>): bytes {
    if |fs| == 0 then [] else fs[0].payload + Concat(fs[1..])
  }

  /** The sum of the payload lengths from index k on. */
  function SumFrom(fs: seq<Fragment>, k: nat): nat
    decreases |fs| - k
  {
    if k >= |fs| then 0 else |fs[k].payload| + SumFrom(fs, k + 1)
  }

  /** What dispatch_message allocates: it starts from the last length, then walks back and adds the length of
      every frame that has a predecessor; one byte is added for a terminator. */
  function Allocated(fs: seq<Fragment>): nat
    requires |fs| > 0
  {
    |fs[|fs| - 1].payload| + SumFrom(fs, 1) + 1
  }

  function Dispatch(fs: seq<Fragment>): Event
    requires |fs| > 0
  {
    if SumFrom(fs, 0) <= Allocated(fs) then Message(fs[0].opcode, Concat(fs)) else Overrun
  }

  predicate IsControl(opcode: nat) {
    (opcode / 8) % 2 == 1
  }

  /** A frame that is all there: handled, delivered or kept. */
  function Completed(h: Held): (Held, seq<Event>)
    requires ParseFrame(h.raw).Complete?
  {
    var Complete(fin, opcode, offset, len) := ParseFrame(h.raw);
    if offset + len > |h.raw| then (h, [Overrun])
    else
      var payload := h.raw[offset..offset + len];
      if fin && IsControl(opcode) then (h.(raw := []), [Control(opcode, payload)])
      else if fin then
        var e := Dispatch(h.fragments + [Fragment(opcode, payload)]);
        (if e == Overrun then h else NOTHING, [e])
      else (Held(h.fragments + [Fragment(opcode, payload)], []), [])
  }

  /** One byte of input. */
  function InByte(h: Held, b: byte): (Held, seq<Event>) {
    var more := h.(raw := h.raw + [b]);
    match ParseFrame(more.raw)
    case Incomplete => (more, [])
    case Masked => (more, [MaskedFrame])
    case Complete(_, _, _, _) => Completed(more)
  }

  /** A run over more input, up to the first overrun; after one nothing is known. */
  function Feed(h: Held, s: bytes): (Held, seq<Event>)
    decreases |s|
  {
    if |s| == 0 then (h, [])
    else
      var (h1, es) := InByte(h, s[0]);
      if Overrun in es then (h1, es)
      else
        var (h2, later) := Feed(h1, s[1..]);
        (h2, es + later)
  }

  /** A frame with its mask bit set is never finished: from its second byte on, every byte reports it again, and
      nothing else happens. */
  lemma {:induction false} MaskedFrameStops(h: Held, s: bytes)
    requires |h.raw| >= 1 && |s| > 0 && (h.raw + s)[1] >= 128
    ensures Feed(h, s) == (h.(raw := h.raw + s), seq(|s|, _ => MaskedFrame))
    decreases |s|
  {
    var more := h.(raw := h.raw + [s[0]]);
    assert h.raw + s == more.raw + s[1..];
    assert InByte(h, s[0]) == (more, [MaskedFrame]);
    hide InByte;
    var later := Feed(more, s[1..]);
    if |s| > 1 {
      MaskedFrameStops(more, s[1..]);
    }
    assert Feed(h, s) == (later.0, [MaskedFrame] + later.1);
    assert |s| == 1 ==> h.raw + s == more.raw;
    assert [MaskedFrame] + seq(|s| - 1, _ => MaskedFrame) == seq(|s|, _ => MaskedFrame);
  }

  /** The copy of dispatch_message fits what it allocated exactly when the first payload is at most one byte
      longer than the last one. */
  lemma DispatchFits(fs: seq<Fragment>)
    requires |fs| > 0
    ensures Dispatch(fs) == Message(fs[0].opcode, Concat(fs)) <==> |fs[0].payload| <= |fs[|fs| - 1].payload| + 1
    ensures Dispatch(fs) == Overrun <==> |fs[0].payload| > |fs[|fs| - 1].payload| + 1
  {}

  // ---------------------------------------------------------------------------------------------
  // Well-formed input: sections 5.2 and 5.4 of RFC 6455, with any length form
  // ---------------------------------------------------------------------------------------------

  datatype LengthForm = Short | Extended16 | Extended64

  function Bytes8(n: nat, width: nat): (t: bytes)
    ensures |t| == width
  {
    if width == 0 then [] else Bytes8(n / 256, width - 1) + [n % 256]
  }

  function Power256(width: nat): nat {
    if width == 0 then 1 else 256 * Power256(width - 1)
  }

  lemma {:induction false} BigEndianOfBytes8(n: nat, width: nat)
    requires n < Power256(width)
    ensures BigEndian(Bytes8(n, width)) == n
    decreases width
  {
    if width > 0 {
      BigEndianOfBytes8(n / 256, width - 1);
      assert Bytes8(n, width)[..width - 1] == Bytes8(n / 256, width - 1);
    }
  }

  predicate FormFits(form: LengthForm, len: nat) {
    match form
    case Short => len < 126
    case Extended16 => len < 0x1_0000
    case Extended64 => len < 0x8000_0000_0000_0000
  }

  function EncodeLength(form: LengthForm, len: nat): bytes
    requires FormFits(form, len)
  {
    match form
    case Short => [len]
    case Extended16 => [126, len / 256, len % 256]
    case Extended64 =>
      [127, len / 0x100_0000_0000_0000, len / 0x1_0000_0000_0000 % 256, len / 0x100_0000_0000 % 256, len / 0x1_0000_0000 % 256,
       len / 0x100_0000 % 256, len / 0x1_0000 % 256, len / 0x100 % 256, len % 256]
  }

  lemma Quotients(n: nat)
    ensures n / 0x100 / 0x100 == n / 0x1_0000 && n / 0x1_0000 / 0x100 == n / 0x100_0000 && n / 0x100_0000 / 0x100 == n / 0x1_0000_0000
  {}

  lemma Bytes8Step(n: nat, width: nat)
    requires width > 0
    ensures Bytes8(n, width) == Bytes8(n / 256, width - 1) + [n % 256]
  {}

  lemma NoBytes(n: nat)
    ensures Bytes8(n, 0) == []
  {}

  /** The last four bytes of a number. */
  lemma LowFour(n: nat, width: nat)
    requires width >= 4
    ensures Bytes8(n, width) == Bytes8(n / 0x1_0000_0000, width - 4) + [n / 0x100_0000 % 256, n / 0x1_0000 % 256, n / 0x100 % 256, n % 256]
  {
    hide Bytes8;
    Quotients(n);
    Bytes8Step(n, width);
    Bytes8Step(n / 0x100, width - 1);
    Bytes8Step(n / 0x1_0000, width - 2);
    Bytes8Step(n / 0x100_0000, width - 3);
  }

  lemma Bytes2Is(n: nat)
    requires n < 0x1_0000
    ensures Bytes8(n, 2) == [n / 256, n % 256]
  {
    hide Bytes8;
    Bytes8Step(n, 2);
    Bytes8Step(n / 256, 1);
    NoBytes(n / 256 / 256);
  }

  lemma HighQuotients(n: nat)
    requires n < 0x8000_0000_0000_0000
    ensures var high := n / 0x1_0000_0000;
            && high / 0x100_0000 == n / 0x100_0000_0000_0000 < 256 && high / 0x1_0000 == n / 0x1_0000_0000_0000
            && high / 0x100 == n / 0x100_0000_0000
  {}

  /** The length in eight bytes, byte by byte. */
  lemma LengthIs(form: LengthForm, len: nat)
    requires FormFits(form, len)
    ensures EncodeLength(form, len) == match form { case Short => [len] case Extended16 => [126] + Bytes8(len, 2) case Extended64 => [127] + Bytes8(len, 8) }
  {
    hide Bytes8;
    match form
    case Short =>
    case Extended16 => Bytes2Is(len);
    case Extended64 =>
      var high := len / 0x1_0000_0000;
      LowFour(len, 8);
      LowFour(high, 4);
      NoBytes(high / 0x1_0000_0000);
      HighQuotients(len);
  }

  /** An unmasked frame, with any reserved bits. */
  datatype Frame = Frame(fin: bool, reserved: nat, opcode: nat, payload: bytes, form: LengthForm)

  predicate GoodFrame(f: Frame) {
    f.reserved < 8 && f.opcode < 16 && FormFits(f.form, |f.payload|)
  }

  function Encode(f: Frame): (t: bytes)
    requires GoodFrame(f)
    ensures |t| >= 2 + |f.payload|
  {
    [(if f.fin then 128 else 0) + 16 * f.reserved + f.opcode] + EncodeLength(f.form, |f.payload|) + f.payload
  }

  lemma Power256Values()
    ensures Power256(2) == 0x1_0000 && Power256(8) == SUM_RANGE
  {
    assert Power256(4) == 0x1_0000_0000;
    assert Power256(6) == 0x1_0000_0000_0000;
  }

  /** How the bytes of a frame start. */
  lemma EncodedHeader(f: Frame, raw: bytes, k: nat)
    requires GoodFrame(f) && k <= |Encode(f)| && raw == Encode(f)[..k]
    ensures k >= 2 ==> raw[0] == (if f.fin then 128 else 0) + 16 * f.reserved + f.opcode && raw[1] == EncodeLength(f.form, |f.payload|)[0]
    ensures f.form == Extended16 && k >= 4 ==> raw[2..4] == Bytes8(|f.payload|, 2)
    ensures f.form == Extended64 && k >= 10 ==> raw[2..10] == Bytes8(|f.payload|, 8)
  {
    hide Bytes8, EncodeLength;
    var len := EncodeLength(f.form, |f.payload|);
    LengthIs(f.form, |f.payload|);
    Bytes8Length(|f.payload|, 2);
    Bytes8Length(|f.payload|, 8);
    assert Encode(f)[1..1 + |len|] == len;
    assert k >= 2 ==> raw[1] == len[0];
    if f.form == Extended16 && k >= 4 {
      assert raw[2..4] == Encode(f)[2..4] == Encode(f)[1..4][1..] == len[1..];
    } else if f.form == Extended64 && k >= 10 {
      assert raw[2..10] == Encode(f)[2..10] == Encode(f)[1..10][1..] == len[1..];
    }
  }

  lemma FirstOfLength(form: LengthForm, len: nat)
    requires FormFits(form, len)
    ensures EncodeLength(form, len)[0] == match form { case Short => len case Extended16 => 126 case Extended64 => 127 }
  {}

  /** What complete_frame makes of the first k bytes of a frame. */
  function ExpectedParse(f: Frame, k: nat): Parsed
    requires GoodFrame(f)
  {
    if k < |Encode(f)| then Incomplete else Complete(f.fin, f.opcode, |Encode(f)| - |f.payload|, |f.payload|)
  }

  lemma EncodedLength(f: Frame)
    requires GoodFrame(f)
    ensures |Encode(f)| == |f.payload| + match f.form { case Short => 2 case Extended16 => 4 case Extended64 => 10 }
  {
    hide Bytes8;
    assert |Bytes8(|f.payload|, 2)| == 2 && |Bytes8(|f.payload|, 8)| == 8 by {
      Bytes8Length(|f.payload|, 2);
      Bytes8Length(|f.payload|, 8);
    }
  }

  lemma Bytes8Length(n: nat, width: nat)
    ensures |Bytes8(n, width)| == width
  {}

  lemma ParseOfShort(f: Frame, raw: bytes, k: nat)
    requires GoodFrame(f) && f.form == Short && k <= |Encode(f)| && raw == Encode(f)[..k]
    ensures ParseFrame(raw) == ExpectedParse(f, k)
  {
    hide Encode, BigEndian, Bytes8;
    EncodedHeader(f, raw, k);
    EncodedLength(f);
  }

  lemma ParseOfExtended16(f: Frame, raw: bytes, k: nat)
    requires GoodFrame(f) && f.form == Extended16 && k <= |Encode(f)| && raw == Encode(f)[..k]
    ensures ParseFrame(raw) == ExpectedParse(f, k)
  {
    hide Encode, BigEndian, Bytes8, Power256, EncodeLength;
    EncodedHeader(f, raw, k);
    FirstOfLength(f.form, |f.payload|);
    EncodedLength(f);
    Power256Values();
    BigEndianOfBytes8(|f.payload|, 2);
  }

  lemma ParseOfExtended64(f: Frame, raw: bytes, k: nat)
    requires GoodFrame(f) && f.form == Extended64 && k <= |Encode(f)| && raw == Encode(f)[..k]
    ensures ParseFrame(raw) == ExpectedParse(f, k)
  {
    hide Encode, BigEndian, Bytes8, Power256, EncodeLength;
    EncodedHeader(f, raw, k);
    FirstOfLength(f.form, |f.payload|);
    EncodedLength(f);
    Power256Values();
    BigEndianOfBytes8(|f.payload|, 8);
  }

  /** A frame is found complete exactly at its last byte. */
  lemma ParseOfEncoded(f: Frame, k: nat)
    requires GoodFrame(f) && k <= |Encode(f)|
    ensures ParseFrame(Encode(f)[..k]) == ExpectedParse(f, k)
  {
    hide Encode, ParseFrame, ExpectedParse;
    match f.form
    case Short => ParseOfShort(f, Encode(f)[..k], k);
    case Extended16 => ParseOfExtended16(f, Encode(f)[..k], k);
    case Extended64 => ParseOfExtended64(f, Encode(f)[..k], k);
  }

  lemma {:induction false} FeedConcat(h: Held, a: bytes, b: bytes)
    ensures var (h1, es) := Feed(h, a);
            Feed(h, a + b) == if Overrun in es then (h1, es) else (Feed(h1, b).0, es + Feed(h1, b).1)
    decreases |a|
  {
    hide InByte;
    if |a| == 0 {
      assert a + b == b;
      assert [] + Feed(h, b).1 == Feed(h, b).1;
    } else {
      var (h1, es) := InByte(h, a[0]);
      assert (a + b)[0] == a[0] && (a + b)[1..] == a[1..] + b;
      if Overrun !in es {
        FeedConcat(h1, a[1..], b);
        var (h2, later) := Feed(h1, a[1..]);
        assert es + (later + Feed(h2, b).1) == (es + later) + Feed(h2, b).1;
      }
    }
  }

  /** What a whole frame does to the frames held before it. */
  function FrameEffect(fs: seq<Fragment>, f: Frame): (Held, seq<Event>)
    requires GoodFrame(f)
  {
    var all := fs + [Fragment(f.opcode, f.payload)];
    if f.fin && f.opcode >= 8 then (Held(fs, []), [Control(f.opcode, f.payload)])
    else if f.fin then (if Dispatch(all) == Overrun then Held(fs, Encode(f)) else NOTHING, [Dispatch(all)])
    else (Held(all, []), [])
  }

  lemma LastByteOfFrame(fs: seq<Fragment>, f: Frame)
    requires GoodFrame(f)
    ensures var n := |Encode(f)| - 1; InByte(Held(fs, Encode(f)[..n]), Encode(f)[n]) == FrameEffect(fs, f)
  {
    hide ParseFrame, Encode, Dispatch;
    var n := |Encode(f)| - 1;
    assert Encode(f)[..n] + [Encode(f)[n]] == Encode(f) == Encode(f)[..n + 1];
    ParseOfEncoded(f, n + 1);
    EncodedPayload(f);
  }

  lemma EncodedPayload(f: Frame)
    requires GoodFrame(f)
    ensures Encode(f)[|Encode(f)| - |f.payload|..] == f.payload
  {
    hide EncodeLength;
  }

  lemma {:induction false} FeedFrame(fs: seq<Fragment>, f: Frame, k: nat)
    requires GoodFrame(f) && k < |Encode(f)|
    ensures Feed(Held(fs, Encode(f)[..k]), Encode(f)[k..]) == FrameEffect(fs, f)
    decreases |Encode(f)| - k
  {
    hide Encode, FrameEffect, ParseFrame, InByte;
    var h := Held(fs, Encode(f)[..k]);
    var s := Encode(f)[k..];
    assert s[0] == Encode(f)[k] && s[1..] == Encode(f)[k + 1..];
    if k + 1 == |Encode(f)| {
      LastByteOfFrame(fs, f);
      FeedOne(h, s);
    } else {
      InnerByteOfFrame(fs, f, k);
      FeedFrame(fs, f, k + 1);
      FeedSilent(h, s, Held(fs, Encode(f)[..k + 1]));
    }
  }

  lemma FeedOne(h: Held, s: bytes)
    requires |s| == 1
    ensures Feed(h, s) == InByte(h, s[0])
  {
    hide InByte;
    var (h1, es) := InByte(h, s[0]);
    assert Feed(h1, s[1..]) == (h1, []);
    assert es + [] == es;
  }

  lemma FeedSilent(h: Held, s: bytes, h1: Held)
    requires |s| > 0 && InByte(h, s[0]) == (h1, [])
    ensures Feed(h, s) == Feed(h1, s[1..])
  {
    hide InByte;
    assert [] + Feed(h1, s[1..]).1 == Feed(h1, s[1..]).1;
  }

  lemma InnerByteOfFrame(fs: seq<Fragment>, f: Frame, k: nat)
    requires GoodFrame(f) && k + 1 < |Encode(f)|
    ensures InByte(Held(fs, Encode(f)[..k]), Encode(f)[k]) == (Held(fs, Encode(f)[..k + 1]), [])
  {
    hide Encode, ParseFrame;
    assert Encode(f)[..k] + [Encode(f)[k]] == Encode(f)[..k + 1];
    ParseOfEncoded(f, k + 1);
  }

  // ---------------------------------------------------------------------------------------------
  // Runs of messages
  // ---------------------------------------------------------------------------------------------

  /** A fragment, and the control frames that are sent just before it. */
  datatype Piece = Piece(controls: seq<Frame>, reserved: nat, payload: bytes, form: LengthForm)

  datatype Msg = Msg(opcode: nat, pieces: seq<Piece>)

  /** The control frames of section 5.5 of RFC 6455. */
  predicate GoodControl(f: Frame) {
    GoodFrame(f) && f.fin && 8 <= f.opcode < 16
  }

  predicate GoodPieces(pieces: seq<Piece>) {
    && |pieces| > 0
    && forall k | 0 <= k < |pieces| ::
         pieces[k].reserved < 8 && FormFits(pieces[k].form, |pieces[k].payload|) && GoodControls(pieces[k].controls)
  }

  predicate GoodControls(cs: seq<Frame>) {
    forall k | 0 <= k < |cs| :: GoodControl(cs[k])
  }

  predicate GoodMsg(m: Msg) {
    m.opcode < 8 && GoodPieces(m.pieces)
  }

  function EncodeControls(cs: seq<Frame>): bytes
    requires GoodControls(cs)
  {
    if |cs| == 0 then [] else Encode(cs[0]) + EncodeControls(cs[1..])
  }

  /** The frame of the first of the pieces: the last one has the final bit. */
  function PieceFrame(opcode: nat, pieces: seq<Piece>): Frame
    requires |pieces| > 0
  {
    Frame(|pieces| == 1, pieces[0].reserved, opcode, pieces[0].payload, pieces[0].form)
  }

  /** The first frame carries the opcode of the message, later ones the continuation opcode. */
  function EncodePieces(opcode: nat, pieces: seq<Piece>): bytes
    requires opcode < 8 && GoodPieces(pieces)
    decreases |pieces|
  {
    EncodeControls(pieces[0].controls) + Encode(PieceFrame(opcode, pieces))
    + if |pieces| == 1 then [] else EncodePieces(0, pieces[1..])
  }

  function Fragments(opcode: nat, pieces: seq<Piece>): (fs: seq<Fragment>)
    ensures |fs| == |pieces|
    decreases |pieces|
  {
    if |pieces| == 0 then [] else [Fragment(opcode, pieces[0].payload)] + Fragments(0, pieces[1..])
  }

  function ControlEvents(cs: seq<Frame>): seq<Event> {
    if |cs| == 0 then [] else [Control(cs[0].opcode, cs[0].payload)] + ControlEvents(cs[1..])
  }

  function AllControls(pieces: seq<Piece>): seq<Event> {
    if |pieces| == 0 then [] else ControlEvents(pieces[0].controls) + AllControls(pieces[1..])
  }

  lemma {:induction false} FeedControls(fs: seq<Fragment>, cs: seq<Frame>)
    requires GoodControls(cs)
    ensures Feed(Held(fs, []), EncodeControls(cs)) == (Held(fs, []), ControlEvents(cs))
    ensures Overrun !in ControlEvents(cs)
    decreases |cs|
  {
    hide Encode;
    if |cs| > 0 {
      FeedFrame(fs, cs[0], 0);
      assert Encode(cs[0])[..0] == [] && Encode(cs[0])[0..] == Encode(cs[0]);
      FeedControls(fs, cs[1..]);
      FeedConcat(Held(fs, []), Encode(cs[0]), EncodeControls(cs[1..]));
    }
  }

  /** The control frames of one piece and then its own frame. */
  lemma FeedPiece(fs: seq<Fragment>, cs: seq<Frame>, f: Frame)
    requires GoodControls(cs) && GoodFrame(f)
    ensures Feed(Held(fs, []), EncodeControls(cs) + Encode(f)) == (FrameEffect(fs, f).0, ControlEvents(cs) + FrameEffect(fs, f).1)
    ensures Overrun !in ControlEvents(cs)
  {
    hide Encode, EncodeControls, FrameEffect;
    FeedControls(fs, cs);
    FeedFrame(fs, f, 0);
    assert Encode(f)[..0] == [] && Encode(f)[0..] == Encode(f);
    FeedConcat(Held(fs, []), EncodeControls(cs), Encode(f));
  }

  /** One message from its first byte to its last: its control frames in order, then the message. */
  lemma {:induction false} FeedPieces(fs: seq<Fragment>, opcode: nat, pieces: seq<Piece>)
    requires opcode < 8 && GoodPieces(pieces)
    ensures var e := Dispatch(fs + Fragments(opcode, pieces));
            var r := Feed(Held(fs, []), EncodePieces(opcode, pieces));
            && r.1 == AllControls(pieces) + [e]
            && (e != Overrun ==> r.0 == NOTHING)
    ensures Overrun !in AllControls(pieces)
    decreases |pieces|
  {
    hide Encode, EncodeControls, Dispatch, ControlEvents;
    var f := PieceFrame(opcode, pieces);
    var fragment := Fragment(opcode, pieces[0].payload);
    var cs := ControlEvents(pieces[0].controls);
    var first := EncodeControls(pieces[0].controls) + Encode(f);
    FeedPiece(fs, pieces[0].controls, f);
    if |pieces| == 1 {
      assert Fragments(opcode, pieces) == [fragment];
      assert AllControls(pieces) == cs;
      assert first + [] == first;
    } else {
      var rest := pieces[1..];
      assert fs + Fragments(opcode, pieces) == fs + [fragment] + Fragments(0, rest);
      assert cs + [] == cs;
      FeedPieces(fs + [fragment], 0, rest);
      FeedConcat(Held(fs, []), first, EncodePieces(0, rest));
      assert cs + (AllControls(rest) + [Dispatch(fs + Fragments(opcode, pieces))]) == AllControls(pieces) + [Dispatch(fs + Fragments(opcode, pieces))];
    }
  }

  /** Whether dispatch_message can copy the message into what it allocates. */
  predicate Fits(m: Msg) {
    |m.pieces| > 0 ==> |m.pieces[0].payload| <= |m.pieces[|m.pieces| - 1].payload| + 1
  }

  function Payload(pieces: seq<Piece>): bytes {
    if |pieces| == 0 then [] else pieces[0].payload + Payload(pieces[1..])
  }

  lemma {:induction false} FragmentsOfPieces(opcode: nat, pieces: seq<Piece>, k: nat)
    requires k < |pieces|
    ensures Fragments(opcode, pieces)[k] == Fragment(if k == 0 then opcode else 0, pieces[k].payload)
    decreases k
  {
    if k > 0 {
      FragmentsOfPieces(0, pieces[1..], k - 1);
    }
  }

  lemma {:induction false} ConcatOfFragments(opcode: nat, pieces: seq<Piece>)
    ensures Concat(Fragments(opcode, pieces)) == Payload(pieces)
    decreases |pieces|
  {
    if |pieces| > 0 {
      assert Fragments(opcode, pieces)[1..] == Fragments(0, pieces[1..]);
      ConcatOfFragments(0, pieces[1..]);
    }
  }

  /** What one message comes to: itself, with the opcode of its first fragment and all its payload, if the
      copy fits. */
  lemma DispatchOfMsg(m: Msg)
    requires GoodMsg(m)
    ensures Dispatch(Fragments(m.opcode, m.pieces)) == if Fits(m) then Message(m.opcode, Payload(m.pieces)) else Overrun
  {
    var fs := Fragments(m.opcode, m.pieces);
    FragmentsOfPieces(m.opcode, m.pieces, 0);
    FragmentsOfPieces(m.opcode, m.pieces, |m.pieces| - 1);
    ConcatOfFragments(m.opcode, m.pieces);
    DispatchFits(fs);
  }

  /** A run of messages, and the control frames that come after the last one. */
  function EncodeRun(ms: seq<Msg>, tail: seq<Frame>): bytes
    requires GoodControls(tail) && forall k | 0 <= k < |ms| :: GoodMsg(ms[k])
  {
    if |ms| == 0 then EncodeControls(tail)
    else
      var m := ms[0];
      assert GoodMsg(m);
      EncodePieces(m.opcode, m.pieces) + EncodeRun(ms[1..], tail)
  }

  /** The events of a run: for each message its control frames and then the message, up to the first one that
      does not fit; and the control frames at the end. */
  function RunEvents(ms: seq<Msg>, tail: seq<Frame>): seq<Event>
    requires forall k | 0 <= k < |ms| :: GoodMsg(ms[k])
  {
    if |ms| == 0 then ControlEvents(tail)
    else if Fits(ms[0]) then AllControls(ms[0].pieces) + [Message(ms[0].opcode, Payload(ms[0].pieces))] + RunEvents(ms[1..], tail)
    else AllControls(ms[0].pieces) + [Overrun]
  }

  /** Any run of unmasked messages, cut into any fragments with control frames before, between and after them, in
      any length forms: every message is delivered once, in order, with its first opcode and its whole payload, as
      long as every message fits; otherwise delivery ends at the first one that does not. */
  lemma {:induction false} RunDelivers(ms: seq<Msg>, tail: seq<Frame>)
    requires GoodControls(tail) && forall k | 0 <= k < |ms| :: GoodMsg(ms[k])
    ensures Feed(NOTHING, EncodeRun(ms, tail)).1 == RunEvents(ms, tail)
    ensures (forall k | 0 <= k < |ms| :: Fits(ms[k])) ==> Feed(NOTHING, EncodeRun(ms, tail)).0 == NOTHING
    ensures (forall k | 0 <= k < |ms| :: Fits(ms[k])) <==> Overrun !in RunEvents(ms, tail)
    decreases |ms|
  {
    hide EncodePieces, Fits, Dispatch, AllControls, EncodeControls, ControlEvents, GoodControls;
    if |ms| == 0 {
      FeedControls([], tail);
    } else {
      var m := ms[0];
      FeedPieces([], m.opcode, m.pieces);
      DispatchOfMsg(m);
      assert [] + Fragments(m.opcode, m.pieces) == Fragments(m.opcode, m.pieces);
      FeedConcat(NOTHING, EncodePieces(m.opcode, m.pieces), EncodeRun(ms[1..], tail));
      RunDelivers(ms[1..], tail);
      FitsSplit(ms);
    }
  }

  lemma ShortFrame(f: Frame)
    requires GoodFrame(f) && f.form == Short
    ensures Encode(f) == [(if f.fin then 128 else 0) + 16 * f.reserved + f.opcode, |f.payload|] + f.payload
  {}

  /** A message in two pieces without control frames. */
  lemma TwoPieces(m: Msg)
    requires GoodMsg(m) && |m.pieces| == 2 && m.pieces[0].controls == m.pieces[1].controls == []
    ensures EncodeRun([m], []) == Encode(PieceFrame(m.opcode, m.pieces)) + Encode(PieceFrame(0, m.pieces[1..]))
    ensures AllControls(m.pieces) == [] && RunEvents([m], []) == if Fits(m) then [Message(m.opcode, Payload(m.pieces))] else [Overrun]
  {
    hide Encode, Fits, Payload;
    assert EncodeControls([]) == [] && ControlEvents([]) == [];
    assert AllControls(m.pieces[1..]) == [];
    assert EncodePieces(0, m.pieces[1..]) == Encode(PieceFrame(0, m.pieces[1..]));
    assert [m][1..] == [];
  }

  /** A text message of three bytes and then one is enough for an overrun: not even the first message arrives. */
  lemma OverrunHappens()
    ensures var ms := [Msg(1, [Piece([], 0, [97, 98, 99], Short), Piece([], 0, [100], Short)])];
            && EncodeRun(ms, []) == [0x01, 3, 97, 98, 99, 0x80, 1, 100]
            && Feed(NOTHING, EncodeRun(ms, [])).1 == [Overrun]
  {
    hide Encode, EncodeRun, RunEvents, Feed, Payload, AllControls, Dispatch;
    var first, last := Piece([], 0, [97, 98, 99], Short), Piece([], 0, [100], Short);
    var m := Msg(1, [first, last]);
    assert GoodMsg(m) && !Fits(m);
    hide Fits, GoodPieces;
    assert m.pieces[1..] == [last];
    TwoPieces(m);
    var f, g := Frame(false, 0, 1, [97, 98, 99], Short), Frame(true, 0, 0, [100], Short);
    assert PieceFrame(1, m.pieces) == f && PieceFrame(0, [last]) == g;
    ShortFrame(f);
    ShortFrame(g);
    RunDelivers([m], []);
  }

  lemma FitsSplit(ms: seq<Msg>)
    requires |ms| > 0 && forall k | 0 <= k < |ms| :: GoodMsg(ms[k])
    ensures (forall k | 0 <= k < |ms| :: Fits(ms[k])) <==> Fits(ms[0]) && forall k | 0 <= k < |ms| - 1 :: Fits(ms[1..][k])
  {
    hide Fits;
    if Fits(ms[0]) && forall k | 0 <= k < |ms| - 1 :: Fits(ms[1..][k]) {
      forall k | 0 <= k < |ms| ensures Fits(ms[k]) {
        if k > 0 {
          assert Fits(ms[1..][k - 1]);
        }
      }
    }
  }
}
