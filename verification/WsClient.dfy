/** The receiver of ws_client.c: a doubly linked chain of frames that grow as bytes arrive. */
module WsClient {
  import opened Bytes
  import opened WsReassembly

  const FRAME_CHUNK_LENGTH := 512

  // rawdata_idx and rawdata_sz are unsigned int; a frame stays clear of their end.
  const FRAME_LIMIT := 0x1_0000_0000 - 512

  class WsFrame {
    var fin: bool
    var opcode: nat
    var payloadOffset: nat
    var rawIdx: nat
    var rawSz: nat
    var payloadLen: nat
    var rawdata: array<byte>
    var nextFrame: WsFrame?
    var prevFrame: WsFrame?

    constructor (rawSz: nat, prevFrame: WsFrame?)
      ensures fresh(rawdata) && rawdata.Length == FRAME_CHUNK_LENGTH
      ensures rawIdx == 0 && this.rawSz == rawSz && nextFrame == null && this.prevFrame == prevFrame
    {
      fin, opcode, payloadOffset, rawIdx, payloadLen := false, 0, 0, 0, 0;
      this.rawSz := rawSz;
      rawdata := new byte[FRAME_CHUNK_LENGTH](_ => 0);
      nextFrame := null;
      this.prevFrame := prevFrame;
    }

    /** The frame as it was when new, in the same place of its chain. */
    method Clear()
      requires nextFrame == null
      modifies this
      ensures rawIdx == rawSz == 0 && fresh(rawdata) && rawdata.Length == FRAME_CHUNK_LENGTH
      ensures nextFrame == null && prevFrame == old(prevFrame)
    {
      fin, opcode, payloadOffset, rawIdx, rawSz, payloadLen := false, 0, 0, 0, 0, 0;
      nextFrame := null;
      rawdata := new byte[FRAME_CHUNK_LENGTH](_ => 0);
    }

    /** The bytes are counted within their memory, and there is room counted for them. */
    ghost predicate Roomy()
      reads `rawIdx, `rawSz, `rawdata
    {
      rawIdx <= rawSz <= rawdata.Length
    }

    /** A finished frame that holds the given fragment. */
    ghost predicate Holds(f: Fragment)
      reads `opcode, `payloadLen, `payloadOffset, `rawdata, rawdata
    {
      && opcode == f.opcode && payloadLen == |f.payload|
      && payloadOffset + payloadLen <= rawdata.Length
      && rawdata[payloadOffset..payloadOffset + payloadLen] == f.payload
    }
  }

  // ---------------------------------------------------------------------------------------------
  // The header
  // ---------------------------------------------------------------------------------------------

  lemma {:induction false} BigEndianOfFront(b: byte, t: bytes)
    ensures BigEndian([b] + t) == (b as int) * Power256(|t|) + BigEndian(t)
    decreases |t|
  {
    var c: int := b;
    if |t| == 0 {
      assert BigEndian([b] + t) == BigEndian([]) * 256 + b;
    } else {
      var n := |t| - 1;
      assert ([b] + t)[..|t|] == [b] + t[..n];
      BigEndianOfFront(b, t[..n]);
      assert BigEndian([b] + t) == (c * Power256(n) + BigEndian(t[..n])) * 256 + t[n];
      assert (c * Power256(n)) * 256 == c * Power256(|t|);
    }
  }

  /** The length bytes go into the lowest bytes of payload_len, last one first. */
  method ReadLength(raw: array<byte>, width: nat) returns (len: nat)
    requires 2 + width <= raw.Length
    ensures len == BigEndian(raw[2..2 + width])
  {
    len := 0;
    var weight := 1;
    for i := 0 to width
      invariant weight == Power256(i)
      invariant len == BigEndian(raw[2 + width - i..2 + width])
    {
      var b: byte := raw[1 + width - i];
      BigEndianOfFront(b, raw[2 + width - i..2 + width]);
      assert [b] + raw[2 + width - i..2 + width] == raw[1 + width - i..2 + width];
      len := len + (b as int) * weight;
      weight := weight * 256;
    }
  }

  /** complete_frame: 1 when the frame is all there, 0 when not, -1 when it is masked. */
  method CompleteFrame(frame: WsFrame) returns (r: int)
    requires frame.rawIdx <= frame.rawdata.Length
    modifies frame`fin, frame`opcode, frame`payloadOffset, frame`payloadLen
    ensures match ParseFrame(frame.rawdata[..frame.rawIdx])
            case Incomplete => r == 0
            case Masked => r == -1
            case Complete(fin, opcode, offset, len) =>
              r == 1 && frame.fin == fin && frame.opcode == opcode && frame.payloadOffset == offset && frame.payloadLen == len
  {
    hide BigEndian;
    if frame.rawIdx < 2 {
      return 0;
    }
    frame.fin := frame.rawdata[0] >= 0x80;
    frame.opcode := frame.rawdata[0] % 16;
    frame.payloadOffset := 2;
    if frame.rawdata[1] >= 0x80 {
      return -1;
    }
    ghost var raw := frame.rawdata[..frame.rawIdx];
    var short := frame.rawdata[1];
    if short == 126 {
      if frame.rawIdx < 4 {
        return 0;
      }
      frame.payloadLen := ReadLength(frame.rawdata, 2);
      assert raw[2..4] == frame.rawdata[2..4];
      frame.payloadOffset := frame.payloadOffset + 2;
    } else if short == 127 {
      if frame.rawIdx < 10 {
        return 0;
      }
      frame.payloadLen := ReadLength(frame.rawdata, 8);
      assert raw[2..10] == frame.rawdata[2..10];
      frame.payloadOffset := frame.payloadOffset + 8;
    } else {
      frame.payloadLen := short;
    }
    return if frame.rawIdx < (frame.payloadOffset + frame.payloadLen) % SUM_RANGE then 0 else 1;
  }

  // ---------------------------------------------------------------------------------------------
  // The chain
  // ---------------------------------------------------------------------------------------------

  ghost function Before(chain: seq<WsFrame>, i: nat): WsFrame?
    requires i < |chain|
  {
    if i == 0 then null else chain[i - 1]
  }

  ghost function Behind(chain: seq<WsFrame>, i: nat): WsFrame?
    requires i < |chain|
  {
    if i == |chain| - 1 then null else chain[i + 1]
  }

  /** Neighbours point to each other; the ends point to nothing. */
  ghost predicate Linked(chain: seq<WsFrame>)
    reads chain`prevFrame, chain`nextFrame
  {
    && (forall i | 0 <= i < |chain| :: chain[i].prevFrame == Before(chain, i) && chain[i].nextFrame == Behind(chain, i))
    && (forall i, j | 0 <= i < j < |chain| :: chain[i] != chain[j])
  }

  /** The frames, whose bytes are in the given arrays, hold the fragments fs. */
  ghost predicate Finished(chain: seq<WsFrame>, arrays: set<array<byte>>, fs: seq<Fragment>)
    reads chain`opcode, chain`payloadLen, chain`payloadOffset, chain`rawdata, arrays
  {
    |fs| == |chain| && forall i | 0 <= i < |fs| :: chain[i].rawdata in arrays && chain[i].Holds(fs[i])
  }

  lemma FinishedMore(chain: seq<WsFrame>, arrays: set<array<byte>>, fs: seq<Fragment>, frame: WsFrame, f: Fragment)
    requires Finished(chain, arrays, fs) && frame.Holds(f)
    ensures Finished(chain + [frame], arrays + {frame.rawdata}, fs + [f])
  {}

  lemma {:induction false} SumFromSplit(fs: seq<Fragment>, k: nat)
    requires k <= |fs|
    ensures SumFrom(fs, 0) == |Concat(fs[..k])| + SumFrom(fs, k)
    decreases k
  {
    if k > 0 {
      SumFromSplit(fs, k - 1);
      ConcatOneMore(fs, k - 1);
    }
  }

  lemma {:induction false} ConcatSplit(a: seq<Fragment>, b: seq<Fragment>)
    ensures Concat(a + b) == Concat(a) + Concat(b)
    decreases |a|
  {
    if |a| == 0 {
      assert a + b == b;
    } else {
      assert (a + b)[1..] == a[1..] + b;
      ConcatSplit(a[1..], b);
      assert a[0].payload + (Concat(a[1..]) + Concat(b)) == Concat(a) + Concat(b);
    }
  }

  lemma ConcatOneMore(fs: seq<Fragment>, k: nat)
    requires k < |fs|
    ensures Concat(fs[..k + 1]) == Concat(fs[..k]) + fs[k].payload
  {
    assert fs[..k + 1] == fs[..k] + [fs[k]];
    ConcatSplit(fs[..k], [fs[k]]);
    assert Concat([fs[k]]) == fs[k].payload + [];
  }

  lemma {:induction false} SumFromMonotone(fs: seq<Fragment>, k: nat)
    requires k <= |fs|
    ensures SumFrom(fs, k) <= SumFrom(fs, 0)
    decreases k
  {
    if k > 0 {
      SumFromMonotone(fs, k - 1);
    }
  }

  /** memcpy of the payload of one frame behind what was copied before. */
  method CopyFragment(payload: array<byte>, offset: nat, frame: WsFrame, ghost f: Fragment)
    requires frame.Holds(f) && offset + |f.payload| <= payload.Length && payload != frame.rawdata
    modifies payload
    ensures payload[..offset + |f.payload|] == old(payload[..offset]) + f.payload
  {
    ghost var raw := frame.rawdata[frame.payloadOffset..frame.payloadOffset + frame.payloadLen];
    forall j | 0 <= j < frame.payloadLen {
      payload[offset + j] := frame.rawdata[frame.payloadOffset + j];
    }
    assert payload[..offset] == old(payload[..offset]);
    assert payload[offset..offset + |f.payload|] == raw;
  }

  lemma FinishedAt(chain: seq<WsFrame>, arrays: set<array<byte>>, fs: seq<Fragment>, i: nat)
    requires i < |fs| && Finished(chain, arrays, fs)
    ensures |fs| == |chain| && chain[i].Holds(fs[i]) && chain[i].payloadLen == |fs[i].payload| && chain[i].opcode == fs[i].opcode
    ensures chain[i].rawdata in arrays
  {}

  lemma CopiedSoFar(fs: seq<Fragment>, i: nat)
    requires i < |fs|
    ensures Concat(fs[..i + 1]) == Concat(fs[..i]) + fs[i].payload
    ensures |Concat(fs[..i + 1])| <= SumFrom(fs, 0)
    ensures i + 1 == |fs| ==> Concat(fs[..i + 1]) == Concat(fs) && |Concat(fs)| == SumFrom(fs, 0)
  {
    ConcatOneMore(fs, i);
    SumFromSplit(fs, i + 1);
    assert fs[..|fs|] == fs;
  }

  /** dispatch_message: walk back to the first frame adding lengths, allocate, and copy forward. */
  method DispatchMessage(last: WsFrame, ghost chain: seq<WsFrame>, ghost arrays: set<array<byte>>, ghost fs: seq<Fragment>) returns (e: Event)
    requires |chain| == |fs| > 0 && Linked(chain) && Finished(chain, arrays, fs) && last == chain[|chain| - 1]
    ensures e == Dispatch(fs)
  {
    hide Linked, Finished, SumFrom, Concat;
    ghost var n := |chain|;
    var current, len := FirstFrame(last, chain, arrays, fs);
    FinishedAt(chain, arrays, fs, 0);
    var opcode := current.opcode;
    var payload := new byte[len + 1](_ => 0);
    var offset := 0;
    var walk: WsFrame? := current;
    ghost var i := 0;
    NothingCopied(fs);
    assert payload[..0] == [];
    while walk != null
      invariant 0 <= i <= n && walk == (if i == n then null else chain[i])
      invariant offset == |Concat(fs[..i])| <= payload.Length && payload[..offset] == Concat(fs[..i])
      invariant Linked(chain) && Finished(chain, arrays, fs)
      invariant i == n ==> Concat(fs[..i]) == Concat(fs) && |Concat(fs)| == SumFrom(fs, 0)
      decreases n - i
    {
      CopiedSoFar(fs, i);
      FinishedAt(chain, arrays, fs, i);
      if offset + walk.payloadLen > payload.Length {
        return Overrun;
      }
      CopyFragment(payload, offset, walk, fs[i]);
      offset := offset + walk.payloadLen;
      NextInChain(chain, i);
      walk := walk.nextFrame;
      i := i + 1;
    }
    e := Message(opcode, payload[..offset]);
  }

  lemma NothingCopied(fs: seq<Fragment>)
    ensures fs[..0] == [] && Concat(fs[..0]) == []
  {}

  lemma NextInChain(chain: seq<WsFrame>, i: nat)
    requires i < |chain| && Linked(chain)
    ensures chain[i].nextFrame == if i == |chain| - 1 then null else chain[i + 1]
    ensures chain[i].prevFrame == if i == 0 then null else chain[i - 1]
  {}

  /** The walk back, with the sum that it makes on its way. */
  method FirstFrame(last: WsFrame, ghost chain: seq<WsFrame>, ghost arrays: set<array<byte>>, ghost fs: seq<Fragment>) returns (first: WsFrame, len: nat)
    requires |chain| == |fs| > 0 && Linked(chain) && Finished(chain, arrays, fs) && last == chain[|chain| - 1]
    ensures first == chain[0] && len + 1 == Allocated(fs)
  {
    hide Linked;
    len := last.payloadLen;
    first := last;
    ghost var k := |chain| - 1;
    assert chain[k].Holds(fs[k]);
    NextInChain(chain, k);
    while first.prevFrame != null
      invariant 0 <= k < |chain| && first == chain[k]
      invariant first.prevFrame == if k == 0 then null else chain[k - 1]
      invariant len == |fs[|fs| - 1].payload| + SumFrom(fs, k + 1)
      decreases k
    {
      assert chain[k].Holds(fs[k]);
      len := len + first.payloadLen;
      first := first.prevFrame;
      k := k - 1;
      NextInChain(chain, k);
    }
  }

  /** The new frame goes behind the last one, which it already points back to. */
  method HangBehind(last: WsFrame, frame: WsFrame, ghost chain: seq<WsFrame>)
    requires |chain| > 0 && last == chain[|chain| - 1] && Linked(chain) && frame !in chain
    requires frame.prevFrame == last && frame.nextFrame == null
    modifies last`nextFrame
    ensures Linked(chain + [frame])
  {
    last.nextFrame := frame;
    ghost var longer := chain + [frame];
    forall i | 0 <= i < |longer|
      ensures longer[i].prevFrame == Before(longer, i) && longer[i].nextFrame == Behind(longer, i)
    {
      if i < |chain| {
        assert longer[i] == chain[i] && old(chain[i].prevFrame) == Before(chain, i) && old(chain[i].nextFrame) == Behind(chain, i);
      }
    }
  }

  // ---------------------------------------------------------------------------------------------
  // The client
  // ---------------------------------------------------------------------------------------------

  /** A masked frame or a close frame makes the client close the connection. */
  ghost predicate AsksToClose(es: seq<Event>) {
    exists e | e in es :: e.MaskedFrame? || (e.Control? && e.opcode == 8)
  }

  class WsClientData {
    var currentFrame: WsFrame?
    var shouldClose: bool

    /** The callbacks made and the control frames handled, in order. */
    var log: seq<Event>

    /** The finished frames of the message under way, their memory, and what they hold. */
    ghost var done: seq<WsFrame>
    ghost var arrays: set<array<byte>>
    ghost var fragments: seq<Fragment>

    /** Everything that may change as bytes arrive. */
    ghost var repr: set<object>

    ghost predicate Owned()
      reads this
    {
      && (forall i | 0 <= i < |done| :: done[i] in repr)
      && (forall a | a in arrays :: a in repr)
      && this !in repr && (currentFrame != null ==> currentFrame in repr)
    }

    ghost predicate Valid()
      reads this, repr
    {
      && Owned() && Finished(done, arrays, fragments)
      && if currentFrame == null then |done| == 0
         else
           && Linked(done + [currentFrame]) && currentFrame !in done
           && currentFrame.Roomy() && currentFrame.rawdata in repr && currentFrame.rawdata !in arrays
    }

    ghost function Abs(): Held
      requires Valid()
      reads this, repr
    {
      Held(fragments, if currentFrame == null then [] else currentFrame.rawdata[..currentFrame.rawIdx])
    }

    constructor ()
      ensures Valid() && Abs() == NOTHING && log == [] && fresh(repr)
    {
      currentFrame, shouldClose, log := null, false, [];
      done, arrays, repr, fragments := [], {}, {}, [];
    }

    /** The first byte of a message needs a first frame. */
    method AllocFirst()
      requires Valid() && currentFrame == null
      modifies this`currentFrame, this`repr
      ensures Valid() && Abs() == old(Abs()) && currentFrame != null && fresh(repr - old(repr))
      ensures currentFrame.rawIdx == 0
    {
      var frame := new WsFrame(FRAME_CHUNK_LENGTH, null);
      currentFrame := frame;
      repr := repr + {frame, frame.rawdata};
      assert frame.rawdata[..0] == [];
    }

    /** realloc: the bytes move to a longer memory. */
    method Extend()
      requires Valid() && currentFrame != null && currentFrame.rawIdx >= currentFrame.rawSz
      modifies currentFrame`rawSz, currentFrame`rawdata, this`repr
      ensures Valid() && Abs() == old(Abs()) && fresh(repr - old(repr))
      ensures currentFrame.rawIdx == old(currentFrame.rawIdx) < currentFrame.rawSz
    {
      hide Finished, Linked;
      var frame := currentFrame;
      var n := frame.rawSz + FRAME_CHUNK_LENGTH;
      var raw := frame.rawdata;
      var idx := frame.rawIdx;
      var bigger := new byte[n](i requires 0 <= i < n reads raw => if i < idx && i < raw.Length then raw[i] else 0);
      assert bigger[..idx] == raw[..idx];
      frame.rawSz := n;
      frame.rawdata := bigger;
      repr := repr + {bigger};
    }

    /** One more byte of the frame. */
    method Store(b: byte)
      requires Valid() && currentFrame != null && currentFrame.rawIdx < currentFrame.rawSz
      modifies currentFrame`rawIdx, currentFrame.rawdata
      ensures Valid() && Abs() == old(Abs()).(raw := old(Abs()).raw + [b])
      ensures currentFrame.rawIdx == old(currentFrame.rawIdx) + 1
    {
      hide Finished, Linked;
      var frame := currentFrame;
      ghost var raw := frame.rawdata[..frame.rawIdx];
      frame.rawdata[frame.rawIdx] := b;
      frame.rawIdx := frame.rawIdx + 1;
      assert frame.rawdata[..frame.rawIdx] == raw + [b];
    }

    /** handle_control_frame, as far as the chain goes: the frame starts afresh in its place. A close frame
        also asks for the connection to be closed. */
    method HandleControlFrame(frame: WsFrame, payload: bytes)
      requires Valid() && frame == currentFrame
      modifies this`shouldClose, this`log, this`repr, frame
      ensures Valid() && Abs() == old(Abs()).(raw := []) && fresh(repr - old(repr))
      ensures log == old(log) + [Control(old(frame.opcode), payload)]
      ensures shouldClose == (old(shouldClose) || old(frame.opcode) == 8)
    {
      hide Finished, Linked;
      NextInChain(done + [frame], |done|);
      log := log + [Control(frame.opcode, payload)];
      if frame.opcode == 8 {
        shouldClose := true;
      }
      frame.Clear();
      repr := repr + {frame.rawdata};
      assert frame.rawdata[..0] == [];
    }

    /** A frame that is not the last of its message stays, and a new one is hung behind it. */
    method NextFrame(ghost f: Fragment)
      requires Valid() && currentFrame != null && currentFrame.Holds(f)
      modifies this`currentFrame, this`done, this`arrays, this`fragments, this`repr, currentFrame`nextFrame
      ensures Valid() && fresh(repr - old(repr))
      ensures Abs() == Held(old(fragments) + [f], [])
    {
      hide Finished, Linked;
      var current := currentFrame;
      FinishedMore(done, arrays, fragments, current, f);
      ghost var chain := done + [current];
      var frame := new WsFrame(0, current);
      HangBehind(current, frame, chain);
      currentFrame := frame;
      done := done + [current];
      arrays := arrays + {current.rawdata};
      fragments := fragments + [f];
      repr := repr + {frame, frame.rawdata};
      assert frame.rawdata[..0] == [];
    }

    /** The last frame of a message: the message is put together and delivered, and the chain is dropped. */
    method Deliver(ghost f: Fragment) returns (ok: bool)
      requires Valid() && currentFrame != null && currentFrame.Holds(f)
      modifies this`currentFrame, this`done, this`arrays, this`fragments, this`log
      ensures var e := Dispatch(old(fragments) + [f]);
              log == old(log) + [e] && ok == (e != Overrun) && (ok ==> Valid() && Abs() == NOTHING)
    {
      hide Finished, Linked, Dispatch;
      ghost var all := arrays + {currentFrame.rawdata};
      FinishedMore(done, arrays, fragments, currentFrame, f);
      var e := DispatchMessage(currentFrame, done + [currentFrame], all, fragments + [f]);
      log := log + [e];
      ok := e != Overrun;
      currentFrame := null;
      done, arrays, fragments := [], {}, [];
      NothingFinished();
    }

    lemma NothingFinished()
      ensures Finished([], {}, [])
    {}

    lemma PartOfFront(s: bytes, a: nat, b: nat, n: nat)
      requires a <= b <= n <= |s|
      ensures s[..n][a..b] == s[a..b]
    {}

    /** A frame that is all there: handled, delivered or kept. */
    method FinishFrame() returns (ok: bool)
      requires Valid() && currentFrame != null
      requires ParseFrame(Abs().raw) == Complete(currentFrame.fin, currentFrame.opcode, currentFrame.payloadOffset, currentFrame.payloadLen)
      modifies this, repr
      ensures var (h, es) := Completed(old(Abs()));
              && log == old(log) + es && ok == (Overrun !in es) && shouldClose == (old(shouldClose) || AsksToClose(es))
              && (ok ==> Valid() && Abs() == h && fresh(repr - old(repr)))
    {
      hide Finished, Linked, ParseFrame, Dispatch, AsksToClose;
      NobodyAsks();
      OneAsks(Overrun);
      ok := true;
      var frame := currentFrame;
      if frame.payloadOffset + frame.payloadLen > frame.rawIdx {
        // the sum of the two wrapped around: the payload is not there
        log := log + [Overrun];
        return false;
      }
      ghost var raw := frame.rawdata[..frame.rawIdx];
      assert raw == Abs().raw;
      var payload := frame.rawdata[frame.payloadOffset..frame.payloadOffset + frame.payloadLen];
      PartOfFront(frame.rawdata[..], frame.payloadOffset, frame.payloadOffset + frame.payloadLen, frame.rawIdx);
      assert payload == raw[frame.payloadOffset..frame.payloadOffset + frame.payloadLen];
      ghost var f := Fragment(frame.opcode, payload);
      if frame.fin {
        if (frame.opcode / 8) % 2 == 1 {
          OneAsks(Control(frame.opcode, payload));
          HandleControlFrame(frame, payload);
        } else {
          DispatchAsksNothing(fragments + [f]);
          ok := Deliver(f);
        }
      } else {
        NextFrame(f);
      }
    }

    /** There is a frame, and it has room for a byte. */
    method MakeRoom()
      requires Valid()
      modifies this, repr
      ensures Valid() && Abs() == old(Abs()) && fresh(repr - old(repr)) && log == old(log)
      ensures currentFrame != null && currentFrame.rawIdx < currentFrame.rawSz
      ensures shouldClose == old(shouldClose)
    {
      hide Finished, Linked;
      if currentFrame == null {
        AllocFirst();
      }
      if currentFrame.rawIdx >= currentFrame.rawSz {
        Extend();
      }
    }

    /** in_data: one byte of input. After an overrun nothing is promised of the frames. */
    method InData(b: byte) returns (ok: bool)
      requires Valid() && |Abs().raw| < FRAME_LIMIT
      modifies this, repr
      ensures var (h, es) := InByte(old(Abs()), b);
              && log == old(log) + es && ok == (Overrun !in es) && shouldClose == (old(shouldClose) || AsksToClose(es))
              && (ok ==> Valid() && Abs() == h && fresh(repr - old(repr)))
    {
      hide Finished, Linked, ParseFrame, Completed, AsksToClose;
      NobodyAsks();
      OneAsks(MaskedFrame);
      MakeRoom();
      Store(b);
      ghost var h := Abs();
      var complete := CompleteFrame(currentFrame);
      assert Valid() && Abs() == h;
      ok := true;
      if complete == 1 {
        ok := FinishFrame();
      } else if complete == -1 {
        shouldClose := true;
        log := log + [MaskedFrame];
      }
    }

    /** The loop of ws_client_task over what the socket gave; it ends with an overrun. */
    method Receive(input: bytes)
      requires Valid() && |input| + |Abs().raw| < FRAME_LIMIT
      modifies this, repr
      ensures var (h, es) := Feed(old(Abs()), input);
              && log == old(log) + es && shouldClose == (old(shouldClose) || AsksToClose(es))
              && (Overrun !in es ==> Valid() && Abs() == h && fresh(repr - old(repr)))
    {
      hide InByte, Feed, Owned, Linked, Finished, Valid, Abs, Ahead, AsksToClose;
      NobodyAsks();
      ghost var goal, events := Feed(Abs(), input), [];
      AheadAtStart(Abs(), input);
      for i := 0 to |input|
        invariant Valid() && fresh(repr - old(repr)) && |Abs().raw| + |input| - i < FRAME_LIMIT
        invariant log == old(log) + events && Overrun !in events && shouldClose == (old(shouldClose) || AsksToClose(events))
        invariant Ahead(goal, Abs(), input[i..], events)
      {
        ghost var h := Abs();
        ghost var es := InByte(h, input[i]).1;
        InByteGrows(h, input[i]);
        AheadStep(goal, h, input[i..], events);
        assert input[i..][1..] == input[i + 1..];
        var ok := InData(input[i]);
        assert log == old(log) + (events + es);
        EitherAsks(events, es);
        events := events + es;
        if !ok {
          return;
        }
      }
      AheadAtEnd(goal, Abs(), input[|input|..], events);
    }

    lemma NobodyAsks()
      ensures !AsksToClose([])
    {}

    lemma OneAsks(e: Event)
      ensures AsksToClose([e]) <==> e.MaskedFrame? || (e.Control? && e.opcode == 8)
    {
      assert e in [e];
    }

    lemma DispatchAsksNothing(fs: seq<Fragment>)
      requires |fs| > 0
      ensures !AsksToClose([Dispatch(fs)])
    {
      OneAsks(Dispatch(fs));
    }

    lemma EitherAsks(a: seq<Event>, b: seq<Event>)
      ensures AsksToClose(a + b) <==> AsksToClose(a) || AsksToClose(b)
    {
      assert forall e :: e in a + b <==> e in a || e in b;
    }

    lemma InByteGrows(h: Held, b: byte)
      ensures |InByte(h, b).0.raw| <= |h.raw| + 1
    {}

    /** With the events so far, the rest of the input leads to the goal. */
    ghost predicate Ahead(goal: (Held, seq<Event>), h: Held, rest: bytes, events: seq<Event>) {
      goal == (Feed(h, rest).0, events + Feed(h, rest).1)
    }

    lemma AheadAtStart(h: Held, s: bytes)
      ensures Ahead(Feed(h, s), h, s[0..], [])
    {
      assert s[0..] == s;
      assert [] + Feed(h, s).1 == Feed(h, s).1;
    }

    lemma AheadStep(goal: (Held, seq<Event>), h: Held, s: bytes, events: seq<Event>)
      requires |s| > 0 && Ahead(goal, h, s, events)
      ensures var es := InByte(h, s[0]).1;
              if Overrun in es then goal == (InByte(h, s[0]).0, events + es)
              else Ahead(goal, InByte(h, s[0]).0, s[1..], events + es)
    {
      hide InByte;
      var (h1, es) := InByte(h, s[0]);
      assert events + (es + Feed(h1, s[1..]).1) == events + es + Feed(h1, s[1..]).1;
    }

    lemma AheadAtEnd(goal: (Held, seq<Event>), h: Held, s: bytes, events: seq<Event>)
      requires |s| == 0 && Ahead(goal, h, s, events)
      ensures goal == (h, events)
    {
      assert events + [] == events;
    }
  }
}
