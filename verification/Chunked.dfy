/** Chunked transfer coding as phr_decode_chunked reads it: one input byte at a time.

    The decoder may be stopped after any byte and resumed; Step is what one byte does to it. */
module ChunkedAutomaton {
  import opened Bytes

  // sizeof(size_t) on the target, a 32-bit PIC32MZ.
  const SIZEOF_SIZE_T := 4
  const SIZE_T_RANGE := 0x1_0000_0000

  datatype State = ChunkSize | ChunkExt | ChunkData | ChunkCrlf | TrailersLineHead | TrailersLineMiddle

  /** The fields of struct phr_chunked_decoder. */
  datatype Decoder = Decoder(state: State, bytesLeft: nat, hexCount: nat, consumeTrailer: bool)

  /** Partial is the source's -2, Bad its -1; Done means the end of the coding was found. */
  datatype Verdict = Partial | Bad | Done

  function Initial(consumeTrailer: bool): Decoder {
    Decoder(ChunkSize, 0, 0, consumeTrailer)
  }

  /** The value of a hex digit, or -1. */
  function DecodeHex(ch: byte): (v: int)
    ensures -1 <= v < 16
  {
    match HexDigit(ch) case Some(v) => v case None => -1
  }

  /** What one byte did: the new decoder, whether the byte is payload, and whether to go on. */
  datatype Effect = Effect(d: Decoder, payload: bool, verdict: Verdict)

  function StepExt(d: Decoder, b: byte): Effect {
    if b != LF then Effect(d.(state := ChunkExt), false, Partial)
    else if d.bytesLeft != 0 then Effect(d.(state := ChunkData), false, Partial)
    else if d.consumeTrailer then Effect(d.(state := TrailersLineHead), false, Partial)
    else Effect(d.(state := ChunkExt), false, Done)
  }

  function Step(d: Decoder, b: byte): Effect {
    match d.state
    case ChunkSize =>
      var v := DecodeHex(b);
      if v == -1 then
        if d.hexCount == 0 then Effect(d, false, Bad) else StepExt(d.(hexCount := 0), b)
      else if d.hexCount == SIZEOF_SIZE_T * 2 then Effect(d, false, Bad)
      else Effect(d.(bytesLeft := (d.bytesLeft * 16 + v) % SIZE_T_RANGE, hexCount := d.hexCount + 1), false, Partial)
    case ChunkExt => StepExt(d, b)
    case ChunkData =>
      if d.bytesLeft <= 1 then Effect(d.(bytesLeft := 0, state := ChunkCrlf), true, Partial)
      else Effect(d.(bytesLeft := d.bytesLeft - 1), true, Partial)
    case ChunkCrlf =>
      if b == CR then Effect(d, false, Partial)
      else if b == LF then Effect(d.(state := ChunkSize), false, Partial)
      else Effect(d, false, Bad)
    case TrailersLineHead =>
      if b == CR then Effect(d, false, Partial)
      else if b == LF then Effect(d, false, Done)
      else Effect(d.(state := TrailersLineMiddle), false, Partial)
    case TrailersLineMiddle =>
      if b == LF then Effect(d.(state := TrailersLineHead), false, Partial) else Effect(d, false, Partial)
  }

  /** The outcome of a run: where it stopped, the payload, and why. A bad byte is not consumed. */
  datatype Outcome = Outcome(d: Decoder, pos: nat, body: bytes, verdict: Verdict)

  /** One byte after the other from position i, until the input ends or a byte decides. */
  function Run(d: Decoder, s: bytes, i: nat): (o: Outcome)
    requires i <= |s|
    ensures i <= o.pos <= |s|
    ensures o.verdict == Partial ==> o.pos == |s|
    ensures |o.body| <= o.pos - i
    decreases |s| - i
  {
    if i == |s| then Outcome(d, i, [], Partial)
    else
      var e := Step(d, s[i]);
      match e.verdict
      case Bad => Outcome(e.d, i, [], Bad)
      case Done => Outcome(e.d, i + 1, [], Done)
      case Partial => After(if e.payload then [s[i]] else [], Run(e.d, s, i + 1))
  }

  /** The outcome of a run that comes after payload already delivered. */
  function After(body: bytes, o: Outcome): Outcome {
    o.(body := body + o.body)
  }

  // ---------------------------------------------------------------------------------------------
  // What every reachable decoder keeps
  // ---------------------------------------------------------------------------------------------

  function Pow16(n: nat): nat {
    if n == 0 then 1 else 16 * Pow16(n - 1)
  }

  /** What holds of a decoder after any input at all. The running chunk size stays below 16^hexCount. */
  predicate Reachable(d: Decoder) {
    && d.bytesLeft < SIZE_T_RANGE
    && match d.state
       case ChunkSize => d.hexCount <= 2 * SIZEOF_SIZE_T && d.bytesLeft < Pow16(d.hexCount)
       case ChunkExt => d.hexCount == 0
       case ChunkData => d.hexCount == 0 && d.bytesLeft > 0
       case _ => d.hexCount == 0 && d.bytesLeft == 0
  }

  lemma Pow16OfSize()
    ensures Pow16(2 * SIZEOF_SIZE_T) == SIZE_T_RANGE
  {
    assert Pow16(2) == 0x100;
    assert Pow16(4) == 0x1_0000;
    assert Pow16(6) == 0x100_0000;
  }

  lemma {:induction false} Pow16Monotone(m: nat, n: nat)
    requires m <= n
    ensures 1 <= Pow16(m) <= Pow16(n)
    decreases n
  {
    if n > 0 && m < n {
      Pow16Monotone(m, n - 1);
    } else if n > 0 {
      Pow16Monotone(n - 1, n - 1);
    }
  }

  /** The multiplication in the size loop never wraps: the reduction modulo 2^32 changes nothing. */
  lemma SizeNeverWraps(d: Decoder, v: nat)
    requires Reachable(d) && d.state == ChunkSize && d.hexCount < 2 * SIZEOF_SIZE_T && v < 16
    ensures d.bytesLeft * 16 + v < Pow16(d.hexCount + 1) <= SIZE_T_RANGE
    ensures (d.bytesLeft * 16 + v) % SIZE_T_RANGE == d.bytesLeft * 16 + v
  {
    Pow16Monotone(d.hexCount + 1, 2 * SIZEOF_SIZE_T);
    Pow16OfSize();
  }

  lemma StepKeepsReachable(d: Decoder, b: byte)
    requires Reachable(d)
    ensures Reachable(Step(d, b).d)
  {
    if d.state == ChunkSize && d.hexCount < 2 * SIZEOF_SIZE_T && DecodeHex(b) >= 0 {
      var v := DecodeHex(b);
      hide DecodeHex;
      SizeNeverWraps(d, v);
    }
  }

  lemma {:induction false} RunKeepsReachable(d: Decoder, s: bytes, i: nat)
    requires i <= |s| && Reachable(d)
    ensures Reachable(Run(d, s, i).d)
    decreases |s| - i
  {
    if i < |s| {
      StepKeepsReachable(d, s[i]);
      if Step(d, s[i]).verdict == Partial {
        RunKeepsReachable(Step(d, s[i]).d, s, i + 1);
      }
    }
  }

  // ---------------------------------------------------------------------------------------------
  // Runs compose: the input may be cut anywhere
  // ---------------------------------------------------------------------------------------------

  /** A run over a longer input agrees with the run over its beginning, then goes on from there. */
  lemma {:induction false} RunOfConcat(d: Decoder, a: bytes, b: bytes, i: nat)
    requires i <= |a|
    ensures var o := Run(d, a, i);
            Run(d, a + b, i) == if o.verdict == Partial then After(o.body, Run(o.d, a + b, |a|)) else o
    decreases |a| - i
  {
    hide Step;
    if i < |a| && Step(d, a[i]).verdict == Partial {
      var e := Step(d, a[i]);
      RunOfConcat(e.d, a, b, i + 1);
      var p := if e.payload then [a[i]] else [];
      var o := Run(e.d, a, i + 1);
      if o.verdict == Partial {
        assert p + (o.body + Run(o.d, a + b, |a|).body) == (p + o.body) + Run(o.d, a + b, |a|).body;
      }
    }
  }

  /** Positions are the only thing that depends on what came before. */
  lemma {:induction false} RunOfSuffix(d: Decoder, a: bytes, b: bytes, j: nat)
    requires j <= |b|
    ensures var o := Run(d, b, j);
            Run(d, a + b, |a| + j) == o.(pos := |a| + o.pos)
    decreases |b| - j
  {
    hide Step;
    if j < |b| && Step(d, b[j]).verdict == Partial {
      RunOfSuffix(Step(d, b[j]).d, a, b, j + 1);
    }
  }

  /** Split invariance: decoding a and then b is decoding a + b, wherever the cut falls. */
  lemma SplitInvariance(d: Decoder, a: bytes, b: bytes)
    ensures var first := Run(d, a, 0);
            var whole := Run(d, a + b, 0);
            if first.verdict == Partial then
              var second := Run(first.d, b, 0);
              && first.pos == |a|
              && whole.d == second.d && whole.verdict == second.verdict
              && whole.body == first.body + second.body
              && whole.pos == |a| + second.pos
            else
              whole == first
  {
    RunOfConcat(d, a, b, 0);
    RunOfSuffix(Run(d, a, 0).d, a, b, 0);
  }

  /** One call per piece, in order, until a call gives a verdict; the position is within the whole input. */
  function Calls(d: Decoder, pieces: seq<bytes>): (o: Outcome)
    decreases |pieces|
  {
    if |pieces| == 0 then Outcome(d, 0, [], Partial)
    else
      var first := Run(d, pieces[0], 0);
      if first.verdict != Partial then first
      else
        var later := Calls(first.d, pieces[1..]);
        Outcome(later.d, |pieces[0]| + later.pos, first.body + later.body, later.verdict)
  }

  /** However the input is cut into calls, and in particular when every call gets a single byte, the payload,
      the verdict, the place where it falls and the final state are those of one call on the whole. */
  lemma {:induction false} AnyCutDecodesTheSame(d: Decoder, pieces: seq<bytes>)
    ensures Calls(d, pieces) == Run(d, Flatten(pieces), 0)
    decreases |pieces|
  {
    if |pieces| > 0 {
      var first := Run(d, pieces[0], 0);
      SplitInvariance(d, pieces[0], Flatten(pieces[1..]));
      if first.verdict == Partial {
        AnyCutDecodesTheSame(first.d, pieces[1..]);
      }
    }
  }
}

/** The decoder object: it stops at any byte, resumes on the next call, and moves the payload to the
    front of the caller's buffer. */
module ChunkedDecoder {
  import opened Bytes
  import opened ChunkedAutomaton

  /** memmove within one buffer. */
  method Move(buf: array<byte>, dst: nat, src: nat, n: nat)
    requires dst + n <= buf.Length && src + n <= buf.Length
    modifies buf
    ensures buf[dst..dst + n] == old(buf[src..src + n])
    ensures forall k | 0 <= k < buf.Length && !(dst <= k < dst + n) :: buf[k] == old(buf[k])
  {
    forall k | 0 <= k < n {
      buf[dst + k] := buf[src + k];
    }
  }

  /** The move of n unread bytes of s down to position dst, as the decoder does it. */
  method MoveDown(buf: array<byte>, dst: nat, src: nat, n: nat, ghost s: bytes)
    requires dst <= src && src + n <= |s| <= buf.Length && buf[src..|s|] == s[src..]
    modifies buf
    ensures buf[..dst] == old(buf[..dst]) && buf[dst..dst + n] == s[src..src + n]
    ensures buf[src + n..|s|] == s[src + n..] && buf[|s|..] == old(buf[|s|..])
  {
    assert buf[src..|s|][..n] == buf[src..src + n] && s[src..][..n] == s[src..src + n];
    assert buf[src..|s|][n..] == buf[src + n..|s|] && s[src..][n..] == s[src + n..];
    if dst != src {
      Move(buf, dst, src, n);
    }
  }

  /** The decoder in the middle of a chunk after n more of its bytes. */
  function Took(d: Decoder, n: nat): Decoder
    requires n <= d.bytesLeft
  {
    if n == d.bytesLeft then d.(bytesLeft := 0, state := ChunkCrlf) else d.(bytesLeft := d.bytesLeft - n)
  }

  lemma AfterAfter(p: bytes, q: bytes, o: Outcome)
    ensures After(p, After(q, o)) == After(p + q, o)
  {
    assert p + (q + o.body) == (p + q) + o.body;
  }

  /** A run through payload bytes that are all there. */
  lemma {:induction false} RunData(d: Decoder, s: bytes, i: nat, n: nat)
    requires d.state == ChunkData
    requires 0 < n <= d.bytesLeft && i + n <= |s|
    ensures Run(d, s, i) == After(s[i..i + n], Run(Took(d, n), s, i + n))
    decreases n
  {
    assert Step(d, s[i]) == Effect(Took(d, 1), true, Partial);
    if n == 1 {
      assert s[i..i + 1] == [s[i]];
    } else {
      RunData(Took(d, 1), s, i + 1, n - 1);
      AfterAfter([s[i]], s[i + 1..i + n], Run(Took(d, n), s, i + n));
      assert s[i..i + n] == [s[i]] + s[i + 1..i + n];
    }
  }

  lemma RunOn(d: Decoder, s: bytes, i: nat)
    requires i < |s| && Step(d, s[i]).verdict == Partial && !Step(d, s[i]).payload
    ensures Run(d, s, i) == Run(Step(d, s[i]).d, s, i + 1)
  {
    var o := Run(Step(d, s[i]).d, s, i + 1);
    assert [] + o.body == o.body;
  }

  lemma RunStops(d: Decoder, s: bytes, i: nat)
    requires i <= |s|
    ensures i == |s| ==> Run(d, s, i) == Outcome(d, i, [], Partial)
    ensures i < |s| && Step(d, s[i]).verdict == Bad ==> Run(d, s, i) == Outcome(Step(d, s[i]).d, i, [], Bad)
    ensures i < |s| && Step(d, s[i]).verdict == Done ==> Run(d, s, i) == Outcome(Step(d, s[i]).d, i + 1, [], Done)
  {}

  /** The byte that ends the size digits is read again as the start of the extension. */
  lemma RunLeavesSize(d: Decoder, s: bytes, i: nat)
    requires i < |s| && d.state == ChunkSize && d.hexCount > 0 && DecodeHex(s[i]) == -1
    ensures Run(d, s, i) == Run(d.(state := ChunkExt, hexCount := 0), s, i)
  {
    assert Step(d, s[i]) == Step(d.(state := ChunkExt, hexCount := 0), s[i]);
  }

  /** Whether a part of the decoder's loop lets it go on or leaves the function. */
  datatype Flow = GoOn | Leave(verdict: Verdict)

  /** What is left of a run after a part of the loop. */
  ghost function Rest(s: bytes, d: Decoder, pos: nat, flow: Flow): Outcome
    requires pos <= |s|
  {
    match flow
    case GoOn => Run(d, s, pos)
    case Leave(v) => Outcome(d, pos, [], v)
  }

  /** A part of the loop that delivers no payload. */
  ghost predicate Advanced(before: Outcome, s: bytes, d: Decoder, pos: nat, flow: Flow) {
    && pos <= |s|
    && before == Rest(s, d, pos, flow)
    && (flow == Leave(Partial) ==> pos == |s|)
  }

  lemma CopyOutcome(d: Decoder, s: bytes, i: nat, n: nat)
    requires Reachable(d) && d.state == ChunkData && i <= |s|
    requires n == if |s| - i < d.bytesLeft then |s| - i else d.bytesLeft
    ensures Reachable(Took(d, n)) && Took(d, n).state == if n < d.bytesLeft then ChunkData else ChunkCrlf
    ensures Run(d, s, i) == After(s[i..i + n], Rest(s, Took(d, n), i + n, if n < d.bytesLeft then Leave(Partial) else GoOn))
  {
    if n > 0 {
      RunData(d, s, i, n);
      RunStops(Took(d, n), s, i + n);
    }
  }

  class PhrChunkedDecoder {
    var bytesLeftInChunk: nat
    var consumeTrailer: bool
    var hexCount: nat
    var state: State

    function Fields(): Decoder
      reads this
    {
      Decoder(state, bytesLeftInChunk, hexCount, consumeTrailer)
    }

    /** A decoder that was zero-filled before the first call, as the header asks. */
    constructor (consumeTrailer: bool)
      ensures Fields() == Initial(consumeTrailer) && Reachable(Fields())
    {
      bytesLeftInChunk, hexCount, state := 0, 0, ChunkSize;
      this.consumeTrailer := consumeTrailer;
    }

    /** The chunk size digits; the first other byte ends them and is left for the extension. */
    method ReadSize(buf: array<byte>, start: nat, bufsz: nat, ghost s: bytes) returns (src: nat, flow: Flow)
      requires Reachable(Fields()) && state == ChunkSize
      requires start <= bufsz <= buf.Length && |s| == bufsz && buf[start..bufsz] == s[start..]
      modifies this
      ensures Advanced(old(Run(Fields(), s, start)), s, Fields(), src, flow)
      ensures start <= src && Reachable(Fields()) && (flow == GoOn ==> state == ChunkExt)
    {
      hide Run, Pow16;
      ghost var o := Run(Fields(), s, start);
      src := start;
      while true
        invariant start <= src <= bufsz && state == ChunkSize && Reachable(Fields())
        invariant o == Run(Fields(), s, src)
        decreases bufsz - src
      {
        RunStops(Fields(), s, src);
        if src == bufsz {
          return src, Leave(Partial);
        }
        assert buf[src] == s[src];
        var v := DecodeHex(buf[src]);
        StepKeepsReachable(Fields(), s[src]);
        if v == -1 {
          if hexCount == 0 {
            return src, Leave(Bad);
          }
          break;
        }
        if hexCount == SIZEOF_SIZE_T * 2 {
          return src, Leave(Bad);
        }
        RunOn(Fields(), s, src);
        bytesLeftInChunk := (bytesLeftInChunk * 16 + v) % SIZE_T_RANGE;
        hexCount := hexCount + 1;
        src := src + 1;
      }
      RunLeavesSize(Fields(), s, src);
      hexCount := 0;
      state := ChunkExt;
      flow := GoOn;
    }

    /** The chunk extension up to the end of its line. */
    method SkipExt(buf: array<byte>, start: nat, bufsz: nat, ghost s: bytes) returns (src: nat, flow: Flow)
      requires Reachable(Fields()) && state == ChunkExt
      requires start <= bufsz <= buf.Length && |s| == bufsz && buf[start..bufsz] == s[start..]
      modifies this
      ensures Advanced(old(Run(Fields(), s, start)), s, Fields(), src, flow)
      ensures start <= src && Reachable(Fields()) && (flow == GoOn ==> start < src)
    {
      hide Run, Pow16;
      ghost var o := Run(Fields(), s, start);
      src := start;
      while true
        invariant start <= src <= bufsz && state == ChunkExt && Reachable(Fields())
        invariant o == Run(Fields(), s, src)
        decreases bufsz - src
      {
        RunStops(Fields(), s, src);
        if src == bufsz {
          return src, Leave(Partial);
        }
        assert buf[src] == s[src];
        if buf[src] == LF {
          break;
        }
        RunOn(Fields(), s, src);
        src := src + 1;
      }
      if bytesLeftInChunk != 0 || consumeTrailer {
        RunOn(Fields(), s, src);
      }
      src := src + 1;
      if bytesLeftInChunk == 0 {
        if consumeTrailer {
          state := TrailersLineHead;
          return src, GoOn;
        }
        return src, Leave(Done);
      }
      state := ChunkData;
      flow := GoOn;
    }

    /** The line end after the chunk data. */
    method SkipCrlf(buf: array<byte>, start: nat, bufsz: nat, ghost s: bytes) returns (src: nat, flow: Flow)
      requires Reachable(Fields()) && state == ChunkCrlf
      requires start <= bufsz <= buf.Length && |s| == bufsz && buf[start..bufsz] == s[start..]
      modifies this
      ensures Advanced(old(Run(Fields(), s, start)), s, Fields(), src, flow)
      ensures start <= src && Reachable(Fields()) && (flow == GoOn ==> start < src)
    {
      hide Run;
      ghost var o := Run(Fields(), s, start);
      src := start;
      while true
        invariant start <= src <= bufsz && state == ChunkCrlf && Reachable(Fields())
        invariant o == Run(Fields(), s, src)
        decreases bufsz - src
      {
        RunStops(Fields(), s, src);
        if src == bufsz {
          return src, Leave(Partial);
        }
        assert buf[src] == s[src];
        if buf[src] != CR {
          break;
        }
        RunOn(Fields(), s, src);
        src := src + 1;
      }
      if buf[src] != LF {
        return src, Leave(Bad);
      }
      RunOn(Fields(), s, src);
      src := src + 1;
      state := ChunkSize;
      flow := GoOn;
    }

    /** The first byte of a trailer line: an empty line ends the coding. */
    method ReadTrailerHead(buf: array<byte>, start: nat, bufsz: nat, ghost s: bytes) returns (src: nat, flow: Flow)
      requires Reachable(Fields()) && state == TrailersLineHead
      requires start <= bufsz <= buf.Length && |s| == bufsz && buf[start..bufsz] == s[start..]
      modifies this
      ensures Advanced(old(Run(Fields(), s, start)), s, Fields(), src, flow)
      ensures start <= src && Reachable(Fields()) && (flow == GoOn ==> start < src)
    {
      hide Run, Pow16;
      ghost var o := Run(Fields(), s, start);
      src := start;
      while true
        invariant start <= src <= bufsz && state == TrailersLineHead && Reachable(Fields())
        invariant o == Run(Fields(), s, src)
        decreases bufsz - src
      {
        RunStops(Fields(), s, src);
        if src == bufsz {
          return src, Leave(Partial);
        }
        assert buf[src] == s[src];
        if buf[src] != CR {
          break;
        }
        RunOn(Fields(), s, src);
        src := src + 1;
      }
      if s[src] != LF {
        RunOn(Fields(), s, src);
      }
      src := src + 1;
      if buf[src - 1] == LF {
        return src, Leave(Done);
      }
      state := TrailersLineMiddle;
      flow := GoOn;
    }

    /** The rest of a trailer line. */
    method SkipTrailerLine(buf: array<byte>, start: nat, bufsz: nat, ghost s: bytes) returns (src: nat, flow: Flow)
      requires Reachable(Fields()) && state == TrailersLineMiddle
      requires start <= bufsz <= buf.Length && |s| == bufsz && buf[start..bufsz] == s[start..]
      modifies this
      ensures Advanced(old(Run(Fields(), s, start)), s, Fields(), src, flow)
      ensures start <= src && Reachable(Fields()) && (flow == GoOn ==> start < src)
    {
      hide Run, Pow16;
      ghost var o := Run(Fields(), s, start);
      src := start;
      while true
        invariant start <= src <= bufsz && state == TrailersLineMiddle && Reachable(Fields())
        invariant o == Run(Fields(), s, src)
        decreases bufsz - src
      {
        RunStops(Fields(), s, src);
        if src == bufsz {
          return src, Leave(Partial);
        }
        assert buf[src] == s[src];
        if buf[src] == LF {
          break;
        }
        RunOn(Fields(), s, src);
        src := src + 1;
      }
      RunOn(Fields(), s, src);
      src := src + 1;
      state := TrailersLineHead;
      flow := GoOn;
    }

    /** The part of the chunk that is in the buffer, moved behind the payload already delivered. */
    method CopyData(buf: array<byte>, done: nat, start: nat, bufsz: nat, ghost s: bytes) returns (dst: nat, src: nat, flow: Flow)
      requires Reachable(Fields()) && state == ChunkData
      requires done <= start <= bufsz <= buf.Length && |s| == bufsz && buf[start..bufsz] == s[start..]
      modifies this, buf
      ensures start <= src <= bufsz && dst == done + (src - start) && Reachable(Fields())
      ensures old(Run(Fields(), s, start)) == After(buf[done..dst], Rest(s, Fields(), src, flow))
      ensures (flow == GoOn && start < src) || (flow == Leave(Partial) && src == bufsz)
      ensures buf[..done] == old(buf[..done])
      ensures buf[src..bufsz] == s[src..] && buf[bufsz..] == old(buf[bufsz..])
    {
      hide Run, Pow16, Step;
      var avail := bufsz - start;
      var n := if avail < bytesLeftInChunk then avail else bytesLeftInChunk;
      CopyOutcome(Fields(), s, start, n);
      MoveDown(buf, done, start, n, s);
      src, dst := start + n, done + n;
      if avail < bytesLeftInChunk {
        bytesLeftInChunk := bytesLeftInChunk - avail;
        flow := Leave(Partial);
      } else {
        bytesLeftInChunk := 0;
        state := ChunkCrlf;
        flow := GoOn;
      }
    }

    /** One turn of the switch: what the decoder does in its present state. */
    method Part(buf: array<byte>, done: nat, start: nat, bufsz: nat, ghost s: bytes) returns (dst: nat, src: nat, flow: Flow)
      requires Reachable(Fields())
      requires done <= start <= bufsz <= buf.Length && |s| == bufsz && buf[start..bufsz] == s[start..]
      modifies this, buf
      ensures start <= src <= bufsz && done <= dst <= src && Reachable(Fields())
      ensures old(Run(Fields(), s, start)) == After(buf[done..dst], Rest(s, Fields(), src, flow))
      ensures flow == GoOn ==> start < src || (old(state) == ChunkSize && state != ChunkSize)
      ensures flow == Leave(Partial) ==> src == bufsz
      ensures buf[..done] == old(buf[..done])
      ensures buf[src..bufsz] == s[src..] && buf[bufsz..] == old(buf[bufsz..])
    {
      hide Run, Pow16, Step;
      dst := done;
      ghost var o := Run(Fields(), s, start);
      assert buf[done..done] == [] && [] + o.body == o.body;
      match state
      case ChunkSize => src, flow := ReadSize(buf, start, bufsz, s);
      case ChunkExt => src, flow := SkipExt(buf, start, bufsz, s);
      case ChunkData =>
        dst, src, flow := CopyData(buf, done, start, bufsz, s);
        return;
      case ChunkCrlf => src, flow := SkipCrlf(buf, start, bufsz, s);
      case TrailersLineHead => src, flow := ReadTrailerHead(buf, start, bufsz, s);
      case TrailersLineMiddle => src, flow := SkipTrailerLine(buf, start, bufsz, s);
    }

    /** phr_decode_chunked. The result is -2, -1, or the number of bytes left undecoded; decoded is the new
        *bufsz. The undecoded bytes follow the decoded ones, and nothing beyond bufsz is touched. */
    method Decode(buf: array<byte>, bufsz: nat) returns (ret: int, decoded: nat)
      requires bufsz <= buf.Length && Reachable(Fields())
      modifies this, buf
      ensures Reachable(Fields())
      ensures var o := old(Run(Fields(), buf[..bufsz], 0));
              && Fields() == o.d
              && decoded == |o.body| <= o.pos <= bufsz
              && buf[..decoded] == o.body
              && buf[decoded..decoded + (bufsz - o.pos)] == old(buf[o.pos..bufsz])
              && ret == (match o.verdict { case Partial => -2 case Bad => -1 case Done => bufsz - o.pos })
              && (ret == -2 ==> o.pos == bufsz)
      ensures buf[bufsz..] == old(buf[bufsz..])
    {
      hide Run, Reachable, Step;
      ghost var s := buf[..bufsz];
      var dst, src, verdict := RunParts(buf, bufsz, s);
      ret := match verdict { case Partial => -2 case Bad => -1 case Done => bufsz - src };
      assert s[src..src + (bufsz - src)] == old(buf[src..bufsz]);
      MoveDown(buf, dst, src, bufsz - src, s);
      decoded := dst;
    }

    /** The loop: the payload so far lies in front, what was not looked at yet is where it was. */
    method RunParts(buf: array<byte>, bufsz: nat, ghost s: bytes) returns (dst: nat, src: nat, verdict: Verdict)
      requires bufsz <= buf.Length && s == buf[..bufsz] && Reachable(Fields())
      modifies this, buf
      ensures Reachable(Fields()) && dst <= src <= bufsz
      ensures old(Run(Fields(), s, 0)) == Outcome(Fields(), src, buf[..dst], verdict)
      ensures buf[src..bufsz] == s[src..] && buf[bufsz..] == old(buf[bufsz..])
      ensures verdict == Partial ==> src == bufsz
    {
      hide Run, Reachable, Step, After;
      var flow := GoOn;
      dst, src := 0, 0;
      ghost var beyond := buf[bufsz..];
      ghost var o := Run(Fields(), s, 0);
      assert buf[..0] == [];
      AfterNothing(o);
      while flow == GoOn
        invariant dst <= src <= bufsz && Reachable(Fields())
        invariant buf[src..bufsz] == s[src..] && buf[bufsz..] == beyond
        invariant o == After(buf[..dst], Rest(s, Fields(), src, flow))
        invariant flow == Leave(Partial) ==> src == bufsz
        decreases flow == GoOn, bufsz - src, state == ChunkSize
      {
        ghost var body, done := buf[..dst], dst;
        dst, src, flow := Part(buf, dst, src, bufsz, s);
        AfterAfter(body, buf[done..dst], Rest(s, Fields(), src, flow));
        assert buf[..dst] == body + buf[done..dst];
      }
      verdict := flow.verdict;
      AfterEnd(buf[..dst], Fields(), src, verdict);
    }
  }

  lemma AfterNothing(o: Outcome)
    ensures After([], o) == o
  {
    assert [] + o.body == o.body;
  }

  lemma AfterEnd(body: bytes, d: Decoder, pos: nat, verdict: Verdict)
    ensures After(body, Outcome(d, pos, [], verdict)) == Outcome(d, pos, body, verdict)
  {
    assert body + [] == body;
  }
}
