/** The inputs that the decoder accepts: the chunked coding of section 4.1 of RFC 7230, and what it takes besides. */
module ChunkedCoding {
  import opened Bytes
  import opened ChunkedAutomaton
  import ChunkedDecoder

  /** A chunk: hexadecimal digits for its size, anything up to the line feed, the data, and carriage returns before
      the line feed behind it. In the coding of the RFC, ext is an extension and a CR, and crs is 1. */
  datatype Chunk = Chunk(digits: bytes, ext: bytes, data: bytes, crs: nat)

  /** A trailer line behind carriage returns; the line may end in one. */
  datatype Trailer = Trailer(crs: nat, line: bytes)

  /** A whole body: the chunks, the size line of the last chunk, the trailers, and the empty line after them. */
  datatype Coding = Coding(chunks: seq<Chunk>, digits: bytes, ext: bytes, trailers: seq<Trailer>, crs: nat)

  /** At most eight digits, and then no further one. */
  predicate SizeLine(digits: bytes, ext: bytes, size: nat) {
    1 <= |digits| <= 8 && SpellsHex(digits, size) && 10 !in ext && (|ext| > 0 ==> NoHex(ext[0]))
  }

  predicate GoodChunk(c: Chunk) {
    |c.data| > 0 && SizeLine(c.digits, c.ext, |c.data|)
  }

  predicate GoodTrailer(t: Trailer) {
    |t.line| > 0 && t.line[0] != 13 && 10 !in t.line
  }

  predicate GoodCoding(c: Coding) {
    && (forall k | 0 <= k < |c.chunks| :: GoodChunk(c.chunks[k]))
    && SizeLine(c.digits, c.ext, 0)
    && (forall k | 0 <= k < |c.trailers| :: GoodTrailer(c.trailers[k]))
  }

  function Body(chunks: seq<Chunk>): bytes {
    if |chunks| == 0 then [] else chunks[0].data + Body(chunks[1..])
  }

  function LineEnd(crs: nat): bytes {
    seq(crs, _ => 13) + [10]
  }

  function EncodeSizeLine(digits: bytes, ext: bytes): bytes {
    digits + (ext + [10])
  }

  function EncodeChunk(c: Chunk): bytes {
    EncodeSizeLine(c.digits, c.ext) + (c.data + LineEnd(c.crs))
  }

  function EncodeChunks(chunks: seq<Chunk>): bytes {
    if |chunks| == 0 then [] else EncodeChunk(chunks[0]) + EncodeChunks(chunks[1..])
  }

  function EncodeTrailer(t: Trailer): bytes {
    seq(t.crs, _ => 13) + (t.line + [10])
  }

  function EncodeTrailers(trailers: seq<Trailer>): bytes {
    if |trailers| == 0 then [] else EncodeTrailer(trailers[0]) + EncodeTrailers(trailers[1..])
  }

  function Ending(c: Coding, consumeTrailer: bool): bytes {
    if consumeTrailer then EncodeTrailers(c.trailers) + LineEnd(c.crs) else []
  }

  /** What the decoder consumes of a body; without trailers to consume, that is all up to the size line 0. */
  function Encode(c: Coding, consumeTrailer: bool): bytes {
    EncodeChunks(c.chunks) + (EncodeSizeLine(c.digits, c.ext) + Ending(c, consumeTrailer))
  }

  // ---------------------------------------------------------------------------------------------
  // Taking a text piece by piece
  // ---------------------------------------------------------------------------------------------

  /** t is consumed whole, delivers body and leaves the decoder in d'. */
  predicate Takes(d: Decoder, t: bytes, d': Decoder, body: bytes) {
    Run(d, t, 0) == Outcome(d', |t|, body, Partial)
  }

  lemma TakesBoth(d: Decoder, a: bytes, d1: Decoder, x: bytes, b: bytes, d2: Decoder, y: bytes)
    requires Takes(d, a, d1, x) && Takes(d1, b, d2, y)
    ensures Takes(d, a + b, d2, x + y)
  {
    hide Run;
    SplitInvariance(d, a, b);
  }

  lemma NothingTwice()
    ensures var none: bytes := []; none + none == none
  {}

  lemma TakesBothQuietly(d: Decoder, a: bytes, d1: Decoder, b: bytes, d2: Decoder)
    requires Takes(d, a, d1, []) && Takes(d1, b, d2, [])
    ensures Takes(d, a + b, d2, [])
  {
    hide Run;
    TakesBoth(d, a, d1, [], b, d2, []);
    NothingTwice();
  }

  /** An outcome n bytes later, with payload in front of it. */
  function Later(n: nat, body: bytes, o: Outcome): Outcome {
    Outcome(o.d, n + o.pos, body + o.body, o.verdict)
  }

  /** After a text that is taken, the rest decides. */
  lemma TakenFirst(d: Decoder, t: bytes, d': Decoder, body: bytes, rest: bytes)
    requires Takes(d, t, d', body)
    ensures Run(d, t + rest, 0) == Later(|t|, body, Run(d', rest, 0))
  {
    hide Run;
    SplitInvariance(d, t, rest);
  }

  lemma LaterTwice(m: nat, n: nat, o: Outcome)
    ensures Later(m, [], Later(n, [], o)) == Later(m + n, [], o)
  {
    assert [] + o.body == o.body;
  }

  lemma TakesOne(d: Decoder, b: byte)
    requires Step(d, b).verdict == Partial && !Step(d, b).payload
    ensures Takes(d, [b], Step(d, b).d, [])
  {
    ChunkedDecoder.RunOn(d, [b], 0);
  }

  /** A byte that decides. */
  lemma Decides(d: Decoder, b: byte, rest: bytes)
    requires Step(d, b).verdict != Partial
    ensures Run(d, [b] + rest, 0) == Outcome(Step(d, b).d, if Step(d, b).verdict == Done then 1 else 0, [], Step(d, b).verdict)
  {
    ChunkedDecoder.RunStops(d, [b] + rest, 0);
  }

  /** What the decoder sees of a size line. */
  predicate Sized(digits: bytes, ext: bytes, size: nat) {
    && 1 <= |digits| <= 2 * SIZEOF_SIZE_T
    && AllHex(digits)
    && HexValue(digits) == size
    && LF !in ext && (|ext| > 0 ==> HexDigit(ext[0]).None?)
  }

  lemma SizeLineIs(digits: bytes, ext: bytes, size: nat)
    ensures SizeLine(digits, ext, size) <==> Sized(digits, ext, size)
  {
    hide HexDigit, NoHex, SpellsHex;
    HexValueIs(digits, size);
    if |ext| > 0 {
      HexDigitIs(ext[0]);
    }
  }

  /** Digits leave the number that they spell. */
  lemma TakesDigits(d: Decoder, digits: bytes, n: nat)
    requires d.state == ChunkSize && d.hexCount == 0 && d.bytesLeft == 0 && |digits| <= 8 && SpellsHex(digits, n)
    ensures Takes(d, digits, d.(hexCount := |digits|, bytesLeft := n), [])
  {
    hide Takes, SpellsHex, HexValue;
    HexValueIs(digits, n);
    TakesAllHex(d, digits);
  }

  lemma {:induction false} TakesAllHex(d: Decoder, digits: bytes)
    requires d.state == ChunkSize && d.hexCount == 0 && d.bytesLeft == 0
    requires |digits| <= 2 * SIZEOF_SIZE_T && AllHex(digits)
    ensures HexValue(digits) < Pow16(|digits|)
    ensures Takes(d, digits, d.(hexCount := |digits|, bytesLeft := HexValue(digits)), [])
    decreases |digits|
  {
    hide Takes, Run;
    if |digits| == 0 {
      TakesNothing(d);
    } else {
      var n := |digits| - 1;
      assert digits == digits[..n] + [digits[n]];
      TakesAllHex(d, digits[..n]);
      var e := d.(hexCount := n, bytesLeft := HexValue(digits[..n]));
      Pow16Monotone(n, 2 * SIZEOF_SIZE_T);
      Pow16OfSize();
      SizeNeverWraps(e, DecodeHex(digits[n]));
      TakesOne(e, digits[n]);
      TakesBothQuietly(d, digits[..n], e, [digits[n]], Step(e, digits[n]).d);
    }
  }

  lemma TakesNothing(d: Decoder)
    ensures Takes(d, [], d, [])
  {}

  /** In a state that a byte does not change, a text of such bytes changes nothing. */
  lemma {:induction false} TakesSame(d: Decoder, t: bytes)
    requires forall k | 0 <= k < |t| :: Step(d, t[k]) == Effect(d, false, Partial)
    ensures Takes(d, t, d, [])
    decreases |t|
  {
    hide Takes, Run, Step;
    if |t| == 0 {
      TakesNothing(d);
    } else {
      TakesOne(d, t[0]);
      TakesSame(d, t[1..]);
      TakesBothQuietly(d, [t[0]], d, t[1..], d);
      assert t == [t[0]] + t[1..];
    }
  }

  lemma TakesExt(d: Decoder, t: bytes)
    requires d.state == ChunkExt && LF !in t
    ensures Takes(d, t, d, [])
  {
    hide Takes;
    TakesSame(d, t);
  }

  lemma TakesCarriageReturns(d: Decoder, n: nat)
    requires d.state == ChunkCrlf || d.state == TrailersLineHead
    ensures Takes(d, seq(n, _ => CR), d, [])
  {
    hide Takes;
    TakesSame(d, seq(n, _ => CR));
  }

  predicate IsFresh(d: Decoder) {
    d.state == ChunkSize && d.hexCount == 0 && d.bytesLeft == 0
  }

  /** Behind a size line, its line feed decides. */
  lemma TakesSizeLine(d: Decoder, digits: bytes, ext: bytes, rest: bytes)
    requires IsFresh(d) && AllHex(digits) && Sized(digits, ext, HexValue(digits))
    ensures var f := d.(state := ChunkExt, bytesLeft := HexValue(digits));
            Run(d, EncodeSizeLine(digits, ext) + rest, 0) == Later(|digits| + |ext|, [], Run(f, [LF] + rest, 0))
  {
    hide Takes, Run, Later, HexValue, AllHex, HexDigit, DecodeHex, EncodeSizeLine;
    var e := d.(hexCount := |digits|, bytesLeft := HexValue(digits));
    var f := d.(state := ChunkExt, bytesLeft := HexValue(digits));
    SizeLineText(digits, ext, rest);
    TakesAllHex(d, digits);
    TakenFirst(d, digits, e, [], ext + ([LF] + rest));
    TakesRestOfLine(e, ext, rest);
    assert e.(state := ChunkExt, hexCount := 0) == f;
    LaterTwice(|digits|, |ext|, Run(f, [LF] + rest, 0));
  }

  lemma SizeLineText(digits: bytes, ext: bytes, rest: bytes)
    ensures EncodeSizeLine(digits, ext) + rest == digits + (ext + ([LF] + rest))
  {}

  /** From the digits on to the line feed. */
  lemma TakesRestOfLine(e: Decoder, ext: bytes, rest: bytes)
    requires e.state == ChunkSize && e.hexCount > 0 && LF !in ext && (|ext| > 0 ==> HexDigit(ext[0]).None?)
    ensures var f := e.(state := ChunkExt, hexCount := 0);
            Run(e, ext + ([LF] + rest), 0) == Later(|ext|, [], Run(f, [LF] + rest, 0))
  {
    hide Takes, Run, Later;
    var f := e.(state := ChunkExt, hexCount := 0);
    assert HexDigit(LF).None?;
    ChunkedDecoder.RunLeavesSize(e, ext + ([LF] + rest), 0);
    TakesExt(f, ext);
    TakenFirst(f, ext, f, [], [LF] + rest);
  }

  lemma TakesPayload(d: Decoder, data: bytes)
    requires d.state == ChunkData && 0 < |data| <= d.bytesLeft
    ensures Takes(d, data, ChunkedDecoder.Took(d, |data|), data)
  {
    hide Run;
    var e := ChunkedDecoder.Took(d, |data|);
    ChunkedDecoder.RunData(d, data, 0, |data|);
    ChunkedDecoder.RunStops(e, data, |data|);
    assert data[0..] + [] == data;
  }

  lemma TakesLineEnd(d: Decoder, crs: nat)
    requires d.state == ChunkCrlf
    ensures Takes(d, LineEnd(crs), d.(state := ChunkSize), [])
  {
    hide Takes;
    TakesCarriageReturns(d, crs);
    TakesOne(d, LF);
    TakesBothQuietly(d, seq(crs, _ => CR), d, [LF], d.(state := ChunkSize));
  }

  lemma TakesSizeLineOfChunk(d: Decoder, digits: bytes, ext: bytes)
    requires IsFresh(d) && AllHex(digits) && Sized(digits, ext, HexValue(digits)) && HexValue(digits) > 0
    ensures Takes(d, EncodeSizeLine(digits, ext), d.(state := ChunkData, bytesLeft := HexValue(digits)), [])
  {
    hide Run;
    var f := d.(state := ChunkExt, bytesLeft := HexValue(digits));
    TakesSizeLine(d, digits, ext, []);
    assert [LF] + [] == [LF] && EncodeSizeLine(digits, ext) + [] == EncodeSizeLine(digits, ext);
    TakesOne(f, LF);
    NothingTwice();
  }

  lemma TakesChunk(d: Decoder, c: Chunk)
    requires IsFresh(d) && GoodChunk(c)
    ensures Takes(d, EncodeChunk(c), d, c.data)
  {
    hide Takes, Run;
    var f := d.(state := ChunkData, bytesLeft := |c.data|);
    var g := d.(state := ChunkCrlf);
    SizeLineIs(c.digits, c.ext, |c.data|);
    TakesSizeLineOfChunk(d, c.digits, c.ext);
    TakesPayload(f, c.data);
    TakesLineEnd(g, c.crs);
    TakesBoth(f, c.data, g, c.data, LineEnd(c.crs), d, []);
    TakesBoth(d, EncodeSizeLine(c.digits, c.ext), f, [], c.data + LineEnd(c.crs), d, c.data + []);
    assert [] + (c.data + []) == c.data;
  }

  lemma {:induction false} TakesChunks(d: Decoder, chunks: seq<Chunk>)
    requires IsFresh(d) && forall k | 0 <= k < |chunks| :: GoodChunk(chunks[k])
    ensures Takes(d, EncodeChunks(chunks), d, Body(chunks))
    decreases |chunks|
  {
    hide Takes, EncodeChunk;
    if |chunks| == 0 {
      TakesNothing(d);
    } else {
      TakesChunk(d, chunks[0]);
      TakesChunks(d, chunks[1..]);
      TakesBoth(d, EncodeChunk(chunks[0]), d, chunks[0].data, EncodeChunks(chunks[1..]), d, Body(chunks[1..]));
    }
  }

  lemma TakesTrailer(d: Decoder, t: Trailer)
    requires d.state == TrailersLineHead && GoodTrailer(t)
    ensures Takes(d, EncodeTrailer(t), d, [])
  {
    hide Takes;
    var e := d.(state := TrailersLineMiddle);
    TakesCarriageReturns(d, t.crs);
    TakesOne(d, t.line[0]);
    TakesSame(e, t.line[1..]);
    TakesOne(e, LF);
    TakesBothQuietly(e, t.line[1..], e, [LF], d);
    TakesBothQuietly(d, [t.line[0]], e, t.line[1..] + [LF], d);
    assert [t.line[0]] + (t.line[1..] + [LF]) == t.line + [LF];
    TakesBothQuietly(d, seq(t.crs, _ => CR), d, t.line + [LF], d);
  }

  lemma {:induction false} TakesTrailers(d: Decoder, trailers: seq<Trailer>)
    requires d.state == TrailersLineHead && forall k | 0 <= k < |trailers| :: GoodTrailer(trailers[k])
    ensures Takes(d, EncodeTrailers(trailers), d, [])
    decreases |trailers|
  {
    hide Takes, EncodeTrailer;
    if |trailers| == 0 {
      TakesNothing(d);
    } else {
      TakesTrailer(d, trailers[0]);
      TakesTrailers(d, trailers[1..]);
      TakesBothQuietly(d, EncodeTrailer(trailers[0]), d, EncodeTrailers(trailers[1..]), d);
    }
  }

  // ---------------------------------------------------------------------------------------------
  // Every coding is decoded
  // ---------------------------------------------------------------------------------------------

  /** The decoder ends on this input, after n bytes and with this body. */
  predicate Ends(d: Decoder, s: bytes, body: bytes, n: nat) {
    var o := Run(d, s, 0);
    o.verdict == Done && o.body == body && o.pos == n
  }

  lemma EndsAfter(d: Decoder, t: bytes, d': Decoder, x: bytes, rest: bytes, body: bytes, n: nat)
    requires Takes(d, t, d', x)
    ensures Ends(d', rest, body, n) ==> Ends(d, t + rest, x + body, |t| + n)
  {
    hide Run;
    TakenFirst(d, t, d', x, rest);
  }

  lemma LastLineEnds(d: Decoder, c: Coding, rest: bytes)
    requires d.state == TrailersLineHead && GoodCoding(c)
    ensures Ends(d, Ending(c, true) + rest, [], |Ending(c, true)|)
  {
    hide Takes, EncodeTrailers, Run;
    NothingTwice();
    var crs := seq(c.crs, _ => CR);
    TakesTrailers(d, c.trailers);
    TakesCarriageReturns(d, c.crs);
    Decides(d, LF, rest);
    EndsAfter(d, crs, d, [], [LF] + rest, [], 1);
    assert crs + ([LF] + rest) == LineEnd(c.crs) + rest;
    EndsAfter(d, EncodeTrailers(c.trailers), d, [], LineEnd(c.crs) + rest, [], |LineEnd(c.crs)|);
    assert EncodeTrailers(c.trailers) + (LineEnd(c.crs) + rest) == Ending(c, true) + rest;
  }

  lemma SizeLineZeroEnds(d: Decoder, c: Coding, rest: bytes)
    requires IsFresh(d) && GoodCoding(c)
    ensures var t := EncodeSizeLine(c.digits, c.ext) + Ending(c, d.consumeTrailer); Ends(d, t + rest, [], |t|)
  {
    hide Takes, Run, Ending;
    NothingTwice();
    var f := d.(state := ChunkExt, bytesLeft := 0);
    var tail := Ending(c, d.consumeTrailer);
    SizeLineIs(c.digits, c.ext, 0);
    TakesSizeLine(d, c.digits, c.ext, tail + rest);
    if d.consumeTrailer {
      var g := d.(state := TrailersLineHead);
      TakesOne(f, LF);
      LastLineEnds(g, c, rest);
      EndsAfter(f, [LF], g, [], tail + rest, [], |tail|);
    } else {
      assert tail == [] by {
        NoEnding(c);
      }
      Decides(f, LF, tail + rest);
    }
    assert EncodeSizeLine(c.digits, c.ext) + tail + rest == EncodeSizeLine(c.digits, c.ext) + (tail + rest);
  }

  lemma NoEnding(c: Coding)
    ensures Ending(c, false) == []
  {}

  /** Every coding gives exactly its body, and ends exactly where it ends, whatever follows. */
  lemma CodingDecodes(c: Coding, consumeTrailer: bool, rest: bytes)
    requires GoodCoding(c)
    ensures Ends(Initial(consumeTrailer), Encode(c, consumeTrailer) + rest, Body(c.chunks), |Encode(c, consumeTrailer)|)
  {
    hide Takes, Run, EncodeChunks, EncodeSizeLine, Ending, Body, Ends;
    var d := Initial(consumeTrailer);
    var t := EncodeSizeLine(c.digits, c.ext) + Ending(c, consumeTrailer);
    TakesChunks(d, c.chunks);
    SizeLineZeroEnds(d, c, rest);
    EndsAfter(d, EncodeChunks(c.chunks), d, Body(c.chunks), t + rest, [], |t|);
    assert EncodeChunks(c.chunks) + (t + rest) == Encode(c, consumeTrailer) + rest;
    assert Body(c.chunks) + [] == Body(c.chunks);
  }

  // ---------------------------------------------------------------------------------------------
  // What is decoded to its end is a coding
  // ---------------------------------------------------------------------------------------------

  predicate IsDone(d: Decoder, s: bytes) {
    Run(d, s, 0).verdict == Done
  }

  lemma DoneAfter(d: Decoder, t: bytes, d': Decoder, body: bytes, rest: bytes)
    requires Takes(d, t, d', body)
    ensures IsDone(d, t + rest) <==> IsDone(d', rest)
  {
    hide Run;
    TakenFirst(d, t, d', body, rest);
  }

  lemma NotDoneYet(d: Decoder, t: bytes, d': Decoder, body: bytes)
    requires Takes(d, t, d', body)
    ensures !IsDone(d, t)
  {
    hide Run;
  }

  lemma BadIsNotDone(d: Decoder, s: bytes)
    requires s != [] && Step(d, s[0]).verdict == Bad
    ensures !IsDone(d, s)
  {
    hide Step;
    ChunkedDecoder.RunStops(d, s, 0);
  }

  lemma CutAt(s: bytes, i: nat)
    requires i <= |s|
    ensures s == s[..i] + s[i..]
  {}

  /** The digits are as many as a size may have, and another byte comes behind them. */
  lemma DigitsWereRead(d: Decoder, s: bytes) returns (digits: bytes, rest: bytes)
    requires IsFresh(d) && IsDone(d, s)
    ensures s == digits + rest && 1 <= |digits| <= 2 * SIZEOF_SIZE_T && AllHex(digits) && HexValue(digits) < Pow16(|digits|)
    ensures rest != [] && HexDigit(rest[0]).None? && IsDone(d.(hexCount := |digits|, bytesLeft := HexValue(digits)), rest)
  {
    hide Run, Takes, IsDone, HexValue, HexDigit;
    var h := Scan(s, 0, (b: byte) => HexDigit(b).None?);
    var n := if h < 2 * SIZEOF_SIZE_T then h else 2 * SIZEOF_SIZE_T;
    digits, rest := s[..n], s[n..];
    CutAt(s, n);
    TakesAllHex(d, digits);
    var e := d.(hexCount := n, bytesLeft := HexValue(digits));
    DoneAfter(d, digits, e, [], rest);
    if rest == [] {
      NothingLeft(e);
      assert false;
    }
    if n == 0 {
      NoFirstDigit(e, rest);
      assert false;
    }
    if h > n {
      TooManyDigits(e, rest);
      assert false;
    }
  }

  lemma NothingLeft(d: Decoder)
    ensures !IsDone(d, [])
  {}

  lemma NoFirstDigit(d: Decoder, s: bytes)
    requires d.state == ChunkSize && d.hexCount == 0 && s != [] && HexDigit(s[0]).None?
    ensures !IsDone(d, s)
  {
    BadIsNotDone(d, s);
  }

  lemma TooManyDigits(d: Decoder, s: bytes)
    requires d.state == ChunkSize && d.hexCount == 2 * SIZEOF_SIZE_T && s != [] && HexDigit(s[0]).Some?
    ensures !IsDone(d, s)
  {
    BadIsNotDone(d, s);
  }

  /** From the digits to the line feed. */
  lemma ExtWasRead(e: Decoder, s: bytes) returns (ext: bytes, rest: bytes)
    requires e.state == ChunkSize && e.hexCount > 0 && s != [] && HexDigit(s[0]).None? && IsDone(e, s)
    ensures s == ext + ([LF] + rest) && LF !in ext && (|ext| > 0 ==> HexDigit(ext[0]).None?)
    ensures IsDone(e.(state := ChunkExt, hexCount := 0), [LF] + rest)
  {
    hide Run, Takes, Step;
    var f := e.(state := ChunkExt, hexCount := 0);
    var h := FirstLineFeed(s);
    ChunkedDecoder.RunLeavesSize(e, s, 0);
    ext := s[..h];
    CutAt(s, h);
    TakesExt(f, ext);
    DoneAfter(f, ext, f, [], s[h..]);
    if h == |s| {
      NothingLeft(f);
      assert false;
    }
    rest := s[h + 1..];
    assert s[h..] == [LF] + rest;
  }

  lemma SizeLineWasRead(d: Decoder, s: bytes) returns (digits: bytes, ext: bytes, rest: bytes)
    requires IsFresh(d) && IsDone(d, s)
    ensures AllHex(digits) && Sized(digits, ext, HexValue(digits)) && s == EncodeSizeLine(digits, ext) + rest
    ensures IsDone(d.(state := ChunkExt, bytesLeft := HexValue(digits)), [LF] + rest)
  {
    hide IsDone, HexValue, HexDigit;
    var t;
    digits, t := DigitsWereRead(d, s);
    ext, rest := ExtWasRead(d.(hexCount := |digits|, bytesLeft := HexValue(digits)), t);
    assert digits + (ext + ([LF] + rest)) == EncodeSizeLine(digits, ext) + rest;
  }

  /** Carriage returns, and the line feed behind them. */
  lemma CarriageReturnsWereRead(d: Decoder, s: bytes) returns (crs: nat, rest: bytes)
    requires (d.state == ChunkCrlf || d.state == TrailersLineHead) && IsDone(d, s)
    ensures s == seq(crs, _ => CR) + rest && rest != [] && rest[0] != CR && IsDone(d, rest)
  {
    hide Run, Takes, Step;
    crs := Scan(s, 0, (b: byte) => b != CR);
    rest := s[crs..];
    CutAt(s, crs);
    assert s[..crs] == seq(crs, _ => CR);
    TakesCarriageReturns(d, crs);
    DoneAfter(d, s[..crs], d, [], rest);
    if rest == [] {
      NothingLeft(d);
      assert false;
    }
  }

  lemma DataWasRead(d: Decoder, s: bytes) returns (data: bytes, crs: nat, rest: bytes)
    requires d.state == ChunkData && d.bytesLeft > 0 && d.hexCount == 0 && IsDone(d, s)
    ensures |data| == d.bytesLeft && s == data + LineEnd(crs) + rest && IsDone(d.(state := ChunkSize, bytesLeft := 0), rest)
  {
    hide Run, Takes, Step, IsDone;
    var e := d.(state := ChunkCrlf, bytesLeft := 0);
    if |s| < d.bytesLeft {
      DataIsMissing(d, s);
      assert false;
    }
    data := s[..d.bytesLeft];
    CutAt(s, d.bytesLeft);
    TakesPayload(d, data);
    DoneAfter(d, data, e, data, s[d.bytesLeft..]);
    var t;
    crs, t := CarriageReturnsWereRead(e, s[d.bytesLeft..]);
    rest := t[1..];
    assert t == [t[0]] + rest;
    LineFeedBehindData(e, t);
    TakesOneLineFeed(e);
    DoneAfter(e, [LF], e.(state := ChunkSize), [], rest);
    assert seq(crs, _ => CR) + ([LF] + rest) == LineEnd(crs) + rest;
    assert data + (LineEnd(crs) + rest) == data + LineEnd(crs) + rest;
  }

  lemma DataIsMissing(d: Decoder, s: bytes)
    requires d.state == ChunkData && |s| < d.bytesLeft
    ensures !IsDone(d, s)
  {
    hide Run, Takes;
    if s == [] {
      NothingLeft(d);
    } else {
      TakesPayload(d, s);
      NotDoneYet(d, s, ChunkedDecoder.Took(d, |s|), s);
    }
  }

  lemma LineFeedBehindData(d: Decoder, s: bytes)
    requires d.state == ChunkCrlf && s != [] && s[0] != CR && IsDone(d, s)
    ensures s[0] == LF
  {
    hide IsDone;
    if s[0] != LF {
      BadIsNotDone(d, s);
      assert false;
    }
  }

  lemma TakesOneLineFeed(d: Decoder)
    requires d.state == ChunkCrlf
    ensures Takes(d, [LF], d.(state := ChunkSize), [])
  {
    hide Takes;
    TakesOne(d, LF);
  }

  /** All chunks, and the size line 0 behind them. */
  lemma {:induction false} ChunksWereRead(d: Decoder, s: bytes) returns (chunks: seq<Chunk>, digits: bytes, ext: bytes, rest: bytes)
    requires IsFresh(d) && IsDone(d, s)
    ensures (forall k | 0 <= k < |chunks| :: GoodChunk(chunks[k])) && SizeLine(digits, ext, 0)
    ensures s == EncodeChunks(chunks) + (EncodeSizeLine(digits, ext) + rest)
    ensures IsDone(d.(state := ChunkExt, bytesLeft := 0), [LF] + rest)
    decreases |s|
  {
    hide Run, Takes, IsDone, EncodeSizeLine, SizeLine;
    digits, ext, rest := SizeLineWasRead(d, s);
    var size := HexValue(digits);
    SizeLineIs(digits, ext, size);
    if size == 0 {
      chunks := [];
      assert [] + s == s;
    } else {
      var f := d.(state := ChunkExt, bytesLeft := size);
      var g := d.(state := ChunkData, bytesLeft := size);
      TakesOne(f, LF);
      DoneAfter(f, [LF], g, [], rest);
      var data, crs, tail := DataWasRead(g, rest);
      var c := Chunk(digits, ext, data, crs);
      ChunkText(c, tail);
      var more;
      more, digits, ext, rest := ChunksWereRead(d, tail);
      chunks := [c] + more;
      assert chunks[1..] == more;
      assert EncodeChunk(c) + (EncodeChunks(more) + (EncodeSizeLine(digits, ext) + rest))
          == EncodeChunks(chunks) + (EncodeSizeLine(digits, ext) + rest);
    }
  }

  lemma ChunkText(c: Chunk, tail: bytes)
    ensures EncodeSizeLine(c.digits, c.ext) + (c.data + LineEnd(c.crs) + tail) == EncodeChunk(c) + tail
    ensures |EncodeChunk(c)| > 0
  {
    hide EncodeSizeLine;
    assert |LineEnd(c.crs)| > 0;
  }

  lemma {:induction false} TrailersWereRead(d: Decoder, s: bytes) returns (trailers: seq<Trailer>, crs: nat, rest: bytes)
    requires d.state == TrailersLineHead && IsDone(d, s)
    ensures forall k | 0 <= k < |trailers| :: GoodTrailer(trailers[k])
    ensures s == EncodeTrailers(trailers) + LineEnd(crs) + rest
    decreases |s|
  {
    hide Run, Takes, IsDone;
    var t;
    crs, t := CarriageReturnsWereRead(d, s);
    if t[0] == LF {
      trailers, rest := [], t[1..];
      assert t == [LF] + rest;
      assert seq(crs, _ => CR) + ([LF] + rest) == LineEnd(crs) + rest == [] + LineEnd(crs) + rest;
    } else {
      var line, tail := TrailerLineWasRead(d, t);
      var trailer := Trailer(crs, line);
      assert s == EncodeTrailer(trailer) + tail;
      var more;
      more, crs, rest := TrailersWereRead(d, tail);
      trailers := [trailer] + more;
      assert trailers[1..] == more;
      assert EncodeTrailer(trailer) + (EncodeTrailers(more) + LineEnd(crs) + rest) == EncodeTrailers(trailers) + LineEnd(crs) + rest;
    }
  }

  lemma TrailerLineWasRead(d: Decoder, s: bytes) returns (line: bytes, rest: bytes)
    requires d.state == TrailersLineHead && s != [] && s[0] != CR && s[0] != LF && IsDone(d, s)
    ensures s == line + [LF] + rest && |line| > 0 && line[0] == s[0] && LF !in line && IsDone(d, rest)
  {
    hide Run, Takes, IsDone, Step;
    var e := d.(state := TrailersLineMiddle);
    var u := s[1..];
    assert s == [s[0]] + u;
    TakesTrailerHead(d, s[0]);
    DoneAfter(d, [s[0]], e, [], u);
    var t;
    t, rest := MiddleWasRead(e, u);
    line := [s[0]] + t;
    assert [s[0]] + (t + ([LF] + rest)) == line + [LF] + rest;
  }

  lemma TakesTrailerHead(d: Decoder, b: byte)
    requires d.state == TrailersLineHead && b != CR && b != LF
    ensures Takes(d, [b], d.(state := TrailersLineMiddle), [])
  {
    hide Takes;
    TakesOne(d, b);
  }

  lemma TakesTrailerEnd(e: Decoder)
    requires e.state == TrailersLineMiddle
    ensures Takes(e, [LF], e.(state := TrailersLineHead), [])
  {
    hide Takes;
    TakesOne(e, LF);
  }

  lemma TakesMiddle(e: Decoder, t: bytes)
    requires e.state == TrailersLineMiddle && LF !in t
    ensures Takes(e, t, e, [])
  {
    hide Takes;
    TakesSame(e, t);
  }

  lemma MiddleWasRead(e: Decoder, s: bytes) returns (t: bytes, rest: bytes)
    requires e.state == TrailersLineMiddle && IsDone(e, s)
    ensures s == t + ([LF] + rest) && LF !in t && IsDone(e.(state := TrailersLineHead), rest)
  {
    hide Run, Takes, IsDone, Step;
    var h := FirstLineFeed(s);
    t := s[..h];
    CutAt(s, h);
    TakesMiddle(e, t);
    DoneAfter(e, t, e, [], s[h..]);
    if h == |s| {
      NothingLeft(e);
      assert false;
    }
    rest := s[h + 1..];
    assert s[h..] == [LF] + rest;
    TakesTrailerEnd(e);
    DoneAfter(e, [LF], e.(state := TrailersLineHead), [], rest);
  }

  function FirstLineFeed(s: bytes): (h: nat)
    ensures h <= |s| && LF !in s[..h] && (h < |s| ==> s[h] == LF)
  {
    Scan(s, 0, (b: byte) => b == LF)
  }

  /** What is decoded to its end begins with a coding. */
  lemma DecodedIsCoding(consumeTrailer: bool, s: bytes) returns (c: Coding, rest: bytes)
    requires IsDone(Initial(consumeTrailer), s)
    ensures GoodCoding(c) && s == Encode(c, consumeTrailer) + rest
  {
    hide Run, Takes, IsDone, EncodeChunks, EncodeSizeLine, EncodeTrailers, LineEnd;
    var d := Initial(consumeTrailer);
    var chunks, digits, ext, t := ChunksWereRead(d, s);
    if consumeTrailer {
      var f := d.(state := ChunkExt, bytesLeft := 0);
      TakesOne(f, LF);
      DoneAfter(f, [LF], d.(state := TrailersLineHead), [], t);
      var trailers, crs;
      trailers, crs, rest := TrailersWereRead(d.(state := TrailersLineHead), t);
      c := Coding(chunks, digits, ext, trailers, crs);
    } else {
      rest := t;
      c := Coding(chunks, digits, ext, [], 0);
    }
    assert t == Ending(c, consumeTrailer) + rest;
    assert EncodeChunks(chunks) + (EncodeSizeLine(digits, ext) + (Ending(c, consumeTrailer) + rest)) == Encode(c, consumeTrailer) + rest;
  }

  ghost predicate HasCoding(consumeTrailer: bool, s: bytes, body: bytes, n: nat, c: Coding) {
    && GoodCoding(c) && n == |Encode(c, consumeTrailer)| <= |s|
    && s[..n] == Encode(c, consumeTrailer) && body == Body(c.chunks)
  }

  /** The inputs that are decoded to their end are exactly those that begin with a coding: the body and the number
      of bytes consumed are its own. */
  lemma DecodedAreCodings(consumeTrailer: bool, s: bytes, body: bytes, n: nat)
    ensures Ends(Initial(consumeTrailer), s, body, n) <==> exists c :: HasCoding(consumeTrailer, s, body, n, c)
  {
    hide Run, Encode, GoodCoding, Body;
    if Ends(Initial(consumeTrailer), s, body, n) {
      var c, rest := DecodedIsCoding(consumeTrailer, s);
      CodingDecodes(c, consumeTrailer, rest);
      assert HasCoding(consumeTrailer, s, body, n, c);
    }
    if c :| HasCoding(consumeTrailer, s, body, n, c) {
      CodingDecodes(c, consumeTrailer, s[n..]);
      CutAt(s, n);
    }
  }

  // ---------------------------------------------------------------------------------------------
  // What the other two answers mean
  // ---------------------------------------------------------------------------------------------

  /** A way to the end of the body from wherever the decoder is. */
  function WayOut(d: Decoder): bytes {
    match d.state
    case ChunkSize => (if d.hexCount == 0 then ['0' as int] else []) + [10] + AfterSizeLine(d)
    case ChunkExt => [10] + AfterSizeLine(d)
    case ChunkData => AfterSizeLine(d)
    case ChunkCrlf => [10, '0' as int, 10, 10]
    case TrailersLineHead => [10]
    case TrailersLineMiddle => [10, 10]
  }

  function AfterSizeLine(d: Decoder): bytes {
    if d.bytesLeft > 0 then seq(d.bytesLeft, _ => 'x' as int) + [10, '0' as int, 10, 10] else [10]
  }

  lemma DoneLater(d: Decoder, t: bytes, d': Decoder, body: bytes, rest: bytes)
    requires Takes(d, t, d', body) && IsDone(d', rest)
    ensures IsDone(d, t + rest)
  {
    hide Run;
    TakenFirst(d, t, d', body, rest);
  }

  lemma OutOfTrailers(d: Decoder)
    requires d.state == TrailersLineHead
    ensures forall rest: bytes :: IsDone(d, [10] + rest)
  {
    forall rest: bytes ensures IsDone(d, [10] + rest) {
      Decides(d, 10, rest);
    }
  }

  lemma OutOfSizeLine(d: Decoder)
    requires d.state == ChunkExt && d.bytesLeft == 0
    ensures IsDone(d, [10, 10])
  {
    assert [10, 10] == [10] + [10] && [10] + [] == [10];
    if d.consumeTrailer {
      var e := d.(state := TrailersLineHead);
      hide Takes, Run, IsDone;
      TakesOne(d, 10);
      OutOfTrailers(e);
      assert IsDone(e, [10] + []);
      DoneLater(d, [10], e, [], [10]);
    } else {
      Decides(d, 10, [10]);
    }
  }

  lemma OutOfLastChunk(d: Decoder)
    requires d.state == ChunkCrlf && d.hexCount == 0 && d.bytesLeft == 0
    ensures IsDone(d, [10, '0' as int, 10, 10])
  {
    hide Takes, Run, IsDone;
    var e := d.(state := ChunkSize);
    var f := e.(hexCount := 1);
    TakesOne(d, 10);
    TakesZero(e);
    OutOfZero(f);
    DoneLater(e, ['0' as int], f, [], [10, 10]);
    assert ['0' as int] + [10, 10] == ['0' as int, 10, 10];
    DoneLater(d, [10], e, [], ['0' as int, 10, 10]);
    assert [10] + ['0' as int, 10, 10] == [10, '0' as int, 10, 10];
  }

  lemma OutOfZero(d: Decoder)
    requires d.state == ChunkSize && d.hexCount > 0 && d.bytesLeft == 0
    ensures IsDone(d, [10, 10])
  {
    OutOfSizeLine(d.(state := ChunkExt, hexCount := 0));
    ChunkedDecoder.RunLeavesSize(d, [10, 10], 0);
  }

  lemma TakesZero(d: Decoder)
    requires IsFresh(d)
    ensures Takes(d, ['0' as int], d.(hexCount := 1), [])
  {
    TakesOne(d, '0' as int);
  }

  lemma OutOfData(d: Decoder)
    requires d.state == ChunkData && d.hexCount == 0 && d.bytesLeft > 0
    ensures IsDone(d, seq(d.bytesLeft, _ => 'x' as int) + [10, '0' as int, 10, 10])
  {
    var data := seq(d.bytesLeft, _ => 'x' as int);
    var e := d.(state := ChunkCrlf, bytesLeft := 0);
    TakesPayload(d, data);
    OutOfLastChunk(e);
    DoneLater(d, data, e, data, [10, '0' as int, 10, 10]);
  }

  lemma OutOfAnySizeLine(d: Decoder)
    requires d.state == ChunkExt && d.hexCount == 0
    ensures IsDone(d, [10] + AfterSizeLine(d))
  {
    if d.bytesLeft == 0 {
      OutOfSizeLine(d);
      assert [10] + [10] == [10, 10];
    } else {
      hide Run, IsDone;
      var e := d.(state := ChunkData);
      TakesOne(d, 10);
      OutOfData(e);
      DoneLater(d, [10], e, [], AfterSizeLine(d));
    }
  }

  lemma OutOfSize(d: Decoder)
    requires d.state == ChunkSize && d.hexCount > 0
    ensures IsDone(d, [10] + AfterSizeLine(d))
  {
    OutOfAnySizeLine(d.(state := ChunkExt, hexCount := 0));
    ChunkedDecoder.RunLeavesSize(d, [10] + AfterSizeLine(d), 0);
  }

  lemma OutOfTrailerLine(d: Decoder)
    requires d.state == TrailersLineMiddle
    ensures IsDone(d, [10, 10])
  {
    hide Run, IsDone, Takes;
    var e := d.(state := TrailersLineHead);
    TakesTrailerEnd(d);
    OutOfTrailers(e);
    assert [10] + [] == [10] && [10] + [10] == [10, 10];
    assert IsDone(e, [10] + []);
    DoneLater(d, [10], e, [], [10]);
  }

  lemma WayOutIsDone(d: Decoder)
    requires Reachable(d)
    ensures IsDone(d, WayOut(d))
  {
    hide Run, IsDone, Takes;
    match d.state
    case ChunkSize =>
      if d.hexCount == 0 {
        var e := d.(hexCount := 1);
        TakesZero(d);
        OutOfSize(e);
        DoneLater(d, ['0' as int], e, [], [10] + AfterSizeLine(e));
        assert ['0' as int] + ([10] + AfterSizeLine(e)) == WayOut(d);
      } else {
        OutOfSize(d);
        assert [] + [10] + AfterSizeLine(d) == [10] + AfterSizeLine(d);
      }
    case ChunkExt => OutOfAnySizeLine(d);
    case ChunkData => OutOfData(d);
    case ChunkCrlf => OutOfLastChunk(d);
    case TrailersLineHead =>
      OutOfTrailers(d);
      assert [10] + [] == [10];
      assert IsDone(d, [10] + []);
    case TrailersLineMiddle => OutOfTrailerLine(d);
  }

  /** Whatever was decoded before: -2 means that the input can still be completed to a whole body, and -1 that no
      input at all that begins like this one can. */
  lemma AnswersMean(d: Decoder, s: bytes)
    requires Reachable(d)
    ensures Run(d, s, 0).verdict == Partial <==> !IsDone(d, s) && exists t: bytes :: IsDone(d, s + t)
    ensures Run(d, s, 0).verdict == Bad <==> forall t: bytes :: !IsDone(d, s + t)
  {
    hide Run, Reachable;
    var o := Run(d, s, 0);
    assert s + [] == s;
    if o.verdict == Partial {
      RunKeepsReachable(d, s, 0);
      WayOutIsDone(o.d);
      SplitInvariance(d, s, WayOut(o.d));
      assert IsDone(d, s + WayOut(o.d));
    } else {
      forall t: bytes ensures Run(d, s + t, 0) == o {
        SplitInvariance(d, s, t);
      }
      assert IsDone(d, s + []) <==> IsDone(d, s);
    }
  }
}
