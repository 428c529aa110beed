/** Signature chains, the encoders, and what the two aws-chunked readers accept. */
module ChunkStreams {
  import opened ByteStrings
  import opened ChunkCodec
  import opened ChunkReading

  // ---- Frames and signature chains --------------------------------------------

  /** A chunk on the wire: its header line including the line end, its data, and the signature it presents. */
  datatype Frame = Frame(header: Bytes, data: Bytes, sig: Bytes)

  function FrameText(f: Frame): Bytes {
    f.header + (f.data + CRLF)
  }

  function StreamText(frames: seq<Frame>): Bytes {
    if frames == [] then [] else FrameText(frames[0]) + StreamText(frames[1..])
  }

  function Payload(frames: seq<Frame>): Bytes {
    if frames == [] then [] else frames[0].data + Payload(frames[1..])
  }

  function LastSig(seed: Bytes, frames: seq<Frame>): Bytes
    decreases |frames|
  {
    if frames == [] then seed else LastSig(frames[0].sig, frames[1..])
  }

  /** A well-formed frame whose signature continues the chain from `prev`. */
  ghost predicate ValidFrame(fmt: Format, prev: Bytes, f: Frame) {
    && IsLine(f.header)
    && |f.data| <= MAX_CHUNK_SIZE
    && fmt.parse(f.header) == Good(|f.data|, f.sig)
    && f.sig == fmt.sign(prev, f.data)
  }

  ghost predicate IsLine(s: Bytes) {
    s != [] && s[|s| - 1] == Byte('\n') && Byte('\n') !in s[..|s| - 1]
  }

  ghost predicate Chain(fmt: Format, seed: Bytes, frames: seq<Frame>)
    decreases |frames|
  {
    frames != [] ==>
      ValidFrame(fmt, seed, frames[0]) && frames[0].data != [] && Chain(fmt, frames[0].sig, frames[1..])
  }

  lemma LineCut(line: Bytes, rest: Bytes)
    requires IsLine(line)
    ensures var t := line + rest;
            IndexByte(t, Byte('\n')) == |line| - 1 && t[..|line|] == line && t[|line|..] == rest
  {
    var pre := line[..|line| - 1];
    assert line + rest == pre + [Byte('\n')] + rest;
    IndexByteAt(pre, Byte('\n'), rest);
  }

  /** A valid frame at the front of the input is accepted, and only it is consumed. */
  lemma FrameAccepted(fmt: Format, prev: Bytes, f: Frame, rest: Bytes)
    requires ValidFrame(fmt, prev, f)
    ensures NextSigned(fmt, prev, FrameText(f) + rest) == Got(f.data, f.sig, rest)
  {
    var body := f.data + CRLF + rest;
    assert FrameText(f) + rest == f.header + body;
    LineCut(f.header, body);
    ReadBodyOf(f.data, rest, f.sig);
  }

  lemma FrameSpelled(text: Bytes, k: nat, data: Bytes, rest: Bytes)
    requires k <= |text| && text[k..] == data + CRLF + rest
    ensures text == text[..k] + (data + CRLF) + rest
  {
    assert text == text[..k] + text[k..];
  }

  /** Whatever the step accepts is a valid frame at the front of the input. */
  lemma AcceptedFrame(fmt: Format, prev: Bytes, rest: Bytes) returns (f: Frame)
    requires NextSigned(fmt, prev, rest).Got?
    ensures ValidFrame(fmt, prev, f)
    ensures var r := NextSigned(fmt, prev, rest);
            f.data == r.data && f.sig == r.sig && rest == FrameText(f) + r.rest
  {
    var i := IndexByte(rest, Byte('\n'));
    var r := NextSigned(fmt, prev, rest);
    f := Frame(rest[..i + 1], r.data, r.sig);
    assert f.header[..i] == rest[..i];
    FrameSpelled(rest, i + 1, r.data, r.rest);
  }

  // ---- The signed reader is sound and complete for signature chains ------------

  /** `frames` is the chain at the front of the input, and `tail` is where decoding stopped and why. */
  ghost predicate Explains(fmt: Format, seed: Bytes, input: Bytes, frames: seq<Frame>, tail: Bytes, d: Decoded) {
    && Chain(fmt, seed, frames)
    && input == StreamText(frames) + tail
    && d.payload == Payload(frames)
    && var stop := NextSigned(fmt, LastSig(seed, frames), tail);
       if d.outcome.Clean? then stop.Got? && stop.data == [] else stop == Failed(d.outcome.error)
  }

  lemma ExplainsCons(fmt: Format, seed: Bytes, f: Frame, rest: Bytes, frames: seq<Frame>, tail: Bytes, d: Decoded)
    requires ValidFrame(fmt, seed, f) && f.data != []
    requires Explains(fmt, f.sig, rest, frames, tail, d)
    ensures Explains(fmt, seed, FrameText(f) + rest, [f] + frames, tail, Decoded(f.data + d.payload, d.outcome))
  {
    var all := [f] + frames;
    assert all[0] == f && all[1..] == frames;
    assert FrameText(f) + (StreamText(frames) + tail) == StreamText(all) + tail;
  }

  lemma ExplainsStop(fmt: Format, seed: Bytes, input: Bytes)
    requires Shrinks(SignedNext(fmt))
    requires var r := NextSigned(fmt, seed, input); r.Failed? || r.data == []
    ensures Explains(fmt, seed, input, [], input, Decode(SignedNext(fmt), seed, input))
  {
    assert StreamText([]) + input == input;
  }

  lemma {:induction false} Explanation(fmt: Format, seed: Bytes, input: Bytes)
    returns (frames: seq<Frame>, tail: Bytes)
    requires Shrinks(SignedNext(fmt))
    ensures Explains(fmt, seed, input, frames, tail, Decode(SignedNext(fmt), seed, input))
    decreases |input|
  {
    var r := NextSigned(fmt, seed, input);
    if r.Failed? || r.data == [] {
      ExplainsStop(fmt, seed, input);
      frames, tail := [], input;
    } else {
      var f := AcceptedFrame(fmt, seed, input);
      frames, tail := Explanation(fmt, r.sig, r.rest);
      ExplainsCons(fmt, seed, f, r.rest, frames, tail, Decode(SignedNext(fmt), r.sig, r.rest));
      frames := [f] + frames;
    }
  }

  /**
   * Soundness: the decoded payload is the data of frames whose signatures chain from the seed, spelled at the
   * front of the input; a clean end comes only at a verified zero-size chunk.
   */
  lemma SignedSound(fmt: Format, seed: Bytes, input: Bytes)
    requires Shrinks(SignedNext(fmt))
    ensures exists frames, tail :: Explains(fmt, seed, input, frames, tail, Decode(SignedNext(fmt), seed, input))
  {
    var _, _ := Explanation(fmt, seed, input);
  }

  /** Completeness: every chain closed by a valid zero-size frame decodes to its data, whatever follows it. */
  lemma {:induction false} SignedComplete(fmt: Format, seed: Bytes, frames: seq<Frame>, last: Frame, extra: Bytes)
    requires Shrinks(SignedNext(fmt))
    requires Chain(fmt, seed, frames) && ValidFrame(fmt, LastSig(seed, frames), last) && last.data == []
    ensures Decode(SignedNext(fmt), seed, StreamText(frames) + (FrameText(last) + extra))
         == Decoded(Payload(frames), Clean)
    decreases |frames|
  {
    var end := FrameText(last) + extra;
    if frames == [] {
      FrameAccepted(fmt, seed, last, extra);
      assert StreamText(frames) + end == end;
    } else {
      var f := frames[0];
      var rest := StreamText(frames[1..]) + end;
      assert StreamText(frames) + end == FrameText(f) + rest;
      FrameAccepted(fmt, seed, f, rest);
      SignedComplete(fmt, f.sig, frames[1..], last, extra);
    }
  }

  /** For every stream and every schedule of Read sizes the signed reader releases verified bytes only. */
  lemma SignedReaderSafety(fmt: Format, seed: Bytes, input: Bytes, sizes: seq<nat>, n: nat)
    ensures var next := SignedNext(fmt);
      var got := Delivered(next, Fresh(seed, input), sizes);
      var signal := ReadStep(next, StateAfter(next, Fresh(seed, input), sizes), n).signal;
      exists frames, tail, d ::
        && Explains(fmt, seed, input, frames, tail, d)
        && got <= Payload(frames)
        && (signal == EndOfStream ==> got == Payload(frames) && d.outcome == Clean)
  {
    SignedShrinks(fmt);
    var next := SignedNext(fmt);
    AnySchedule(next, seed, input, sizes, n);
    SignedSound(fmt, seed, input);
    var d := Decode(next, seed, input);
    var frames, tail :| Explains(fmt, seed, input, frames, tail, d);
  }

  /** Equal signatures come from equal links: previous signature and data. */
  lemma SigDetermined(ctx: Context, p: Bytes, d: Bytes, q: Bytes, e: Bytes)
    requires forall x, y :: ctx.hmac(ctx.key, x) == ctx.hmac(ctx.key, y) ==> x == y
    requires forall x, y :: ctx.sha256(x) == ctx.sha256(y) ==> x == y
    requires Byte('\n') !in p && Byte('\n') !in q
    requires ExpectedSig(ctx, p, d) == ExpectedSig(ctx, q, e)
    ensures p == q && d == e
  {
    HexEncodeInjective(ctx.hmac(ctx.key, StringToSign(ctx, p, d)), ctx.hmac(ctx.key, StringToSign(ctx, q, e)));
    StringToSignInjective(ctx, p, d, q, e);
  }

  lemma SigOneLine(ctx: Context, prev: Bytes, data: Bytes)
    ensures AllLowerHex(ExpectedSig(ctx, prev, data)) && |ExpectedSig(ctx, prev, data)| % 2 == 0
    ensures Byte('\n') !in ExpectedSig(ctx, prev, data)
  {
    HexEncodeShape(ctx.hmac(ctx.key, StringToSign(ctx, prev, data)));
    LowerHexFree(ExpectedSig(ctx, prev, data), Byte('\n'));
  }

  /** Signatures are single lines and determine what they sign. */
  ghost predicate CollisionFree(fmt: Format) {
    && (forall p, d :: Byte('\n') !in fmt.sign(p, d))
    && forall p, d, q, e ::
         Byte('\n') !in p && Byte('\n') !in q && fmt.sign(p, d) == fmt.sign(q, e) ==> p == q && d == e
  }

  /** Collision-free hashes make the chunk signatures collision-free. */
  lemma SignedFormatCollisionFree(ctx: Context)
    requires forall x, y :: ctx.hmac(ctx.key, x) == ctx.hmac(ctx.key, y) ==> x == y
    requires forall x, y :: ctx.sha256(x) == ctx.sha256(y) ==> x == y
    ensures CollisionFree(SignedFormat(ctx))
  {
    var fmt := SignedFormat(ctx);
    forall p, d ensures Byte('\n') !in fmt.sign(p, d) { SigOneLine(ctx, p, d); }
    forall p, d, q, e | Byte('\n') !in p && Byte('\n') !in q && fmt.sign(p, d) == fmt.sign(q, e)
      ensures p == q && d == e
    {
      SigDetermined(ctx, p, d, q, e);
    }
  }

  /**
   * The final signature pins down the whole chain: two chains of the same length that end in the same signature
   * start from the same seed and carry the same data.
   */
  lemma {:induction false} ChainDetermined(fmt: Format, p: Bytes, a: seq<Frame>, q: Bytes, b: seq<Frame>)
    requires CollisionFree(fmt) && Byte('\n') !in p && Byte('\n') !in q
    requires Chain(fmt, p, a) && Chain(fmt, q, b) && |a| == |b| && LastSig(p, a) == LastSig(q, b)
    ensures p == q && Payload(a) == Payload(b)
    decreases |a|
  {
    if a != [] {
      ChainDetermined(fmt, a[0].sig, a[1..], b[0].sig, b[1..]);
    }
  }

  // ---- Round trips ------------------------------------------------------------

  /** The frame an SDK writes for a chunk. */
  function EncodeFrame(fmt: Format, prev: Bytes, data: Bytes): Frame {
    var sig := fmt.sign(prev, data);
    Frame(HeaderText(|data|, sig) + CRLF, data, sig)
  }

  function EncodeFrames(fmt: Format, prev: Bytes, chunks: seq<Bytes>): seq<Frame>
    decreases |chunks|
  {
    if chunks == [] then []
    else
      var f := EncodeFrame(fmt, prev, chunks[0]);
      [f] + EncodeFrames(fmt, f.sig, chunks[1..])
  }

  ghost predicate Encodable(chunks: seq<Bytes>) {
    forall i :: 0 <= i < |chunks| ==> 0 < |chunks[i]| <= MAX_CHUNK_SIZE
  }

  /** Text without a line feed, closed with CRLF, is one line. */
  lemma LineOf(s: Bytes)
    requires Byte('\n') !in s
    ensures IsLine(s + CRLF)
  {
    assert (s + CRLF)[..|s| + 1] == s + [Byte('\r')];
  }

  lemma PrefixOneLine()
    ensures Byte('\n') !in SIG_PREFIX && |SIG_PREFIX| > 0 && SIG_PREFIX[|SIG_PREFIX| - 1] == Byte('=')
  {
    SigPrefixEnds();
  }

  lemma HeaderTextOneLine(n: nat, sig: Bytes)
    requires n <= MAX_CHUNK_SIZE && AllLowerHex(sig)
    ensures Byte('\n') !in HeaderText(n, sig)
  {
    WrittenSizeField(n);
    LowerHexFree(sig, Byte('\n'));
    PrefixOneLine();
    FreeConcat(HexDigits(n), [Byte(';')], Byte('\n'));
    FreeConcat(SIG_PREFIX, sig, Byte('\n'));
    FreeConcat(HexDigits(n) + [Byte(';')], SIG_PREFIX + sig, Byte('\n'));
  }

  lemma HeaderTextTrimmed(n: nat, sig: Bytes)
    requires AllLowerHex(sig)
    ensures TrimEol(HeaderText(n, sig)) == HeaderText(n, sig)
  {
    PrefixOneLine();
    EndsTrimmed(HexDigits(n) + [Byte(';')], SIG_PREFIX + sig);
  }

  lemma EndsTrimmed(front: Bytes, back: Bytes)
    requires back != [] && back[|back| - 1] != Byte('\r') && back[|back| - 1] != Byte('\n')
    ensures TrimEol(front + back) == front + back
  {
    var t := front + back;
    assert t[|t| - 1] == back[|back| - 1];
  }

  /** Every frame the encoder writes is one the reader accepts. */
  ghost predicate ReadsBack(fmt: Format) {
    forall prev, data :: |data| <= MAX_CHUNK_SIZE ==> ValidFrame(fmt, prev, EncodeFrame(fmt, prev, data))
  }

  lemma EncodedFrameValid(ctx: Context, prev: Bytes, data: Bytes)
    requires |data| <= MAX_CHUNK_SIZE
    ensures ValidFrame(SignedFormat(ctx), prev, EncodeFrame(SignedFormat(ctx), prev, data))
  {
    var sig := ExpectedSig(ctx, prev, data);
    SigOneLine(ctx, prev, data);
    var text := HeaderText(|data|, sig);
    HeaderTextOneLine(|data|, sig);
    HeaderTextTrimmed(|data|, sig);
    LineOf(text);
    TrimEolOfLine(text);
    ParseHeaderText(|data|, sig);
  }

  lemma SignedFormatReadsBack(ctx: Context)
    ensures ReadsBack(SignedFormat(ctx))
  {
    forall prev, data | |data| <= MAX_CHUNK_SIZE
      ensures ValidFrame(SignedFormat(ctx), prev, EncodeFrame(SignedFormat(ctx), prev, data))
    {
      EncodedFrameValid(ctx, prev, data);
    }
  }

  lemma {:induction false} EncodedFramesChain(fmt: Format, prev: Bytes, chunks: seq<Bytes>)
    requires ReadsBack(fmt) && Encodable(chunks)
    ensures Chain(fmt, prev, EncodeFrames(fmt, prev, chunks))
    ensures Payload(EncodeFrames(fmt, prev, chunks)) == Concat(chunks)
    decreases |chunks|
  {
    if chunks != [] {
      var f := EncodeFrame(fmt, prev, chunks[0]);
      EncodedFramesChain(fmt, f.sig, chunks[1..]);
      assert EncodeFrames(fmt, prev, chunks)[1..] == EncodeFrames(fmt, f.sig, chunks[1..]);
    }
  }

  function SignedStream(fmt: Format, seed: Bytes, chunks: seq<Bytes>): Bytes {
    var frames := EncodeFrames(fmt, seed, chunks);
    StreamText(frames) + FrameText(EncodeFrame(fmt, LastSig(seed, frames), []))
  }

  /** Decoding a signed stream gives the concatenated chunks and a clean end. */
  lemma SignedRoundTrip(fmt: Format, seed: Bytes, chunks: seq<Bytes>, extra: Bytes)
    requires ReadsBack(fmt) && Encodable(chunks) && Shrinks(SignedNext(fmt))
    ensures Decode(SignedNext(fmt), seed, SignedStream(fmt, seed, chunks) + extra) == Decoded(Concat(chunks), Clean)
  {
    var frames := EncodeFrames(fmt, seed, chunks);
    var last := EncodeFrame(fmt, LastSig(seed, frames), []);
    EncodedFramesChain(fmt, seed, chunks);
    SignedComplete(fmt, seed, frames, last, extra);
    assert SignedStream(fmt, seed, chunks) + extra == StreamText(frames) + (FrameText(last) + extra);
  }

  function BareChunk(data: Bytes): Bytes {
    HexDigits(|data|) + CRLF + (data + CRLF)
  }

  function TrailerText(trailers: seq<Bytes>): Bytes {
    if trailers == [] then CRLF else trailers[0] + CRLF + TrailerText(trailers[1..])
  }

  function UnsignedStream(chunks: seq<Bytes>, trailers: seq<Bytes>): Bytes {
    if chunks == [] then HexDigits(0) + CRLF + TrailerText(trailers)
    else BareChunk(chunks[0]) + UnsignedStream(chunks[1..], trailers)
  }

  /** Trailer lines are single lines with something on them. */
  ghost predicate TrailerLines(trailers: seq<Bytes>) {
    forall i :: 0 <= i < |trailers| ==> Byte('\n') !in trailers[i] && TrimEol(trailers[i]) != []
  }

  lemma {:induction false} TrailerDrained(trailers: seq<Bytes>, extra: Bytes, end: End)
    requires TrailerLines(trailers)
    ensures DrainTrailer(TrailerText(trailers) + extra, end) == Got([], [], extra)
  {
    if trailers == [] {
      BlankLineEndsTrailer(extra, end);
    } else {
      var line := trailers[0] + CRLF;
      var rest := TrailerText(trailers[1..]) + extra;
      assert TrailerText(trailers) + extra == line + rest;
      LineOf(trailers[0]);
      LineCut(line, rest);
      TrimEolOfLine(trailers[0]);
      TrailerDrained(trailers[1..], extra, end);
    }
  }

  lemma BareLine(n: nat)
    requires n <= MAX_CHUNK_SIZE
    ensures IsLine(HexDigits(n) + CRLF)
  {
    WrittenSizeField(n);
    LineOf(HexDigits(n));
  }

  lemma BareHeader(n: nat)
    requires n <= MAX_CHUNK_SIZE
    ensures ParseBareSize(TrimEol(HexDigits(n) + CRLF)) == n
  {
    WrittenSizeField(n);
    TrimEolOfLine(HexDigits(n));
    DigitsTrimmed(n);
    WholeField(HexDigits(n));
  }

  lemma WholeField(s: Bytes)
    requires Byte(';') !in s
    ensures ParseBareSize(s) == ParseSize(TrimSpace(s))
  {
  }

  lemma DigitsTrimmed(n: nat)
    ensures TrimEol(HexDigits(n)) == HexDigits(n)
  {
    HexNumberOfDigits(n);
    var s := HexDigits(n);
    assert IsLowerHex(s[|s| - 1]);
  }

  /** Every bare size line is read back as the size it spells. */
  ghost predicate ReadsSizes(sizeOf: Bytes -> int) {
    forall n: nat :: n <= MAX_CHUNK_SIZE ==> sizeOf(HexDigits(n) + CRLF) == n
  }

  lemma BareSizeReadsSizes()
    ensures ReadsSizes(BareSize())
  {
    forall n: nat | n <= MAX_CHUNK_SIZE ensures BareSize()(HexDigits(n) + CRLF) == n {
      BareHeader(n);
    }
  }

  lemma BareChunkAccepted(sizeOf: Bytes -> int, end: End, data: Bytes, rest: Bytes)
    requires ReadsSizes(sizeOf) && 0 < |data| <= MAX_CHUNK_SIZE
    ensures NextUnsigned(sizeOf, end, BareChunk(data) + rest) == Got(data, [], rest)
  {
    var (line, body) := (HexDigits(|data|) + CRLF, data + CRLF + rest);
    assert BareChunk(data) + rest == line + body;
    BareLine(|data|);
    LineCut(line, body);
    ReadBodyOf(data, rest, []);
  }

  lemma BareEndAccepted(sizeOf: Bytes -> int, end: End, trailers: seq<Bytes>, extra: Bytes)
    requires ReadsSizes(sizeOf) && TrailerLines(trailers)
    ensures NextUnsigned(sizeOf, end, UnsignedStream([], trailers) + extra) == Got([], [], extra)
  {
    var (line, rest) := (HexDigits(0) + CRLF, TrailerText(trailers) + extra);
    assert UnsignedStream([], trailers) + extra == line + rest;
    BareLine(0);
    LineCut(line, rest);
    TrailerDrained(trailers, extra, end);
  }

  /** Decoding an unsigned stream gives the concatenated chunks and a clean end, whatever trailer lines follow. */
  lemma {:induction false} UnsignedRoundTrip(
    sizeOf: Bytes -> int, end: End, sig: Bytes, chunks: seq<Bytes>, trailers: seq<Bytes>, extra: Bytes)
    requires ReadsSizes(sizeOf) && Encodable(chunks) && TrailerLines(trailers) && Shrinks(UnsignedNext(sizeOf, end))
    ensures Decode(UnsignedNext(sizeOf, end), sig, UnsignedStream(chunks, trailers) + extra)
         == Decoded(Concat(chunks), Clean)
    decreases |chunks|
  {
    if chunks == [] {
      BareEndAccepted(sizeOf, end, trailers, extra);
    } else {
      var rest := UnsignedStream(chunks[1..], trailers) + extra;
      assert UnsignedStream(chunks, trailers) + extra == BareChunk(chunks[0]) + rest;
      BareChunkAccepted(sizeOf, end, chunks[0], rest);
      UnsignedRoundTrip(sizeOf, end, [], chunks[1..], trailers, extra);
    }
  }

  /** On any stream the signed reader accepts to its end, the unsigned reader decodes identical bytes. */
  lemma {:induction false} DecodersAgree(
    fmt: Format, sizeOf: Bytes -> int, seed: Bytes, end: End, sig: Bytes, input: Bytes)
    requires forall line :: fmt.parse(line).Good? ==> sizeOf(line) == fmt.parse(line).size
    requires Shrinks(SignedNext(fmt)) && Shrinks(UnsignedNext(sizeOf, end))
    requires Decode(SignedNext(fmt), seed, input).outcome == Clean
    ensures Decode(UnsignedNext(sizeOf, end), sig, input) == Decode(SignedNext(fmt), seed, input)
    decreases |input|
  {
    NextAgrees(fmt, sizeOf, seed, end, input);
    var s := NextSigned(fmt, seed, input);
    if s.data != [] {
      DecodersAgree(fmt, sizeOf, s.sig, end, NextUnsigned(sizeOf, end, input).sig, s.rest);
    }
  }

  // ---- For the code's own header formats ----------------------------------------

  /**
   * Both readers return exactly the encoded chunks, for every list of non-empty chunks of at most 64 MiB and every
   * schedule with enough Reads of positive size, and then end the stream.
   */
  lemma CodecRoundTrip(ctx: Context, end: End, seed: Bytes, chunks: seq<Bytes>, trailers: seq<Bytes>, sizes: seq<nat>,
                       n: nat)
    requires Encodable(chunks) && TrailerLines(trailers)
    requires Positives(sizes) >= |Concat(chunks)|
    ensures var next := SignedNext(SignedFormat(ctx));
      var start := Fresh(seed, SignedStream(SignedFormat(ctx), seed, chunks));
      && Delivered(next, start, sizes) == Concat(chunks)
      && ReadStep(next, StateAfter(next, start, sizes), n).signal == EndOfStream
    ensures var next := UnsignedNext(BareSize(), end);
      var start := Fresh([], UnsignedStream(chunks, trailers));
      && Delivered(next, start, sizes) == Concat(chunks)
      && ReadStep(next, StateAfter(next, start, sizes), n).signal == EndOfStream
  {
    SignedDelivers(SignedFormat(ctx), seed, chunks, sizes, n) by { SignedFormatReadsBack(ctx); }
    UnsignedDelivers(BareSize(), end, chunks, trailers, sizes, n) by { BareSizeReadsSizes(); }
  }

  lemma SignedDelivers(fmt: Format, seed: Bytes, chunks: seq<Bytes>, sizes: seq<nat>, n: nat)
    requires ReadsBack(fmt) && Encodable(chunks)
    requires Positives(sizes) >= |Concat(chunks)|
    ensures var next := SignedNext(fmt);
      var start := Fresh(seed, SignedStream(fmt, seed, chunks));
      && Delivered(next, start, sizes) == Concat(chunks)
      && ReadStep(next, StateAfter(next, start, sizes), n).signal == EndOfStream
  {
    SignedShrinks(fmt);
    SignedRoundTrip(fmt, seed, chunks, []);
    var text := SignedStream(fmt, seed, chunks);
    assert text + [] == text;
    AnySchedule(SignedNext(fmt), seed, text, sizes, n);
  }

  lemma UnsignedDelivers(sizeOf: Bytes -> int, end: End, chunks: seq<Bytes>, trailers: seq<Bytes>, sizes: seq<nat>,
                         n: nat)
    requires ReadsSizes(sizeOf) && Encodable(chunks) && TrailerLines(trailers)
    requires Positives(sizes) >= |Concat(chunks)|
    ensures var next := UnsignedNext(sizeOf, end);
      var start := Fresh([], UnsignedStream(chunks, trailers));
      && Delivered(next, start, sizes) == Concat(chunks)
      && ReadStep(next, StateAfter(next, start, sizes), n).signal == EndOfStream
  {
    UnsignedShrinks(sizeOf, end);
    UnsignedRoundTrip(sizeOf, end, [], chunks, trailers, []);
    var text := UnsignedStream(chunks, trailers);
    assert text + [] == text;
    AnySchedule(UnsignedNext(sizeOf, end), [], text, sizes, n);
  }

  /**
   * If the signed reader ends a stream cleanly under one schedule of Read sizes, the unsigned reader, under any other
   * schedule with enough Reads of positive size, returns the same bytes and ends cleanly too.
   */
  lemma ReadersAgree(ctx: Context, end: End, seed: Bytes, input: Bytes, sizes: seq<nat>, others: seq<nat>, n: nat)
    requires var next := SignedNext(SignedFormat(ctx));
      ReadStep(next, StateAfter(next, Fresh(seed, input), sizes), n).signal == EndOfStream
    requires Positives(others) >= |input|
    ensures var next := UnsignedNext(BareSize(), end);
      && Delivered(next, Fresh([], input), others)
         == Delivered(SignedNext(SignedFormat(ctx)), Fresh(seed, input), sizes)
      && ReadStep(next, StateAfter(next, Fresh([], input), others), n).signal == EndOfStream
  {
    FormatsAgreeOnSizes(ctx);
    AgreeUnderSchedules(SignedFormat(ctx), BareSize(), end, seed, input, sizes, others, n);
  }

  lemma FormatsAgreeOnSizes(ctx: Context)
    ensures forall line :: SignedFormat(ctx).parse(line).Good? ==>
      BareSize()(line) == SignedFormat(ctx).parse(line).size
  {
    forall line | SignedFormat(ctx).parse(line).Good? ensures BareSize()(line) == SignedFormat(ctx).parse(line).size {
      SizesAgree(ctx, line);
    }
  }

  lemma AgreeUnderSchedules(fmt: Format, sizeOf: Bytes -> int, end: End, seed: Bytes, input: Bytes, sizes: seq<nat>,
                            others: seq<nat>, n: nat)
    requires forall line :: fmt.parse(line).Good? ==> sizeOf(line) == fmt.parse(line).size
    requires ReadStep(SignedNext(fmt), StateAfter(SignedNext(fmt), Fresh(seed, input), sizes), n).signal == EndOfStream
    requires Positives(others) >= |input|
    ensures var next := UnsignedNext(sizeOf, end);
      && Delivered(next, Fresh([], input), others) == Delivered(SignedNext(fmt), Fresh(seed, input), sizes)
      && ReadStep(next, StateAfter(next, Fresh([], input), others), n).signal == EndOfStream
  {
    SignedShrinks(fmt);
    UnsignedShrinks(sizeOf, end);
    AnySchedule(SignedNext(fmt), seed, input, sizes, n);
    DecodersAgree(fmt, sizeOf, seed, end, [], input);
    SignedPayloadBound(fmt, seed, input);
    AnySchedule(UnsignedNext(sizeOf, end), [], input, others, n);
  }

  lemma {:induction false} SignedPayloadBound(fmt: Format, seed: Bytes, input: Bytes)
    requires Shrinks(SignedNext(fmt))
    ensures |Decode(SignedNext(fmt), seed, input).payload| <= |input|
    decreases |input|
  {
    var r := NextSigned(fmt, seed, input);
    if r.Got? && r.data != [] {
      SignedPayloadBound(fmt, r.sig, r.rest);
    }
  }

  // ---- What is refused ----------------------------------------------------------

  /** A frame with another signature, and one over 64 MiB, is refused by the signed reader. */
  lemma FrameRefused(fmt: Format, prev: Bytes, f: Frame, n: nat, rest: Bytes)
    requires IsLine(f.header) && fmt.parse(f.header) == Good(n, f.sig)
    ensures n > 67_108_864 ==> NextSigned(fmt, prev, f.header + rest) == Failed(SizeLimit)
    ensures n == |f.data| <= 67_108_864 && f.sig != fmt.sign(prev, f.data) ==>
      NextSigned(fmt, prev, f.header + (f.data + CRLF + rest)) == Failed(SignatureMismatch)
  {
    LineCut(f.header, rest);
    LineCut(f.header, f.data + CRLF + rest);
    ReadBodyOf(f.data, rest, f.sig);
  }

  /** The unsigned chunk is spelled at the front of the input. */
  ghost predicate BareAt(sizeOf: Bytes -> int, input: Bytes, line: Bytes, data: Bytes, rest: Bytes) {
    IsLine(line) && sizeOf(line) == |data| && 0 < |data| <= 67_108_864 && input == line + (data + CRLF + rest)
  }

  /** The unsigned reader takes a chunk exactly when one of at most 64 MiB is spelled at the front of the input. */
  lemma UnsignedExactly(sizeOf: Bytes -> int, end: End, input: Bytes, data: Bytes, rest: Bytes)
    requires data != []
    ensures NextUnsigned(sizeOf, end, input) == Got(data, [], rest)
       <==> exists line :: BareAt(sizeOf, input, line, data, rest)
  {
    if NextUnsigned(sizeOf, end, input) == Got(data, [], rest) {
      var i := IndexByte(input, Byte('\n'));
      var line := input[..i + 1];
      assert line[..|line| - 1] == input[..i] && input == line + input[i + 1..];
      assert BareAt(sizeOf, input, line, data, rest);
    }
    if exists line :: BareAt(sizeOf, input, line, data, rest) {
      var line :| BareAt(sizeOf, input, line, data, rest);
      LineCut(line, data + CRLF + rest);
      ReadBodyOf(data, rest, []);
    }
  }

  /** Lines that each end in CRLF. */
  function CrlfLines(lines: seq<Bytes>): Bytes {
    if lines == [] then [] else lines[0] + CRLF + CrlfLines(lines[1..])
  }

  /** A trailer that is cut short is tolerated at a plain end and an error at a fault. */
  lemma {:induction false} TrailerCutShort(trailers: seq<Bytes>, partial: Bytes, end: End)
    requires TrailerLines(trailers) && Byte('\n') !in partial
    ensures DrainTrailer(CrlfLines(trailers) + partial, end)
         == if end.Eof? then Got([], [], []) else Failed(TrailerRead)
  {
    if trailers == [] {
      assert CrlfLines(trailers) + partial == partial;
    } else {
      var line := trailers[0] + CRLF;
      var rest := CrlfLines(trailers[1..]) + partial;
      assert CrlfLines(trailers) + partial == line + rest;
      LineOf(trailers[0]);
      LineCut(line, rest);
      TrimEolOfLine(trailers[0]);
      TrailerCutShort(trailers[1..], partial, end);
    }
  }
}
