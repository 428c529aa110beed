/** The two aws-chunked readers as objects, each tied to its step function. */
module ChunkReaders {
  import opened ByteStrings
  import opened ChunkCodec
  import opened ChunkReading

  /** `chunkedReader`; `rest` is what the body has not handed out yet. */
  class ChunkedReader {
    const fmt: Format
    var rest: Bytes
    var prevSig: Bytes
    var pending: Bytes
    var done: bool
    var err: Option<Error>

    ghost function View(): State
      reads this
    {
      if err.Some? then Dead(err.value) else Live(prevSig, rest, pending, done)
    }

    constructor (body: Bytes, fmt: Format, seedSignature: Bytes)
      ensures this.fmt == fmt && View() == Fresh(seedSignature, body)
    {
      this.fmt := fmt;
      rest, prevSig, pending, done, err := body, seedSignature, [], false, None;
    }

    /** `readNextChunk`: one chunk parsed and verified, or the reason why not. */
    method ReadNextChunk() returns (e: Option<Error>)
      modifies this
      ensures err == old(err)
      ensures match NextSigned(fmt, old(prevSig), old(rest))
        case Got(data, sig, tail) =>
          e == None && pending == data && prevSig == sig && rest == tail && (done <==> old(done) || data == [])
        case Failed(reason) =>
          e == Some(reason) && pending == old(pending) && done == old(done) && prevSig == old(prevSig)
    {
      var i := IndexByte(rest, Byte('\n'));
      if i < 0 {
        return Some(HeaderRead);
      }
      var header := rest[..i + 1];
      rest := rest[i + 1..];
      var h := fmt.parse(header);
      if h.Bad? {
        return Some(h.error);
      }
      if h.size > MAX_CHUNK_SIZE {
        return Some(SizeLimit);
      }
      ghost var body := rest;
      if |rest| < h.size {
        return Some(DataRead);
      }
      var data := rest[..h.size];
      rest := rest[h.size..];
      if |rest| < 2 {
        return Some(TerminatorRead);
      }
      var crlf := rest[..2];
      rest := rest[2..];
      assert crlf == body[h.size..h.size + 2] && rest == body[h.size + 2..];
      if crlf != CRLF {
        return Some(MissingCrlf);
      }
      if fmt.sign(prevSig, data) != h.sig {
        return Some(SignatureMismatch);
      }
      prevSig := h.sig;
      pending := data;
      if h.size == 0 {
        done := true;
      }
      e := None;
    }

    /** `Read` into a buffer of `n` bytes. */
    method Read(n: nat) returns (out: Bytes, signal: Signal)
      modifies this
      ensures var r := ReadStep(SignedNext(fmt), old(View()), n);
              View() == r.state && out == r.out && signal == r.signal
    {
      if err.Some? {
        return [], Fails(err.value);
      }
      while |pending| == 0 && !done
        invariant err == None
        invariant View() == old(View()) || ((pending != [] || done) && View() == Fill(SignedNext(fmt), old(View())))
        decreases if |pending| == 0 && !done then 1 else 0
      {
        var e := ReadNextChunk();
        if e.Some? {
          err := e;
          return [], Fails(e.value);
        }
      }
      if done && |pending| == 0 {
        return [], EndOfStream;
      }
      var k := Min(n, |pending|);
      out := pending[..k];
      pending := pending[k..];
      signal := Data;
    }
  }

  /** `unsignedChunkedReader`. */
  class UnsignedChunkedReader {
    const sizeOf: Bytes -> int
    const end: End
    var rest: Bytes
    var pending: Bytes
    var done: bool
    var err: Option<Error>

    ghost function View(): State
      reads this
    {
      if err.Some? then Dead(err.value) else Live([], rest, pending, done)
    }

    constructor (body: Bytes, end: End, sizeOf: Bytes -> int)
      ensures this.end == end && this.sizeOf == sizeOf && View() == Fresh([], body)
    {
      this.end, this.sizeOf := end, sizeOf;
      rest, pending, done, err := body, [], false, None;
    }

    /** The trailer loop: lines are dropped up to the blank one. */
    method DropTrailer() returns (e: Option<Error>)
      modifies this`rest
      ensures match DrainTrailer(old(rest), end)
        case Got(_, _, tail) => e == None && rest == tail
        case Failed(reason) => e == Some(reason)
    {
      while true
        invariant DrainTrailer(rest, end) == DrainTrailer(old(rest), end)
        decreases |rest|
      {
        var i := IndexByte(rest, Byte('\n'));
        if i < 0 {
          if end.Eof? {
            rest := [];
            return None;
          }
          return Some(TrailerRead);
        }
        var line := rest[..i + 1];
        rest := rest[i + 1..];
        if TrimEol(line) == [] {
          return None;
        }
      }
    }

    /** `readNextChunk`. */
    method ReadNextChunk() returns (e: Option<Error>)
      requires pending == []
      modifies this
      ensures err == old(err)
      ensures match NextUnsigned(sizeOf, end, old(rest))
        case Got(data, _, tail) =>
          e == None && pending == data && rest == tail && (done <==> old(done) || data == [])
        case Failed(reason) => e == Some(reason)
    {
      var i := IndexByte(rest, Byte('\n'));
      if i < 0 {
        return Some(HeaderRead);
      }
      var header := rest[..i + 1];
      rest := rest[i + 1..];
      var size := sizeOf(header);
      if size < 0 {
        return Some(BadSize);
      }
      if size == 0 {
        e := DropTrailer();
        if e.None? {
          done := true;
        }
        return;
      }
      if size > MAX_CHUNK_SIZE {
        return Some(SizeLimit);
      }
      ghost var body := rest;
      if |rest| < size {
        return Some(DataRead);
      }
      var data := rest[..size];
      rest := rest[size..];
      if |rest| < 2 {
        return Some(TerminatorRead);
      }
      var crlf := rest[..2];
      rest := rest[2..];
      assert crlf == body[size..size + 2] && rest == body[size + 2..];
      if crlf != CRLF {
        return Some(MissingCrlf);
      }
      pending := data;
      e := None;
    }

    /** `Read` into a buffer of `n` bytes. */
    method Read(n: nat) returns (out: Bytes, signal: Signal)
      modifies this
      ensures var r := ReadStep(UnsignedNext(sizeOf, end), old(View()), n);
              View() == r.state && out == r.out && signal == r.signal
    {
      if err.Some? {
        return [], Fails(err.value);
      }
      while |pending| == 0 && !done
        invariant err == None
        invariant View() == old(View())
               || ((pending != [] || done) && Fill(UnsignedNext(sizeOf, end), old(View())) == View())
        decreases if |pending| == 0 && !done then 1 else 0
      {
        var e := ReadNextChunk();
        if e.Some? {
          err := e;
          return [], Fails(e.value);
        }
      }
      if done && |pending| == 0 {
        return [], EndOfStream;
      }
      var k := Min(n, |pending|);
      out := pending[..k];
      pending := pending[k..];
      signal := Data;
    }
  }
}
