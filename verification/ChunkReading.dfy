/** What a sequence of Read calls on a decoding reader delivers, whatever the buffer sizes. */
module ChunkReading {
  import opened ByteStrings
  import opened ChunkCodec

  /** One decoding step: from the previous signature and the unread input. */
  type Next = (Bytes, Bytes) -> ChunkResult

  ghost predicate Shrinks(next: Next) {
    forall sig, rest :: next(sig, rest).Got? ==> |next(sig, rest).rest| < |rest|
  }

  function SignedNext(fmt: Format): Next {
    (sig, rest) => NextSigned(fmt, sig, rest)
  }

  function UnsignedNext(sizeOf: Bytes -> int, end: End): Next {
    (sig, rest) => NextUnsigned(sizeOf, end, rest)
  }

  lemma SignedShrinks(fmt: Format)
    ensures Shrinks(SignedNext(fmt))
  {
  }

  lemma UnsignedShrinks(sizeOf: Bytes -> int, end: End)
    ensures Shrinks(UnsignedNext(sizeOf, end))
  {
  }

  // ---- The whole stream, decoded at once --------------------------------------

  datatype Outcome = Clean | Broken(error: Error)
  datatype Decoded = Decoded(payload: Bytes, outcome: Outcome)

  /** All chunk data up to the zero-size chunk or the first failure. */
  ghost function Decode(next: Next, sig: Bytes, rest: Bytes): Decoded
    requires Shrinks(next)
    decreases |rest|
  {
    match next(sig, rest)
    case Failed(e) => Decoded([], Broken(e))
    case Got(data, sig', rest') =>
      if data == [] then Decoded([], Clean)
      else
        var d := Decode(next, sig', rest');
        Decoded(data + d.payload, d.outcome)
  }

  // ---- One Read call ----------------------------------------------------------

  datatype State = Dead(error: Error) | Live(sig: Bytes, rest: Bytes, pending: Bytes, done: bool)
  datatype Signal = Data | EndOfStream | Fails(error: Error)
  datatype ReadResult = ReadResult(state: State, out: Bytes, signal: Signal)

  /** The state once the refill loop has run. */
  function Fill(next: Next, s: State): State {
    if s.Dead? || s.pending != [] || s.done then s
    else
      match next(s.sig, s.rest)
      case Failed(e) => Dead(e)
      case Got(data, sig, rest) => Live(sig, rest, data, data == [])
  }

  function ReadStep(next: Next, s: State, n: nat): ReadResult {
    var f := Fill(next, s);
    if f.Dead? then ReadResult(f, [], Fails(f.error))
    else if f.done && f.pending == [] then ReadResult(f, [], EndOfStream)
    else
      var k := Min(n, |f.pending|);
      ReadResult(f.(pending := f.pending[k..]), f.pending[..k], Data)
  }

  /** What is still to come from a state. */
  ghost function Future(next: Next, s: State): Decoded
    requires Shrinks(next)
  {
    if s.Dead? then Decoded([], Broken(s.error))
    else if s.done then Decoded(s.pending, Clean)
    else
      var d := Decode(next, s.sig, s.rest);
      Decoded(s.pending + d.payload, d.outcome)
  }

  function SignalFor(d: Decoded): Signal {
    if d.payload != [] then Data else if d.outcome.Clean? then EndOfStream else Fails(d.outcome.error)
  }

  lemma FillKeepsFuture(next: Next, s: State)
    requires Shrinks(next)
    ensures Future(next, Fill(next, s)) == Future(next, s)
  {
    if s.Live? && s.pending == [] && !s.done {
      var d := Decode(next, s.sig, s.rest);
      assert [] + d.payload == d.payload;
    }
  }

  lemma TakeFront(pending: Bytes, k: nat, later: Bytes)
    requires k <= |pending|
    ensures pending[..k] + pending[k..] == pending
    ensures pending[..k] + (pending[k..] + later) == pending + later
  {
  }

  /** A Read hands on the front of what is to come, and its signal says exactly what that is. */
  lemma ReadStepExact(next: Next, s: State, n: nat)
    requires Shrinks(next)
    ensures var r := ReadStep(next, s, n);
      && r.out + Future(next, r.state).payload == Future(next, s).payload
      && Future(next, r.state).outcome == Future(next, s).outcome
      && r.signal == SignalFor(Future(next, s))
      && |r.out| <= n
      && (n > 0 && Future(next, s).payload != [] ==> r.out != [])
  {
    FillKeepsFuture(next, s);
    var f := Fill(next, s);
    if f.Live? && f.pending != [] {
      TakeFront(f.pending, Min(n, |f.pending|), if f.done then [] else Decode(next, f.sig, f.rest).payload);
    }
  }

  // ---- Any number of Read calls -----------------------------------------------

  function StateAfter(next: Next, s: State, sizes: seq<nat>): State
    decreases |sizes|
  {
    if sizes == [] then s else StateAfter(next, ReadStep(next, s, sizes[0]).state, sizes[1..])
  }

  function Delivered(next: Next, s: State, sizes: seq<nat>): Bytes
    decreases |sizes|
  {
    if sizes == [] then []
    else ReadStep(next, s, sizes[0]).out + Delivered(next, ReadStep(next, s, sizes[0]).state, sizes[1..])
  }

  lemma {:induction false} RunExact(next: Next, s: State, sizes: seq<nat>)
    requires Shrinks(next)
    ensures Delivered(next, s, sizes) + Future(next, StateAfter(next, s, sizes)).payload == Future(next, s).payload
    ensures Future(next, StateAfter(next, s, sizes)).outcome == Future(next, s).outcome
    decreases |sizes|
  {
    if sizes == [] {
      assert [] + Future(next, s).payload == Future(next, s).payload;
    } else {
      var r := ReadStep(next, s, sizes[0]);
      ReadStepExact(next, s, sizes[0]);
      RunExact(next, r.state, sizes[1..]);
      var tail := Delivered(next, r.state, sizes[1..]);
      var left := Future(next, StateAfter(next, s, sizes)).payload;
      assert r.out + (tail + left) == r.out + tail + left;
    }
  }

  /** The Reads of a schedule that ask for something. */
  function Positives(sizes: seq<nat>): nat {
    if sizes == [] then 0 else (if sizes[0] > 0 then 1 else 0) + Positives(sizes[1..])
  }

  lemma {:induction false} RunProgress(next: Next, s: State, sizes: seq<nat>)
    requires Shrinks(next)
    ensures |Delivered(next, s, sizes)| >= Min(Positives(sizes), |Future(next, s).payload|)
    decreases |sizes|
  {
    if sizes != [] {
      var r := ReadStep(next, s, sizes[0]);
      ReadStepExact(next, s, sizes[0]);
      RunProgress(next, r.state, sizes[1..]);
    }
  }

  function Fresh(sig: Bytes, input: Bytes): State {
    Live(sig, input, [], false)
  }

  /**
   * For every stream and every schedule of Read sizes: what was delivered is a prefix of the decoded payload,
   * it does not depend on the sizes, the next Read ends the stream exactly when everything was delivered and
   * decoding was clean, and fails exactly when everything was delivered and decoding broke. As many
   * Reads of positive size as there are bytes deliver everything.
   */
  lemma AnySchedule(next: Next, sig: Bytes, input: Bytes, sizes: seq<nat>, n: nat)
    requires Shrinks(next)
    ensures var d := Decode(next, sig, input);
      var got := Delivered(next, Fresh(sig, input), sizes);
      var signal := ReadStep(next, StateAfter(next, Fresh(sig, input), sizes), n).signal;
      && got <= d.payload
      && (signal == EndOfStream <==> got == d.payload && d.outcome == Clean)
      && (forall e :: signal == Fails(e) <==> got == d.payload && d.outcome == Broken(e))
      && (Positives(sizes) >= |d.payload| ==> got == d.payload)
  {
    var s := Fresh(sig, input);
    var d := Decode(next, sig, input);
    assert [] + d.payload == d.payload;
    RunExact(next, s, sizes);
    ReadStepExact(next, StateAfter(next, s, sizes), n);
    RunProgress(next, s, sizes);
  }

  /** Once a Read has failed or ended the stream, every later Read says the same and delivers nothing. */
  lemma SignalsAreSticky(next: Next, s: State, n: nat, m: nat)
    requires Shrinks(next) && ReadStep(next, s, n).signal != Data
    ensures ReadStep(next, ReadStep(next, s, n).state, m) == ReadStep(next, s, n)
  {
    ReadStepExact(next, s, n);
  }
}
