/** The byte-limited reader around the file part of a browser-form upload. */
module LimitedReading {
  import opened ByteStrings
  import opened Int64

  datatype Signal = More | Eof | TooLarge

  /** `eager`: the source reports its end together with its last bytes, not with a separate empty read. */
  datatype Source = Source(rest: Bytes, eager: bool)

  datatype SourceRead = SourceRead(out: Bytes, eof: bool)

  /** A read of up to `n` bytes from a source that is willing to give `k` of them. */
  function ReadSource(s: Source, n: nat, k: nat): SourceRead {
    var g := Min(Min(n, k), |s.rest|);
    SourceRead(s.rest[..g], s.rest == [] || (s.eager && g == |s.rest|))
  }

  /** Remaining source and bytes let through so far. */
  datatype State = State(source: Source, total: nat)

  datatype Result = Result(state: State, out: Bytes, signal: Signal)

  function Step(max: int, s: State, n: nat, k: nat): Result {
    if s.total >= max then Result(s, [], TooLarge)
    else
      var r := ReadSource(s.source, Min(n, max - s.total), k);
      Result(State(s.source.(rest := s.source.rest[|r.out|..]), s.total + |r.out|), r.out, if r.eof then Eof else More)
  }

  /** `countingLimitedReader`. */
  class CountingLimitedReader {
    const max: int
    var source: Source
    var total: nat
    var closed: bool

    constructor (source: Source, max: int)
      ensures this.max == max && this.source == source && total == 0 && !closed
    {
      this.max, this.source, total, closed := max, source, 0, false;
    }

    /** `Read` into a buffer of `n` bytes. */
    method Read(n: nat, k: nat) returns (out: Bytes, signal: Signal)
      modifies this
      ensures closed == old(closed)
      ensures closed ==> out == [] && signal == Eof && source == old(source) && total == old(total)
      ensures !closed ==> Result(State(source, total), out, signal) == Step(max, State(old(source), old(total)), n, k)
    {
      if closed {
        return [], Eof;
      }
      if total >= max {
        return [], TooLarge;
      }
      var remaining := max - total;
      var r := ReadSource(source, if n > remaining then remaining else n, k);
      source := source.(rest := source.rest[|r.out|..]);
      total := total + |r.out|;
      out, signal := r.out, if r.eof then Eof else More;
    }
  }

  // ---- Any schedule of reads ---------------------------------------------------------

  datatype Ask = Ask(n: nat, k: nat)

  /** What arrives up to the first read that does not say More, and that read's signal if there is one. */
  datatype Outcome = Outcome(delivered: Bytes, end: Option<Signal>)

  function Run(max: int, s: State, asks: seq<Ask>): Outcome
    decreases |asks|
  {
    if asks == [] then Outcome([], None)
    else
      var r := Step(max, s, asks[0].n, asks[0].k);
      if r.signal != More then Outcome(r.out, Some(r.signal))
      else
        var o := Run(max, r.state, asks[1..]);
        Outcome(r.out + o.delivered, o.end)
  }

  /** How much can pass under a cap; a cap may have wrapped to a negative number. */
  function Room(max: int): nat {
    if max < 0 then 0 else max
  }

  /** How much a source may hold for a clean end: one byte less than the cap, or all of it if the source is eager. */
  function CleanLimit(max: int, eager: bool): int {
    if eager then max else max - 1
  }

  lemma StepFacts(max: int, s: State, n: nat, k: nat)
    requires s.total <= Room(max)
    ensures var r := Step(max, s, n, k);
      && r.out + r.state.source.rest == s.source.rest
      && r.state.source.eager == s.source.eager
      && r.state.total == s.total + |r.out| <= Room(max)
      && (r.signal == Eof ==> r.out == s.source.rest && s.total < max)
      && (r.signal == TooLarge ==> r.out == [] && s.total == Room(max))
      && (r.signal == More && n > 0 && k > 0 ==> r.out != [])
      && (r.signal == More && s.source.eager ==> r.state.source.rest != [])
      && (r.signal != TooLarge <==> s.total < max)
  {
  }

  /**
   * For every cap, source and schedule of reads: what arrives is a prefix of the source and never exceeds the cap; a
   * clean end delivers all of it.
   */
  lemma {:induction false} DeliversPrefix(max: int, s: State, asks: seq<Ask>)
    requires s.total <= Room(max)
    ensures var o := Run(max, s, asks);
      && o.delivered <= s.source.rest
      && s.total + |o.delivered| <= Room(max)
      && (o.end == Some(Eof) ==> o.delivered == s.source.rest)
      && (o.end == Some(TooLarge) ==> s.total + |o.delivered| == Room(max))
    decreases |asks|
  {
    if asks != [] {
      var r := Step(max, s, asks[0].n, asks[0].k);
      StepFacts(max, s, asks[0].n, asks[0].k);
      if r.signal == More {
        DeliversPrefix(max, r.state, asks[1..]);
        assert r.out + r.state.source.rest == s.source.rest;
      }
    }
  }

  /** Once the reads have ended, how they ended depends on the cap and the length of the source alone. */
  lemma {:induction false} EndDecided(max: int, s: State, asks: seq<Ask>)
    requires s.total <= Room(max) && (s.source.eager && s.total > 0 ==> s.source.rest != [])
    ensures var o := Run(max, s, asks);
      o.end.Some? ==> o.end == Some(
        if s.total + |s.source.rest| <= CleanLimit(max, s.source.eager) && s.total < max then Eof else TooLarge)
    decreases |asks|
  {
    if asks != [] {
      var r := Step(max, s, asks[0].n, asks[0].k);
      StepFacts(max, s, asks[0].n, asks[0].k);
      if r.signal == More {
        EndDecided(max, r.state, asks[1..]);
      }
    }
  }

  lemma {:induction false} ReadsEnd(max: int, s: State, asks: seq<Ask>)
    requires s.total <= Room(max) && forall i :: 0 <= i < |asks| ==> asks[i].n > 0 && asks[i].k > 0
    requires |asks| > Room(max) - s.total
    ensures Run(max, s, asks).end.Some?
    decreases |asks|
  {
    var r := Step(max, s, asks[0].n, asks[0].k);
    StepFacts(max, s, asks[0].n, asks[0].k);
    if r.signal == More {
      ReadsEnd(max, r.state, asks[1..]);
    }
  }

  /** The cap the proxy puts on an upload: one above the policy's maximum, in 64 bits. */
  function UploadCap(uploadMax: int): int {
    Add64(uploadMax, 1)
  }

  /** When an upload of this size ends cleanly under a maximum: one byte over passes if its source is eager. */
  predicate CleanEnd(uploadMax: int, size: nat, eager: bool) {
    uploadMax < MAX_INT64 && size <= uploadMax + if eager then 1 else 0
  }

  /**
   * The upload limit, for every 64-bit maximum a policy can carry. For a source that ends with a separate empty read,
   * the upload ends cleanly exactly when it is no longer than the maximum, and an eager source gets one byte more;
   * except that nothing ends cleanly under the largest maximum, whose cap wraps around.
   */
  lemma UploadLimit(uploadMax: nat, src: Bytes, eager: bool, asks: seq<Ask>)
    requires uploadMax <= MAX_INT64
    requires forall i :: 0 <= i < |asks| ==> asks[i].n > 0 && asks[i].k > 0
    requires |asks| > uploadMax + 1
    ensures var o := Run(UploadCap(uploadMax), State(Source(src, eager), 0), asks);
      && (o.end == Some(Eof) <==> CleanEnd(uploadMax, |src|, eager))
      && (o.end == Some(TooLarge) <==> !CleanEnd(uploadMax, |src|, eager))
      && (o.end == Some(Eof) ==> o.delivered == src)
  {
    var (cap, s) := (UploadCap(uploadMax), State(Source(src, eager), 0));
    ReadsEnd(cap, s, asks);
    EndDecided(cap, s, asks);
    DeliversPrefix(cap, s, asks);
  }

  lemma StepEnd(uploadMax: nat, s: State, n: nat, k: nat)
    requires uploadMax <= MAX_INT64 && s.total <= Room(UploadCap(uploadMax))
    requires s.source.eager && s.total > 0 ==> s.source.rest != []
    ensures var end := Step(UploadCap(uploadMax), s, n, k).signal;
      end != More ==>
        end == if CleanEnd(uploadMax, s.total + |s.source.rest|, s.source.eager) then Eof else TooLarge
  {
    StepFacts(UploadCap(uploadMax), s, n, k);
  }

  lemma Regrouped(a: Bytes, b: Bytes, c: Bytes)
    ensures a + (b + c) == (a + b) + c
  {
  }

  /**
   * The upstream request reads the file part to its end, asking for and being given something every time. Whatever
   * the sizes, the end is the one `UploadLimit` tells, and a clean one has handed on the whole file.
   */
  method ReadAll(uploadMax: nat, source: Source, ask: nat -> Ask) returns (content: Bytes, total: nat, end: Signal)
    requires uploadMax <= MAX_INT64 && forall i :: ask(i).n > 0 && ask(i).k > 0
    ensures end == if CleanEnd(uploadMax, |source.rest|, source.eager) then Eof else TooLarge
    ensures content <= source.rest && total == |content| && (end == Eof ==> content == source.rest)
  {
    var counter := new CountingLimitedReader(source, UploadCap(uploadMax));
    content, end := [], More;
    var i := 0;
    while end == More
      invariant !counter.closed && counter.max == UploadCap(uploadMax)
      invariant counter.total == |content| <= Room(counter.max) && counter.source.eager == source.eager
      invariant content + counter.source.rest == source.rest
      invariant end == More && source.eager && |content| > 0 ==> counter.source.rest != []
      invariant end != More ==> end == if CleanEnd(uploadMax, |source.rest|, source.eager) then Eof else TooLarge
      invariant end == Eof ==> counter.source.rest == []
      decreases end == More, Room(counter.max) - counter.total
    {
      ghost var before := State(counter.source, counter.total);
      StepFacts(counter.max, before, ask(i).n, ask(i).k);
      StepEnd(uploadMax, before, ask(i).n, ask(i).k);
      var out;
      out, end := counter.Read(ask(i).n, ask(i).k);
      Regrouped(content, out, counter.source.rest);
      content := content + out;
      i := i + 1;
    }
    total := counter.total;
  }

  /** Under the largest maximum the very first read refuses every upload, the empty one included. */
  lemma LargestMaximumRefusesAll(source: Source, asks: seq<Ask>)
    requires asks != []
    ensures Run(UploadCap(MAX_INT64), State(source, 0), asks) == Outcome([], Some(TooLarge))
  {
    assert UploadCap(MAX_INT64) < 0;
  }

  /** An eager source of one byte more than the maximum is let through whole. */
  lemma OneByteOver(uploadMax: nat, src: Bytes)
    requires uploadMax < MAX_INT64 && |src| == uploadMax + 1
    ensures Run(UploadCap(uploadMax), State(Source(src, true), 0), [Ask(|src|, |src|)]) == Outcome(src, Some(Eof))
  {
    assert src[..|src|] == src;
  }
}
