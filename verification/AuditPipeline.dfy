/** The asynchronous audit recorder: producers, a bounded queue and one drainer, interleaved step by step. */
module AuditPipeline {
  import opened ByteStrings

  const DRAIN_BATCH_MAX: nat := 256

  function QueueCapacity(queueSize: int): nat {
    if queueSize <= 0 then 4096 else queueSize
  }

  // ---- The protocol -------------------------------------------------------------

  datatype Pc =
    | Idle        // waiting in the select
    | Coalescing  // took a head event, pulls whatever is queued behind it
    | Draining    // context done, pulls everything that is left
    | Returned

  /**
   * `submitted` logs every Record call with whether it was accepted; `flushed` logs the batches handed on in steady
   * state and `last` the one handed on at shutdown; the other fields are the recorder's own.
   */
  datatype State<E> = State(
    queue: seq<E>, batch: seq<E>, dropped: nat, pc: Pc, submitted: seq<(E, bool)>, flushed: seq<seq<E>>, last: seq<E>)

  datatype Action<E> = Submit(e: E) | TakeHead | TakeMore | Flush | Shutdown | DrainOne | DrainEnd

  /** Finding the queue empty and flushing is one step; a producer in between commutes with it. */
  predicate Enabled<E>(s: State<E>, a: Action<E>) {
    match a
    case Submit(_) => true
    case TakeHead => s.pc == Idle && s.queue != []
    case TakeMore => s.pc == Coalescing && |s.batch| < DRAIN_BATCH_MAX && s.queue != []
    case Flush => s.pc == Coalescing && (|s.batch| >= DRAIN_BATCH_MAX || s.queue == [])
    case Shutdown => s.pc == Idle
    case DrainOne => s.pc == Draining && s.queue != []
    case DrainEnd => s.pc == Draining && s.queue == []
  }

  function Pulled<E>(s: State<E>): State<E>
    requires s.queue != []
  {
    s.(batch := s.batch + [s.queue[0]], queue := s.queue[1..])
  }

  function Apply<E>(cap: nat, s: State<E>, a: Action<E>): State<E>
    requires Enabled(s, a)
  {
    match a
    case Submit(e) =>
      if |s.queue| < cap then s.(queue := s.queue + [e], submitted := s.submitted + [(e, true)])
      else s.(dropped := s.dropped + 1, submitted := s.submitted + [(e, false)])
    case TakeHead => Pulled(s).(pc := Coalescing)
    case TakeMore => Pulled(s)
    case Flush => s.(batch := [], flushed := s.flushed + [s.batch], pc := Idle)
    case Shutdown => s.(pc := Draining)
    case DrainOne => Pulled(s)
    case DrainEnd => s.(batch := [], last := s.batch, pc := Returned)
  }

  predicate Runs<E>(cap: nat, s: State<E>, acts: seq<Action<E>>)
    decreases |acts|
  {
    acts == [] || (Enabled(s, acts[0]) && Runs(cap, Apply(cap, s, acts[0]), acts[1..]))
  }

  function After<E>(cap: nat, s: State<E>, acts: seq<Action<E>>): State<E>
    requires Runs(cap, s, acts)
    decreases |acts|
  {
    if acts == [] then s else After(cap, Apply(cap, s, acts[0]), acts[1..])
  }

  function Initial<E>(): State<E> {
    State([], [], 0, Idle, [], [], [])
  }

  // ---- What every run keeps --------------------------------------------------------

  /** The accepted events, in submission order. */
  function Accepted<E>(log: seq<(E, bool)>): seq<E> {
    if log == [] then []
    else Accepted(log[..|log| - 1]) + if log[|log| - 1].1 then [log[|log| - 1].0] else []
  }

  function Delivered<E>(batches: seq<seq<E>>): seq<E> {
    if batches == [] then [] else Delivered(batches[..|batches| - 1]) + batches[|batches| - 1]
  }

  /** All events handed on, in order. */
  function HandedOn<E>(s: State<E>): seq<E> {
    Delivered(s.flushed) + s.last
  }

  ghost predicate Inv<E>(cap: nat, s: State<E>) {
    && HandedOn(s) + s.batch + s.queue == Accepted(s.submitted)
    && |Accepted(s.submitted)| + s.dropped == |s.submitted|
    && |s.queue| <= cap
    && (s.pc == Idle || s.pc == Returned ==> s.batch == [])
    && (s.pc == Coalescing ==> 0 < |s.batch| <= DRAIN_BATCH_MAX)
    && (s.pc != Returned ==> s.last == [])
    && (forall i :: 0 <= i < |s.flushed| ==> 0 < |s.flushed[i]| <= DRAIN_BATCH_MAX)
  }

  lemma AcceptedSnoc<E>(log: seq<(E, bool)>, e: E, ok: bool)
    ensures Accepted(log + [(e, ok)]) == Accepted(log) + if ok then [e] else []
  {
    assert (log + [(e, ok)])[..|log|] == log;
  }

  lemma DeliveredSnoc<E>(batches: seq<seq<E>>, batch: seq<E>)
    ensures Delivered(batches + [batch]) == Delivered(batches) + batch
  {
    assert (batches + [batch])[..|batches|] == batches;
  }

  lemma PullKeeps<E>(s: State<E>, d: seq<E>)
    requires s.queue != []
    ensures d + Pulled(s).batch + Pulled(s).queue == d + s.batch + s.queue
  {
    assert s.queue == [s.queue[0]] + s.queue[1..];
  }

  lemma SubmitKeeps<E>(cap: nat, s: State<E>, e: E)
    requires Inv(cap, s)
    ensures Inv(cap, Apply(cap, s, Submit(e)))
  {
    var ok := |s.queue| < cap;
    AcceptedSnoc(s.submitted, e, ok);
    var d := HandedOn(s);
    assert d + s.batch + (s.queue + [e]) == (d + s.batch + s.queue) + [e];
    assert Accepted(s.submitted) + [] == Accepted(s.submitted);
  }

  lemma PullInv<E>(cap: nat, s: State<E>, pc: Pc)
    requires Inv(cap, s) && s.queue != [] && (pc == Draining || (pc == Coalescing && |s.batch| < DRAIN_BATCH_MAX))
    requires s.pc != Returned
    ensures Inv(cap, Pulled(s).(pc := pc))
  {
    PullKeeps(s, HandedOn(s));
  }

  lemma FlushInv<E>(cap: nat, s: State<E>)
    requires Inv(cap, s) && s.pc == Coalescing
    ensures var t := s.(batch := [], flushed := s.flushed + [s.batch], pc := Idle);
      HandedOn(t) == HandedOn(s) + s.batch && Inv(cap, t)
  {
    var d := Delivered(s.flushed);
    DeliveredSnoc(s.flushed, s.batch);
    assert d + [] == d && d + s.batch + [] == d + s.batch;
    NothingBetween(d + s.batch, s.queue);
  }

  lemma DrainEndInv<E>(cap: nat, s: State<E>)
    requires Inv(cap, s) && Enabled(s, DrainEnd)
    ensures HandedOn(Apply(cap, s, DrainEnd)) == HandedOn(s) + s.batch == Accepted(s.submitted)
    ensures Inv(cap, Apply(cap, s, DrainEnd))
  {
    var d := Delivered(s.flushed);
    assert d + [] == d;
    assert d + s.batch + [] == d + s.batch;
    NothingBetween(d + s.batch, s.queue);
  }

  lemma NothingBetween<E>(d: seq<E>, q: seq<E>)
    ensures d + [] + q == d + q
  {
  }

  lemma InvStep<E>(cap: nat, s: State<E>, a: Action<E>)
    requires Inv(cap, s) && Enabled(s, a)
    ensures Inv(cap, Apply(cap, s, a))
  {
    match a {
      case Submit(e) => SubmitKeeps(cap, s, e);
      case TakeHead => PullInv(cap, s, Coalescing);
      case TakeMore => PullInv(cap, s, Coalescing);
      case DrainOne => PullInv(cap, s, Draining);
      case Flush => FlushInv(cap, s);
      case DrainEnd => DrainEndInv(cap, s);
      case Shutdown =>
    }
  }

  lemma {:induction false} InvRun<E>(cap: nat, s: State<E>, acts: seq<Action<E>>)
    requires Inv(cap, s) && Runs(cap, s, acts)
    ensures Inv(cap, After(cap, s, acts))
    decreases |acts|
  {
    if acts != [] {
      InvStep(cap, s, acts[0]);
      InvRun(cap, Apply(cap, s, acts[0]), acts[1..]);
    }
  }

  /**
   * Conservation and order, in every reachable state: what was handed on, what is in the batch and what is queued are
   * together the accepted events in submission order; accepted plus dropped is submitted; the queue never exceeds its
   * capacity; every batch handed on in steady state holds 1 to 256 events.
   */
  lemma PipelineInv<E>(cap: nat, acts: seq<Action<E>>)
    requires Runs(cap, Initial(), acts)
    ensures var t := After(cap, Initial(), acts);
      && HandedOn(t) + t.batch + t.queue == Accepted(t.submitted)
      && |Accepted(t.submitted)| + t.dropped == |t.submitted|
      && |t.queue| <= cap
      && forall i :: 0 <= i < |t.flushed| ==> 0 < |t.flushed[i]| <= 256
  {
    InvRun(cap, Initial(), acts);
  }

  /** An event that finds room is accepted, behind all earlier ones; one that finds the queue full is dropped. */
  lemma SubmitExactly<E>(cap: nat, s: State<E>, e: E)
    ensures var t := Apply(cap, s, Submit(e));
      if |s.queue| < cap
      then Accepted(t.submitted) == Accepted(s.submitted) + [e] && t.dropped == s.dropped && t.queue == s.queue + [e]
      else Accepted(t.submitted) == Accepted(s.submitted) && t.dropped == s.dropped + 1 && t.queue == s.queue
  {
    AcceptedSnoc(s.submitted, e, |s.queue| < cap);
    assert Accepted(s.submitted) + [] == Accepted(s.submitted);
  }

  /** The log of submissions only grows. */
  lemma {:induction false} SubmittedGrows<E>(cap: nat, s: State<E>, acts: seq<Action<E>>)
    requires Runs(cap, s, acts)
    ensures s.submitted <= After(cap, s, acts).submitted
    decreases |acts|
  {
    if acts != [] {
      SubmittedGrows(cap, Apply(cap, s, acts[0]), acts[1..]);
    }
  }

  /**
   * Over runs: whether an event counts as accepted or dropped is decided when it comes, by whether the queue holds
   * fewer than `cap` events then, and stays so whatever follows.
   */
  lemma SubmitDecided<E>(cap: nat, before: seq<Action<E>>, e: E, after: seq<Action<E>>)
    requires Runs(cap, Initial(), before)
    requires Runs(cap, Apply(cap, After(cap, Initial(), before), Submit(e)), after)
    ensures var s := After(cap, Initial(), before);
      var log := After(cap, Apply(cap, s, Submit(e)), after).submitted;
      |s.submitted| < |log| && log[|s.submitted|] == (e, |s.queue| < cap)
  {
    var s := After(cap, Initial(), before);
    SubmittedGrows(cap, Apply(cap, s, Submit(e)), after);
  }

  /**
   * End to end: an event recorded while the queue has room, before the final drain begins, has been handed on when Run
   * returns, whatever else happens.
   */
  lemma RecordedIsHandedOn<E>(
    cap: nat, before: seq<Action<E>>, e: E, middle: seq<Action<E>>, rest: seq<Action<E>>)
    requires Runs(cap, Initial(), before) && |After(cap, Initial(), before).queue| < cap
    requires var s := Apply(cap, After(cap, Initial(), before), Submit(e));
      Runs(cap, s, middle) && After(cap, s, middle).pc == Draining && Runs(cap, After(cap, s, middle), rest)
      && After(cap, After(cap, s, middle), rest).pc == Returned
    ensures var s := Apply(cap, After(cap, Initial(), before), Submit(e));
      e in HandedOn(After(cap, After(cap, s, middle), rest))
  {
    var s0 := After(cap, Initial(), before);
    var s := Apply(cap, s0, Submit(e));
    InvRun(cap, Initial(), before);
    InvStep(cap, s0, Submit(e));
    SubmitExactly(cap, s0, e);
    var want := Accepted(s.submitted);
    assert want[|want| - 1] == e;
    if s.pc != Returned {
      CoveredRun(cap, want, s, middle);
      var d := After(cap, s, middle);
      InvRun(cap, s, middle);
      CoveredRun(cap, want, d, rest);
    } else {
      ReturnedStays(cap, s, middle);
    }
  }

  lemma {:induction false} ReturnedStays<E>(cap: nat, s: State<E>, acts: seq<Action<E>>)
    requires Runs(cap, s, acts) && s.pc == Returned
    ensures After(cap, s, acts).pc == Returned
    decreases |acts|
  {
    if acts != [] {
      ReturnedStays(cap, Apply(cap, s, acts[0]), acts[1..]);
    }
  }

  /** `want` has been handed on if the drainer has returned, and has at least been accepted before that. */
  ghost predicate Covered<E>(want: seq<E>, s: State<E>) {
    want <= if s.pc == Returned then HandedOn(s) else Accepted(s.submitted)
  }

  lemma CoveredStep<E>(cap: nat, want: seq<E>, s: State<E>, a: Action<E>)
    requires Inv(cap, s) && Enabled(s, a) && Covered(want, s)
    ensures Covered(want, Apply(cap, s, a))
  {
    match a {
      case Submit(e) => AcceptedSnoc(s.submitted, e, |s.queue| < cap);
      case DrainEnd => DrainEndInv(cap, s);
      case _ =>
    }
  }

  lemma {:induction false} CoveredRun<E>(cap: nat, want: seq<E>, s: State<E>, acts: seq<Action<E>>)
    requires Inv(cap, s) && Runs(cap, s, acts) && Covered(want, s)
    ensures Covered(want, After(cap, s, acts))
    decreases |acts|
  {
    if acts != [] {
      InvStep(cap, s, acts[0]);
      CoveredStep(cap, want, s, acts[0]);
      CoveredRun(cap, want, Apply(cap, s, acts[0]), acts[1..]);
    }
  }

  /**
   * From the start: when Run has returned, everything that had been accepted when its final drain began has been handed
   * on, in order, and nothing else has been handed on but events accepted meanwhile.
   */
  lemma ShutdownDelivers<E>(cap: nat, before: seq<Action<E>>, acts: seq<Action<E>>)
    requires Runs(cap, Initial(), before)
    requires var s := After(cap, Initial(), before);
      s.pc == Draining && Runs(cap, s, acts) && After(cap, s, acts).pc == Returned
    ensures var s := After(cap, Initial(), before);
      var t := After(cap, s, acts);
      Accepted(s.submitted) <= HandedOn(t) <= Accepted(t.submitted)
  {
    var s := After(cap, Initial(), before);
    InvRun(cap, Initial(), before);
    CoveredRun(cap, Accepted(s.submitted), s, acts);
    InvRun(cap, s, acts);
    HandedIsPrefix(cap, After(cap, s, acts));
  }

  lemma HandedIsPrefix<E>(cap: nat, t: State<E>)
    requires Inv(cap, t) && t.pc == Returned
    ensures HandedOn(t) <= Accepted(t.submitted)
  {
    NothingBetween(HandedOn(t), t.queue);
  }

  // ---- The recorder ------------------------------------------------------------------

  /** The drainer's own actions of a run. */
  function Own<E>(acts: seq<Action<E>>): seq<Action<E>> {
    if acts == [] then []
    else
      var a := acts[|acts| - 1];
      Own(acts[..|acts| - 1]) + if a.Submit? then [] else [a]
  }

  /** `acts` leads from `s` to `t` and is, but for producers, the drainer's `own` actions. */
  ghost predicate Leads<E>(cap: nat, s: State<E>, acts: seq<Action<E>>, own: seq<Action<E>>, t: State<E>) {
    Runs(cap, s, acts) && After(cap, s, acts) == t && Own(acts) == own
  }

  /** One more action of a run. */
  lemma {:induction false} RunsSnoc<E>(cap: nat, s: State<E>, acts: seq<Action<E>>, a: Action<E>)
    requires Runs(cap, s, acts) && Enabled(After(cap, s, acts), a)
    ensures Runs(cap, s, acts + [a]) && After(cap, s, acts + [a]) == Apply(cap, After(cap, s, acts), a)
    decreases |acts|
  {
    var all := acts + [a];
    if acts == [] {
      assert all[1..] == [];
    } else {
      RunsSnoc(cap, Apply(cap, s, acts[0]), acts[1..], a);
      assert all[1..] == acts[1..] + [a];
    }
  }

  lemma LeadsSnoc<E>(cap: nat, s: State<E>, acts: seq<Action<E>>, own: seq<Action<E>>, t: State<E>, a: Action<E>)
    requires Leads(cap, s, acts, own, t) && Enabled(t, a)
    ensures Leads(cap, s, acts + [a], if a.Submit? then own else own + [a], Apply(cap, t, a))
  {
    RunsSnoc(cap, s, acts, a);
    assert (acts + [a])[..|acts|] == acts;
    assert own + [] == own;
  }

  /** Some record of which actions, and which of them the drainer's own, lead to a state. */
  type Trail<!E> = (seq<Action<E>>, seq<Action<E>>, State<E>) -> bool

  ghost predicate Extends<E>(cap: nat, trail: Trail<E>, acts: seq<Action<E>>, own: seq<Action<E>>, t: State<E>,
                             a: Action<E>) {
    trail(acts, own, t) && Enabled(t, a) ==>
      trail(acts + [a], if a.Submit? then own else own + [a], Apply(cap, t, a))
  }

  /** The record can be extended by any action that is enabled. */
  ghost predicate Extensible<E(!new)>(cap: nat, trail: Trail<E>) {
    forall acts, own, t, a :: Extends(cap, trail, acts, own, t, a)
  }

  lemma LeadsExtensible<E(!new)>(cap: nat, s: State<E>)
    ensures Extensible(cap, (acts, own, t) => Leads(cap, s, acts, own, t))
  {
    var trail: Trail<E> := (acts, own, t) => Leads(cap, s, acts, own, t);
    forall acts, own, t, a
      ensures Extends(cap, trail, acts, own, t, a)
    {
      if Leads(cap, s, acts, own, t) && Enabled(t, a) {
        LeadsSnoc(cap, s, acts, own, t, a);
      }
    }
  }

  lemma Extend<E(!new)>(cap: nat, trail: Trail<E>, acts: seq<Action<E>>, own: seq<Action<E>>, t: State<E>, a: Action<E>)
    requires Extensible(cap, trail) && trail(acts, own, t) && Enabled(t, a)
    ensures trail(acts + [a], if a.Submit? then own else own + [a], Apply(cap, t, a))
  {
    assert Extends(cap, trail, acts, own, t, a);
  }

  /** A first action and `n` pulls after it. */
  function Pulls<E>(first: Action<E>, pull: Action<E>, n: nat): seq<Action<E>> {
    [first] + seq(n, _ => pull)
  }

  lemma PullsSnoc<E>(first: Action<E>, pull: Action<E>, n: nat)
    ensures Pulls(first, pull, n) + [pull] == Pulls(first, pull, n + 1)
  {
  }

  /** Between two states with an empty batch: nothing is lost, and without new events nothing is added. */
  lemma BurstFacts<E>(cap: nat, s: State<E>, acts: seq<Action<E>>, t: State<E>)
    requires Inv(cap, s) && Inv(cap, t) && Runs(cap, s, acts) && After(cap, s, acts) == t
    requires s.pc == Idle && (t.pc == Idle || (t.pc == Returned && t.queue == []))
    ensures HandedOn(s) + s.queue <= HandedOn(t) + t.queue == Accepted(t.submitted)
    ensures t.submitted == s.submitted ==> HandedOn(s) + s.queue == HandedOn(t) + t.queue && t.dropped == s.dropped
  {
    CoveredRun(cap, Accepted(s.submitted), s, acts);
    NothingBetween(HandedOn(s), s.queue);
    NothingBetween(HandedOn(t), t.queue);
  }

  /** A batch that is full or has emptied the queue holds what was queued at first, up to the limit. */
  lemma BurstLength<E>(handed: seq<E>, queued: seq<E>, batch: seq<E>, queue: seq<E>)
    requires handed + queued <= (handed + batch) + queue && (|batch| >= DRAIN_BATCH_MAX || queue == [])
    ensures Min(|queued|, DRAIN_BATCH_MAX) <= |batch| == |handed + batch| - |handed|
  {
  }

  /** The first action of a case of `Run`. */
  lemma LeadsOne<E>(cap: nat, s: State<E>, first: Action<E>, pull: Action<E>)
    requires Enabled(s, first) && !first.Submit?
    ensures Leads(cap, s, [first], Pulls(first, pull, 0), Apply(cap, s, first))
  {
    LeadsSnoc(cap, s, [], [], s, first);
    assert [] + [first] == [first] == Pulls(first, pull, 0);
  }

  /**
   * `AsyncRecorder` with its drainer's batch; `handed` is what the inner recorder received. `view` is the protocol
   * state it stands for.
   */
  class AsyncRecorder<E(!new)> {
    const capacity: nat
    var queue: seq<E>
    var dropped: nat
    var batch: seq<E>
    var handed: seq<E>
    ghost var view: State<E>

    ghost predicate Valid()
      reads this
    {
      && Inv(capacity, view)
      && view.queue == queue && view.dropped == dropped && view.batch == batch && HandedOn(view) == handed
    }

    constructor (queueSize: int)
      ensures capacity == (if queueSize <= 0 then 4096 else queueSize) && Valid() && view == Initial()
    {
      capacity := QueueCapacity(queueSize);
      queue, dropped, batch, handed := [], 0, [], [];
      view := Initial();
    }

    /** `Record`: queued, or counted as dropped when the queue is full; a Submit step. */
    method Record(e: E)
      requires Valid()
      modifies this`queue, this`dropped, this`view
      ensures Valid() && view == Apply(capacity, old(view), Submit(e))
      ensures if |old(queue)| < capacity then queue == old(queue) + [e] && dropped == old(dropped)
              else queue == old(queue) && dropped == old(dropped) + 1
    {
      InvStep(capacity, view, Submit(e));
      if |queue| < capacity {
        queue := queue + [e];
      } else {
        dropped := dropped + 1;
      }
      view := Apply(capacity, view, Submit(e));
    }

    /** Events recorded by producers while the drainer is between two steps. */
    method Producers(es: seq<E>, ghost trail: Trail<E>, ghost before: seq<Action<E>>, ghost own: seq<Action<E>>)
      returns (ghost acts: seq<Action<E>>)
      requires Valid() && Extensible(capacity, trail) && trail(before, own, view)
      modifies this`queue, this`dropped, this`view
      ensures Valid() && trail(acts, own, view) && view.pc == old(view.pc)
    {
      acts := before;
      for i := 0 to |es|
        invariant Valid() && trail(acts, own, view)
        invariant view.pc == old(view.pc) && batch == old(batch) && handed == old(handed)
      {
        Extend(capacity, trail, acts, own, view, Submit(es[i]));
        acts := acts + [Submit(es[i])];
        Record(es[i]);
      }
    }

    /** Hands the batch on: one batch call, or one call per event, in order. */
    method HandOn(batching: bool)
      modifies this`batch, this`handed
      ensures batch == [] && handed == old(handed) + old(batch)
    {
      if |batch| == 0 {
        assert old(handed) + old(batch) == handed;
        return;
      }
      if batching {
        handed := handed + batch;
      } else {
        for i := 0 to |batch|
          invariant batch == old(batch) && handed == old(handed) + batch[..i]
        {
          assert batch[..i + 1] == batch[..i] + [batch[i]];
          handed := handed + [batch[i]];
        }
        assert batch[..|batch|] == batch;
      }
      batch := [];
    }

    /** One receive from the queue, as the step `a` of the protocol. */
    method Receive(ghost a: Action<E>)
      requires Valid() && (a == TakeHead || a == TakeMore || a == DrainOne) && Enabled(view, a)
      modifies this`queue, this`batch, this`view
      ensures Valid() && view == Apply(capacity, old(view), a)
    {
      InvStep(capacity, view, a);
      batch, queue := batch + [queue[0]], queue[1..];
      view := Apply(capacity, view, a);
    }

    /** Pulling more behind the head event, up to the batch limit. */
    method Coalesce(arrivals: seq<seq<E>>, ghost trail: Trail<E>, ghost before: seq<Action<E>>)
      returns (ghost acts: seq<Action<E>>, ghost more: nat)
      requires Valid() && view.pc == Coalescing && Extensible(capacity, trail)
      requires trail(before, Pulls(TakeHead, TakeMore, 0), view)
      modifies this`queue, this`dropped, this`batch, this`view
      ensures Valid() && trail(acts, Pulls(TakeHead, TakeMore, more), view) && Enabled(view, Flush)
      ensures arrivals == [] ==> view.submitted == old(view.submitted)
    {
      acts, more := before, 0;
      var i := 0;
      while true
        invariant Valid() && view.pc == Coalescing && handed == old(handed)
        invariant trail(acts, Pulls(TakeHead, TakeMore, more), view)
        invariant arrivals == [] ==> view.submitted == old(view.submitted)
        decreases DRAIN_BATCH_MAX - |batch|
      {
        if i < |arrivals| {
          acts := Producers(arrivals[i], trail, acts, Pulls(TakeHead, TakeMore, more));
          i := i + 1;
        }
        if |batch| >= DRAIN_BATCH_MAX || queue == [] {
          break;
        }
        Extend(capacity, trail, acts, Pulls(TakeHead, TakeMore, more), view, TakeMore);
        PullsSnoc<E>(TakeHead, TakeMore, more);
        acts, more := acts + [TakeMore], more + 1;
        Receive(TakeMore);
      }
    }

    /** `drainInto`: pulling until nothing is queued. */
    method DrainInto(arrivals: seq<seq<E>>, ghost trail: Trail<E>, ghost before: seq<Action<E>>)
      returns (ghost acts: seq<Action<E>>, ghost more: nat)
      requires Valid() && view.pc == Draining && Extensible(capacity, trail)
      requires trail(before, Pulls(Shutdown, DrainOne, 0), view)
      modifies this`queue, this`dropped, this`batch, this`view
      ensures Valid() && trail(acts, Pulls(Shutdown, DrainOne, more), view) && Enabled(view, DrainEnd)
      ensures arrivals == [] ==> view.submitted == old(view.submitted)
    {
      acts, more := before, 0;
      var i := 0;
      while i < |arrivals| || queue != []
        invariant Valid() && view.pc == Draining && handed == old(handed)
        invariant trail(acts, Pulls(Shutdown, DrainOne, more), view)
        invariant arrivals == [] ==> view.submitted == old(view.submitted)
        decreases |arrivals| - i, |queue|
      {
        if i < |arrivals| {
          acts := Producers(arrivals[i], trail, acts, Pulls(Shutdown, DrainOne, more));
          i := i + 1;
        }
        if queue != [] {
          Extend(capacity, trail, acts, Pulls(Shutdown, DrainOne, more), view, DrainOne);
          PullsSnoc<E>(Shutdown, DrainOne, more);
          acts, more := acts + [DrainOne], more + 1;
          Receive(DrainOne);
        }
      }
    }

    /**
     * The queue case of `Run`: head event, opportunistic coalescing up to the batch limit, flush. `arrivals[i]` is what
     * producers record before the i-th attempt to pull more. But for them it is a burst of the protocol.
     */
    method DrainBurst(batching: bool, arrivals: seq<seq<E>>) returns (ghost acts: seq<Action<E>>, ghost more: nat)
      requires Valid() && view.pc == Idle && queue != []
      modifies this
      ensures Valid() && view.pc == Idle && batch == []
      ensures Leads(capacity, old(view), acts, Pulls(TakeHead, TakeMore, more) + [Flush], view)
      ensures old(handed + queue) <= handed + queue
      ensures Min(|old(queue)|, 256) <= |handed| - |old(handed)| <= 256
      ensures arrivals == [] ==> handed + queue == old(handed + queue) && dropped == old(dropped)
    {
      ghost var s := view;
      ghost var trail: Trail<E> := (acts, own, t) => Leads(capacity, s, acts, own, t);
      LeadsExtensible(capacity, s);
      LeadsOne(capacity, s, TakeHead, TakeMore);
      Receive(TakeHead);
      acts, more := Coalesce(arrivals, trail, [TakeHead]);
      Extend(capacity, trail, acts, Pulls(TakeHead, TakeMore, more), view, Flush);
      acts := acts + [Flush];
      ghost var filled := view;
      Finish(batching, Flush);
      BurstFacts(capacity, s, acts, view);
      BurstLength(HandedOn(s), s.queue, filled.batch, filled.queue);
    }

    /**
     * The shutdown case of `Run`: `drainInto`, then flush. `arrivals[i]` is what producers record before the i-th
     * attempt to pull. But for them it is the final drain of the protocol; the queue is empty and everything was
     * handed on in order.
     */
    method DrainAll(batching: bool, arrivals: seq<seq<E>>) returns (ghost acts: seq<Action<E>>, ghost more: nat)
      requires Valid() && view.pc == Idle
      modifies this
      ensures Valid() && view.pc == Returned && queue == [] && batch == []
      ensures Leads(capacity, old(view), acts, Pulls(Shutdown, DrainOne, more) + [DrainEnd], view)
      ensures handed == Accepted(view.submitted) && old(handed + queue) <= handed
      ensures arrivals == [] ==> handed == old(handed + queue) && dropped == old(dropped)
    {
      ghost var s := view;
      ghost var trail: Trail<E> := (acts, own, t) => Leads(capacity, s, acts, own, t);
      LeadsExtensible(capacity, s);
      LeadsOne(capacity, s, Shutdown, DrainOne);
      view := Apply(capacity, view, Shutdown);
      acts, more := DrainInto(arrivals, trail, [Shutdown]);
      Extend(capacity, trail, acts, Pulls(Shutdown, DrainOne, more), view, DrainEnd);
      acts := acts + [DrainEnd];
      Finish(batching, DrainEnd);
      BurstFacts(capacity, s, acts, view);
    }

    /** The flush at the end of a case of `Run`, as the step `a` of the protocol. */
    method Finish(batching: bool, ghost a: Action<E>)
      requires Valid() && (a == Flush || a == DrainEnd) && Enabled(view, a)
      modifies this
      ensures Valid() && view == Apply(capacity, old(view), a)
      ensures batch == [] && handed == old(handed) + old(batch) && queue == old(queue) && dropped == old(dropped)
    {
      InvStep(capacity, view, a);
      if a == Flush {
        FlushInv(capacity, view);
      } else {
        DrainEndInv(capacity, view);
      }
      HandOn(batching);
      view := Apply(capacity, view, a);
    }
  }
}
