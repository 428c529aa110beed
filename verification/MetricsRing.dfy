/** The 24-slot request histogram and the full event log it stands for. */
module MetricsRing {
  import opened ByteStrings

  // ---- The log -----------------------------------------------------------------

  datatype Event = Event(hour: nat, backend: Bytes, status: int)

  type Kind = Event -> bool

  function AnyEvent(): Kind {
    (e: Event) => true
  }

  function ErrorEvent(): Kind {
    (e: Event) => e.status >= 500
  }

  function OfBackend(b: Bytes): Kind {
    (e: Event) => b != [] && e.backend == b
  }

  /** Events of a kind with an hour from `lo` up to but not including `hi`. */
  function Tally(log: seq<Event>, kind: Kind, lo: int, hi: int): nat {
    if log == [] then 0
    else
      var e := log[|log| - 1];
      Tally(log[..|log| - 1], kind, lo, hi) + if kind(e) && lo <= e.hour < hi then 1 else 0
  }

  lemma TallySnoc(log: seq<Event>, e: Event, kind: Kind, lo: int, hi: int)
    ensures Tally(log + [e], kind, lo, hi) == Tally(log, kind, lo, hi) + if kind(e) && lo <= e.hour < hi then 1 else 0
  {
    assert (log + [e])[..|log|] == log;
  }

  lemma {:induction false} TallySplit(log: seq<Event>, kind: Kind, lo: int, mid: int, hi: int)
    requires lo <= mid <= hi
    ensures Tally(log, kind, lo, hi) == Tally(log, kind, lo, mid) + Tally(log, kind, mid, hi)
  {
    if log != [] { TallySplit(log[..|log| - 1], kind, lo, mid, hi); }
  }

  lemma {:induction false} TallyNone(log: seq<Event>, kind: Kind, lo: int, hi: int)
    requires forall e :: e in log ==> !(lo <= e.hour < hi)
    ensures Tally(log, kind, lo, hi) == 0
  {
    if log != [] {
      assert log[|log| - 1] in log;
      assert forall e :: e in log[..|log| - 1] ==> e in log;
      TallyNone(log[..|log| - 1], kind, lo, hi);
    }
  }

  /** The log positions of such events. */
  function Matching(log: seq<Event>, kind: Kind, lo: int, hi: int): set<int> {
    set i | 0 <= i < |log| && kind(log[i]) && lo <= log[i].hour < hi
  }

  /** A tally is the number of log entries that match. */
  lemma {:induction false} TallyIsCount(log: seq<Event>, kind: Kind, lo: int, hi: int)
    ensures Tally(log, kind, lo, hi) == |Matching(log, kind, lo, hi)|
  {
    if log != [] {
      var n := |log| - 1;
      TallyIsCount(log[..n], kind, lo, hi);
      MatchingSnoc(log[..n], log[n], kind, lo, hi);
      assert log == log[..n] + [log[n]];
    }
  }

  lemma MatchingSnoc(log: seq<Event>, e: Event, kind: Kind, lo: int, hi: int)
    ensures |Matching(log + [e], kind, lo, hi)|
         == |Matching(log, kind, lo, hi)| + if kind(e) && lo <= e.hour < hi then 1 else 0
  {
    var (all, front) := (Matching(log + [e], kind, lo, hi), Matching(log, kind, lo, hi));
    forall i | i in front ensures i in all { assert (log + [e])[i] == log[i]; }
    forall i | i in all ensures i in front || i == |log| { assert i < |log| ==> (log + [e])[i] == log[i]; }
    if kind(e) && lo <= e.hour < hi {
      assert (log + [e])[|log|] == e;
      assert all == front + {|log|};
    } else {
      assert (log + [e])[|log|] == e;
      assert all == front;
    }
  }

  // ---- One slot ------------------------------------------------------------------

  datatype Slot = Slot(hour: nat, total: nat, errors: nat, byBackend: map<Bytes, nat>)

  function Count(m: map<Bytes, nat>, b: Bytes): nat {
    if b in m then m[b] else 0
  }

  /** The slot's counters are the tallies of its hour. */
  ghost predicate Counts(log: seq<Event>, slot: Slot) {
    && slot.total == Tally(log, AnyEvent(), slot.hour, slot.hour + 1)
    && slot.errors == Tally(log, ErrorEvent(), slot.hour, slot.hour + 1)
    && (forall b :: Count(slot.byBackend, b) == Tally(log, OfBackend(b), slot.hour, slot.hour + 1))
    && forall b :: b in slot.byBackend ==> slot.byBackend[b] > 0
  }

  const UNUSED: Slot := Slot(0, 0, 0, map[])

  ghost predicate Latest(log: seq<Event>, i: nat, hour: nat) {
    && hour % 24 == i
    && (exists e :: e in log && e.hour == hour)
    && forall e :: e in log && e.hour % 24 == i ==> e.hour <= hour
  }

  /** The slot stands for the latest logged hour of its residue class, or was never used. */
  ghost predicate SlotOk(log: seq<Event>, i: nat, slot: Slot) {
    if exists e :: e in log && e.hour % 24 == i
    then Latest(log, i, slot.hour) && Counts(log, slot)
    else slot == UNUSED
  }

  /** The slot after `Record`: rotated if it holds another hour, then counted up. */
  function Bump(slot: Slot, e: Event): Slot {
    var s := if slot.hour != e.hour then Slot(e.hour, 0, 0, map[]) else slot;
    Slot(s.hour, s.total + 1, if e.status >= 500 then s.errors + 1 else s.errors,
         if e.backend != [] then s.byBackend[e.backend := Count(s.byBackend, e.backend) + 1] else s.byBackend)
  }

  lemma CountsBump(log: seq<Event>, slot: Slot, e: Event)
    requires slot.hour == e.hour && Counts(log, slot)
    ensures Counts(log + [e], Bump(slot, e))
  {
    TallySnoc(log, e, AnyEvent(), e.hour, e.hour + 1);
    TallySnoc(log, e, ErrorEvent(), e.hour, e.hour + 1);
    forall b ensures Count(Bump(slot, e).byBackend, b) == Tally(log + [e], OfBackend(b), e.hour, e.hour + 1) {
      TallySnoc(log, e, OfBackend(b), e.hour, e.hour + 1);
    }
  }

  /** A rotated slot starts from nothing, which is right because its new hour has no events yet. */
  lemma CountsFresh(log: seq<Event>, hour: nat)
    requires forall e :: e in log ==> e.hour != hour
    ensures Counts(log, Slot(hour, 0, 0, map[]))
  {
    TallyNone(log, AnyEvent(), hour, hour + 1);
    TallyNone(log, ErrorEvent(), hour, hour + 1);
    forall b ensures Tally(log, OfBackend(b), hour, hour + 1) == 0 { TallyNone(log, OfBackend(b), hour, hour + 1); }
  }

  /** Recording into a slot keeps it right, as long as the clock has not gone back. */
  lemma SlotOkBump(log: seq<Event>, i: nat, slot: Slot, e: Event)
    requires SlotOk(log, i, slot) && e.hour % 24 == i && forall x :: x in log ==> x.hour <= e.hour
    ensures SlotOk(log + [e], i, Bump(slot, e))
  {
    assert e in log + [e];
    if (exists x :: x in log && x.hour % 24 == i) && slot.hour == e.hour {
      CountsBump(log, slot, e);
    } else {
      forall x | x in log ensures x.hour != e.hour { }
      CountsFresh(log, e.hour);
      CountsBump(log, Slot(e.hour, 0, 0, map[]), e);
      assert Bump(slot, e) == Bump(Slot(e.hour, 0, 0, map[]), e);
    }
  }

  lemma CountsOther(log: seq<Event>, slot: Slot, e: Event)
    requires Counts(log, slot) && e.hour != slot.hour
    ensures Counts(log + [e], slot)
  {
    TallySnoc(log, e, AnyEvent(), slot.hour, slot.hour + 1);
    TallySnoc(log, e, ErrorEvent(), slot.hour, slot.hour + 1);
    forall b ensures Count(slot.byBackend, b) == Tally(log + [e], OfBackend(b), slot.hour, slot.hour + 1) {
      TallySnoc(log, e, OfBackend(b), slot.hour, slot.hour + 1);
    }
  }

  lemma SlotOkOther(log: seq<Event>, i: nat, slot: Slot, e: Event)
    requires SlotOk(log, i, slot) && e.hour % 24 != i
    ensures SlotOk(log + [e], i, slot)
  {
    if exists x :: x in log && x.hour % 24 == i {
      var x :| x in log && x.hour % 24 == i;
      assert x in log + [e];
      CountsOther(log, slot, e);
    }
  }

  // ---- Reading the ring ------------------------------------------------------------

  lemma SameResidue(a: nat, b: nat)
    requires a % 24 == b % 24 && a <= b < a + 24
    ensures a == b
  {
  }

  /**
   * For an hour of the last day, the slot of its residue class either stands for that very hour and holds its tallies,
   * or the hour has no events at all.
   */
  lemma SlotOfHour(log: seq<Event>, h: nat, now: nat, slot: Slot)
    requires SlotOk(log, h % 24, slot) && now - 23 <= h <= now && forall e :: e in log ==> e.hour <= now
    ensures slot.hour == h ==> Counts(log, slot)
    ensures slot.hour != h ==> forall e :: e in log ==> e.hour != h
  {
    if exists e :: e in log && e.hour % 24 == h % 24 {
      forall e | e in log && e.hour == h ensures slot.hour == h {
        SameResidue(h, slot.hour);
      }
    } else if slot.hour == h {
      CountsFresh(log, h);
    }
  }

  datatype Point = Point(hour: int, requests: nat, errors: nat)
  datatype Snapshot = Snapshot(total: nat, errors: nat, hourly: seq<Point>, byBackend: map<Bytes, nat>)

  /** What the dashboard point of an hour has to show. */
  function PointOf(log: seq<Event>, h: int): Point {
    Point(h, Tally(log, AnyEvent(), h, h + 1), Tally(log, ErrorEvent(), h, h + 1))
  }

  /** Per-backend sums of a span of hours; only backends that occur are listed. */
  ghost predicate BackendSums(log: seq<Event>, m: map<Bytes, nat>, lo: int, hi: int) {
    && (forall b :: Count(m, b) == Tally(log, OfBackend(b), lo, hi))
    && forall b :: b in m ==> m[b] > 0
  }

  /** Adds a slot's per-backend counts, in whatever order the map yields them. */
  method MergeInto(acc: map<Bytes, nat>, m: map<Bytes, nat>) returns (sum: map<Bytes, nat>)
    ensures forall b :: Count(sum, b) == Count(acc, b) + Count(m, b)
    ensures sum.Keys == acc.Keys + m.Keys
  {
    sum := acc;
    var left := m.Keys;
    while left != {}
      invariant left <= m.Keys
      invariant forall b :: Count(sum, b) == Count(acc, b) + if b in left then 0 else Count(m, b)
      invariant sum.Keys == acc.Keys + (m.Keys - left)
      decreases left
    {
      var b :| b in left;
      sum := sum[b := Count(sum, b) + m[b]];
      left := left - {b};
    }
  }

  lemma BackendSumsStep(log: seq<Event>, acc: map<Bytes, nat>, hour: map<Bytes, nat>, sum: map<Bytes, nat>, lo: int,
                        h: int)
    requires lo <= h && BackendSums(log, acc, lo, h) && BackendSums(log, hour, h, h + 1)
    requires sum.Keys == acc.Keys + hour.Keys && forall b :: Count(sum, b) == Count(acc, b) + Count(hour, b)
    ensures BackendSums(log, sum, lo, h + 1)
  {
    forall b ensures Count(sum, b) == Tally(log, OfBackend(b), lo, h + 1) {
      TallySplit(log, OfBackend(b), lo, h, h + 1);
    }
    forall b | b in sum ensures sum[b] > 0 {
      assert sum[b] == Count(sum, b);
    }
  }

  lemma QuietHour(log: seq<Event>, h: nat)
    requires forall e :: e in log ==> e.hour != h
    ensures PointOf(log, h) == Point(h, 0, 0) && BackendSums(log, map[], h, h + 1)
  {
    CountsFresh(log, h);
  }

  // ---- Whole runs --------------------------------------------------------------------

  /** The ring after recording the events of a log one by one. */
  function RingAfter(log: seq<Event>): (ring: seq<Slot>)
    ensures |ring| == 24
  {
    if log == [] then seq(24, _ => UNUSED)
    else
      var (ring, e) := (RingAfter(log[..|log| - 1]), log[|log| - 1]);
      ring[e.hour % 24 := Bump(ring[e.hour % 24], e)]
  }

  ghost predicate Chronological(log: seq<Event>) {
    forall i, j :: 0 <= i <= j < |log| ==> log[i].hour <= log[j].hour
  }

  lemma RingStep(log: seq<Event>, ring: seq<Slot>, e: Event)
    requires |ring| == 24 && forall i :: 0 <= i < 24 ==> SlotOk(log, i, ring[i])
    requires forall x :: x in log ==> x.hour <= e.hour
    ensures var next := ring[e.hour % 24 := Bump(ring[e.hour % 24], e)];
      forall i :: 0 <= i < 24 ==> SlotOk(log + [e], i, next[i])
  {
    var next := ring[e.hour % 24 := Bump(ring[e.hour % 24], e)];
    forall i | 0 <= i < 24 ensures SlotOk(log + [e], i, next[i]) {
      if i == e.hour % 24 {
        SlotOkBump(log, i, ring[i], e);
      } else {
        SlotOkOther(log, i, ring[i], e);
      }
    }
  }

  lemma {:induction false} RingInv(log: seq<Event>)
    requires Chronological(log)
    ensures forall i :: 0 <= i < 24 ==> SlotOk(log, i, RingAfter(log)[i])
  {
    if log != [] {
      var (front, e) := (log[..|log| - 1], log[|log| - 1]);
      RingInv(front);
      assert log == front + [e];
      RingStep(front, RingAfter(front), e);
    }
  }

  /** The point `Snapshot` reads off a slot. */
  function ReadPoint(slot: Slot, h: nat): Point {
    if slot.hour == h then Point(h, slot.total, slot.errors) else Point(h, 0, 0)
  }

  /** The logged events of an hour, and those of them with a status of 500 or more. */
  function HourEvents(log: seq<Event>, h: nat, errors: bool): set<int> {
    set i | 0 <= i < |log| && log[i].hour == h && (errors ==> log[i].status >= 500)
  }

  lemma TalliesCount(log: seq<Event>, h: nat)
    ensures PointOf(log, h) == Point(h, |HourEvents(log, h, false)|, |HourEvents(log, h, true)|)
  {
    TallyIsCount(log, AnyEvent(), h, h + 1);
    TallyIsCount(log, ErrorEvent(), h, h + 1);
    assert HourEvents(log, h, false) == Matching(log, AnyEvent(), h, h + 1);
    assert HourEvents(log, h, true) == Matching(log, ErrorEvent(), h, h + 1);
  }

  /** The logged events of a backend in a span of hours; events without a backend count for none. */
  function BackendEvents(log: seq<Event>, b: Bytes, lo: int, hi: int): set<int> {
    set i | 0 <= i < |log| && b != [] && log[i].backend == b && lo <= log[i].hour < hi
  }

  /** Per-backend sums are those numbers, and a backend is listed exactly when it has events. */
  lemma BackendSumsCount(log: seq<Event>, m: map<Bytes, nat>, lo: int, hi: int, b: Bytes)
    requires BackendSums(log, m, lo, hi)
    ensures if b in m then 0 < m[b] == |BackendEvents(log, b, lo, hi)| else BackendEvents(log, b, lo, hi) == {}
  {
    TallyIsCount(log, OfBackend(b), lo, hi);
    assert BackendEvents(log, b, lo, hi) == Matching(log, OfBackend(b), lo, hi);
    assert Count(m, b) == Tally(log, OfBackend(b), lo, hi);
  }

  /** In numbers: requests are the logged events of the hour, errors those with a status of 500 or more. */
  lemma HourCounts(log: seq<Event>, h: nat, now: nat)
    requires Chronological(log) && now - 23 <= h <= now && forall e :: e in log ==> e.hour <= now
    ensures ReadPoint(RingAfter(log)[h % 24], h)
         == Point(h, |HourEvents(log, h, false)|, |HourEvents(log, h, true)|)
  {
    RingRefinesLog(log, h, now);
    TalliesCount(log, h);
  }

  /** In every run with a clock that does not go back, every hour of the last day reads as the log has it. */
  lemma RingRefinesLog(log: seq<Event>, h: nat, now: nat)
    requires Chronological(log) && now - 23 <= h <= now && forall e :: e in log ==> e.hour <= now
    ensures ReadPoint(RingAfter(log)[h % 24], h) == PointOf(log, h)
  {
    RingInv(log);
    var slot := RingAfter(log)[h % 24];
    SlotOfHour(log, h, now, slot);
    if slot.hour != h {
      QuietHour(log, h);
    }
  }

  /** `metrics.Service`: a ring of 24 slots. The log is what it has seen and does not keep. */
  class Service {
    const ring: array<Slot>
    ghost var log: seq<Event>

    ghost predicate Valid()
      reads this, ring
    {
      ring.Length == 24 && forall i :: 0 <= i < 24 ==> SlotOk(log, i, ring[i])
    }

    constructor ()
      ensures Valid() && fresh(ring) && log == []
    {
      ring := new Slot[24](_ => UNUSED);
      log := [];
    }

    /** `Record` with the hour of a clock that has not gone back. */
    method Record(backend: Bytes, status: int, hour: nat)
      requires Valid() && forall e :: e in log ==> e.hour <= hour
      modifies this`log, ring
      ensures Valid() && log == old(log) + [Event(hour, backend, status)]
      ensures ring[..] == old(ring[..])[hour % 24 := Bump(old(ring[hour % 24]), Event(hour, backend, status))]
    {
      ghost var e := Event(hour, backend, status);
      ghost var before := ring[..];
      var i := hour % 24;
      var b := ring[i];
      if b.hour != hour {
        b := Slot(hour, 0, 0, map[]);
      }
      b := b.(total := b.total + 1);
      if status >= 500 {
        b := b.(errors := b.errors + 1);
      }
      if backend != [] {
        b := b.(byBackend := b.byBackend[backend := Count(b.byBackend, backend) + 1]);
      }
      assert b == Bump(before[i], e);
      RingStep(log, before, e);
      ring[i] := b;
      assert ring[..] == before[i := b];
      log := log + [e];
      assert forall k :: 0 <= k < 24 ==> ring[k] == ring[..][k];
    }

    /** One iteration of `Snapshot`: the point of an hour and its per-backend counts. */
    method ReadHour(h: nat, now: nat) returns (p: Point, byBackend: map<Bytes, nat>)
      requires Valid() && now - 23 <= h <= now && forall e :: e in log ==> e.hour <= now
      ensures p == PointOf(log, h) && BackendSums(log, byBackend, h, h + 1)
    {
      var slot := ring[h % 24];
      SlotOfHour(log, h, now, slot);
      if slot.hour == h {
        p, byBackend := Point(h, slot.total, slot.errors), slot.byBackend;
      } else {
        QuietHour(log, h);
        p, byBackend := Point(h, 0, 0), map[];
      }
    }

    /**
     * `Snapshot`: 24 points, oldest first, totals and per-backend sums, each equal to the count of logged events in
     * those hours, whatever has been overwritten since. Hours below 23 would index a negative slot.
     */
    method TakeSnapshot(now: nat) returns (out: Snapshot)
      requires Valid() && now >= 23 && forall e :: e in log ==> e.hour <= now
      ensures |out.hourly| == 24 && forall i :: 0 <= i < 24 ==> out.hourly[i] == PointOf(log, now - 23 + i)
      ensures out.total == Tally(log, AnyEvent(), now - 23, now + 1)
      ensures out.errors == Tally(log, ErrorEvent(), now - 23, now + 1)
      ensures BackendSums(log, out.byBackend, now - 23, now + 1)
    {
      var lo := now - 23;
      var points: seq<Point> := [];
      var total, errors, byBackend := 0, 0, map[];
      EmptySpan(log, lo);
      for i := 0 to 24
        invariant |points| == i && forall k :: 0 <= k < i ==> points[k] == PointOf(log, lo + k)
        invariant total == Tally(log, AnyEvent(), lo, lo + i)
        invariant errors == Tally(log, ErrorEvent(), lo, lo + i)
        invariant BackendSums(log, byBackend, lo, lo + i)
      {
        var h := lo + i;
        var p, counts := ReadHour(h, now);
        TallySplit(log, AnyEvent(), lo, h, h + 1);
        TallySplit(log, ErrorEvent(), lo, h, h + 1);
        points := points + [p];
        total := total + p.requests;
        errors := errors + p.errors;
        var merged := MergeInto(byBackend, counts);
        BackendSumsStep(log, byBackend, counts, merged, lo, h);
        byBackend := merged;
      }
      out := Snapshot(total, errors, points, byBackend);
    }
  }

  lemma EmptySpan(log: seq<Event>, lo: int)
    ensures Tally(log, AnyEvent(), lo, lo) == 0 && Tally(log, ErrorEvent(), lo, lo) == 0
    ensures BackendSums(log, map[], lo, lo)
  {
    TallyNone(log, AnyEvent(), lo, lo);
    TallyNone(log, ErrorEvent(), lo, lo);
    forall b ensures Tally(log, OfBackend(b), lo, lo) == 0 { TallyNone(log, OfBackend(b), lo, lo); }
  }
}
