/** How far a bucket can overshoot its hard quota, over all interleavings of the admission protocol. */
module QuotaBound {
  import opened ByteStrings
  import opened Int64
  import opened Admission

  /** Bytes of the bucket's uploads that passed the check and are not stored yet. */
  function Pending(b: Bytes): Weight {
    (r: Request) => if r.bucket == b && r.phase == Checked then Declared(r) else 0
  }

  /** Bytes of the bucket's uploads that are stored and not recorded yet. */
  function Unrecorded(b: Bytes): Weight {
    (r: Request) => if r.bucket == b && r.phase == Landed then Declared(r) else 0
  }

  /** The largest upload that can pass the check without its sum leaving 64 bits. */
  function Unit(c: Config, b: Bytes): nat
    requires Limited(c, b)
  {
    Min(c.largest, c.hard[b])
  }

  /**
   * Bounds of a run: the quota, the largest upload that can pass, the overshoot of all slots but one, what all slots
   * can carry, the largest upload, and the cached usage.
   */
  datatype Bounds = Bounds(hard: nat, unit: nat, over: nat, all: nat, largest: nat, top: nat)

  ghost predicate Sized(c: Config, b: Bytes, k: Bounds) {
    && c.globalMax > 0 && Limited(c, b) && k.hard == c.hard[b] && k.unit == Unit(c, b) && k.largest == c.largest
    && k.over == (c.globalMax - 1) * k.unit && k.all == c.globalMax * k.unit
  }

  /** A hard quota, and no sum that could leave 64 bits. */
  ghost predicate Sane(c: Config, b: Bytes, k: Bounds) {
    && Limited(c, b) && k.hard == c.hard[b] && k.unit == Unit(c, b) && k.largest == c.largest
    && k.all == k.over + k.unit && k.hard + k.over + k.all <= k.top && k.top + k.largest <= MAX_INT64
  }

  /** An upload is no longer than the largest, and one that passed the bucket's check no longer than its unit. */
  predicate InSize(r: Request, b: Bytes, k: Bounds) {
    r.len <= k.largest && (r.bucket == b && !Idle(r.phase) ==> r.len <= k.unit)
  }

  /**
   * Stored bytes are covered by cached usage plus what is not recorded yet; stored plus pending bytes and cached
   * plus in-flight bytes are bounded.
   */
  ghost predicate QuotaInv(s: State, b: Bytes, k: Bounds) {
    && (forall r :: r in s.reqs ==> InSize(r, b, k))
    && b in s.cached && s.cached[b] >= 0
    && Stored(s, b) <= s.cached[b] + Total(s.reqs, Unrecorded(b))
    && Stored(s, b) + Total(s.reqs, Pending(b)) <= k.hard + k.over
    && s.cached[b] + Total(s.reqs, Pending(b)) + Total(s.reqs, Unrecorded(b)) <= k.top
  }

  // ---- In-flight bytes are bounded by the slots ------------------------------------

  lemma Distribute(m: nat, a: nat, b: nat)
    ensures m * (a + b) == m * a + m * b
  {
  }

  lemma {:induction false} LoadBound(rs: seq<Request>, b: Bytes, k: Bounds)
    requires forall r :: r in rs ==> InSize(r, b, k)
    ensures Total(rs, Pending(b)) + Total(rs, Unrecorded(b)) <= k.unit * Total(rs, GlobalHolders())
  {
    if rs != [] {
      var (front, r) := (rs[..|rs| - 1], rs[|rs| - 1]);
      LoadBound(front, b, k);
      Distribute(k.unit, Total(front, GlobalHolders()), GlobalHolders()(r));
      assert r in rs;
    }
  }

  lemma Scale(m: nat, a: nat, b: nat)
    requires a <= b
    ensures m * a <= b * m
  {
  }

  /** While a request sits between its admission and its check, at most one slot fewer carries bytes. */
  lemma LoadBesides(c: Config, s: State, b: Bytes, k: Bounds, i: nat)
    requires Sized(c, b, k) && SlotInv(c, s) && QuotaInv(s, b, k) && At(s, i, Admitted)
    ensures Total(s.reqs, Pending(b)) + Total(s.reqs, Unrecorded(b)) <= k.over
  {
    var others := Move(s, i, Gone).reqs;
    assert InSize(s.reqs[i], b, k);
    SizesKept(s, b, k, i, Gone);
    LoadBound(others, b, k);
    Reweigh(s, i, Gone, b);
    TotalUpdate(s.reqs, i, s.reqs[i].(phase := Gone), GlobalHolders());
    Scale(k.unit, Total(others, GlobalHolders()), c.globalMax - 1);
  }

  /** All unrecorded bytes fit the global slots. */
  lemma UnrecordedBound(c: Config, s: State, b: Bytes, k: Bounds)
    requires Sized(c, b, k) && SlotInv(c, s) && QuotaInv(s, b, k)
    ensures Total(s.reqs, Unrecorded(b)) <= k.all
  {
    LoadBound(s.reqs, b, k);
    Scale(k.unit, Total(s.reqs, GlobalHolders()), c.globalMax);
  }

  // ---- Every step keeps the bound ----------------------------------------------------

  /** A request changed its phase; nothing else did. */
  lemma Reweigh(s: State, i: nat, p: Phase, b: Bytes)
    requires i < |s.reqs|
    ensures var (r, rs) := (s.reqs[i], Move(s, i, p).reqs);
      var r' := r.(phase := p);
      && Total(rs, Pending(b)) == Total(s.reqs, Pending(b)) - Pending(b)(r) + Pending(b)(r')
      && Total(rs, Unrecorded(b)) == Total(s.reqs, Unrecorded(b)) - Unrecorded(b)(r) + Unrecorded(b)(r')
    ensures Total(s.reqs, Pending(b)) >= Pending(b)(s.reqs[i])
    ensures Total(s.reqs, Unrecorded(b)) >= Unrecorded(b)(s.reqs[i])
  {
    TotalUpdate(s.reqs, i, s.reqs[i].(phase := p), Pending(b));
    TotalUpdate(s.reqs, i, s.reqs[i].(phase := p), Unrecorded(b));
  }

  lemma SizesKept(s: State, b: Bytes, k: Bounds, i: nat, p: Phase)
    requires i < |s.reqs| && (forall r :: r in s.reqs ==> InSize(r, b, k))
    requires InSize(s.reqs[i].(phase := p), b, k)
    ensures forall r :: r in Move(s, i, p).reqs ==> InSize(r, b, k)
  {
    var rs := Move(s, i, p).reqs;
    forall r | r in rs ensures InSize(r, b, k) {
      var j :| 0 <= j < |rs| && rs[j] == r;
      assert s.reqs[j] in s.reqs;
    }
  }

  /** The heart of the bound: an upload passes only while usage leaves room for it. */
  lemma PassedKeepsBound(s: State, t: State, b: Bytes, k: Bounds, i: nat, p: Phase)
    requires QuotaInv(s, b, k) && At(s, i, Admitted) && (p == Checked || p == Finished)
    requires t.reqs == Move(s, i, p).reqs && t.stored == s.stored && b in t.cached && t.cached[b] == s.cached[b]
    requires Total(s.reqs, Pending(b)) + Total(s.reqs, Unrecorded(b)) <= k.over
    requires p == Checked && s.reqs[i].bucket == b && s.reqs[i].len > 0 ==> s.cached[b] + s.reqs[i].len <= k.hard
    requires k.hard + k.over <= k.top && k.unit == Min(k.largest, k.hard)
    ensures QuotaInv(t, b, k)
  {
    Reweigh(s, i, p, b);
    assert InSize(s.reqs[i], b, k);
    SizesKept(s, b, k, i, p);
  }

  lemma QuotaInvCheck(c: Config, s: State, b: Bytes, k: Bounds, i: nat, scans: bool)
    requires Sane(c, b, k) && QuotaInv(s, b, k) && Enabled(c, s, Check(i, scans))
    requires Total(s.reqs, Pending(b)) + Total(s.reqs, Unrecorded(b)) <= k.over
    ensures QuotaInv(Apply(c, s, Check(i, scans)), b, k)
  {
    var r := s.reqs[i];
    var p := if Passes(c, s, r, scans) then Checked else Finished;
    assert InSize(r, b, k);
    PassedKeepsBound(s, Apply(c, s, Check(i, scans)), b, k, i, p);
  }

  lemma QuotaInvLand(c: Config, s: State, b: Bytes, k: Bounds, i: nat, delta: int)
    requires QuotaInv(s, b, k) && Enabled(c, s, Land(i, delta))
    ensures QuotaInv(Apply(c, s, Land(i, delta)), b, k)
  {
    Reweigh(s, i, Landed, b);
    assert InSize(s.reqs[i], b, k);
    SizesKept(s, b, k, i, Landed);
  }

  lemma QuotaInvRecord(c: Config, s: State, b: Bytes, k: Bounds, i: nat)
    requires Sane(c, b, k) && QuotaInv(s, b, k) && Enabled(c, s, Record(i))
    ensures QuotaInv(Apply(c, s, Record(i)), b, k)
  {
    Reweigh(s, i, Finished, b);
    assert InSize(s.reqs[i], b, k);
    SizesKept(s, b, k, i, Finished);
  }

  lemma QuotaInvScan(c: Config, s: State, b: Bytes, k: Bounds, scanned: Bytes)
    requires Sane(c, b, k) && QuotaInv(s, b, k)
    requires Total(s.reqs, Unrecorded(b)) <= k.all
    ensures QuotaInv(Apply(c, s, Scan(scanned)), b, k)
  {
    if scanned == b {
      Wrap64Exact(Stored(s, b));
    }
  }

  /** Phases that carry no bytes. */
  predicate Idle(p: Phase) {
    p != Checked && p != Landed
  }

  /** A step between such phases, or one that drops a pending upload, with usage and storage as they were. */
  lemma QuotaInvQuiet(s: State, t: State, b: Bytes, k: Bounds, i: nat, p: Phase)
    requires QuotaInv(s, b, k) && i < |s.reqs| && t.reqs == Move(s, i, p).reqs
    requires t.cached == s.cached && t.stored == s.stored && s.reqs[i].phase != Landed && Idle(p)
    ensures QuotaInv(t, b, k)
  {
    Reweigh(s, i, p, b);
    assert InSize(s.reqs[i], b, k);
    SizesKept(s, b, k, i, p);
  }

  lemma QuotaInvOther(c: Config, s: State, b: Bytes, k: Bounds, a: Action)
    requires QuotaInv(s, b, k) && Enabled(c, s, a)
    requires a.TakeKey? || a.RefuseKey? || a.TakeGlobal? || a.RefuseGlobal? || a.Skip? || a.Fail?
      || a.ReleaseGlobal? || a.ReleaseKey?
    ensures QuotaInv(Apply(c, s, a), b, k)
  {
    var t := Apply(c, s, a);
    QuotaInvQuiet(s, t, b, k, a.i, t.reqs[a.i].phase);
  }

  lemma QuotaInvArrive(s: State, b: Bytes, k: Bounds, r: Request)
    requires QuotaInv(s, b, k) && r.phase == WaitKey && r.len <= k.largest
    ensures QuotaInv(s.(reqs := s.reqs + [r]), b, k)
  {
    TotalAppend(s.reqs, r, Pending(b));
    TotalAppend(s.reqs, r, Unrecorded(b));
  }

  /** Every step keeps the bound. */
  lemma QuotaInvStep(c: Config, s: State, b: Bytes, k: Bounds, a: Action)
    requires Sized(c, b, k) && Sane(c, b, k) && SlotInv(c, s) && QuotaInv(s, b, k) && Enabled(c, s, a)
    ensures QuotaInv(Apply(c, s, a), b, k)
  {
    match a {
      case Arrive(r) =>
        QuotaInvArrive(s, b, k, r);
      case Check(i, scans) =>
        LoadBesides(c, s, b, k, i);
        QuotaInvCheck(c, s, b, k, i, scans);
      case Land(i, delta) =>
        QuotaInvLand(c, s, b, k, i, delta);
      case Record(i) =>
        QuotaInvRecord(c, s, b, k, i);
      case Scan(scanned) =>
        UnrecordedBound(c, s, b, k);
        QuotaInvScan(c, s, b, k, scanned);
      case Delete(_, _) =>
      case _ =>
        QuotaInvOther(c, s, b, k, a);
    }
  }

  lemma {:induction false} QuotaInvRun(c: Config, s: State, b: Bytes, k: Bounds, acts: seq<Action>)
    requires Sized(c, b, k) && Sane(c, b, k) && SlotInv(c, s) && QuotaInv(s, b, k) && Runs(c, s, acts)
    ensures QuotaInv(After(c, s, acts), b, k)
    decreases |acts|
  {
    if acts != [] {
      SlotInvStep(c, s, acts[0]);
      QuotaInvStep(c, s, b, k, acts[0]);
      QuotaInvRun(c, Apply(c, s, acts[0]), b, k, acts[1..]);
    }
  }

  /** Nothing in flight, the bucket within its quota, and a baseline not below what is stored. */
  ghost predicate Start(c: Config, s: State, b: Bytes) {
    && Empty(s)
    && Limited(c, b)
    && Stored(s, b) <= c.hard[b]
    && b in s.cached && Stored(s, b) <= s.cached[b]
  }

  lemma StartInv(c: Config, s: State, b: Bytes, k: Bounds)
    requires Start(c, s, b) && k.hard == c.hard[b] && s.cached[b] <= k.top
    ensures SlotInv(c, s) && QuotaInv(s, b, k)
  {
  }

  /** The most a run can store: the quota and, for all slots but one, an upload that passed besides. */
  function Ceiling(c: Config, b: Bytes): int
    requires Limited(c, b)
  {
    c.hard[b] + (c.globalMax - 1) * Unit(c, b)
  }

  /** No sum of the check can leave 64 bits: not from the start, and not with all slots recorded on top of a scan. */
  predicate SumsFit(c: Config, b: Bytes, usage: int)
    requires Limited(c, b)
  {
    usage + c.largest <= MAX_INT64 && Ceiling(c, b) + c.globalMax * Unit(c, b) + c.largest <= MAX_INT64
  }

  lemma BoundsOf(c: Config, b: Bytes, usage: nat) returns (k: Bounds)
    requires c.globalMax > 0 && Limited(c, b) && SumsFit(c, b, usage)
    ensures Sized(c, b, k) && Sane(c, b, k) && k.hard + k.over == Ceiling(c, b)
    ensures k.top == Max(usage, Ceiling(c, b) + c.globalMax * Unit(c, b))
  {
    var (g, u) := (c.globalMax, Unit(c, b));
    assert g * u == (g - 1) * u + u;
    Scale(u, 0, g - 1);
    var (over, all) := ((g - 1) * u, g * u);
    k := Bounds(c.hard[b], u, over, all, c.largest, Max(usage, c.hard[b] + over + all));
  }

  /**
   * The quota theorem: with G global slots and uploads of at most m bytes, no run ever stores more than the hard
   * quota h plus (G - 1) * min(m, h) bytes. Cached usage stays within that plus G * min(m, h), or within where it
   * started if that is higher, so no 64-bit sum of the check wraps around.
   */
  lemma QuotaOvershoot(c: Config, s: State, b: Bytes, acts: seq<Action>)
    requires c.globalMax > 0 && Start(c, s, b) && SumsFit(c, b, s.cached[b]) && Runs(c, s, acts)
    ensures var t := After(c, s, acts);
      && Stored(t, b) <= Ceiling(c, b)
      && b in t.cached && 0 <= t.cached[b] <= Max(s.cached[b], Ceiling(c, b) + c.globalMax * Unit(c, b))
  {
    var k := BoundsOf(c, b, s.cached[b]);
    StartInv(c, s, b, k);
    QuotaInvRun(c, s, b, k, acts);
  }
}
