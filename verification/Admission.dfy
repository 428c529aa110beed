/**
 * Admission and quota as one protocol: a request takes a slot of its key, then a global slot, is checked against
 * cached usage, lands at the backend, is recorded and releases its slots. Steps of different requests interleave.
 */
module Admission {
  import opened ByteStrings
  import opened Int64

  /** The comparison of the quota check. */
  predicate Fits(usage: int, add: int, hard: int) {
    Add64(usage, add) <= hard
  }

  /** The wrapped comparison is right unless the sum leaves 64 bits, and then it always passes. */
  lemma FitsExactly(usage: int, add: int, hard: int)
    requires 0 <= usage <= MAX_INT64 && 0 <= add <= MAX_INT64 && 0 <= hard <= MAX_INT64
    ensures Fits(usage, add, hard) <==> usage + add <= hard || usage + add > MAX_INT64
  {
  }

  /** The verdict of the quota check: refused only against a hard quota and known usage. */
  predicate Verdict(hard: Option<int>, usage: Option<int>, add: int) {
    hard.Some? && hard.value > 0 && usage.Some? ==> Fits(usage.value, add, hard.value)
  }

  function Get<V>(m: map<Bytes, V>, key: Bytes): Option<V> {
    if key in m then Some(m[key]) else None
  }

  // ---- States and steps -------------------------------------------------------

  datatype Phase =
    | WaitKey     // queued on its key's semaphore
    | WaitGlobal  // holds a key slot, queued on the global semaphore
    | Admitted    // holds both slots
    | Checked     // quota check passed, not stored yet
    | Landed      // stored at the backend, not recorded yet
    | Finished    // nothing left to do but to release
    | Returning   // gave its global slot back, still holds its key slot
    | Gone        // released or refused

  datatype Request = Request(key: Bytes, bucket: Bytes, len: int, phase: Phase)

  /** Limits that hold for a whole run: slots (0 or less: unlimited), hard quotas, and the largest upload. */
  datatype Config = Config(globalMax: int, perMax: int, hard: map<Bytes, int>, largest: nat)

  /** Occupied slots. Keys without an entry have no semaphore yet. */
  datatype Slots = Slots(global: nat, perKey: map<Bytes, nat>)

  datatype State = State(reqs: seq<Request>, slots: Slots, cached: map<Bytes, int>, stored: map<Bytes, nat>)

  datatype Action =
    | Arrive(req: Request)
    | TakeKey(i: nat) | RefuseKey(i: nat)
    | TakeGlobal(i: nat) | RefuseGlobal(i: nat)
    | Skip(i: nat)                  // not an upload, or turned away before the check
    | Check(i: nat, scans: bool)    // `scans`: without a baseline, an inline scan succeeds
    | Land(i: nat, delta: int) | Fail(i: nat)
    | Record(i: nat)
    | ReleaseGlobal(i: nat) | ReleaseKey(i: nat)
    | Delete(bucket: Bytes, size: nat) | Scan(bucket: Bytes)

  function KeyOcc(s: Slots, key: Bytes): nat {
    if key in s.perKey then s.perKey[key] else 0
  }

  predicate KeyFree(c: Config, s: Slots, key: Bytes) {
    c.perMax <= 0 || KeyOcc(s, key) < c.perMax
  }

  predicate GlobalFree(c: Config, s: Slots) {
    c.globalMax <= 0 || s.global < c.globalMax
  }

  function WithKey(c: Config, s: Slots, key: Bytes): Slots {
    if c.perMax <= 0 then s else s.(perKey := s.perKey[key := KeyOcc(s, key) + 1])
  }

  function WithoutKey(c: Config, s: Slots, key: Bytes): Slots {
    if c.perMax <= 0 || KeyOcc(s, key) == 0 then s else s.(perKey := s.perKey[key := KeyOcc(s, key) - 1])
  }

  function WithGlobal(c: Config, s: Slots): Slots {
    if c.globalMax <= 0 then s else s.(global := s.global + 1)
  }

  function WithoutGlobal(c: Config, s: Slots): Slots {
    if c.globalMax <= 0 || s.global == 0 then s else s.(global := s.global - 1)
  }

  function Stored(s: State, b: Bytes): nat {
    if b in s.stored then s.stored[b] else 0
  }

  function Declared(r: Request): nat {
    if r.len > 0 then r.len else 0
  }

  predicate Limited(c: Config, b: Bytes) {
    b in c.hard && c.hard[b] > 0
  }

  /** The usage the check compares with: the baseline, or a scan's result when there is none. */
  function CheckedCache(c: Config, s: State, r: Request, scans: bool): map<Bytes, int> {
    if r.len > 0 && Limited(c, r.bucket) && r.bucket !in s.cached && scans
    then s.cached[r.bucket := Wrap64(Stored(s, r.bucket))] else s.cached
  }

  /** Uploads of no known length are not checked at all. */
  predicate Passes(c: Config, s: State, r: Request, scans: bool) {
    r.len > 0 ==> Verdict(Get(c.hard, r.bucket), Get(CheckedCache(c, s, r, scans), r.bucket), r.len)
  }

  predicate At(s: State, i: nat, p: Phase) {
    i < |s.reqs| && s.reqs[i].phase == p
  }

  predicate Enabled(c: Config, s: State, a: Action) {
    match a
    case Arrive(r) => r.phase == WaitKey && r.len <= c.largest
    case TakeKey(i) => At(s, i, WaitKey) && KeyFree(c, s.slots, s.reqs[i].key)
    case RefuseKey(i) => At(s, i, WaitKey) && c.perMax > 0
    case TakeGlobal(i) => At(s, i, WaitGlobal) && GlobalFree(c, s.slots)
    case RefuseGlobal(i) => At(s, i, WaitGlobal) && c.globalMax > 0
    case Skip(i) => At(s, i, Admitted)
    case Check(i, _) => At(s, i, Admitted)
    case Land(i, delta) => At(s, i, Checked) && delta <= Declared(s.reqs[i]) && Stored(s, s.reqs[i].bucket) + delta >= 0
    case Fail(i) => At(s, i, Checked)
    case Record(i) => At(s, i, Landed)
    case ReleaseGlobal(i) => At(s, i, Finished)
    case ReleaseKey(i) => At(s, i, Returning)
    case Delete(b, size) => size <= Stored(s, b)
    case Scan(b) => true
  }

  function Move(s: State, i: nat, p: Phase): State
    requires i < |s.reqs|
  {
    s.(reqs := s.reqs[i := s.reqs[i].(phase := p)])
  }

  function Apply(c: Config, s: State, a: Action): State
    requires Enabled(c, s, a)
  {
    match a
    case Arrive(r) => s.(reqs := s.reqs + [r])
    case TakeKey(i) => Move(s, i, WaitGlobal).(slots := WithKey(c, s.slots, s.reqs[i].key))
    case RefuseKey(i) => Move(s, i, Gone)
    case TakeGlobal(i) => Move(s, i, Admitted).(slots := WithGlobal(c, s.slots))
    case RefuseGlobal(i) => Move(s, i, Gone).(slots := WithoutKey(c, s.slots, s.reqs[i].key))
    case Skip(i) => Move(s, i, Finished)
    case Check(i, scans) =>
      var r := s.reqs[i];
      Move(s, i, if Passes(c, s, r, scans) then Checked else Finished).(cached := CheckedCache(c, s, r, scans))
    case Land(i, delta) =>
      var b := s.reqs[i].bucket;
      Move(s, i, Landed).(stored := s.stored[b := Stored(s, b) + delta])
    case Fail(i) => Move(s, i, Finished)
    case Record(i) =>
      var r := s.reqs[i];
      Move(s, i, Finished).(cached :=
        if r.len > 0 && r.bucket in s.cached then s.cached[r.bucket := Add64(s.cached[r.bucket], r.len)]
        else s.cached)
    case ReleaseGlobal(i) => Move(s, i, Returning).(slots := WithoutGlobal(c, s.slots))
    case ReleaseKey(i) => Move(s, i, Gone).(slots := WithoutKey(c, s.slots, s.reqs[i].key))
    case Delete(b, size) => s.(stored := s.stored[b := Stored(s, b) - size])
    case Scan(b) => s.(cached := s.cached[b := Wrap64(Stored(s, b))])
  }

  /** Every action is enabled when its turn comes. */
  predicate Runs(c: Config, s: State, acts: seq<Action>)
    decreases |acts|
  {
    acts == [] || (Enabled(c, s, acts[0]) && Runs(c, Apply(c, s, acts[0]), acts[1..]))
  }

  function After(c: Config, s: State, acts: seq<Action>): State
    requires Runs(c, s, acts)
    decreases |acts|
  {
    if acts == [] then s else After(c, Apply(c, s, acts[0]), acts[1..])
  }

  /** The usage a check compares with, if it knows any. */
  function KnownUsage(s: State, b: Bytes, scans: bool): Option<int> {
    if b in s.cached then Some(s.cached[b]) else if scans then Some(Wrap64(Stored(s, b))) else None
  }

  /**
   * The check step, in plain arithmetic: it refuses an upload of known length exactly against a positive hard quota and
   * known usage, when usage plus length exceeds the quota and stays within 64 bits. Everything else passes, uploads to
   * buckets without a quota among them. A scan that succeeds becomes the baseline; nothing else changes.
   */
  lemma CheckExactly(c: Config, s: State, i: nat, scans: bool)
    requires At(s, i, Admitted) && IsInt64(s.reqs[i].len)
    requires s.reqs[i].bucket in c.hard ==> IsInt64(c.hard[s.reqs[i].bucket])
    requires s.reqs[i].bucket in s.cached ==> IsInt64(s.cached[s.reqs[i].bucket])
    ensures var (r, t) := (s.reqs[i], Apply(c, s, Check(i, scans)));
      var (b, usage) := (r.bucket, KnownUsage(s, r.bucket, scans));
      var limited := r.len > 0 && b in c.hard && c.hard[b] > 0;
      var refused := limited && usage.Some? && c.hard[b] < usage.value + r.len <= MAX_INT64;
      && t == s.(reqs := s.reqs[i := r.(phase := if refused then Finished else Checked)], cached := t.cached)
      && t.cached == if limited && usage.Some? then s.cached[b := usage.value] else s.cached
  {
    var r := s.reqs[i];
    Wrap64Exactly(Stored(s, r.bucket), Wrap64(Stored(s, r.bucket)));
    assert r.bucket in s.cached ==> s.cached[r.bucket := s.cached[r.bucket]] == s.cached;
  }

  // ---- Sums over the requests of a run ------------------------------------------

  type Weight = Request -> nat

  function Total(rs: seq<Request>, w: Weight): nat {
    if rs == [] then 0 else Total(rs[..|rs| - 1], w) + w(rs[|rs| - 1])
  }

  lemma {:induction false} TotalUpdate(rs: seq<Request>, i: nat, r: Request, w: Weight)
    requires i < |rs|
    ensures Total(rs[i := r], w) == Total(rs, w) - w(rs[i]) + w(r)
    ensures Total(rs, w) >= w(rs[i])
  {
    var n := |rs| - 1;
    if i < n {
      assert rs[i := r][..n] == rs[..n][i := r];
      TotalUpdate(rs[..n], i, r, w);
    } else {
      assert rs[i := r][..n] == rs[..n];
    }
  }

  lemma TotalAppend(rs: seq<Request>, r: Request, w: Weight)
    ensures Total(rs + [r], w) == Total(rs, w) + w(r)
  {
    assert (rs + [r])[..|rs|] == rs;
  }

  lemma {:induction false} TotalMonotone(rs: seq<Request>, v: Weight, w: Weight)
    requires forall r :: r in rs ==> v(r) <= w(r)
    ensures Total(rs, v) <= Total(rs, w)
  {
    if rs != [] {
      assert rs[|rs| - 1] in rs;
      assert forall r :: r in rs[..|rs| - 1] ==> r in rs;
      TotalMonotone(rs[..|rs| - 1], v, w);
    }
  }

  predicate HoldsGlobal(p: Phase) {
    p == Admitted || p == Checked || p == Landed || p == Finished
  }

  predicate HoldsKey(p: Phase) {
    p == WaitGlobal || HoldsGlobal(p) || p == Returning
  }

  function GlobalHolders(): Weight {
    (r: Request) => if HoldsGlobal(r.phase) then 1 else 0
  }

  function KeyHolders(key: Bytes): Weight {
    (r: Request) => if r.key == key && HoldsKey(r.phase) then 1 else 0
  }

  function KeyGlobalHolders(key: Bytes): Weight {
    (r: Request) => if r.key == key && HoldsGlobal(r.phase) then 1 else 0
  }

  // ---- The slot invariant -------------------------------------------------------

  /** Occupancy equals the requests that hold a slot, and stays within the caps. */
  ghost predicate SlotInv(c: Config, s: State) {
    && (c.globalMax > 0 ==> s.slots.global == Total(s.reqs, GlobalHolders()) && s.slots.global <= c.globalMax)
    && (c.perMax > 0 ==> forall key ::
          KeyOcc(s.slots, key) == Total(s.reqs, KeyHolders(key)) && KeyOcc(s.slots, key) <= c.perMax)
  }

  function One(b: bool): nat {
    if b then 1 else 0
  }

  /** A request moved to another phase and the slots moved with it. */
  lemma MoveKeepsSlots(c: Config, s: State, t: State, i: nat, p: Phase)
    requires SlotInv(c, s) && i < |s.reqs| && t.reqs == Move(s, i, p).reqs
    requires var r := s.reqs[i];
      && (c.globalMax > 0 ==>
            && t.slots.global == s.slots.global - One(HoldsGlobal(r.phase)) + One(HoldsGlobal(p))
            && t.slots.global <= c.globalMax)
      && (c.perMax > 0 ==> forall key ::
            KeyOcc(t.slots, key) + One(key == r.key && HoldsKey(r.phase))
            == KeyOcc(s.slots, key) + One(key == r.key && HoldsKey(p)))
      && (c.perMax > 0 ==> KeyOcc(t.slots, r.key) <= c.perMax)
    ensures SlotInv(c, t)
  {
    var r := s.reqs[i];
    var moved := r.(phase := p);
    TotalUpdate(s.reqs, i, moved, GlobalHolders());
    if c.perMax > 0 {
      forall key ensures KeyOcc(t.slots, key) == Total(t.reqs, KeyHolders(key)) && KeyOcc(t.slots, key) <= c.perMax {
        TotalUpdate(s.reqs, i, moved, KeyHolders(key));
      }
    }
  }

  /** A request that holds a slot is counted, so giving it back finds the slot occupied. */
  lemma HeldIsOccupied(c: Config, s: State, i: nat)
    requires SlotInv(c, s) && i < |s.reqs|
    ensures c.globalMax > 0 && HoldsGlobal(s.reqs[i].phase) ==> s.slots.global > 0
    ensures c.perMax > 0 && HoldsKey(s.reqs[i].phase) ==> KeyOcc(s.slots, s.reqs[i].key) > 0
  {
    TotalUpdate(s.reqs, i, s.reqs[i], GlobalHolders());
    TotalUpdate(s.reqs, i, s.reqs[i], KeyHolders(s.reqs[i].key));
  }

  lemma SlotInvArrive(c: Config, s: State, r: Request)
    requires SlotInv(c, s) && r.phase == WaitKey
    ensures SlotInv(c, s.(reqs := s.reqs + [r]))
  {
    TotalAppend(s.reqs, r, GlobalHolders());
    forall key ensures Total(s.reqs + [r], KeyHolders(key)) == Total(s.reqs, KeyHolders(key)) {
      TotalAppend(s.reqs, r, KeyHolders(key));
    }
  }

  lemma SlotInvTakeKey(c: Config, s: State, i: nat)
    requires SlotInv(c, s) && Enabled(c, s, TakeKey(i))
    ensures SlotInv(c, Apply(c, s, TakeKey(i)))
  {
    MoveKeepsSlots(c, s, Apply(c, s, TakeKey(i)), i, WaitGlobal);
  }

  lemma SlotInvTakeGlobal(c: Config, s: State, i: nat)
    requires SlotInv(c, s) && Enabled(c, s, TakeGlobal(i))
    ensures SlotInv(c, Apply(c, s, TakeGlobal(i)))
  {
    MoveKeepsSlots(c, s, Apply(c, s, TakeGlobal(i)), i, Admitted);
  }

  lemma SlotInvRefuseGlobal(c: Config, s: State, i: nat)
    requires SlotInv(c, s) && Enabled(c, s, RefuseGlobal(i))
    ensures SlotInv(c, Apply(c, s, RefuseGlobal(i)))
  {
    HeldIsOccupied(c, s, i);
    MoveKeepsSlots(c, s, Apply(c, s, RefuseGlobal(i)), i, Gone);
  }

  lemma SlotInvReleaseGlobal(c: Config, s: State, i: nat)
    requires SlotInv(c, s) && Enabled(c, s, ReleaseGlobal(i))
    ensures SlotInv(c, Apply(c, s, ReleaseGlobal(i)))
  {
    HeldIsOccupied(c, s, i);
    MoveKeepsSlots(c, s, Apply(c, s, ReleaseGlobal(i)), i, Returning);
  }

  lemma SlotInvReleaseKey(c: Config, s: State, i: nat)
    requires SlotInv(c, s) && Enabled(c, s, ReleaseKey(i))
    ensures SlotInv(c, Apply(c, s, ReleaseKey(i)))
  {
    HeldIsOccupied(c, s, i);
    MoveKeepsSlots(c, s, Apply(c, s, ReleaseKey(i)), i, Gone);
  }

  /** A step that leaves the slots alone moves a request between phases that hold the same slots. */
  lemma SlotInvSameSlots(c: Config, s: State, t: State, i: nat, p: Phase)
    requires SlotInv(c, s) && i < |s.reqs| && t.slots == s.slots && t.reqs == Move(s, i, p).reqs
    requires HoldsGlobal(p) == HoldsGlobal(s.reqs[i].phase) && HoldsKey(p) == HoldsKey(s.reqs[i].phase)
    ensures SlotInv(c, t)
  {
    MoveKeepsSlots(c, s, t, i, p);
  }

  /** Every step keeps the slot invariant. */
  lemma SlotInvStep(c: Config, s: State, a: Action)
    requires SlotInv(c, s) && Enabled(c, s, a)
    ensures SlotInv(c, Apply(c, s, a))
  {
    var t := Apply(c, s, a);
    match a {
      case Arrive(r) => SlotInvArrive(c, s, r);
      case TakeKey(i) => SlotInvTakeKey(c, s, i);
      case TakeGlobal(i) => SlotInvTakeGlobal(c, s, i);
      case RefuseGlobal(i) => SlotInvRefuseGlobal(c, s, i);
      case ReleaseGlobal(i) => SlotInvReleaseGlobal(c, s, i);
      case ReleaseKey(i) => SlotInvReleaseKey(c, s, i);
      case Delete(_, _) =>
      case Scan(_) =>
      case _ => SlotInvSameSlots(c, s, t, a.i, t.reqs[a.i].phase);
    }
  }

  /** The slot invariant holds in every state of every run. */
  lemma {:induction false} SlotInvRun(c: Config, s: State, acts: seq<Action>)
    requires SlotInv(c, s) && Runs(c, s, acts)
    ensures SlotInv(c, After(c, s, acts))
    decreases |acts|
  {
    if acts != [] {
      SlotInvStep(c, s, acts[0]);
      SlotInvRun(c, Apply(c, s, acts[0]), acts[1..]);
    }
  }

  /** Nothing has arrived yet and no slot is taken. */
  predicate Empty(s: State) {
    s.reqs == [] && s.slots == Slots(0, map[])
  }

  /** From an empty limiter on, occupancy is exact and within the caps in every reachable state. */
  lemma OccupancyExact(c: Config, s: State, acts: seq<Action>)
    requires Empty(s) && Runs(c, s, acts)
    ensures SlotInv(c, After(c, s, acts))
  {
    SlotInvRun(c, s, acts);
  }

  /**
   * Fairness, in every reachable state: one key never holds more than its share of global slots, however many of its
   * requests queue.
   */
  lemma KeyShare(c: Config, s: State, acts: seq<Action>, key: Bytes)
    requires Empty(s) && Runs(c, s, acts) && c.perMax > 0
    ensures var t := After(c, s, acts);
      Total(t.reqs, KeyGlobalHolders(key)) <= KeyOcc(t.slots, key) <= c.perMax
  {
    OccupancyExact(c, s, acts);
    TotalMonotone(After(c, s, acts).reqs, KeyGlobalHolders(key), KeyHolders(key));
  }

  /**
   * Who gets a slot, in every reachable state: a request at its key's semaphore takes a slot exactly while fewer than
   * the cap of that key's requests hold one, and one at the global semaphore exactly while fewer than the cap are
   * admitted. Without a cap it always does.
   */
  lemma SlotsGranted(c: Config, s: State, acts: seq<Action>, i: nat)
    requires Empty(s) && Runs(c, s, acts)
    ensures var t := After(c, s, acts);
      && (At(t, i, WaitKey) ==>
            (Enabled(c, t, TakeKey(i)) <==> c.perMax <= 0 || Total(t.reqs, KeyHolders(t.reqs[i].key)) < c.perMax))
      && (At(t, i, WaitGlobal) ==>
            (Enabled(c, t, TakeGlobal(i)) <==> c.globalMax <= 0 || Total(t.reqs, GlobalHolders()) < c.globalMax))
  {
    OccupancyExact(c, s, acts);
  }

  /** The requests but the i-th. */
  function Others(rs: seq<Request>, i: nat): seq<Request>
    requires i < |rs|
  {
    rs[..i] + rs[i + 1..]
  }

  lemma {:induction false} TotalOthers(rs: seq<Request>, i: nat, w: Weight)
    requires i < |rs|
    ensures Total(rs, w) == Total(Others(rs, i), w) + w(rs[i])
  {
    var n := |rs| - 1;
    if i < n {
      TotalOthers(rs[..n], i, w);
      assert Others(rs, i)[..n - 1] == Others(rs[..n], i);
    } else {
      assert Others(rs, i) == rs[..n];
    }
  }

  /** A request in a phase without slots adds nothing to any occupancy. */
  lemma OthersAlone(c: Config, t: State, i: nat)
    requires SlotInv(c, t) && i < |t.reqs| && !HoldsKey(t.reqs[i].phase)
    ensures c.globalMax > 0 ==> t.slots.global == Total(Others(t.reqs, i), GlobalHolders())
    ensures c.perMax > 0 ==> forall key :: KeyOcc(t.slots, key) == Total(Others(t.reqs, i), KeyHolders(key))
  {
    TotalOthers(t.reqs, i, GlobalHolders());
    forall key
      ensures Total(t.reqs, KeyHolders(key)) == Total(Others(t.reqs, i), KeyHolders(key))
    {
      TotalOthers(t.reqs, i, KeyHolders(key));
    }
  }

  /**
   * In every reachable state, whatever happened since the request took its key slot: a refused acquire leaves every
   * occupancy as the other requests alone make it.
   */
  lemma RefusalRestores(c: Config, s: State, acts: seq<Action>, i: nat, refusal: Action)
    requires Empty(s) && Runs(c, s, acts)
    requires (refusal == RefuseGlobal(i) || refusal == RefuseKey(i)) && Enabled(c, After(c, s, acts), refusal)
    ensures var t := After(c, s, acts);
      var slots := Apply(c, t, refusal).slots;
      && (c.globalMax > 0 ==> slots.global == t.slots.global == Total(Others(t.reqs, i), GlobalHolders()))
      && (c.perMax > 0 ==> forall key :: KeyOcc(slots, key) == Total(Others(t.reqs, i), KeyHolders(key)))
  {
    var t := After(c, s, acts);
    var u := Apply(c, t, refusal);
    OccupancyExact(c, s, acts);
    SlotInvStep(c, t, refusal);
    assert u.reqs == Move(t, i, Gone).reqs && Others(u.reqs, i) == Others(t.reqs, i);
    OthersAlone(c, u, i);
  }

  /** In every reachable state the other requests alone make every occupancy a request queued on its key sees. */
  lemma QueuedHoldsNothing(c: Config, s: State, acts: seq<Action>, i: nat)
    requires Empty(s) && Runs(c, s, acts) && At(After(c, s, acts), i, WaitKey)
    ensures var t := After(c, s, acts);
      && (c.globalMax > 0 ==> t.slots.global == Total(Others(t.reqs, i), GlobalHolders()))
      && (c.perMax > 0 ==> forall key :: KeyOcc(t.slots, key) == Total(Others(t.reqs, i), KeyHolders(key)))
  {
    OccupancyExact(c, s, acts);
    OthersAlone(c, After(c, s, acts), i);
  }

  /**
   * In every reachable state each of the two receives of a release finds its slot occupied, whatever happens between
   * them, so neither ever waits.
   */
  lemma ReleaseNeverBlocks(c: Config, s: State, acts: seq<Action>, i: nat)
    requires Empty(s) && Runs(c, s, acts)
    ensures FindsSlots(c, After(c, s, acts), i)
  {
    OccupancyExact(c, s, acts);
    if i < |After(c, s, acts).reqs| {
      HeldIsOccupied(c, After(c, s, acts), i);
    }
  }

  /** Whichever receive of its release the request is at takes an occupied slot back. */
  ghost predicate FindsSlots(c: Config, t: State, i: nat) {
    && (At(t, i, Finished) && c.globalMax > 0 ==>
          0 < t.slots.global == Apply(c, t, ReleaseGlobal(i)).slots.global + 1)
    && (At(t, i, Returning) && c.perMax > 0 ==>
          0 < KeyOcc(t.slots, t.reqs[i].key) == KeyOcc(Apply(c, t, ReleaseKey(i)).slots, t.reqs[i].key) + 1)
  }
}
