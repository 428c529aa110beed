/** Credential rotation by the operator: the reconcile step over the claim's credential Secrets, and runs of it. */
module Rotation {
  import opened ByteStrings

  /** Times and durations are nanoseconds. */
  const SECOND: int := 1_000_000_000
  const DAY: int := 86_400 * SECOND

  /** What formatting in RFC 3339 without fractions keeps of a time. */
  function Trunc(t: nat): (r: nat)
    ensures r <= t < r + SECOND
  {
    t - t % SECOND
  }

  datatype Policy = Policy(timeBased: bool, intervalDays: int, overlapSeconds: int)

  function Overlap(p: Option<Policy>): nat {
    if p.Some? && p.value.overlapSeconds > 0 then p.value.overlapSeconds * SECOND else 300 * SECOND
  }

  /** The claim's credentials by access key, each with its expiry annotation if it has one. */
  type Creds = map<Bytes, Option<nat>>

  function Active(c: Creds): set<Bytes> {
    set k | k in c && c[k].None?
  }

  function Expired(c: Creds, now: nat): set<Bytes> {
    set k | k in c && c[k].Some? && now >= c[k].value
  }

  datatype State = State(creds: Creds, rotatedAt: Option<nat>)

  /**
   * One reconcile and everything around it that may vary: the spec's policy, the clock at each step, the generated
   * key, and which calls to the API server succeed. A crash is a reconcile whose remaining calls fail.
   */
  datatype Attempt = Attempt(
    policy: Option<Policy>,
    listed: bool, now: nat,
    key: Bytes, wrote: bool, writtenAt: nat,
    markedAt: nat, updates: set<Bytes>, rotatedAt: nat,
    swept: bool, sweepAt: nat, deletes: set<Bytes>,
    patched: bool)

  /** `rotationDue`. */
  predicate RotationDue(s: State, a: Attempt) {
    && Active(s.creds) != {}
    && a.policy.Some? && a.policy.value.timeBased && a.policy.value.intervalDays > 0
    && s.rotatedAt.Some?
    && a.now - s.rotatedAt.value >= a.policy.value.intervalDays * DAY
  }

  function Expiry(a: Attempt): nat {
    Trunc(a.markedAt + Overlap(a.policy))
  }

  /** Annotates the given keys, except those already annotated. */
  function Marked(c: Creds, keys: set<Bytes>, at: nat): Creds {
    map k | k in c :: if k in keys && c[k].None? then Some(at) else c[k]
  }

  /** The credentials after `ensureCredential`. */
  function Ensured(s: State, a: Attempt): Creds {
    if !a.listed || !a.wrote then s.creds
    else if RotationDue(s, a) then Marked(s.creds, Active(s.creds) * a.updates, Expiry(a))[a.key := None]
    else if Active(s.creds) == {} then s.creds[a.key := None]
    else s.creds
  }

  /** The credentials after `sweepExpired`. */
  function Swept(c: Creds, a: Attempt): Creds {
    if a.swept then c - Expired(c, a.sweepAt) * a.deletes else c
  }

  /** A whole reconcile. */
  function Step(s: State, a: Attempt): State {
    if !a.listed || !a.wrote then s
    else
      State(Swept(Ensured(s, a), a), if RotationDue(s, a) && a.patched then Some(Trunc(a.rotatedAt)) else s.rotatedAt)
  }

  // ---- The reconciler -----------------------------------------------------------------

  class Reconciler {
    var creds: Creds
    var rotatedAt: Option<nat>

    constructor (s: State)
      ensures creds == s.creds && rotatedAt == s.rotatedAt
    {
      creds, rotatedAt := s.creds, s.rotatedAt;
    }

    function Now(): State
      reads this
    {
      State(creds, rotatedAt)
    }

    /** `markExpiring` for each listed key in turn; an update that fails is ignored. */
    method MarkExpiring(active: set<Bytes>, at: nat, updates: set<Bytes>)
      requires active <= creds.Keys
      modifies this`creds
      ensures creds == Marked(old(creds), active * updates, at)
    {
      var todo := active;
      while todo != {}
        invariant todo <= active && creds.Keys == old(creds).Keys
        invariant forall k :: k in creds ==>
          creds[k] == if k in active - todo && k in updates && old(creds)[k].None? then Some(at) else old(creds)[k]
        decreases |todo|
      {
        var k :| k in todo;
        if creds[k].None? && k in updates {
          creds := creds[k := Some(at)];
        }
        todo := todo - {k};
      }
    }

    /**
     * `ensureCredential`. A fresh key is not among the claim's. Succeeding, it returns a credential that exists and
     * carries no expiry.
     */
    method EnsureCredential(a: Attempt) returns (key: Option<Bytes>, rotated: bool)
      requires a.key !in creds
      modifies this`creds
      ensures creds == Ensured(old(Now()), a)
      ensures key.Some? <==> a.listed && a.wrote
      ensures key.Some? ==> key.value in creds && creds[key.value].None?
      ensures key.Some? && (rotated || Active(old(creds)) == {}) ==> key.value == a.key
      ensures rotated <==> key.Some? && RotationDue(old(Now()), a)
    {
      if !a.listed {
        return None, false;
      }
      var active := set k | k in creds && creds[k].None?;
      assert active == Active(creds);
      var due := RotationDue(Now(), a);
      if active == {} || due {
        if !a.wrote {
          return None, false;
        }
        creds := creds[a.key := None];
        if due {
          MarkExpiring(active, Expiry(a), a.updates);
          assert creds == Ensured(old(Now()), a);
          return Some(a.key), true;
        }
        return Some(a.key), false;
      }
      var first :| first in active;
      if !a.wrote {
        return None, false;
      }
      return Some(first), false;
    }

    /** `sweepExpired`: deletes what has expired, as far as the calls succeed. */
    method SweepExpired(a: Attempt)
      modifies this`creds
      ensures creds == Swept(old(creds), a)
    {
      if !a.swept {
        return;
      }
      var expired := set k | k in creds && creds[k].Some? && a.sweepAt >= creds[k].value;
      var todo := expired * a.deletes;
      while todo != {}
        invariant todo <= expired * a.deletes && creds == old(creds) - (expired * a.deletes - todo)
        decreases |todo|
      {
        var k :| k in todo;
        creds := creds - {k};
        todo := todo - {k};
      }
      assert expired == Expired(old(creds), a.sweepAt);
    }

    method Reconcile(a: Attempt)
      requires a.key !in creds
      modifies this
      ensures Now() == Step(old(Now()), a)
    {
      var key, rotated := EnsureCredential(a);
      if key.None? {
        return;
      }
      SweepExpired(a);
      if rotated && a.patched {
        rotatedAt := Some(Trunc(a.rotatedAt));
      }
    }
  }

  // ---- Runs ---------------------------------------------------------------------------

  function After(s: State, run: seq<Attempt>): State
    decreases |run|
  {
    if run == [] then s else Step(After(s, run[..|run| - 1]), run[|run| - 1])
  }

  /** Generated keys are new, and a credential is marked no earlier than its successor was written. */
  ghost predicate Plausible(s: State, run: seq<Attempt>) {
    forall i :: 0 <= i < |run| ==> run[i].key !in After(s, run[..i]).creds && run[i].writtenAt <= run[i].markedAt
  }

  lemma PlausibleFront(s: State, run: seq<Attempt>)
    requires run != [] && Plausible(s, run)
    ensures Plausible(s, run[..|run| - 1])
  {
    var front := run[..|run| - 1];
    forall i | 0 <= i < |front|
      ensures front[i].key !in After(s, front[..i]).creds && front[i].writtenAt <= front[i].markedAt
    {
      assert front[..i] == run[..i];
      assert front[i] == run[i];
    }
  }

  lemma ActiveStep(s: State, a: Attempt)
    requires a.key !in s.creds && Active(s.creds) != {}
    ensures Active(Ensured(s, a)) != {} && Active(Step(s, a).creds) != {}
  {
    var k :| k in Active(s.creds);
    var kept := if a.listed && a.wrote && RotationDue(s, a) then a.key else k;
    assert kept in Active(Ensured(s, a));
    assert kept !in Expired(Ensured(s, a), a.sweepAt);
    assert kept in Active(Step(s, a).creds);
  }

  /**
   * Between any two writes of a reconcile: after the new credential was written, any of the old ones marked and any
   * of the expired ones deleted, one without expiry is left; and likewise when no new one was written.
   */
  lemma ActiveBetweenWrites(s: State, a: Attempt, marks: set<Bytes>, gone: set<Bytes>)
    requires a.key !in s.creds && marks <= Active(s.creds)
    ensures var c := Marked(s.creds[a.key := None], marks, Expiry(a));
      gone <= Expired(c, a.sweepAt) ==> Active(c - gone) != {}
    ensures Active(s.creds) != {} && gone <= Expired(s.creds, a.sweepAt) ==> Active(s.creds - gone) != {}
  {
    var c := Marked(s.creds[a.key := None], marks, Expiry(a));
    if gone <= Expired(c, a.sweepAt) {
      assert a.key in Active(c - gone);
    }
    if Active(s.creds) != {} && gone <= Expired(s.creds, a.sweepAt) {
      var k :| k in Active(s.creds);
      assert k in Active(s.creds - gone);
    }
  }

  /** Once there is a credential without expiry there always is one, whatever calls fail. */
  lemma {:induction false} AlwaysActive(s: State, run: seq<Attempt>)
    requires Active(s.creds) != {} && Plausible(s, run)
    ensures Active(After(s, run).creds) != {}
    decreases |run|
  {
    if run != [] {
      PlausibleFront(s, run);
      AlwaysActive(s, run[..|run| - 1]);
      ActiveStep(After(s, run[..|run| - 1]), run[|run| - 1]);
    }
  }

  /** A reconcile that gets through provides a credential even to a claim without one. */
  lemma FirstCredential(s: State, a: Attempt)
    requires a.key !in s.creds && a.listed && a.wrote
    ensures Active(Step(s, a).creds) != {}
  {
    if Active(s.creds) == {} {
      assert a.key in Active(Step(s, a).creds);
    } else {
      ActiveStep(s, a);
    }
  }

  /** A reconcile removes a credential only if its recorded expiry has passed, and never changes a recorded expiry. */
  lemma OnlyExpiredGo(s: State, a: Attempt, k: Bytes)
    requires a.key !in s.creds && k in s.creds
    ensures k !in Step(s, a).creds <==>
      a.listed && a.wrote && a.swept && k in a.deletes && Ensured(s, a)[k].Some? && Ensured(s, a)[k].value <= a.sweepAt
    ensures s.creds[k].Some? ==> Ensured(s, a)[k] == s.creds[k]
    ensures k in Step(s, a).creds ==> Step(s, a).creds[k] == Ensured(s, a)[k]
  {
  }

  /** An annotated credential stays, with the same expiry, until a sweep at or after that expiry. */
  lemma {:induction false} AnnotationStays(s: State, run: seq<Attempt>, n: nat, k: Bytes, e: nat)
    requires Plausible(s, run) && n <= |run|
    requires k in After(s, run[..n]).creds && After(s, run[..n]).creds[k] == Some(e)
    requires forall m :: n <= m < |run| ==> run[m].sweepAt < e
    ensures k in After(s, run).creds && After(s, run).creds[k] == Some(e)
    decreases |run|
  {
    if n == |run| {
      assert run[..n] == run;
    } else {
      var (front, last) := (run[..|run| - 1], run[|run| - 1]);
      PlausibleFront(s, run);
      assert front[..n] == run[..n];
      forall m | n <= m < |front|
        ensures front[m].sweepAt < e
      {
        assert front[m] == run[m];
      }
      AnnotationStays(s, front, n, k, e);
      OnlyExpiredGo(After(s, front), last, k);
    }
  }

  /** The i-th reconcile of the run rotates `k` out. */
  ghost predicate RotatesOut(s: State, run: seq<Attempt>, i: nat, k: Bytes)
    requires i < |run|
  {
    var before := After(s, run[..i]);
    k in Active(before.creds) && k in Ensured(before, run[i]) && Ensured(before, run[i])[k].Some?
  }

  /** A proxy accepts a credential until its expiry. */
  predicate Usable(c: Creds, k: Bytes, t: nat) {
    k in c && (c[k].Some? ==> t <= c[k].value)
  }

  /**
   * A rotated-out credential is still there and usable up to its recorded expiry, in every run, however often
   * reconciles happen up to then.
   */
  lemma RotatedOutSurvives(s: State, run: seq<Attempt>, i: nat, k: Bytes, t: nat)
    requires Plausible(s, run) && i < |run| && RotatesOut(s, run, i, k)
    requires t <= Expiry(run[i])
    requires forall m :: i <= m < |run| ==> run[m].sweepAt < Expiry(run[i])
    ensures Usable(After(s, run).creds, k, t)
  {
    var before := After(s, run[..i]);
    var e := Expiry(run[i]);
    assert Ensured(before, run[i])[k] == Some(e);
    OnlyExpiredGo(before, run[i], k);
    assert run[..i + 1][..i] == run[..i];
    assert After(s, run[..i + 1]) == Step(before, run[i]);
    AnnotationStays(s, run, i + 1, k, e);
  }

  // ---- One reconcile, in numbers -----------------------------------------------------------

  /** The time `t`, cut to the whole second. */
  predicate CutToSecond(t: nat, cut: nat) {
    cut % 1_000_000_000 == 0 && cut <= t < cut + 1_000_000_000
  }

  /** The overlap of the policy in nanoseconds: its own seconds if it names any, five minutes otherwise. */
  function OverlapNanos(p: Option<Policy>): int {
    if p.Some? && p.value.overlapSeconds > 0 then p.value.overlapSeconds * 1_000_000_000 else 300_000_000_000
  }

  /** The rotation is due: an active credential, a time-based policy, and its days gone by since the recorded one. */
  ghost predicate Due(s: State, a: Attempt) {
    && (exists k :: k in s.creds && s.creds[k].None?)
    && a.policy.Some? && a.policy.value.timeBased && a.policy.value.intervalDays > 0
    && s.rotatedAt.Some? && a.now >= s.rotatedAt.value + a.policy.value.intervalDays * 86_400_000_000_000
  }

  /**
   * A reconcile that gets through writes the new credential exactly when a rotation is due or no active one is left,
   * and marks the active ones it can update exactly when one is due, with the overlap from the marking time, cut to
   * the second. Then it records the time, cut likewise.
   */
  lemma ReconcileExactly(s: State, a: Attempt)
    requires a.key !in s.creds && a.listed && a.wrote
    ensures var (c, active) := (Ensured(s, a), exists k :: k in s.creds && s.creds[k].None?);
      && c.Keys == s.creds.Keys + (if Due(s, a) || !active then {a.key} else {})
      && (a.key in c ==> c[a.key] == None)
      && forall k :: k in s.creds ==>
           if Due(s, a) && s.creds[k].None? && k in a.updates
           then c[k].Some? && CutToSecond(a.markedAt + OverlapNanos(a.policy), c[k].value)
           else c[k] == s.creds[k]
    ensures var r := Step(s, a).rotatedAt;
      if Due(s, a) && a.patched then r.Some? && CutToSecond(a.rotatedAt, r.value) else r == s.rotatedAt
  {
    assert (exists k :: k in s.creds && s.creds[k].None?) <==> Active(s.creds) != {} by {
      if k :| k in s.creds && s.creds[k].None? {
        assert k in Active(s.creds);
      }
    }
    assert Due(s, a) <==> RotationDue(s, a);
    CutTrunc(a.markedAt + Overlap(a.policy));
    CutTrunc(a.rotatedAt);
  }

  lemma CutTrunc(t: nat)
    ensures CutToSecond(t, Trunc(t))
  {
    assert t - t % SECOND == t / SECOND * SECOND;
  }

  // ---- When rotations happen -------------------------------------------------------------

  /** The i-th reconcile of the run rotates. */
  ghost predicate Rotates(s: State, run: seq<Attempt>, i: nat)
    requires i < |run|
  {
    run[i].listed && run[i].wrote && RotationDue(After(s, run[..i]), run[i])
  }

  /** A claim without a recorded rotation never rotates, in any run: nothing but a rotation records one. */
  lemma {:induction false} NoFirstRotation(s: State, run: seq<Attempt>)
    requires s.rotatedAt.None?
    ensures After(s, run).rotatedAt.None?
    ensures forall i :: 0 <= i < |run| ==> !Rotates(s, run, i)
    decreases |run|
  {
    if run != [] {
      var front := run[..|run| - 1];
      NoFirstRotation(s, front);
      forall i | 0 <= i < |run|
        ensures !Rotates(s, run, i)
      {
        if i < |front| {
          assert front[..i] == run[..i] && front[i] == run[i];
          assert !Rotates(s, front, i);
        }
      }
    }
  }

  /** A key is always left to generate. */
  lemma {:induction false} FreshKey(keys: set<Bytes>) returns (k: Bytes)
    ensures k !in keys && forall x :: x in keys ==> |x| < |k|
    decreases |keys|
  {
    if keys == {} {
      k := [];
    } else {
      var x :| x in keys;
      k := FreshKey(keys - {x});
      k := seq(Max(|k|, |x| + 1), _ => 0);
    }
  }

  /** A reconcile in which every call goes through, a day after the recorded rotation, on a daily policy. */
  function DayLater(at: nat, key: Bytes): Attempt {
    var t := at + DAY;
    Attempt(Some(Policy(true, 1, 0)), true, t, key, true, t, t, {}, t, true, t, {}, true)
  }

  /** With a recorded rotation some run rotates: at once, or after a first reconcile provided a credential. */
  lemma RotationPossible(s: State) returns (run: seq<Attempt>)
    requires s.rotatedAt.Some?
    ensures Plausible(s, run) && run != [] && Rotates(s, run, |run| - 1)
  {
    var k := FreshKey(s.creds.Keys);
    var a := DayLater(s.rotatedAt.value, k);
    assert [a][..0] == [];
    if Active(s.creds) != {} {
      run := [a];
    } else {
      var s1 := Step(s, a);
      FirstCredential(s, a);
      var k1 := FreshKey(s1.creds.Keys);
      var b := DayLater(s.rotatedAt.value, k1);
      run := [a, b];
      assert run[..0] == [] && run[..1] == [a];
      assert After(s, run[..1]) == s1;
      assert s1.rotatedAt == s.rotatedAt;
    }
  }

  /** Time-based rotation ever happens in some run exactly when a rotation is already recorded. */
  lemma RotatesExactly(s: State)
    ensures (exists run, i :: Plausible(s, run) && 0 <= i < |run| && Rotates(s, run, i)) <==> s.rotatedAt.Some?
  {
    if s.rotatedAt.Some? {
      var run := RotationPossible(s);
    } else {
      forall run, i | Plausible(s, run) && 0 <= i < |run|
        ensures !Rotates(s, run, i)
      {
        NoFirstRotation(s, run);
      }
    }
  }

  /** After a recorded rotation the recorded time does not go back, if the clock does not. */
  lemma {:induction false} RecordedSince(s: State, run: seq<Attempt>, i: nat)
    requires i < |run| && Rotates(s, run, i) && run[i].patched
    requires forall m :: i <= m < |run| ==> run[i].rotatedAt <= run[m].rotatedAt
    ensures var r := After(s, run).rotatedAt; r.Some? && Trunc(run[i].rotatedAt) <= r.value
    decreases |run|
  {
    var (front, last) := (run[..|run| - 1], run[|run| - 1]);
    if i < |front| {
      assert front[..i] == run[..i] && front[i] == run[i];
      forall m | i <= m < |front|
        ensures front[i].rotatedAt <= front[m].rotatedAt
      {
        assert front[m] == run[m];
      }
      RecordedSince(s, front, i);
      TruncMonotone(run[i].rotatedAt, last.rotatedAt);
    }
  }

  lemma TruncMonotone(a: nat, b: nat)
    ensures a <= b ==> Trunc(a) <= Trunc(b)
  {
    assert a / SECOND <= b / SECOND || b < a;
    assert Trunc(a) == a / SECOND * SECOND && Trunc(b) == b / SECOND * SECOND;
  }

  /** A rotation after a recorded one is at least the policy's interval after the recorded time. */
  lemma RotationsSpaced(s: State, run: seq<Attempt>, i: nat, j: nat)
    requires i < j < |run| && Rotates(s, run, i) && run[i].patched && Rotates(s, run, j)
    requires forall m :: i <= m < j ==> run[i].rotatedAt <= run[m].rotatedAt
    ensures run[j].policy.Some? && run[j].now >= Trunc(run[i].rotatedAt) + run[j].policy.value.intervalDays * DAY
  {
    var front := run[..j];
    assert front[..i] == run[..i];
    RecordedSince(s, front, i);
  }

  // ---- The lost second ------------------------------------------------------------------

  lemma TruncShift(t: nat, n: nat)
    ensures Trunc(t + n * SECOND) == Trunc(t) + n * SECOND
  {
    assert (t + n * SECOND) % SECOND == t % SECOND;
  }

  /**
   * The recorded expiry reaches the full overlap exactly when the marking time, rounded down, is not before the
   * write.
   */
  lemma ExpiryReaches(a: Attempt)
    requires a.writtenAt <= a.markedAt
    ensures a.writtenAt + Overlap(a.policy) <= Expiry(a) <==> a.writtenAt <= Trunc(a.markedAt)
    ensures a.writtenAt + Overlap(a.policy) < Expiry(a) + SECOND
  {
    var o := Overlap(a.policy);
    var n := o / SECOND;
    assert o == n * SECOND;
    TruncShift(a.markedAt, n);
  }

  /** The run goes on, and no sweep from its last reconcile on comes later than the overlap after that one's write. */
  ghost predicate WithinOverlap(s: State, run: seq<Attempt>, more: seq<Attempt>)
    requires run != []
  {
    var (last, all) := (run[|run| - 1], run + more);
    && Plausible(s, all)
    && forall m :: |run| - 1 <= m < |all| ==> all[m].sweepAt < last.writtenAt + Overlap(last.policy)
  }

  ghost predicate UsableUntil(c: Creds, k: Bytes, end: nat) {
    forall t: nat :: t < end ==> Usable(c, k, t)
  }

  /** In every continuation within the overlap the credential is there and usable throughout the overlap. */
  ghost predicate KeptFullOverlap(s: State, run: seq<Attempt>, k: Bytes)
    requires run != []
  {
    var last := run[|run| - 1];
    forall more :: WithinOverlap(s, run, more)
      ==> UsableUntil(After(s, run + more).creds, k, last.writtenAt + Overlap(last.policy))
  }

  lemma FullOverlapKept(s: State, run: seq<Attempt>, k: Bytes, more: seq<Attempt>)
    requires run != [] && RotatesOut(s, run, |run| - 1, k) && WithinOverlap(s, run, more)
    requires run[|run| - 1].writtenAt + Overlap(run[|run| - 1].policy) <= Expiry(run[|run| - 1])
    ensures UsableUntil(After(s, run + more).creds, k, run[|run| - 1].writtenAt + Overlap(run[|run| - 1].policy))
  {
    var (i, all) := (|run| - 1, run + more);
    assert all[..i] == run[..i] && all[i] == run[i];
    forall t: nat | t < run[i].writtenAt + Overlap(run[i].policy)
      ensures Usable(After(s, all).creds, k, t)
    {
      RotatedOutSurvives(s, all, i, k, t);
    }
  }

  /** A reconcile that only sweeps `k`, at the given time. */
  function Sweeper(k: Bytes, key: Bytes, at: nat): Attempt {
    Attempt(None, true, at, key, true, at, at, {}, at, true, at, {k}, true)
  }

  /** If the recorded expiry is short of the overlap, a sweep in between takes the credential. */
  lemma SweptEarly(s: State, run: seq<Attempt>, k: Bytes) returns (more: seq<Attempt>)
    requires run != [] && Plausible(s, run) && RotatesOut(s, run, |run| - 1, k)
    requires var last := run[|run| - 1];
      && last.sweepAt < last.writtenAt + Overlap(last.policy)
      && Expiry(last) < last.writtenAt + Overlap(last.policy)
    ensures WithinOverlap(s, run, more) && k !in After(s, run + more).creds
  {
    var (i, last) := (|run| - 1, run[|run| - 1]);
    var (before, now) := (After(s, run[..i]), After(s, run));
    var key := FreshKey(now.creds.Keys + {k});
    var b := Sweeper(k, key, Max(Expiry(last), last.sweepAt));
    more := [b];
    PlausibleSnoc(s, run, b);
    assert (run + more)[..|run|] == run;
    MarkedExpiry(before, last, k);
    assert now == Step(before, last);
    SweeperTakes(now, k, b);
  }

  /** A credential marked by a reconcile is gone after it or carries that reconcile's expiry. */
  lemma MarkedExpiry(s: State, a: Attempt, k: Bytes)
    requires a.key !in s.creds && k in Active(s.creds) && Ensured(s, a)[k].Some?
    ensures k in Step(s, a).creds ==> Step(s, a).creds[k] == Some(Expiry(a))
  {
    OnlyExpiredGo(s, a, k);
  }

  lemma SweeperTakes(s: State, k: Bytes, b: Attempt)
    requires b.key !in s.creds && b == Sweeper(k, b.key, b.sweepAt)
    requires k in s.creds ==> s.creds[k].Some? && s.creds[k].value <= b.sweepAt
    ensures k !in Step(s, b).creds || k == b.key
  {
    if k in s.creds {
      OnlyExpiredGo(s, b, k);
    }
  }

  lemma PlausibleSnoc(s: State, run: seq<Attempt>, a: Attempt)
    requires Plausible(s, run) && a.key !in After(s, run).creds && a.writtenAt <= a.markedAt
    ensures Plausible(s, run + [a])
  {
    var all := run + [a];
    forall i | 0 <= i < |all|
      ensures all[i].key !in After(s, all[..i]).creds && all[i].writtenAt <= all[i].markedAt
    {
      assert all[..i] == run[..i];
      assert i < |run| ==> all[i] == run[i];
      assert run[..|run|] == run;
    }
  }

  /**
   * The promise of the overlap, over all runs: a credential that the last reconcile rotated out stays usable for the
   * full overlap after its successor was written, in every continuation, exactly when the marking time, rounded down
   * to the second, is not before the write.
   */
  lemma FullOverlapExactly(s: State, run: seq<Attempt>, k: Bytes)
    requires run != [] && Plausible(s, run) && RotatesOut(s, run, |run| - 1, k)
    requires var last := run[|run| - 1]; last.sweepAt < last.writtenAt + Overlap(last.policy)
    ensures KeptFullOverlap(s, run, k) <==> run[|run| - 1].writtenAt <= Trunc(run[|run| - 1].markedAt)
  {
    var last := run[|run| - 1];
    ExpiryReaches(last);
    if last.writtenAt <= Trunc(last.markedAt) {
      forall more | WithinOverlap(s, run, more)
        ensures UsableUntil(After(s, run + more).creds, k, last.writtenAt + Overlap(last.policy))
      {
        FullOverlapKept(s, run, k, more);
      }
    } else {
      var more := SweptEarly(s, run, k);
      assert !Usable(After(s, run + more).creds, k, 0);
    }
  }

  /** Whatever the clock, at most the last second of the overlap is lost. */
  lemma OverlapButOneSecond(s: State, run: seq<Attempt>, i: nat, k: Bytes, t: nat)
    requires Plausible(s, run) && i < |run| && RotatesOut(s, run, i, k)
    requires t + SECOND <= run[i].writtenAt + Overlap(run[i].policy)
    requires forall m :: i <= m < |run| ==> run[m].sweepAt <= t
    ensures Usable(After(s, run).creds, k, t)
  {
    ExpiryReaches(run[i]);
    RotatedOutSurvives(s, run, i, k, t);
  }

  /** The readings of a reconcile are in the order of its steps. */
  predicate OneClock(a: Attempt) {
    a.now <= a.writtenAt <= a.markedAt <= a.rotatedAt <= a.sweepAt
  }

  /** A successor written at 0.9 s past the second and marked at 0.95 s: the sweep 300 s after that second is early. */
  lemma EarlySweep(k: Bytes, k1: Bytes, k2: Bytes) returns (s: State, a: Attempt, b: Attempt)
    requires k != k1 && k != k2 && k1 != k2
    ensures Plausible(s, [a, b]) && RotatesOut(s, [a, b], 0, k)
    ensures OneClock(a) && OneClock(b) && a.sweepAt <= b.now
    ensures b.sweepAt < a.writtenAt + Overlap(a.policy) && k !in After(s, [a, b]).creds
  {
    var p := Some(Policy(true, 1, 0));
    s := State(map[k := None], Some(0));
    a := Attempt(p, true, DAY, k1, true, DAY + 900_000_000, DAY + 950_000_000, {k}, DAY + 950_000_000, true,
                 DAY + 960_000_000, {}, true);
    var t := DAY + 300 * SECOND;
    b := Attempt(p, true, t, k2, true, t, t, {}, t, true, t, {k}, true);
    var run := [a, b];
    assert run[..0] == [] && run[..1] == [a] && run[..1][..0] == [];
    assert k in Active(s.creds);
    assert RotationDue(s, a);
    assert Expiry(a) == DAY + 300 * SECOND;
    var s1 := Step(s, a);
    assert After(s, run[..1]) == s1;
    assert s1.creds == map[k := Some(Expiry(a)), k1 := None];
    assert k1 in Active(s1.creds);
    assert !RotationDue(s1, b);
    assert After(s, run) == Step(s1, b);
  }
}
