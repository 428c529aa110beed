/** The session identity cache and the operation log it has to agree with. */
module IdentityCaching {
  import opened ByteStrings

  datatype Identity = Identity(userID: Bytes, attributes: Bytes)

  datatype Entry = Entry(id: Identity, cachedAt: int, cacheExpires: int, sessionExpiry: int, lastSeen: int)

  type Entries = map<Bytes, Entry>

  datatype Op =
    | Put(sid: Bytes, id: Identity, sessionExpiry: int, lastSeen: int, now: int)
    | Get(sid: Bytes, now: int, idleHalf: int)
    | Invalidate(sid: Bytes)
    | InvalidateUser(userID: Bytes)
    | Reap(now: int)

  // ---- The operations -----------------------------------------------------------

  predicate Live(e: Entry, now: int) {
    now <= e.cacheExpires && now <= e.sessionExpiry
  }

  /** A hit: the identity and the session's expiry. */
  function Answer(ttl: int, m: Entries, sid: Bytes, now: int): Option<(Identity, int)> {
    if ttl > 0 && sid in m && Live(m[sid], now) then Some((m[sid].id, m[sid].sessionExpiry)) else None
  }

  /** Whether a hit asks for the session to be touched. */
  predicate Touches(ttl: int, m: Entries, sid: Bytes, now: int, idleHalf: int) {
    Answer(ttl, m, sid, now).Some? && idleHalf > 0 && now - m[sid].lastSeen > idleHalf
  }

  function Next(ttl: int, m: Entries, op: Op): Entries {
    match op
    case Put(sid, id, expiry, seen, now) => if ttl <= 0 then m else m[sid := Entry(id, now, now + ttl, expiry, seen)]
    case Get(sid, now, idleHalf) =>
      if Touches(ttl, m, sid, now, idleHalf) then m[sid := m[sid].(lastSeen := now)] else m
    case Invalidate(sid) => m - {sid}
    case InvalidateUser(u) => map sid | sid in m && m[sid].id.userID != u :: m[sid]
    case Reap(now) => map sid | sid in m && Live(m[sid], now) :: m[sid]
  }

  /** `IdentityCache`. */
  class IdentityCache {
    const ttl: int
    var entries: Entries

    constructor (ttl: int)
      ensures this.ttl == ttl && entries == map[]
    {
      this.ttl := ttl;
      entries := map[];
    }

    /** A hit may move the last-seen time, so that concurrent readers do not all ask for a touch. */
    method Lookup(sid: Bytes, now: int, idleHalf: int) returns (hit: Option<(Identity, int)>, shouldTouch: bool)
      modifies this
      ensures hit == Answer(ttl, old(entries), sid, now)
      ensures shouldTouch == Touches(ttl, old(entries), sid, now, idleHalf)
      ensures entries == Next(ttl, old(entries), Get(sid, now, idleHalf))
    {
      if ttl <= 0 || sid !in entries {
        return None, false;
      }
      var e := entries[sid];
      if now > e.cacheExpires || now > e.sessionExpiry {
        return None, false;
      }
      shouldTouch := false;
      if idleHalf > 0 && now - e.lastSeen > idleHalf {
        entries := entries[sid := e.(lastSeen := now)];
        shouldTouch := true;
      }
      hit := Some((e.id, e.sessionExpiry));
    }

    method Insert(sid: Bytes, id: Identity, sessionExpiry: int, lastSeen: int, now: int)
      modifies this
      ensures entries == Next(ttl, old(entries), Put(sid, id, sessionExpiry, lastSeen, now))
    {
      if ttl > 0 {
        entries := entries[sid := Entry(id, now, now + ttl, sessionExpiry, lastSeen)];
      }
    }

    method Evict(sid: Bytes)
      modifies this
      ensures entries == Next(ttl, old(entries), Invalidate(sid))
    {
      entries := entries - {sid};
    }

    /** Walks the map in whatever order it yields and deletes the user's sessions. */
    method EvictUser(userID: Bytes)
      modifies this
      ensures entries == Next(ttl, old(entries), InvalidateUser(userID))
    {
      var left := entries.Keys;
      while left != {}
        invariant left <= entries.Keys <= old(entries).Keys
        invariant forall sid :: sid in entries ==> entries[sid] == old(entries)[sid]
        invariant forall sid :: sid in old(entries) && sid !in left ==>
                    (sid in entries <==> old(entries)[sid].id.userID != userID)
        invariant left !! (old(entries).Keys - entries.Keys)
        decreases left
      {
        var sid :| sid in left;
        left := left - {sid};
        if entries[sid].id.userID == userID {
          entries := entries - {sid};
        }
      }
    }

    method EvictStale(now: int)
      modifies this
      ensures entries == Next(ttl, old(entries), Reap(now))
    {
      var left := entries.Keys;
      while left != {}
        invariant left <= entries.Keys <= old(entries).Keys
        invariant forall sid :: sid in entries ==> entries[sid] == old(entries)[sid]
        invariant forall sid :: sid in old(entries) && sid !in left ==>
                    (sid in entries <==> Live(old(entries)[sid], now))
        invariant left !! (old(entries).Keys - entries.Keys)
        decreases left
      {
        var sid :| sid in left;
        left := left - {sid};
        if now > entries[sid].cacheExpires || now > entries[sid].sessionExpiry {
          entries := entries - {sid};
        }
      }
    }
  }

  // ---- Agreement with the log -------------------------------------------------------

  function After(ttl: int, m: Entries, ops: seq<Op>): Entries {
    if ops == [] then m else Next(ttl, After(ttl, m, ops[..|ops| - 1]), ops[|ops| - 1])
  }

  /** No reaping so far read a clock ahead of `now`. */
  ghost predicate ReapedBy(log: seq<Op>, now: int) {
    forall k :: 0 <= k < |log| && log[k].Reap? ==> log[k].now <= now
  }

  /** The operation ends what an earlier Put of this session and identity established. */
  predicate Ends(op: Op, sid: Bytes, id: Identity) {
    match op
    case Put(s, _, _, _, _) => s == sid
    case Invalidate(s) => s == sid
    case InvalidateUser(u) => u == id.userID
    case _ => false
  }

  /** Entry `i` is a Put for the session and nothing later ended it. */
  ghost predicate Standing(log: seq<Op>, sid: Bytes, i: nat) {
    && i < |log| && log[i].Put? && log[i].sid == sid
    && forall j :: i < j < |log| ==> !Ends(log[j], sid, log[i].id)
  }

  ghost predicate Matches(ttl: int, e: Entry, put: Op)
    requires put.Put?
  {
    e.id == put.id && e.cacheExpires == put.now + ttl && e.sessionExpiry == put.sessionExpiry
  }

  predicate Fresh(ttl: int, put: Op, now: int)
    requires put.Put?
  {
    now <= put.now + ttl && now <= put.sessionExpiry
  }

  /** The cache holds a session's standing Put or, once that is stale, may have dropped it; it holds nothing else. */
  ghost predicate Agrees(ttl: int, log: seq<Op>, m: Entries, sid: Bytes, now: int) {
    && (sid in m ==> exists i: nat :: Standing(log, sid, i) && Matches(ttl, m[sid], log[i]))
    && forall i: nat :: Standing(log, sid, i) && Fresh(ttl, log[i], now) ==> sid in m
  }

  lemma StandingKept(log: seq<Op>, op: Op, sid: Bytes, i: nat)
    requires i < |log|
    ensures Standing(log + [op], sid, i) <==> Standing(log, sid, i) && !Ends(op, sid, log[i].id)
  {
    var all := log + [op];
    assert forall j :: 0 <= j < |log| ==> all[j] == log[j];
    assert all[|log|] == op;
  }

  lemma StandingLast(log: seq<Op>, op: Op, sid: Bytes)
    ensures Standing(log + [op], sid, |log|) <==> op.Put? && op.sid == sid
  {
  }

  lemma StandingUnique(log: seq<Op>, sid: Bytes, i: nat, j: nat)
    requires Standing(log, sid, i) && Standing(log, sid, j)
    ensures i == j
  {
    assert i < j ==> Ends(log[j], sid, log[i].id);
    assert j < i ==> Ends(log[i], sid, log[j].id);
  }

  /** The operation leaves the session's entry as it was, apart from the last-seen time, and ends nothing of it. */
  lemma AgreesUntouched(ttl: int, log: seq<Op>, m: Entries, n: Entries, op: Op, sid: Bytes, now: int)
    requires Agrees(ttl, log, m, sid, now)
    requires !(op.Put? && op.sid == sid)
    requires forall i: nat :: Standing(log, sid, i) ==> !Ends(op, sid, log[i].id)
    requires sid in n ==> sid in m && n[sid] == m[sid].(lastSeen := n[sid].lastSeen)
    requires sid in m && sid !in n ==> forall i: nat :: Standing(log, sid, i) ==> !Fresh(ttl, log[i], now)
    ensures Agrees(ttl, log + [op], n, sid, now)
  {
    if sid in n {
      var i: nat :| Standing(log, sid, i) && Matches(ttl, m[sid], log[i]);
      StandingKept(log, op, sid, i);
      assert (log + [op])[i] == log[i];
    }
    forall i: nat | Standing(log + [op], sid, i) && Fresh(ttl, (log + [op])[i], now) ensures sid in n {
      StandingLast(log, op, sid);
      StandingKept(log, op, sid, i);
      assert (log + [op])[i] == log[i];
    }
  }

  /** The operation removed the session's entry and ended whatever stood for it. */
  lemma AgreesEnded(ttl: int, log: seq<Op>, n: Entries, op: Op, sid: Bytes, now: int)
    requires sid !in n && !(op.Put? && op.sid == sid)
    requires forall i: nat :: Standing(log, sid, i) ==> Ends(op, sid, log[i].id)
    ensures Agrees(ttl, log + [op], n, sid, now)
  {
    forall i: nat ensures !Standing(log + [op], sid, i) {
      StandingLast(log, op, sid);
      if i < |log| {
        StandingKept(log, op, sid, i);
      }
    }
  }

  lemma AgreesPut(ttl: int, log: seq<Op>, m: Entries, op: Op, sid: Bytes, now: int)
    requires ttl > 0 && op.Put? && op.sid == sid
    ensures Agrees(ttl, log + [op], Next(ttl, m, op), sid, now)
  {
    StandingLast(log, op, sid);
    assert (log + [op])[|log|] == op;
  }

  lemma AgreesInvalidateUser(ttl: int, log: seq<Op>, m: Entries, u: Bytes, sid: Bytes, now: int)
    requires Agrees(ttl, log, m, sid, now)
    ensures Agrees(ttl, log + [InvalidateUser(u)], Next(ttl, m, InvalidateUser(u)), sid, now)
  {
    var (op, n) := (InvalidateUser(u), Next(ttl, m, InvalidateUser(u)));
    if exists i: nat :: Standing(log, sid, i) && log[i].id.userID == u {
      var i: nat :| Standing(log, sid, i) && log[i].id.userID == u;
      forall j: nat | Standing(log, sid, j) ensures j == i { StandingUnique(log, sid, i, j); }
      AgreesEnded(ttl, log, n, op, sid, now);
    } else {
      AgreesUntouched(ttl, log, m, n, op, sid, now);
    }
  }

  lemma AgreesReap(ttl: int, log: seq<Op>, m: Entries, at: int, sid: Bytes, now: int)
    requires Agrees(ttl, log, m, sid, now) && at <= now
    ensures Agrees(ttl, log + [Reap(at)], Next(ttl, m, Reap(at)), sid, now)
  {
    var n := Next(ttl, m, Reap(at));
    if sid in m && sid !in n {
      var i: nat :| Standing(log, sid, i) && Matches(ttl, m[sid], log[i]);
      forall j: nat | Standing(log, sid, j) ensures !Fresh(ttl, log[j], now) { StandingUnique(log, sid, i, j); }
    }
    AgreesUntouched(ttl, log, m, n, Reap(at), sid, now);
  }

  lemma AgreesStep(ttl: int, log: seq<Op>, m: Entries, op: Op, sid: Bytes, now: int)
    requires ttl > 0 && Agrees(ttl, log, m, sid, now) && (op.Reap? ==> op.now <= now)
    ensures Agrees(ttl, log + [op], Next(ttl, m, op), sid, now)
  {
    match op {
      case Put(s, _, _, _, _) =>
        if s == sid { AgreesPut(ttl, log, m, op, sid, now); }
        else { AgreesUntouched(ttl, log, m, Next(ttl, m, op), op, sid, now); }
      case Get(_, _, _) => AgreesUntouched(ttl, log, m, Next(ttl, m, op), op, sid, now);
      case Invalidate(s) =>
        if s == sid { AgreesEnded(ttl, log, Next(ttl, m, op), op, sid, now); }
        else { AgreesUntouched(ttl, log, m, Next(ttl, m, op), op, sid, now); }
      case InvalidateUser(u) => AgreesInvalidateUser(ttl, log, m, u, sid, now);
      case Reap(at) => AgreesReap(ttl, log, m, at, sid, now);
    }
  }

  lemma {:induction false} AgreesRun(ttl: int, log: seq<Op>, sid: Bytes, now: int)
    requires ttl > 0 && ReapedBy(log, now)
    ensures Agrees(ttl, log, After(ttl, map[], log), sid, now)
  {
    if log != [] {
      var (front, op) := (log[..|log| - 1], log[|log| - 1]);
      AgreesRun(ttl, front, sid, now);
      AgreesStep(ttl, front, After(ttl, map[], front), op, sid, now);
      assert log == front + [op];
    }
  }

  /**
   * Agreement with the log, in every run in which no reaping read a clock ahead of the lookup's: a lookup hits
   * exactly when some Put of the session stands (no later Put or Invalidate of it, no later InvalidateUser of its
   * user), is no older than the time to live and the session has not expired; and the answer is that Put's.
   */
  lemma CacheAgreesWithLog(ttl: int, log: seq<Op>, sid: Bytes, now: int, id: Identity, expiry: int)
    requires ttl > 0 && ReapedBy(log, now)
    ensures Answer(ttl, After(ttl, map[], log), sid, now) == Some((id, expiry))
       <==> exists i: nat :: Standing(log, sid, i) && Fresh(ttl, log[i], now)
                          && log[i].id == id && log[i].sessionExpiry == expiry
  {
    AgreesRun(ttl, log, sid, now);
    var m := After(ttl, map[], log);
    if sid in m {
      var k: nat :| Standing(log, sid, k) && Matches(ttl, m[sid], log[k]);
      forall i: nat | Standing(log, sid, i) ensures i == k { StandingUnique(log, sid, i, k); }
    }
  }

  /** Without a time to live the cache is off: it never holds anything. */
  lemma {:induction false} DisabledCacheEmpty(ttl: int, log: seq<Op>)
    requires ttl <= 0
    ensures After(ttl, map[], log) == map[]
  {
    if log != [] { DisabledCacheEmpty(ttl, log[..|log| - 1]); }
  }

  /** `n` is `m` without some entries that were already stale at `at`. */
  ghost predicate Pruned(m: Entries, n: Entries, at: int) {
    && (forall sid :: sid in n ==> sid in m && n[sid] == m[sid])
    && forall sid :: sid in m && sid !in n ==> !Live(m[sid], at)
  }

  lemma PrunedStep(ttl: int, m: Entries, n: Entries, at: int, op: Op)
    requires Pruned(m, n, at) && (op.Get? || op.Reap? ==> op.now >= at)
    ensures Pruned(Next(ttl, m, op), Next(ttl, n, op), at)
  {
  }

  lemma {:induction false} PrunedRun(ttl: int, m: Entries, n: Entries, at: int, ops: seq<Op>)
    requires Pruned(m, n, at) && forall k :: 0 <= k < |ops| && (ops[k].Get? || ops[k].Reap?) ==> ops[k].now >= at
    ensures Pruned(After(ttl, m, ops), After(ttl, n, ops), at)
  {
    if ops != [] {
      PrunedRun(ttl, m, n, at, ops[..|ops| - 1]);
      PrunedStep(ttl, After(ttl, m, ops[..|ops| - 1]), After(ttl, n, ops[..|ops| - 1]), at, ops[|ops| - 1]);
    }
  }

  /** Reaping changes no later answer and no later touch signal, for any session and whatever happens in between. */
  lemma ReapInvisible(ttl: int, m: Entries, at: int, ops: seq<Op>, sid: Bytes, now: int, idleHalf: int)
    requires forall k :: 0 <= k < |ops| && (ops[k].Get? || ops[k].Reap?) ==> ops[k].now >= at
    requires at <= now
    ensures var (kept, reaped) := (After(ttl, m, ops), After(ttl, Next(ttl, m, Reap(at)), ops));
      && Answer(ttl, reaped, sid, now) == Answer(ttl, kept, sid, now)
      && Touches(ttl, reaped, sid, now, idleHalf) == Touches(ttl, kept, sid, now, idleHalf)
  {
    PrunedRun(ttl, m, Next(ttl, m, Reap(at)), at, ops);
  }

  // ---- Touch signals are spaced out --------------------------------------------------

  ghost predicate SeenSince(m: Entries, sid: Bytes, t: int) {
    sid in m ==> m[sid].lastSeen >= t
  }

  lemma {:induction false} SeenSinceRun(ttl: int, m: Entries, ops: seq<Op>, sid: Bytes, t: int)
    requires SeenSince(m, sid, t)
    requires forall k :: 0 <= k < |ops| ==> !(ops[k].Put? && ops[k].sid == sid) && (ops[k].Get? ==> ops[k].now >= t)
    ensures SeenSince(After(ttl, m, ops), sid, t)
  {
    if ops != [] {
      SeenSinceRun(ttl, m, ops[..|ops| - 1], sid, t);
    }
  }

  /**
   * After a touch signal for a session at `t`, and as long as nothing puts that session again, the next touch signal
   * for it comes more than the asking half idle window later, whatever else happens in between.
   */
  lemma TouchesSpacedOut(ttl: int, m: Entries, sid: Bytes, t: int, half: int, ops: seq<Op>, now: int, idleHalf: int)
    requires Touches(ttl, m, sid, t, half)
    requires forall k :: 0 <= k < |ops| ==> !(ops[k].Put? && ops[k].sid == sid) && (ops[k].Get? ==> ops[k].now >= t)
    requires Touches(ttl, After(ttl, Next(ttl, m, Get(sid, t, half)), ops), sid, now, idleHalf)
    ensures now - t > idleHalf
  {
    SeenSinceRun(ttl, Next(ttl, m, Get(sid, t, half)), ops, sid, t);
  }

  // ---- When touches come ----------------------------------------------------------------

  /** The operation neither reads nor ends the session, and reaps no later than `now`. */
  predicate Quiet(op: Op, sid: Bytes, user: Bytes, now: int) {
    match op
    case Put(s, _, _, _, _) => s != sid
    case Get(s, _, _) => s != sid
    case Invalidate(s) => s != sid
    case InvalidateUser(u) => u != user
    case Reap(at) => at <= now
  }

  lemma {:induction false} EntryKept(ttl: int, m: Entries, ops: seq<Op>, sid: Bytes, now: int)
    requires sid in m && Live(m[sid], now)
    requires forall k :: 0 <= k < |ops| ==> Quiet(ops[k], sid, m[sid].id.userID, now)
    ensures sid in After(ttl, m, ops) && After(ttl, m, ops)[sid] == m[sid]
  {
    if ops != [] {
      var front := ops[..|ops| - 1];
      assert forall k :: 0 <= k < |front| ==> front[k] == ops[k];
      EntryKept(ttl, m, front, sid, now);
      assert Quiet(ops[|ops| - 1], sid, m[sid].id.userID, now);
    }
  }

  /**
   * The first lookup of a session after it was put, while the entry is fresh, asks for a touch exactly when the session
   * was last seen more than the half idle window ago.
   */
  lemma FirstTouch(ttl: int, m: Entries, put: Op, ops: seq<Op>, now: int, half: int)
    requires ttl > 0 && put.Put? && now <= put.now + ttl && now <= put.sessionExpiry
    requires forall k :: 0 <= k < |ops| ==> Quiet(ops[k], put.sid, put.id.userID, now)
    ensures Touches(ttl, After(ttl, Next(ttl, m, put), ops), put.sid, now, half)
       <==> half > 0 && now - put.lastSeen > half
  {
    EntryKept(ttl, Next(ttl, m, put), ops, put.sid, now);
  }

  /** After a lookup at `t` that asked for a touch, the next one asks exactly when `t` is more than the window ago. */
  lemma NextTouch(ttl: int, m: Entries, sid: Bytes, t: int, half0: int, ops: seq<Op>, now: int, half: int)
    requires Touches(ttl, m, sid, t, half0) && Answer(ttl, m, sid, now).Some?
    requires forall k :: 0 <= k < |ops| ==> Quiet(ops[k], sid, m[sid].id.userID, now)
    ensures Touches(ttl, After(ttl, Next(ttl, m, Get(sid, t, half0)), ops), sid, now, half)
       <==> half > 0 && now - t > half
  {
    EntryKept(ttl, Next(ttl, m, Get(sid, t, half0)), ops, sid, now);
  }

  /** A lookup that asks for no touch leaves the cache as it was. */
  lemma NoTouchNoChange(ttl: int, m: Entries, sid: Bytes, now: int, half: int)
    requires half <= 0 || sid !in m || now - m[sid].lastSeen <= half
    ensures !Touches(ttl, m, sid, now, half) && Next(ttl, m, Get(sid, now, half)) == m
  {
  }
}
