/** The sliding-window limiter and its law: no window holds more admissions than the maximum. */
module RateLimiting {
  import opened ByteStrings

  // ---- One call -----------------------------------------------------------------

  /** Drops the leading events that are not after the cutoff. */
  function Prune(events: seq<int>, cutoff: int): (r: seq<int>)
    ensures |r| <= |events|
  {
    if events != [] && events[0] <= cutoff then Prune(events[1..], cutoff) else events
  }

  predicate Allows(max: int, window: int, events: seq<int>, now: int) {
    |Prune(events, now - window)| < max
  }

  function NextEvents(max: int, window: int, events: seq<int>, now: int): seq<int> {
    Prune(events, now - window) + if Allows(max, window, events, now) then [now] else []
  }

  /** The pruning loop: counts the expired events, then cuts them off. */
  method PruneFront(events: seq<int>, cutoff: int) returns (kept: seq<int>)
    ensures kept == Prune(events, cutoff)
  {
    var i := 0;
    while i < |events|
      invariant 0 <= i <= |events|
      invariant Prune(events[i..], cutoff) == Prune(events, cutoff)
    {
      if events[i] > cutoff {
        break;
      }
      assert events[i..][1..] == events[i + 1..];
      i := i + 1;
    }
    kept := events[i..];
  }

  const SHARDS: nat := 16

  /** `RateLimiter`: per-key event lists, spread over shards by a hash of the key. */
  class RateLimiter {
    const max: int
    const window: int
    const hash: Bytes -> nat
    var shards: seq<map<Bytes, seq<int>>>

    ghost predicate Valid()
      reads this
    {
      |shards| == SHARDS
    }

    function ShardOf(key: Bytes): nat {
      hash(key) % SHARDS
    }

    ghost function Events(key: Bytes): seq<int>
      requires Valid()
      reads this
    {
      var shard := shards[ShardOf(key)];
      if key in shard then shard[key] else []
    }

    constructor (max: int, window: int, hash: Bytes -> nat)
      ensures Valid() && this.max == max && this.window == window && this.hash == hash
      ensures forall key :: Events(key) == []
    {
      this.max, this.window, this.hash := max, window, hash;
      shards := seq(SHARDS, _ => map[]);
    }

    /** `Allow`: prunes and appends in place; other keys keep their events. */
    method Allow(key: Bytes, now: int) returns (ok: bool)
      requires Valid()
      modifies this
      ensures Valid()
      ensures ok == Allows(max, window, old(Events(key)), now)
      ensures Events(key) == NextEvents(max, window, old(Events(key)), now)
      ensures forall k :: k != key ==> Events(k) == old(Events(k))
    {
      var cutoff := now - window;
      var n := ShardOf(key);
      var events := if key in shards[n] then shards[n][key] else [];
      events := PruneFront(events, cutoff);
      ok := |events| < max;
      if ok {
        events := events + [now];
      }
      shards := shards[n := shards[n][key := events]];
    }
  }

  // ---- Runs -----------------------------------------------------------------------

  datatype Call = Call(key: Bytes, now: int)

  function Front(calls: seq<Call>): seq<Call>
    requires calls != []
  {
    calls[..|calls| - 1]
  }

  /** The limiter's event list of a key after the calls. */
  function EventsAfter(max: int, window: int, calls: seq<Call>, key: Bytes): seq<int> {
    if calls == [] then []
    else
      var (before, last) := (EventsAfter(max, window, Front(calls), key), calls[|calls| - 1]);
      if last.key == key then NextEvents(max, window, before, last.now) else before
  }

  /** All admissions of a key so far: the log the limiter itself does not keep. */
  function History(max: int, window: int, calls: seq<Call>, key: Bytes): seq<int> {
    if calls == [] then []
    else
      var (before, last) := (History(max, window, Front(calls), key), calls[|calls| - 1]);
      if last.key == key && Allows(max, window, EventsAfter(max, window, Front(calls), key), last.now)
      then before + [last.now] else before
  }

  /** The clock readings of a key's own calls do not go back, and end by `now`. */
  ghost predicate ChronologicalBy(calls: seq<Call>, key: Bytes, now: int) {
    && Chronological(calls, key)
    && forall i :: 0 <= i < |calls| && calls[i].key == key ==> calls[i].now <= now
  }

  ghost predicate Chronological(calls: seq<Call>, key: Bytes) {
    forall i, j :: 0 <= i <= j < |calls| && calls[i].key == key && calls[j].key == key ==> calls[i].now <= calls[j].now
  }

  ghost predicate Ascending(h: seq<int>) {
    forall i, j :: 0 <= i <= j < |h| ==> h[i] <= h[j]
  }

  /** The admissions after a cutoff. */
  function Filter(h: seq<int>, cutoff: int): seq<int> {
    if h == [] then [] else (if h[0] > cutoff then [h[0]] else []) + Filter(h[1..], cutoff)
  }

  lemma {:induction false} FilterAll(h: seq<int>, cutoff: int)
    requires forall i :: 0 <= i < |h| ==> h[i] > cutoff
    ensures Filter(h, cutoff) == h
  {
    if h != [] { FilterAll(h[1..], cutoff); }
  }

  lemma {:induction false} PruneIsFilter(h: seq<int>, cutoff: int)
    requires Ascending(h)
    ensures Prune(h, cutoff) == Filter(h, cutoff)
  {
    if h != [] {
      if h[0] <= cutoff {
        PruneIsFilter(h[1..], cutoff);
      } else {
        FilterAll(h, cutoff);
      }
    }
  }

  lemma {:induction false} PruneSuffix(h: seq<int>, d: nat, cutoff: int)
    requires d <= |h| && forall i :: 0 <= i < d ==> h[i] <= cutoff
    ensures Prune(h[d..], cutoff) == Prune(h, cutoff)
  {
    if d > 0 {
      assert h[d..] == h[1..][d - 1..];
      PruneSuffix(h[1..], d - 1, cutoff);
    } else {
      assert h[0..] == h;
    }
  }

  /** The list is the tail of the history; what it dropped is out of the window and stays out. */
  ghost predicate TailOf(events: seq<int>, h: seq<int>, now: int, window: int) {
    && |events| <= |h|
    && events == h[|h| - |events|..]
    && (forall i :: 0 <= i < |h| - |events| ==> h[i] <= now - window)
    && Ascending(h)
    && (forall i :: 0 <= i < |h| ==> h[i] <= now)
  }

  lemma {:induction false} PrunedFacts(h: seq<int>, cutoff: int)
    ensures Prune(h, cutoff) == h[|h| - |Prune(h, cutoff)|..]
    ensures forall i :: 0 <= i < |h| - |Prune(h, cutoff)| ==> h[i] <= cutoff
  {
    if h != [] && h[0] <= cutoff {
      PrunedFacts(h[1..], cutoff);
      forall i | 0 <= i < |h| - |Prune(h, cutoff)| ensures h[i] <= cutoff {
        if i > 0 { assert h[i] == h[1..][i - 1]; }
      }
    }
  }

  lemma TailPruned(events: seq<int>, h: seq<int>, now: int, window: int)
    requires TailOf(events, h, now, window)
    ensures Prune(events, now - window) == Filter(h, now - window)
    ensures TailOf(Prune(events, now - window), h, now, window)
  {
    PruneSuffix(h, |h| - |events|, now - window);
    PruneIsFilter(h, now - window);
    PrunedFacts(h, now - window);
  }

  lemma TailSnoc(events: seq<int>, h: seq<int>, now: int, window: int)
    requires TailOf(events, h, now, window)
    ensures TailOf(events + [now], h + [now], now, window)
  {
    var d := |h| - |events|;
    assert (h + [now])[d..] == h[d..] + [now];
  }

  lemma TailLater(events: seq<int>, h: seq<int>, now: int, later: int, window: int)
    requires TailOf(events, h, now, window) && now <= later
    ensures TailOf(events, h, later, window)
  {
  }

  lemma TailStep(max: int, window: int, e: seq<int>, h: seq<int>, now: int)
    requires TailOf(e, h, now, window)
    ensures TailOf(NextEvents(max, window, e, now), if Allows(max, window, e, now) then h + [now] else h, now, window)
  {
    var p := Prune(e, now - window);
    TailPruned(e, h, now, window);
    TailSnoc(p, h, now, window);
    assert p + [] == p;
  }

  lemma TailDecides(max: int, window: int, e: seq<int>, h: seq<int>, now: int)
    requires TailOf(e, h, now, window)
    ensures Prune(e, now - window) == Filter(h, now - window)
    ensures Allows(max, window, e, now) <==> |Filter(h, now - window)| < max
  {
    TailPruned(e, h, now, window);
  }

  lemma {:induction false} TailInv(max: int, window: int, calls: seq<Call>, key: Bytes, now: int)
    requires ChronologicalBy(calls, key, now)
    ensures TailOf(EventsAfter(max, window, calls, key), History(max, window, calls, key), now, window)
  {
    if calls != [] {
      var (front, last) := (Front(calls), calls[|calls| - 1]);
      var (e, h) := (EventsAfter(max, window, front, key), History(max, window, front, key));
      if last.key == key {
        TailInv(max, window, front, key, last.now);
        TailStep(max, window, e, h, last.now);
        TailLater(EventsAfter(max, window, calls, key), History(max, window, calls, key), last.now, now, window);
      } else {
        TailInv(max, window, front, key, now);
      }
    }
  }

  /**
   * The pruned list is the full admission history filtered by the cutoff, so a call is refused exactly when the
   * maximum of admissions already lie in the window that ends at it.
   */
  lemma ListIsFilteredHistory(max: int, window: int, calls: seq<Call>, call: Call)
    requires ChronologicalBy(calls, call.key, call.now)
    ensures var h := History(max, window, calls, call.key);
      && Prune(EventsAfter(max, window, calls, call.key), call.now - window) == Filter(h, call.now - window)
      && (Allows(max, window, EventsAfter(max, window, calls, call.key), call.now)
          <==> |Filter(h, call.now - window)| < max)
  {
    TailInv(max, window, calls, call.key, call.now);
    TailDecides(
      max, window, EventsAfter(max, window, calls, call.key), History(max, window, calls, call.key), call.now);
  }

  /** Admissions that are `max` apart in the log are a window apart in time. */
  ghost predicate Spread(h: seq<int>, max: nat, window: int) {
    forall i :: 0 <= i < |h| - max ==> h[i + max] >= h[i] + window
  }

  lemma SpreadStep(max: nat, window: int, e: seq<int>, h: seq<int>, now: int)
    requires TailOf(e, h, now, window) && Spread(h, max, window) && max > 0 && Allows(max, window, e, now)
    ensures Spread(h + [now], max, window)
  {
    TailPruned(e, h, now, window);
  }

  lemma {:induction false} SpreadInv(max: nat, window: int, calls: seq<Call>, key: Bytes)
    requires Chronological(calls, key) && max > 0
    ensures Spread(History(max, window, calls, key), max, window)
  {
    if calls != [] {
      var (front, last) := (Front(calls), calls[|calls| - 1]);
      var (e, h) := (EventsAfter(max, window, front, key), History(max, window, front, key));
      SpreadInv(max, window, front, key);
      if last.key == key && Allows(max, window, e, last.now) {
        TailInv(max, window, front, key, last.now);
        SpreadStep(max, window, e, h, last.now);
      }
    }
  }

  lemma {:induction false} NothingAllowed(max: int, window: int, calls: seq<Call>, key: Bytes)
    requires max <= 0
    ensures History(max, window, calls, key) == []
  {
    if calls != [] { NothingAllowed(max, window, Front(calls), key); }
  }

  /** How many times lie in the half-open window from `lo` to `hi`. */
  function CountIn(h: seq<int>, lo: int, hi: int): nat {
    if h == [] then 0
    else CountIn(h[..|h| - 1], lo, hi) + if lo <= h[|h| - 1] < hi then 1 else 0
  }

  /** In a sorted log, the times in a window that reaches the last entry are the last ones. */
  lemma {:induction false} CountIsTail(h: seq<int>, lo: int, hi: int)
    requires Ascending(h)
    ensures CountIn(h, lo, hi) <= |h|
    ensures h != [] && h[|h| - 1] < hi ==> forall i :: |h| - CountIn(h, lo, hi) <= i < |h| ==> lo <= h[i]
  {
    if h != [] {
      var front := h[..|h| - 1];
      CountIsTail(front, lo, hi);
      if h[|h| - 1] < hi && lo <= h[|h| - 1] && front != [] {
        assert front[|front| - 1] <= h[|h| - 1];
        forall i | |h| - CountIn(h, lo, hi) <= i < |h| ensures lo <= h[i] {
          if i < |front| { assert h[i] == front[i]; }
        }
      }
      if h[|h| - 1] < lo {
        NoneInWindow(h, lo, hi);
      }
    }
  }

  lemma {:induction false} NoneInWindow(h: seq<int>, lo: int, hi: int)
    requires Ascending(h) && (h != [] ==> h[|h| - 1] < lo)
    ensures CountIn(h, lo, hi) == 0
  {
    if h != [] {
      assert |h| > 1 ==> h[|h| - 2] <= h[|h| - 1];
      NoneInWindow(h[..|h| - 1], lo, hi);
    }
  }

  lemma {:induction false} SpreadBoundsWindow(h: seq<int>, max: nat, window: int, lo: int)
    requires Ascending(h) && max > 0 && Spread(h, max, window)
    ensures CountIn(h, lo, lo + window) <= max
  {
    if h != [] {
      var front := h[..|h| - 1];
      SpreadBoundsWindow(front, max, window, lo);
      if lo <= h[|h| - 1] < lo + window {
        CountIsTail(h, lo, lo + window);
        assert |h| > max ==> h[|h| - 1] >= h[|h| - 1 - max] + window;
      }
    }
  }

  /** A time by which all the key's calls were made. */
  lemma {:induction false} LastCall(calls: seq<Call>, key: Bytes) returns (now: int)
    ensures forall i :: 0 <= i < |calls| && calls[i].key == key ==> calls[i].now <= now
  {
    now := 0;
    if calls != [] {
      now := LastCall(Front(calls), key);
      var last := calls[|calls| - 1].now;
      now := if last > now then last else now;
    }
  }

  /** The limit: in every run, no half-open window of the configured length holds more than `max` admissions. */
  lemma WindowLimit(max: int, window: int, calls: seq<Call>, key: Bytes, lo: int)
    requires Chronological(calls, key)
    ensures CountIn(History(max, window, calls, key), lo, lo + window) <= if max > 0 then max else 0
  {
    if max <= 0 {
      NothingAllowed(max, window, calls, key);
    } else {
      var now := LastCall(calls, key);
      TailInv(max, window, calls, key, now);
      SpreadInv(max, window, calls, key);
      SpreadBoundsWindow(History(max, window, calls, key), max, window, lo);
    }
  }
}
