/** The limiter and the quota service as objects; their methods are the atomic steps of the admission protocol. */
module QuotaService {
  import opened ByteStrings
  import opened Int64
  import opened Admission

  datatype Scope = Granted | PerKey | Global

  /** What others make of the slots before the k-th try of a wait. */
  type Interference = (nat, Slots) -> Slots

  /** The slots before the n-th try, the earlier ones having found no room. */
  function Waited(others: Interference, s: Slots, n: nat): Slots {
    if n == 0 then s else others(n - 1, Waited(others, s, n - 1))
  }

  /** Others do not take the last slot of the key back. */
  ghost predicate LeavesSlot(others: Interference, key: Bytes) {
    forall k, t :: KeyOcc(t, key) > 0 ==> KeyOcc(others(k, t), key) > 0
  }

  lemma {:induction false} KeySlotKept(others: Interference, s: Slots, key: Bytes, n: nat)
    requires KeyOcc(s, key) > 0 && LeavesSlot(others, key)
    ensures KeyOcc(Waited(others, s, n), key) > 0
  {
    if n > 0 {
      KeySlotKept(others, s, key, n - 1);
    }
  }

  /** `ConcurrencyLimiter`: buffered channels as occupancy counts, per-key channels made on first use. */
  class ConcurrencyLimiter {
    const globalMax: int
    const perMax: int
    var global: nat
    var perKey: map<Bytes, nat>

    ghost function View(): Slots
      reads this
    {
      Slots(global, perKey)
    }

    ghost function Caps(): Config {
      Config(globalMax, perMax, map[], 0)
    }

    constructor (globalMax: int, perKeyMax: int)
      ensures this.globalMax == globalMax && perMax == perKeyMax && View() == Slots(0, map[])
    {
      this.globalMax, perMax, global, perKey := globalMax, perKeyMax, 0, map[];
    }

    /** Sends on the key's channel if it has room. */
    method EnterKey(key: Bytes) returns (ok: bool)
      modifies this
      ensures ok <==> KeyFree(Caps(), old(View()), key)
      ensures View() == if ok then WithKey(Caps(), old(View()), key) else old(View())
    {
      if perMax <= 0 {
        return true;
      }
      if key !in perKey {
        perKey := perKey[key := 0];
      }
      ok := perKey[key] < perMax;
      if ok {
        perKey := perKey[key := perKey[key] + 1];
      }
    }

    /** Sends on the global channel if it has room. */
    method EnterGlobal() returns (ok: bool)
      modifies this
      ensures ok <==> GlobalFree(Caps(), old(View()))
      ensures View() == if ok then WithGlobal(Caps(), old(View())) else old(View())
    {
      if globalMax <= 0 {
        return true;
      }
      ok := global < globalMax;
      if ok {
        global := global + 1;
      }
    }

    /** Whatever other callers do to the slots. */
    method Interfere(slots: Slots)
      modifies this
      ensures View() == slots
    {
      global, perKey := slots.global, slots.perKey;
    }

    /** The wait for a key slot: a send is tried after each change by others, until one succeeds or `n` have failed. */
    method WaitForKey(key: Bytes, n: nat, others: Interference) returns (i: nat)
      modifies this
      ensures i <= n && forall k :: 0 < k <= i ==> !KeyFree(Caps(), Waited(others, old(View()), k), key)
      ensures i < n ==> KeyFree(Caps(), Waited(others, old(View()), i + 1), key)
      ensures View() == if i < n then WithKey(Caps(), Waited(others, old(View()), i + 1), key)
                        else Waited(others, old(View()), n)
    {
      i := 0;
      while i < n
        invariant i <= n && View() == Waited(others, old(View()), i)
        invariant forall k :: 0 < k <= i ==> !KeyFree(Caps(), Waited(others, old(View()), k), key)
      {
        Interfere(others(i, Slots(global, perKey)));
        var ok := EnterKey(key);
        if ok {
          return;
        }
        i := i + 1;
      }
    }

    /** The wait for a global slot, likewise. */
    method WaitForGlobal(n: nat, others: Interference) returns (i: nat)
      modifies this
      ensures i <= n && forall k :: 0 < k <= i ==> !GlobalFree(Caps(), Waited(others, old(View()), k))
      ensures i < n ==> GlobalFree(Caps(), Waited(others, old(View()), i + 1))
      ensures View() == if i < n then WithGlobal(Caps(), Waited(others, old(View()), i + 1))
                        else Waited(others, old(View()), n)
    {
      i := 0;
      while i < n
        invariant i <= n && View() == Waited(others, old(View()), i)
        invariant forall k :: 0 < k <= i ==> !GlobalFree(Caps(), Waited(others, old(View()), k))
      {
        Interfere(others(i, Slots(global, perKey)));
        var ok := EnterGlobal();
        if ok {
          return;
        }
        i := i + 1;
      }
    }

    /**
     * `Acquire`. The sends are tried at most `n` and `m` times before the context is done, each time after others have
     * changed the slots, who do not take this caller's key slot back. The key slot comes first and is handed back when
     * the wait for a global slot ends without one. `i` and `j` count the tries that found no room.
     */
    method Acquire(key: Bytes, n: nat, before: Interference, m: nat, between: Interference)
      returns (scope: Scope, i: nat, j: nat)
      requires LeavesSlot(between, key)
      modifies this
      ensures i <= n && j <= m
      ensures forall k :: 0 < k <= i ==> !KeyFree(Caps(), Waited(before, old(View()), k), key)
      ensures scope == PerKey <==> perMax > 0 && i == n
      ensures scope == PerKey ==> View() == Waited(before, old(View()), n)
      ensures scope != PerKey && perMax > 0 ==> KeyFree(Caps(), Waited(before, old(View()), i + 1), key)
      ensures var keyed := if perMax > 0 then WithKey(Caps(), Waited(before, old(View()), i + 1), key) else old(View());
        scope != PerKey ==>
          && (forall k :: 0 < k <= j ==> !GlobalFree(Caps(), Waited(between, keyed, k)))
          && (scope == Global <==> globalMax > 0 && j == m)
          && (scope == Global ==> View() == WithoutKey(Caps(), Waited(between, keyed, m), key))
          && (scope == Granted && globalMax > 0 ==>
                && GlobalFree(Caps(), Waited(between, keyed, j + 1))
                && View() == WithGlobal(Caps(), Waited(between, keyed, j + 1)))
          && (scope == Granted && globalMax <= 0 ==> View() == keyed)
    {
      i, j := 0, 0;
      if perMax > 0 {
        i := WaitForKey(key, n, before);
        if i == n {
          return PerKey, i, j;
        }
      }
      if globalMax > 0 {
        ghost var keyed := View();
        j := WaitForGlobal(m, between);
        if j == m {
          if perMax > 0 {
            KeySlotKept(between, keyed, key, m);
            perKey := perKey[key := perKey[key] - 1];
          }
          return Global, i, j;
        }
      }
      scope := Granted;
    }

    /** The release closure, for a caller that was granted its slots: global slot first. */
    method Release(key: Bytes)
      requires globalMax > 0 ==> global > 0
      requires perMax > 0 ==> KeyOcc(View(), key) > 0
      modifies this
      ensures View() == WithoutKey(Caps(), WithoutGlobal(Caps(), old(View())), key)
    {
      if globalMax > 0 {
        global := global - 1;
      }
      if perMax > 0 {
        perKey := perKey[key := perKey[key] - 1];
      }
    }
  }

  // ---- Scanning a bucket ---------------------------------------------------------------

  datatype Usage = Usage(bytes: int, objects: int)

  /** One answer of the backend to a list call. */
  datatype Reply = Page(sizes: seq<int>, truncated: bool, token: Bytes) | ListError

  /** The object sizes a walk over the pages collects; none if it fails or never gets a last page. */
  function Listed(replies: seq<Reply>): Option<seq<int>> {
    if replies == [] || replies[0].ListError? then None
    else if !replies[0].truncated || replies[0].token == [] then Some(replies[0].sizes)
    else
      match Listed(replies[1..])
      case None => None
      case Some(more) => Some(replies[0].sizes + more)
  }

  function Sum(sizes: seq<int>): int {
    if sizes == [] then 0 else Sum(sizes[..|sizes| - 1]) + sizes[|sizes| - 1]
  }

  ghost predicate Int64Sizes(replies: seq<Reply>) {
    forall i, j :: 0 <= i < |replies| && replies[i].Page? && 0 <= j < |replies[i].sizes| ==>
      IsInt64(replies[i].sizes[j])
  }

  /** What a scan of the bucket reports. */
  function ScanResult(replies: seq<Reply>): Option<Usage> {
    match Listed(replies)
    case None => None
    case Some(sizes) => Some(Usage(Wrap64(Sum(sizes)), |sizes|))
  }

  /** Sums add up over concatenation, and the sum of one size is that size. */
  lemma {:induction false} SumConcat(a: seq<int>, b: seq<int>)
    ensures Sum(a + b) == Sum(a) + Sum(b)
    ensures |b| == 1 ==> Sum(b) == b[0]
  {
    if b == [] {
      assert a + b == a;
    } else {
      assert (a + b)[..|a + b| - 1] == a + b[..|b| - 1];
      SumConcat(a, b[..|b| - 1]);
    }
  }

  /** The replies of a backend that lists the pages one after the other, each but the last with a continuation. */
  ghost predicate Lists(replies: seq<Reply>, pages: seq<seq<int>>) {
    && |replies| >= |pages| > 0
    && (forall i :: 0 <= i < |pages| ==> replies[i].Page? && replies[i].sizes == pages[i])
    && (forall i :: 0 <= i < |pages| - 1 ==> replies[i].truncated && replies[i].token != [])
    && (replies[|pages| - 1].truncated ==> replies[|pages| - 1].token == [])
  }

  function Flat(pages: seq<seq<int>>): seq<int> {
    if pages == [] then [] else pages[0] + Flat(pages[1..])
  }

  /** A scan counts every object of every page. */
  lemma {:induction false} ScanCountsAll(replies: seq<Reply>, pages: seq<seq<int>>)
    requires Lists(replies, pages)
    ensures Listed(replies) == Some(Flat(pages))
    ensures ScanResult(replies) == Some(Usage(Wrap64(Sum(Flat(pages))), |Flat(pages)|))
  {
    if |pages| == 1 {
      assert Flat(pages[1..]) == [] && pages[0] + [] == pages[0];
    } else {
      assert Lists(replies[1..], pages[1..]);
      ScanCountsAll(replies[1..], pages[1..]);
    }
  }

  /** A scan fails when a page before the last one does, or the backend never gets to the last one. */
  lemma {:induction false} ScanFails(replies: seq<Reply>, n: nat)
    requires n <= |replies| && (n < |replies| ==> replies[n].ListError?)
    requires forall i :: 0 <= i < n ==> replies[i].Page? && replies[i].truncated && replies[i].token != []
    ensures ScanResult(replies) == None
  {
    if n > 0 {
      ScanFails(replies[1..], n - 1);
    }
  }

  /** Wrapping at every addition is wrapping once at the end. */
  lemma WrapOnce(x: int, y: int)
    requires IsInt64(y)
    ensures Add64(Wrap64(x), y) == Wrap64(x + y)
  {
    var (m, h) := (0x1_0000_0000_0000_0000, 0x8000_0000_0000_0000);
    var (q, r) := ((x + h) / m, (x + h) % m);
    assert x + h == q * m + r;
    assert x + y + h == q * m + (r + y);
    if r + y >= m {
      assert x + y + h == (q + 1) * m + (r + y - m);
      ModIs(x + y + h, q + 1, r + y - m);
    } else if r + y < 0 {
      assert x + y + h == (q - 1) * m + (r + y + m);
      ModIs(x + y + h, q - 1, r + y + m);
    } else {
      ModIs(x + y + h, q, r + y);
    }
  }

  lemma ModIs(x: int, q: int, r: int)
    requires x == q * 0x1_0000_0000_0000_0000 + r && 0 <= r < 0x1_0000_0000_0000_0000
    ensures x % 0x1_0000_0000_0000_0000 == r
  {
  }

  lemma SumSnoc(sizes: seq<int>, x: int)
    ensures Sum(sizes + [x]) == Sum(sizes) + x
  {
    assert (sizes + [x])[..|sizes|] == sizes;
  }

  /** The inner loop: the sizes of one page onto the running totals. */
  method AddPage(bytes0: int, count0: int, sizes: seq<int>, ghost seen: seq<int>) returns (bytes: int, count: int)
    requires bytes0 == Wrap64(Sum(seen)) && count0 == |seen|
    requires forall j :: 0 <= j < |sizes| ==> IsInt64(sizes[j])
    ensures bytes == Wrap64(Sum(seen + sizes)) && count == |seen + sizes|
  {
    bytes, count := bytes0, count0;
    assert seen + sizes[..0] == seen;
    for j := 0 to |sizes|
      invariant bytes == Wrap64(Sum(seen + sizes[..j])) && count == |seen| + j
    {
      WrapOnce(Sum(seen + sizes[..j]), sizes[j]);
      SumSnoc(seen + sizes[..j], sizes[j]);
      assert seen + sizes[..j] + [sizes[j]] == seen + sizes[..j + 1];
      bytes := Add64(bytes, sizes[j]);
      count := count + 1;
    }
    assert sizes[..|sizes|] == sizes;
  }

  /** The paging loop of `Scan`. */
  method WalkPages(replies: seq<Reply>) returns (usage: Option<Usage>)
    requires Int64Sizes(replies)
    ensures usage == ScanResult(replies)
  {
    var bytes, count := 0, 0;
    ghost var seen: seq<int> := [];
    var i := 0;
    assert replies[0..] == replies;
    assert Listed(replies).Some? ==> [] + Listed(replies).value == Listed(replies).value;
    while i < |replies|
      invariant 0 <= i <= |replies|
      invariant bytes == Wrap64(Sum(seen)) && count == |seen|
      invariant Listed(replies) == match Listed(replies[i..]) case None => None case Some(more) => Some(seen + more)
    {
      var res := replies[i];
      assert replies[i..][0] == res && replies[i..][1..] == replies[i + 1..];
      if res.ListError? {
        return None;
      }
      bytes, count := AddPage(bytes, count, res.sizes, seen);
      if !res.truncated || res.token == [] {
        return Some(Usage(bytes, count));
      }
      ListedStep(seen, res.sizes, Listed(replies[i + 1..]));
      seen := seen + res.sizes;
      i := i + 1;
    }
    usage := None;
  }

  lemma ListedStep(seen: seq<int>, sizes: seq<int>, rest: Option<seq<int>>)
    ensures rest.Some? ==> seen + (sizes + rest.value) == (seen + sizes) + rest.value
  {
  }

  const SYNC_SCAN_BACKOFF: int := 600_000_000_000  // ten minutes in nanoseconds

  /** `cacheKey`; backend ids hold no slash. */
  function CacheKey(backendID: Bytes, bucket: Bytes): Bytes {
    backendID + [Byte('/')] + bucket
  }

  lemma CacheKeyInjective(b1: Bytes, k1: Bytes, b2: Bytes, k2: Bytes)
    requires Byte('/') !in b1 && Byte('/') !in b2 && CacheKey(b1, k1) == CacheKey(b2, k2)
    ensures b1 == b2 && k1 == k2
  {
    CutInjective(b1, k1, Byte('/'), b2, k2);
  }

  /** The state of the service. */
  datatype World = World(cache: map<Bytes, Usage>, failedScans: map<Bytes, int>, inlineScans: set<Bytes>)

  /** `inSyncScanBackoff`. */
  predicate InBackoff(w: World, key: Bytes, now: int) {
    key in w.failedScans && now - w.failedScans[key] < SYNC_SCAN_BACKOFF
  }

  /** `quotas.Service`: cached usage, failed inline scans by time, and inline scans now running. */
  class Service {
    var cache: map<Bytes, Usage>
    var failedScans: map<Bytes, int>
    var inlineScans: set<Bytes>

    constructor ()
      ensures cache == map[] && failedScans == map[] && inlineScans == {}
    {
      cache, failedScans, inlineScans := map[], map[], {};
    }

    /** `Scan`: a new baseline on success, nothing on failure. */
    method Scan(key: Bytes, replies: seq<Reply>) returns (usage: Option<Usage>)
      requires Int64Sizes(replies)
      modifies this`cache, this`failedScans
      ensures usage == ScanResult(replies)
      ensures usage.Some? ==> cache == old(cache)[key := usage.value] && failedScans == old(failedScans) - {key}
      ensures usage.None? ==> cache == old(cache) && failedScans == old(failedScans)
    {
      usage := WalkPages(replies);
      if usage.Some? {
        cache := cache[key := usage.value];
        failedScans := failedScans - {key};
      }
    }

    /** `Recorded`: moves an existing baseline, creates none. */
    method Recorded(key: Bytes, addBytes: int)
      modifies this`cache
      ensures cache == if key in old(cache)
        then old(cache)[key := Usage(Add64(old(cache)[key].bytes, addBytes), Add64(old(cache)[key].objects, 1))]
        else old(cache)
    {
      if key in cache {
        var u := cache[key];
        cache := cache[key := Usage(Add64(u.bytes, addBytes), Add64(u.objects, 1))];
      }
    }

    ghost function View(): World
      reads this
    {
      World(cache, failedScans, inlineScans)
    }

    /** Whatever other calls do to the service between two sections under its mutex. */
    method Interfere(w: World)
      modifies this
      ensures View() == w
    {
      cache, failedScans, inlineScans := w.cache, w.failedScans, w.inlineScans;
    }

    /**
     * `CheckUpload`. `others(k, _)` is what other calls make of the service before its k-th section under the mutex.
     * The verdict is the protocol's on the usage the check saw: the baseline, or its own inline scan, which runs only
     * without a baseline, outside the back-off and while it holds the bucket's only slot. The slot is given back on
     * every path.
     */
    method CheckUpload(hard: Option<int>, key: Bytes, addBytes: int, now: int, later: int, replies: seq<Reply>,
                       others: (nat, World) -> World)
      returns (ok: bool, seen: Option<Usage>)
      requires Int64Sizes(replies)
      modifies this
      ensures hard.None? || hard.value <= 0 || seen.None? ==> ok
      ensures hard.Some? && hard.value > 0 && seen.Some? && IsInt64(seen.value.bytes + addBytes) ==>
        (ok <==> seen.value.bytes + addBytes <= hard.value)
      ensures seen.Some? && IsInt64(seen.value.bytes) && IsInt64(addBytes) && seen.value.bytes + addBytes > MAX_INT64
        ==> ok
      ensures ok == Verdict(hard, if seen.Some? then Some(seen.value.bytes) else None, addBytes)
      ensures AfterCheck(hard, key, now, later, ScanResult(replies), others, old(View())) == (View(), seen)
    {
      if hard.None? || hard.value <= 0 {
        return true, None;
      }
      if key in cache {
        seen := Some(cache[key]);
      } else {
        Interfere(others(0, World(cache, failedScans, inlineScans)));
        if InBackoff(World(cache, failedScans, inlineScans), key, now) {
          return true, None;
        }
        Interfere(others(1, World(cache, failedScans, inlineScans)));
        if key in inlineScans {
          return true, None;
        }
        inlineScans := inlineScans + {key};
        Interfere(others(2, World(cache, failedScans, inlineScans)));
        seen := Scan(key, replies);
        if seen.None? {
          Interfere(others(3, World(cache, failedScans, inlineScans)));
          failedScans := failedScans[key := later];
        }
        Interfere(others(4, World(cache, failedScans, inlineScans)));
        inlineScans := inlineScans - {key};
        if seen.None? {
          return true, None;
        }
      }
      ok := Add64(seen.value.bytes, addBytes) <= hard.value;
    }
  }

  // ---- The inline scan among other checks --------------------------------------------------

  /** The service after a check and the usage the check saw. */
  function AfterCheck(hard: Option<int>, key: Bytes, now: int, later: int, scan: Option<Usage>,
                   others: (nat, World) -> World, w: World): (World, Option<Usage>) {
    if hard.None? || hard.value <= 0 then (w, None)
    else if key in w.cache then (w, Some(w.cache[key]))
    else
      var w0 := others(0, w);
      if InBackoff(w0, key, now) then (w0, None)
      else
        var w1 := others(1, w0);
        if key in w1.inlineScans then (w1, None)
        else
          var w2 := others(2, w1.(inlineScans := w1.inlineScans + {key}));
          var w3 := ScanStored(w2, key, later, scan, others);
          var w4 := others(4, w3);
          (w4.(inlineScans := w4.inlineScans - {key}), scan)
  }

  /** A scan sets the baseline and clears the back-off, a failed one sets the back-off. */
  function ScanStored(w: World, key: Bytes, later: int, scan: Option<Usage>, others: (nat, World) -> World): World {
    match scan
    case Some(u) => w.(cache := w.cache[key := u], failedScans := w.failedScans - {key})
    case None => var v := others(3, w); v.(failedScans := v.failedScans[key := later])
  }

  /** Others leave a claimed inline-scan slot alone, and never claim one that is taken. */
  ghost predicate Respects(others: (nat, World) -> World, key: Bytes) {
    forall k, w: World :: key in w.inlineScans ==> key in others(k, w).inlineScans
  }

  /**
   * Alone with the bucket, a check leaves the inline-scan slots as they were, and stores what its scan found: a
   * baseline, or the time of the failure.
   */
  lemma CheckedAlone(hard: Option<int>, key: Bytes, now: int, later: int, scan: Option<Usage>, w: World)
    ensures var (v, seen) := AfterCheck(hard, key, now, later, scan, (_, w) => w, w);
      && v.inlineScans == w.inlineScans
      && var limited := hard.Some? && hard.value > 0;
         var backoff := key in w.failedScans && now < w.failedScans[key] + 10 * 60 * 1_000_000_000;
         if limited && key !in w.cache && !backoff && key !in w.inlineScans
         then match scan
           case Some(u) => v.cache == w.cache[key := u] && v.failedScans == w.failedScans - {key} && seen == Some(u)
           case None => v.cache == w.cache && v.failedScans == w.failedScans[key := later] && seen == None
         else v == w && seen == if limited && key in w.cache then Some(w.cache[key]) else None
  {
    if key !in w.inlineScans {
      assert w.inlineScans + {key} - {key} == w.inlineScans;
    }
  }

  /**
   * At most one inline scan of a bucket at a time: while a check holds the slot, every other check of the bucket that
   * finds no baseline passes without scanning and leaves the service as others made it.
   */
  lemma OneInlineScan(hard: Option<int>, key: Bytes, now: int, later: int, scan: Option<Usage>,
                      others: (nat, World) -> World, w: World)
    requires Respects(others, key) && key in w.inlineScans && key !in w.cache
    ensures var (v, seen) := AfterCheck(hard, key, now, later, scan, others, w);
      && seen == None && key in v.inlineScans
      && (v == w || v == others(0, w) || v == others(1, others(0, w)))
  {
  }
}
