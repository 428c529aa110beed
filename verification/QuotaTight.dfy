/** The overshoot bound is attained, and the conditions it holds under are exact. */
module QuotaTight {
  import opened ByteStrings
  import opened Int64
  import opened Admission
  import opened QuotaBound

  ghost predicate Reaches(c: Config, s: State, t: State) {
    exists acts :: Runs(c, s, acts) && After(c, s, acts) == t
  }

  lemma ReachesSelf(c: Config, s: State)
    ensures Reaches(c, s, s)
  {
    assert Runs(c, s, []) && After(c, s, []) == s;
  }

  lemma {:induction false} RunsOneMore(c: Config, s: State, acts: seq<Action>, a: Action)
    requires Runs(c, s, acts) && Enabled(c, After(c, s, acts), a)
    ensures Runs(c, s, acts + [a]) && After(c, s, acts + [a]) == Apply(c, After(c, s, acts), a)
    decreases |acts|
  {
    var all := acts + [a];
    if acts == [] {
      assert all[1..] == [];
    } else {
      RunsOneMore(c, Apply(c, s, acts[0]), acts[1..], a);
      assert all[1..] == acts[1..] + [a];
    }
  }

  lemma ReachesStep(c: Config, s: State, t: State, a: Action)
    requires Reaches(c, s, t) && Enabled(c, t, a)
    ensures Reaches(c, s, Apply(c, t, a))
  {
    var acts :| Runs(c, s, acts) && After(c, s, acts) == t;
    RunsOneMore(c, s, acts, a);
  }

  // ---- One upload ------------------------------------------------------------------------

  /** Distinct access keys, so that no key's own cap gets in the way. */
  function KeyNo(i: nat): Bytes {
    seq(i, _ => 0)
  }

  /** No slot is taken. */
  ghost predicate Quiet(s: State) {
    s.slots.global == 0 && forall key :: KeyOcc(s.slots, key) == 0
  }

  /** A new request that got as far as phase `p`, with slots, usage and storage as given. */
  function Progress(s: State, r: Request, p: Phase, slots: Slots, cached: map<Bytes, int>, stored: map<Bytes, nat>)
    : State {
    State(s.reqs + [r.(phase := p)], slots, cached, stored)
  }

  /** A step of the last request. */
  lemma Moved(c: Config, s: State, t: State, r: Request, u: State, a: Action, v: State, p: Phase)
    requires Reaches(c, s, u) && Enabled(c, u, a)
    requires |u.reqs| == |t.reqs| + 1 && u.reqs[..|t.reqs|] == t.reqs
    requires var w := Apply(c, u, a);
      && w.reqs == u.reqs[|t.reqs| := r.(phase := p)]
      && v == Progress(t, r, p, w.slots, w.cached, w.stored)
    ensures Reaches(c, s, v)
  {
    ReachesStep(c, s, u, a);
    assert u.reqs[|t.reqs| := r.(phase := p)] == t.reqs + [r.(phase := p)];
  }

  /** The check lets an upload of this length pass, when an inline scan, if there is one, fails. */
  predicate LetsPass(c: Config, s: State, b: Bytes, len: nat) {
    Limited(c, b) && (b in s.cached ==> Fits(s.cached[b], len, c.hard[b]))
  }

  /** An upload under a free key is admitted and passes the check. */
  lemma Pass(c: Config, s: State, t: State, b: Bytes, len: nat, key: Bytes) returns (u: State)
    requires Reaches(c, s, t) && 0 < len <= c.largest && LetsPass(c, t, b, len)
    requires t.slots.global < c.globalMax && KeyOcc(t.slots, key) == 0
    ensures u == Progress(t, Request(key, b, len, WaitKey), Checked, WithGlobal(c, WithKey(c, t.slots, key)), t.cached,
                          t.stored)
    ensures Reaches(c, s, u)
  {
    var (n, r) := (|t.reqs|, Request(key, b, len, WaitKey));
    var held := WithKey(c, t.slots, key);
    ReachesStep(c, s, t, Arrive(r));
    var u0 := Progress(t, r, WaitKey, t.slots, t.cached, t.stored);
    assert Apply(c, t, Arrive(r)) == u0;
    var u1 := Progress(t, r, WaitGlobal, held, t.cached, t.stored);
    Moved(c, s, t, r, u0, TakeKey(n), u1, WaitGlobal);
    var u2 := Progress(t, r, Admitted, WithGlobal(c, held), t.cached, t.stored);
    Moved(c, s, t, r, u1, TakeGlobal(n), u2, Admitted);
    u := Progress(t, r, Checked, WithGlobal(c, held), t.cached, t.stored);
    Moved(c, s, t, r, u2, Check(n, false), u, Checked);
  }

  /** Usage after recording an upload. */
  function Counted(cached: map<Bytes, int>, b: Bytes, len: nat): map<Bytes, int> {
    if b in cached then cached[b := Add64(cached[b], len)] else cached
  }

  /** An upload lands and is recorded. */
  lemma LandAndRecord(c: Config, s: State, t: State, r: Request, slots: Slots)
    requires r.len > 0 && Reaches(c, s, Progress(t, r, Checked, slots, t.cached, t.stored))
    ensures Reaches(c, s, Progress(t, r, Finished, slots, Counted(t.cached, r.bucket, r.len),
                                   t.stored[r.bucket := Stored(t, r.bucket) + r.len]))
  {
    var more := t.stored[r.bucket := Stored(t, r.bucket) + r.len];
    var n := |t.reqs|;
    var u := Progress(t, r, Checked, slots, t.cached, t.stored);
    var v := Progress(t, r, Landed, slots, t.cached, more);
    Moved(c, s, t, r, u, Land(n, r.len), v, Landed);
    var w := Progress(t, r, Finished, slots, Counted(t.cached, r.bucket, r.len), more);
    Moved(c, s, t, r, v, Record(n), w, Finished);
  }

  /** Taking the two slots and giving them back leaves none taken. */
  lemma SlotsReturn(c: Config, t: State, key: Bytes)
    requires Quiet(t)
    ensures var slots := WithoutKey(c, WithoutGlobal(c, WithGlobal(c, WithKey(c, t.slots, key))), key);
      slots.global == 0 && forall k :: KeyOcc(slots, k) == 0
  {
    var slots := WithoutKey(c, WithoutGlobal(c, WithGlobal(c, WithKey(c, t.slots, key))), key);
    forall k
      ensures KeyOcc(slots, k) == 0
    {
      assert KeyOcc(t.slots, k) == 0 && KeyOcc(t.slots, key) == 0;
    }
  }

  /** From a quiet state to the next, a whole upload. */
  lemma Upload(c: Config, s: State, t: State, b: Bytes, len: nat) returns (u: State)
    requires Reaches(c, s, t) && Quiet(t) && c.globalMax > 0 && 0 < len <= c.largest && LetsPass(c, t, b, len)
    ensures Reaches(c, s, u) && Quiet(u)
    ensures b in u.stored && Stored(u, b) == Stored(t, b) + len && u.cached == Counted(t.cached, b, len)
  {
    SlotsReturn(c, t, []);
    var (n, r) := (|t.reqs|, Request([], b, len, WaitKey));
    var slots := WithGlobal(c, WithKey(c, t.slots, []));
    u := Pass(c, s, t, b, len, []);
    LandAndRecord(c, s, t, r, slots);
    var (used, more) := (Counted(t.cached, b, len), t.stored[b := Stored(t, b) + len]);
    var v := Progress(t, r, Finished, slots, used, more);
    var w := Progress(t, r, Returning, WithoutGlobal(c, slots), used, more);
    Moved(c, s, t, r, v, ReleaseGlobal(n), w, Returning);
    u := Progress(t, r, Gone, WithoutKey(c, WithoutGlobal(c, slots), []), used, more);
    Moved(c, s, t, r, w, ReleaseKey(n), u, Gone);
  }

  // ---- Without a baseline ---------------------------------------------------------------

  lemma {:induction false} UncheckedUploads(c: Config, s: State, b: Bytes, k: nat) returns (u: State)
    requires Quiet(s) && b !in s.cached && c.globalMax > 0 && c.largest > 0 && Limited(c, b)
    ensures Reaches(c, s, u) && Quiet(u) && b !in u.cached && Stored(u, b) >= k
    decreases k
  {
    if k == 0 {
      ReachesSelf(c, s);
      u := s;
    } else {
      u := UncheckedUploads(c, s, b, k - 1);
      u := Upload(c, s, u, b, c.largest);
    }
  }

  /**
   * For a given configuration, quota and upload size, a bucket that starts without a baseline can be filled beyond
   * any amount, when inline scans fail.
   */
  lemma NoBaselineNoBound(c: Config, s: State, b: Bytes, amount: nat)
    requires c.globalMax > 0 && c.largest > 0 && Limited(c, b) && Empty(s) && b !in s.cached
    ensures exists acts :: Runs(c, s, acts) && Stored(After(c, s, acts), b) >= amount
  {
    var u := UncheckedUploads(c, s, b, amount);
  }

  // ---- A run that uses the whole overshoot -------------------------------------------------

  /** Emptied and scanned: usage and storage are both 0. */
  lemma Emptied(c: Config, s: State, b: Bytes) returns (u: State)
    requires Quiet(s)
    ensures Reaches(c, s, u) && Quiet(u) && b in u.stored && u.stored[b] == 0 && b in u.cached && u.cached[b] == 0
  {
    ReachesSelf(c, s);
    ReachesStep(c, s, s, Delete(b, Stored(s, b)));
    u := Apply(c, s, Delete(b, Stored(s, b)));
    ReachesStep(c, s, u, Scan(b));
    u := Apply(c, u, Scan(b));
  }

  /** Filled byte by byte. */
  lemma {:induction false} Filled(c: Config, s: State, b: Bytes, x: nat) returns (u: State)
    requires Quiet(s) && c.globalMax > 0 && c.largest > 0 && Limited(c, b) && x <= c.hard[b] <= MAX_INT64
    ensures Reaches(c, s, u) && Quiet(u) && b in u.stored && u.stored[b] == x && b in u.cached && u.cached[b] == x
    decreases x
  {
    if x == 0 {
      u := Emptied(c, s, b);
    } else {
      u := Filled(c, s, b, x - 1);
      u := Upload(c, s, u, b, 1);
    }
  }

  /** Uploads in flight, each under a key of its own. */
  function Flight(b: Bytes, len: nat, phases: seq<Phase>): (rs: seq<Request>)
    ensures |rs| == |phases|
  {
    seq(|phases|, i requires 0 <= i < |phases| => Request(KeyNo(i), b, len, phases[i]))
  }

  function SlotsFor(c: Config, slots: Slots, n: nat): Slots {
    if n == 0 then slots else WithGlobal(c, WithKey(c, SlotsFor(c, slots, n - 1), KeyNo(n - 1)))
  }

  lemma {:induction false} SlotsForFacts(c: Config, t: State, n: nat, j: nat)
    requires Quiet(t) && c.globalMax > 0 && n <= j
    ensures SlotsFor(c, t.slots, n).global == n && KeyOcc(SlotsFor(c, t.slots, n), KeyNo(j)) == 0
  {
    if n > 0 {
      SlotsForFacts(c, t, n - 1, j);
      assert |KeyNo(n - 1)| != |KeyNo(j)|;
    }
  }

  /** On top of a quiet state: uploads in flight, usage `x` and `y` bytes stored. */
  function Wave(c: Config, t: State, b: Bytes, len: nat, phases: seq<Phase>, x: int, y: nat): State {
    State(t.reqs + Flight(b, len, phases), SlotsFor(c, t.slots, |phases|), t.cached[b := x], t.stored[b := y])
  }

  /** One more upload passes, because usage has not moved yet. */
  lemma GrowWave(c: Config, s: State, t: State, b: Bytes, len: nat, phases: seq<Phase>, x: int, y: nat)
    requires Quiet(t) && Limited(c, b) && 0 < len <= c.largest && |phases| < c.globalMax && Fits(x, len, c.hard[b])
    requires Reaches(c, s, Wave(c, t, b, len, phases, x, y))
    ensures Reaches(c, s, Wave(c, t, b, len, phases + [Checked], x, y))
  {
    var n := |phases|;
    var w := Wave(c, t, b, len, phases, x, y);
    SlotsForFacts(c, t, n, n);
    var u := Pass(c, s, w, b, len, KeyNo(n));
    assert Flight(b, len, phases) + [Request(KeyNo(n), b, len, Checked)] == Flight(b, len, phases + [Checked]);
    assert u.reqs == Wave(c, t, b, len, phases + [Checked], x, y).reqs;
  }

  /** The i-th upload of the wave lands. */
  lemma LandOne(c: Config, s: State, t: State, b: Bytes, len: nat, phases: seq<Phase>, x: int, y: nat, i: nat)
    requires i < |phases| && phases[i] == Checked && Reaches(c, s, Wave(c, t, b, len, phases, x, y))
    ensures Reaches(c, s, Wave(c, t, b, len, phases[i := Landed], x, y + len))
  {
    var w := Wave(c, t, b, len, phases, x, y);
    var a := Land(|t.reqs| + i, len);
    ReachesStep(c, s, w, a);
    WaveMove(c, t, b, len, phases, x, y, i, Landed);
    assert Apply(c, w, a) == Wave(c, t, b, len, phases[i := Landed], x, y + len);
  }

  lemma WaveMove(c: Config, t: State, b: Bytes, len: nat, phases: seq<Phase>, x: int, y: nat, i: nat, p: Phase)
    requires i < |phases|
    ensures Move(Wave(c, t, b, len, phases, x, y), |t.reqs| + i, p).reqs == t.reqs + Flight(b, len, phases[i := p])
  {
  }

  /** The i-th upload of the wave is recorded. */
  lemma RecordOne(c: Config, s: State, t: State, b: Bytes, len: nat, phases: seq<Phase>, x: int, y: nat, i: nat)
    requires len > 0 && i < |phases| && phases[i] == Landed && Reaches(c, s, Wave(c, t, b, len, phases, x, y))
    ensures Reaches(c, s, Wave(c, t, b, len, phases[i := Finished], Add64(x, len), y))
  {
    var w := Wave(c, t, b, len, phases, x, y);
    var a := Record(|t.reqs| + i);
    ReachesStep(c, s, w, a);
    WaveMove(c, t, b, len, phases, x, y, i, Finished);
    assert Apply(c, w, a) == Wave(c, t, b, len, phases[i := Finished], Add64(x, len), y);
  }

  /** The first `j` of `n` uploads are in phase `p`, the others in phase `q`. */
  function Mixed(n: nat, j: nat, p: Phase, q: Phase): (r: seq<Phase>)
    ensures |r| == n
  {
    seq(n, i => if i < j then p else q)
  }

  lemma {:induction false} AllPass(c: Config, s: State, t: State, b: Bytes, len: nat, x: nat, y: nat, n: nat)
    requires Quiet(t) && Limited(c, b) && 0 < len <= c.largest && n <= c.globalMax && Fits(x, len, c.hard[b])
    requires Reaches(c, s, Wave(c, t, b, len, [], x, y))
    ensures Reaches(c, s, Wave(c, t, b, len, Mixed(n, 0, Landed, Checked), x, y))
  {
    if n == 0 {
      assert Mixed(0, 0, Landed, Checked) == [];
    } else {
      AllPass(c, s, t, b, len, x, y, n - 1);
      GrowWave(c, s, t, b, len, Mixed(n - 1, 0, Landed, Checked), x, y);
      assert Mixed(n - 1, 0, Landed, Checked) + [Checked] == Mixed(n, 0, Landed, Checked);
    }
  }

  lemma {:induction false} AllLand(c: Config, s: State, t: State, b: Bytes, len: nat, x: nat, y: nat, n: nat, j: nat)
    requires j <= n && Reaches(c, s, Wave(c, t, b, len, Mixed(n, 0, Landed, Checked), x, y))
    ensures Reaches(c, s, Wave(c, t, b, len, Mixed(n, j, Landed, Checked), x, y + j * len))
  {
    if j > 0 {
      AllLand(c, s, t, b, len, x, y, n, j - 1);
      LandOne(c, s, t, b, len, Mixed(n, j - 1, Landed, Checked), x, y + (j - 1) * len, j - 1);
      MixedStep(n, j, Landed, Checked);
      TimesStep(j, len);
    }
  }

  lemma MixedStep(n: nat, j: nat, p: Phase, q: Phase)
    requires 0 < j <= n
    ensures Mixed(n, j - 1, p, q)[j - 1 := p] == Mixed(n, j, p, q)
  {
  }

  lemma TimesStep(j: nat, len: nat)
    requires j > 0
    ensures (j - 1) * len + len == j * len
  {
  }

  /** All slots carry an upload that passed while usage left room for exactly one, and all have landed. */
  lemma Overshot(c: Config, s: State, b: Bytes) returns (t: State)
    requires Quiet(s) && c.globalMax > 0 && c.largest > 0 && Limited(c, b) && c.hard[b] <= MAX_INT64
    ensures Quiet(t) && Ceiling(c, b) >= 0
    ensures var u := Unit(c, b);
      Reaches(c, s, Wave(c, t, b, u, Mixed(c.globalMax, c.globalMax, Landed, Checked), c.hard[b] - u, Ceiling(c, b)))
  {
    var (g, u) := (c.globalMax, Unit(c, b));
    var x := c.hard[b] - u;
    t := Filled(c, s, b, x);
    assert Flight(b, u, []) == [] && t.reqs + [] == t.reqs;
    assert t.cached[b := x] == t.cached && t.stored[b := x] == t.stored;
    assert Wave(c, t, b, u, [], x, x) == t;
    AllPass(c, s, t, b, u, x, x, g);
    AllLand(c, s, t, b, u, x, x, g, g);
    Scale(u, 0, g - 1);
    assert x + g * u == c.hard[b] + (g - 1) * u;
  }

  /** From every quiet start, whatever its baseline, some run stores exactly the bound. */
  lemma OvershootAttained(c: Config, s: State, b: Bytes)
    requires Empty(s) && c.globalMax > 0 && c.largest > 0 && Limited(c, b) && c.hard[b] <= MAX_INT64
    ensures exists acts :: Runs(c, s, acts) && Stored(After(c, s, acts), b) == Ceiling(c, b)
  {
    var t := Overshot(c, s, b);
  }

  // ---- When a sum of the check leaves 64 bits -----------------------------------------------

  /** Recording one upload after another, usage comes to where the next sum leaves 64 bits. */
  lemma {:induction false} UsageClimbs(c: Config, s: State, t: State, b: Bytes, len: nat, x: nat, y: nat, n: nat,
                                       k: nat)
    returns (top: nat)
    requires 0 < len <= c.largest && k < n && x + c.largest <= MAX_INT64 < x + (n - k) * len + c.largest
    requires Reaches(c, s, Wave(c, t, b, len, Mixed(n, k, Finished, Landed), x, y))
    ensures x < top <= MAX_INT64 < top + c.largest
    ensures exists j :: 0 < j <= n && Reaches(c, s, Wave(c, t, b, len, Mixed(n, j, Finished, Landed), top, y))
    decreases n - k
  {
    RecordOne(c, s, t, b, len, Mixed(n, k, Finished, Landed), x, y, k);
    MixedStep(n, k + 1, Finished, Landed);
    top := x + len;
    if top + c.largest <= MAX_INT64 {
      TimesStep(n - k, len);
      top := UsageClimbs(c, s, t, b, len, top, y, n, k + 1);
    }
  }

  /** With usage that high, a slot given back lets one more upload pass and land. */
  lemma OneTooMany(c: Config, s: State, t: State, b: Bytes, len: nat, x: nat, y: nat, n: nat, j: nat) returns (u: State)
    requires Quiet(t) && Limited(c, b) && c.hard[b] <= MAX_INT64 && 0 < c.largest <= MAX_INT64
    requires 0 < j <= n == c.globalMax && x <= MAX_INT64 < x + c.largest
    requires Reaches(c, s, Wave(c, t, b, len, Mixed(n, j, Finished, Landed), x, y))
    ensures Reaches(c, s, u) && Stored(u, b) == y + c.largest
  {
    var w := Wave(c, t, b, len, Mixed(n, j, Finished, Landed), x, y);
    SlotsForFacts(c, t, n, n);
    ReachesStep(c, s, w, ReleaseGlobal(|t.reqs|));
    var v := Apply(c, w, ReleaseGlobal(|t.reqs|));
    FitsExactly(x, c.largest, c.hard[b]);
    u := Pass(c, s, v, b, c.largest, KeyNo(n));
    ReachesStep(c, s, u, Land(|v.reqs|, c.largest));
    u := Apply(c, u, Land(|v.reqs|, c.largest));
  }

  /** A scan in the middle of the wave replaces usage by what is stored. */
  lemma Rescanned(c: Config, s: State, t: State, b: Bytes, len: nat, phases: seq<Phase>, x: int, y: nat)
    requires y <= MAX_INT64 && Reaches(c, s, Wave(c, t, b, len, phases, x, y))
    ensures Reaches(c, s, Wave(c, t, b, len, phases, y, y))
  {
    var w := Wave(c, t, b, len, phases, x, y);
    ReachesStep(c, s, w, Scan(b));
    Wrap64Exact(y);
    assert Apply(c, w, Scan(b)) == Wave(c, t, b, len, phases, y, y);
  }

  /** If usage can climb out of 64 bits, some run stores more than the bound. */
  lemma ClimbBreaksBound(c: Config, s: State, b: Bytes)
    requires Quiet(s) && c.globalMax > 0 && Limited(c, b) && c.hard[b] <= MAX_INT64 && 0 < c.largest <= MAX_INT64
    requires Ceiling(c, b) + c.globalMax * Unit(c, b) + c.largest > MAX_INT64
    ensures exists acts :: Runs(c, s, acts) && Stored(After(c, s, acts), b) > Ceiling(c, b)
  {
    var (g, u, y) := (c.globalMax, Unit(c, b), Ceiling(c, b));
    var t := Overshot(c, s, b);
    var x := c.hard[b] - u;
    var landed := Mixed(g, g, Landed, Checked);
    assert landed == Mixed(g, 0, Finished, Landed);
    if y + c.largest <= MAX_INT64 {
      Rescanned(c, s, t, b, u, landed, x, y);
      x := y;
    } else {
      assert x + g * u == y by { TimesStep(g, u); }
    }
    var top := UsageClimbs(c, s, t, b, u, x, y, g, 0);
    var j :| 0 < j <= g && Reaches(c, s, Wave(c, t, b, u, Mixed(g, j, Finished, Landed), top, y));
    var v := OneTooMany(c, s, t, b, u, top, y, g, j);
  }

  /** Usage so far below storage that every upload passes while the bound is kept. */
  ghost predicate Sunk(c: Config, t: State, b: Bytes)
    requires Limited(c, b)
  {
    && Quiet(t) && b in t.cached && -MAX_INT64 - 1 <= t.cached[b]
    && t.cached[b] - Stored(t, b) + Ceiling(c, b) + c.largest <= c.hard[b] <= MAX_INT64
  }

  lemma {:induction false} SunkBreaksBound(c: Config, s: State, t: State, b: Bytes)
    requires c.globalMax > 0 && c.largest > 0 && Limited(c, b) && Sunk(c, t, b) && Reaches(c, s, t)
    ensures exists u :: Reaches(c, s, u) && Stored(u, b) > Ceiling(c, b)
    decreases Ceiling(c, b) + 1 - Stored(t, b)
  {
    if Stored(t, b) <= Ceiling(c, b) {
      var u := Upload(c, s, t, b, c.largest);
      SunkBreaksBound(c, s, u, b);
    }
  }

  /** If usage starts so high that one upload takes the sum out of 64 bits, some run stores more than the bound. */
  lemma HighStartBreaksBound(c: Config, s: State, b: Bytes)
    requires Quiet(s) && c.globalMax > 0 && Limited(c, b) && c.hard[b] <= MAX_INT64 && 0 < c.largest <= MAX_INT64
    requires b in s.cached && 0 <= s.cached[b] <= MAX_INT64 < s.cached[b] + c.largest
    requires Ceiling(c, b) + c.globalMax * Unit(c, b) + c.largest <= MAX_INT64
    ensures exists acts :: Runs(c, s, acts) && Stored(After(c, s, acts), b) > Ceiling(c, b)
  {
    ReachesSelf(c, s);
    FitsExactly(s.cached[b], c.largest, c.hard[b]);
    var t := Upload(c, s, s, b, c.largest);
    Scale(Unit(c, b), 0, c.globalMax);
    SunkBreaksBound(c, s, t, b);
  }

  // ---- The exact condition --------------------------------------------------------------------

  /** In every run the bucket stays within its quota plus (G - 1) * min(m, h) bytes. */
  ghost predicate AlwaysBounded(c: Config, s: State, b: Bytes)
    requires Limited(c, b)
  {
    forall acts :: Runs(c, s, acts) ==> Stored(After(c, s, acts), b) <= Ceiling(c, b)
  }

  /**
   * The quota bound, exactly: from a start within the quota whose baseline, if there is one, covers what is stored,
   * every run is bounded if and only if there is a baseline and no sum of the check can leave 64 bits.
   */
  lemma BoundedExactly(c: Config, s: State, b: Bytes)
    requires c.globalMax > 0 && 0 < c.largest <= MAX_INT64 && Limited(c, b) && c.hard[b] <= MAX_INT64
    requires Empty(s) && Stored(s, b) <= c.hard[b]
    requires b in s.cached ==> Stored(s, b) <= s.cached[b] <= MAX_INT64
    ensures AlwaysBounded(c, s, b) <==> b in s.cached && SumsFit(c, b, s.cached[b])
  {
    if b !in s.cached {
      Scale(Unit(c, b), 0, c.globalMax - 1);
      NoBaselineNoBound(c, s, b, Ceiling(c, b) + 1);
    } else if Ceiling(c, b) + c.globalMax * Unit(c, b) + c.largest > MAX_INT64 {
      ClimbBreaksBound(c, s, b);
    } else if s.cached[b] + c.largest > MAX_INT64 {
      HighStartBreaksBound(c, s, b);
    } else {
      forall acts | Runs(c, s, acts)
        ensures Stored(After(c, s, acts), b) <= Ceiling(c, b)
      {
        QuotaOvershoot(c, s, b, acts);
      }
    }
  }
}
