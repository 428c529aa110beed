/** The recursive prefix copy of the dashboard API: the walk over listing pages and what it leaves in the buckets. */
module PrefixCopy {
  import opened ByteStrings

  datatype Place = Place(backend: Bytes, bucket: Bytes)

  datatype Loc = Loc(place: Place, key: Bytes)

  type Store = map<Loc, Bytes>

  /** One request; `valid` is the object-key rule (`validObjectKey`). */
  datatype Job = Job(from: Place, src: Bytes, to: Place, dst: Bytes, valid: Bytes -> bool)

  /** One entry of a listing. */
  datatype Obj = Obj(key: Bytes, size: nat)

  datatype Tally = Tally(store: Store, copied: nat, failed: nat, skipped: nat, bytes: nat)

  predicate ValidPrefix(valid: Bytes -> bool, p: Bytes) {
    p == [] || (HasSuffix(p, Ascii("/")) && valid(p))
  }

  /** The checks before the walk starts. */
  predicate Accepts(j: Job) {
    && ValidPrefix(j.valid, j.src)
    && ValidPrefix(j.valid, j.dst)
    && (j.from == j.to ==> !HasPrefix(j.dst, j.src))
  }

  function Target(j: Job, key: Bytes): Loc {
    Loc(j.to, j.dst + TrimPrefix(key, j.src))
  }

  /** One copy (`copyOnePrefix`): reads the source as it is now and writes the target, or fails and writes nothing. */
  function CopyOne(j: Job, s: Store, o: Obj, ok: bool): Option<Store> {
    if ok && Loc(j.from, o.key) in s then Some(s[Target(j, o.key) := s[Loc(j.from, o.key)]]) else None
  }

  function Visit(j: Job, t: Tally, o: Obj, ok: bool): Tally {
    var target := Target(j, o.key);
    if target.key == [] then t.(skipped := t.skipped + 1)
    else if !j.valid(target.key) then t.(failed := t.failed + 1)
    else match CopyOne(j, t.store, o, ok)
      case None => t.(failed := t.failed + 1)
      case Some(s) => t.(store := s, copied := t.copied + 1, bytes := t.bytes + o.size)
  }

  /** The whole walk; `ok(n)` says whether the n-th copy succeeds. */
  function Walk(j: Job, start: Store, objs: seq<Obj>, ok: nat -> bool): Tally
    decreases |objs|
  {
    if objs == [] then Tally(start, 0, 0, 0, 0)
    else
      var n := |objs| - 1;
      Visit(j, Walk(j, start, objs[..n], ok), objs[n], ok(n))
  }

  // ---- The handler --------------------------------------------------------------------

  datatype Reply = ListFailed | Page(objects: seq<Obj>, truncated: bool, next: Bytes)

  datatype Listing = Listing(objects: seq<Obj>, complete: bool)

  /** What a run of list calls yields: the walk stops at a failed call or at a page without a continuation. */
  function Listed(replies: seq<Reply>): Listing
    decreases |replies|
  {
    if replies == [] || replies[0].ListFailed? then Listing([], false)
    else if !replies[0].truncated || replies[0].next == [] then Listing(replies[0].objects, true)
    else
      var rest := Listed(replies[1..]);
      Listing(replies[0].objects + rest.objects, rest.complete)
  }

  /** `listed` puts pages together as `Listed` does. */
  ghost predicate Pages(listed: seq<Reply> -> Listing) {
    forall replies: seq<Reply> :: PagesAt(listed, replies)
  }

  ghost predicate PagesAt(listed: seq<Reply> -> Listing, replies: seq<Reply>) {
    listed(replies) ==
    if replies == [] || replies[0].ListFailed? then Listing([], false)
    else if !replies[0].truncated || replies[0].next == [] then Listing(replies[0].objects, true)
    else Listing(replies[0].objects + listed(replies[1..]).objects, listed(replies[1..]).complete)
  }

  datatype End = Rejected | Done | Cancelled | ListError

  /** `walk` is some walk that visits objects one by one. */
  ghost predicate Steps(j: Job, walk: seq<Obj> -> Tally, ok: nat -> bool) {
    forall objs: seq<Obj>, o: Obj :: StepsTo(j, walk, ok, objs, o)
  }

  ghost predicate StepsTo(j: Job, walk: seq<Obj> -> Tally, ok: nat -> bool, objs: seq<Obj>, o: Obj) {
    walk(objs + [o]) == Visit(j, walk(objs), o, ok(|objs|))
  }

  lemma WalkSteps(j: Job, start: Store, ok: nat -> bool)
    ensures Steps(j, objs => Walk(j, start, objs, ok), ok)
  {
    var walk: seq<Obj> -> Tally := objs => Walk(j, start, objs, ok);
    forall objs: seq<Obj>, o: Obj
      ensures StepsTo(j, walk, ok, objs, o)
    {
      assert (objs + [o])[..|objs|] == objs;
    }
  }

  lemma NextStep(j: Job, walk: seq<Obj> -> Tally, ok: nat -> bool, done: seq<Obj>, page: seq<Obj>, n: nat)
    requires Steps(j, walk, ok) && n < |page|
    ensures walk(done + page[..n + 1]) == Visit(j, walk(done + page[..n]), page[n], ok(|done| + n))
  {
    assert StepsTo(j, walk, ok, done + page[..n], page[n]);
    assert done + page[..n + 1] == (done + page[..n]) + [page[n]];
  }

  /** One turn of the inner loop. */
  method VisitOne(j: Job, t: Tally, o: Obj, ok: bool) returns (r: Tally)
    ensures r == Visit(j, t, o, ok)
  {
    var dstKey := j.dst + TrimPrefix(o.key, j.src);
    if dstKey == [] {
      return t.(skipped := t.skipped + 1);
    }
    if !j.valid(dstKey) {
      return t.(failed := t.failed + 1);
    }
    var c := CopyOne(j, t.store, o, ok);
    if c.None? {
      return t.(failed := t.failed + 1);
    }
    r := t.(store := c.value, copied := t.copied + 1, bytes := t.bytes + o.size);
  }

  /** The inner loop: one page, after `done`, until the context is cancelled. */
  method WalkPage(j: Job, ghost walk: seq<Obj> -> Tally, ghost done: seq<Obj>, page: seq<Obj>, t: Tally, first: nat,
                  cancelAt: nat, ok: nat -> bool)
    returns (r: Tally, n: nat)
    requires Steps(j, walk, ok) && first == |done| < cancelAt && t == walk(done)
    ensures n <= |page| && first + n <= cancelAt && (n < |page| ==> first + n == cancelAt)
    ensures r == walk(done + page[..n])
  {
    r, n := t, 0;
    assert done + page[..0] == done;
    while n < |page|
      invariant n <= |page| && first + n <= cancelAt
      invariant r == walk(done + page[..n])
    {
      if first + n >= cancelAt {
        break;
      }
      NextStep(j, walk, ok, done, page, n);
      r := VisitOne(j, r, page[n], ok(first + n));
      n := n + 1;
    }
  }

  /** The outer loop, one list call a turn; calls past the given replies fail. */
  method WalkPages(
    j: Job, ghost walk: seq<Obj> -> Tally, ghost listed: seq<Reply> -> Listing, t0: Tally, replies: seq<Reply>,
    cancelAt: nat, ok: nat -> bool)
    returns (t: Tally, end: End, visited: nat)
    requires Steps(j, walk, ok) && Pages(listed) && t0 == walk([])
    ensures end != Rejected && visited <= |listed(replies).objects|
    ensures t == walk(listed(replies).objects[..visited])
    ensures end == Done ==> visited == |listed(replies).objects| && listed(replies).complete
    ensures end == ListError ==> visited == |listed(replies).objects| && !listed(replies).complete
    ensures end == Cancelled ==> visited == cancelAt
  {
    ghost var done: seq<Obj> := [];
    var p := 0;
    t, visited := t0, 0;
    assert replies[0..] == replies;
    while true
      invariant p <= |replies| && visited == |done| <= cancelAt && t == walk(done)
      invariant Ahead(listed, replies, p, done)
      decreases |replies| - p
    {
      if visited >= cancelAt {
        AheadPrefix(listed, replies, p, done);
        return t, Cancelled, visited;
      }
      if p == |replies| || replies[p].ListFailed? {
        AheadPrefix(listed, replies, p, done);
        return t, ListError, visited;
      }
      var page, n := replies[p], 0;
      t, n := WalkPage(j, walk, done, page.objects, t, visited, cancelAt, ok);
      visited := visited + n;
      PageAhead(listed, replies, p, done, n);
      if n < |page.objects| {
        return t, Cancelled, visited;
      }
      done := done + page.objects[..n];
      if !page.truncated || page.next == [] {
        return t, Done, visited;
      }
      p := p + 1;
    }
  }

  /**
   * `handleCopyPrefix`. The context counts as cancelled once `cancelAt` objects have been visited. Whatever the
   * paging, the result is the walk over a prefix of the listed objects, and over all of them when it reports neither
   * a cancellation nor a failed listing.
   */
  method CopyPrefix(j: Job, start: Store, replies: seq<Reply>, cancelAt: nat, ok: nat -> bool)
    returns (t: Tally, end: End, visited: nat)
    ensures visited <= |Listed(replies).objects|
    ensures t == Walk(j, start, Listed(replies).objects[..visited], ok)
    ensures end == Rejected <==> !Accepts(j)
    ensures end == Rejected ==> visited == 0
    ensures end == Done ==> visited == |Listed(replies).objects| && Listed(replies).complete
    ensures end == ListError ==> visited == |Listed(replies).objects| && !Listed(replies).complete
    ensures end == Cancelled ==> visited == cancelAt
  {
    t := Tally(start, 0, 0, 0, 0);
    if !Accepts(j) {
      return t, Rejected, 0;
    }
    WalkSteps(j, start, ok);
    ListedPages();
    t, end, visited := WalkPages(j, objs => Walk(j, start, objs, ok), r => Listed(r), t, replies, cancelAt, ok);
  }

  /** After `p` pages, with `done` visited: what is listed is `done` and then what the remaining replies list. */
  ghost predicate Ahead(listed: seq<Reply> -> Listing, replies: seq<Reply>, p: nat, done: seq<Obj>)
    requires p <= |replies|
  {
    listed(replies) == Listing(done + listed(replies[p..]).objects, listed(replies[p..]).complete)
  }

  lemma ListedPages()
    ensures Pages(r => Listed(r))
  {
    var listed: seq<Reply> -> Listing := r => Listed(r);
    forall replies: seq<Reply> ensures PagesAt(listed, replies) {}
  }

  lemma AheadPrefix(listed: seq<Reply> -> Listing, replies: seq<Reply>, p: nat, done: seq<Obj>)
    requires Pages(listed) && p <= |replies| && Ahead(listed, replies, p, done)
    ensures |done| <= |listed(replies).objects| && listed(replies).objects[..|done|] == done
    ensures p == |replies| || replies[p].ListFailed? ==> listed(replies) == Listing(done, false)
  {
    assert PagesAt(listed, replies[p..]);
    if p == |replies| || replies[p].ListFailed? {
      assert done + [] == done;
    }
  }

  lemma PageAhead(listed: seq<Reply> -> Listing, replies: seq<Reply>, p: nat, done: seq<Obj>, n: nat)
    requires Pages(listed) && p < |replies| && replies[p].Page? && Ahead(listed, replies, p, done)
    requires n <= |replies[p].objects|
    ensures |done| + n <= |listed(replies).objects|
    ensures listed(replies).objects[..|done| + n] == done + replies[p].objects[..n]
    ensures n == |replies[p].objects| ==>
      if !replies[p].truncated || replies[p].next == []
      then listed(replies) == Listing(done + replies[p].objects[..n], true)
      else Ahead(listed, replies, p + 1, done + replies[p].objects[..n])
  {
    assert PagesAt(listed, replies[p..]);
    assert replies[p..][0] == replies[p] && replies[p..][1..] == replies[p + 1..];
    var page := replies[p].objects;
    var rest := if !replies[p].truncated || replies[p].next == [] then [] else listed(replies[p + 1..]).objects;
    assert page + [] == page;
    Regroup(done, page, rest, n);
  }

  lemma Regroup(a: seq<Obj>, b: seq<Obj>, c: seq<Obj>, n: nat)
    requires n <= |b|
    ensures (a + (b + c))[..|a| + n] == a + b[..n]
    ensures n == |b| ==> a + (b + c) == (a + b[..n]) + c
  {
  }

  // ---- What the walk leaves behind ------------------------------------------------------

  /** Under the source prefix, in the source bucket. */
  predicate InSource(j: Job, l: Loc) {
    l.place == j.from && HasPrefix(l.key, j.src)
  }

  /** Neither prefix is a prefix of the other, or the buckets differ. */
  predicate Separate(j: Job) {
    j.from == j.to ==> !HasPrefix(j.dst, j.src) && !HasPrefix(j.src, j.dst)
  }

  ghost predicate Same(a: Store, b: Store, l: Loc) {
    (l in a <==> l in b) && (l in a && l in b ==> a[l] == b[l])
  }

  ghost predicate SourceUnchanged(j: Job, a: Store, b: Store) {
    forall l :: InSource(j, l) ==> Same(a, b, l)
  }

  /** The listing names every object under the source prefix once, and nothing else. */
  ghost predicate Lists(j: Job, start: Store, objs: seq<Obj>) {
    && (forall i :: 0 <= i < |objs| ==> InSource(j, Loc(j.from, objs[i].key)) && Loc(j.from, objs[i].key) in start)
    && (forall a, b :: 0 <= a < b < |objs| ==> objs[a].key != objs[b].key)
    && (forall l :: l in start && InSource(j, l) ==> exists i :: 0 <= i < |objs| && objs[i].key == l.key)
  }

  /** Distinct keys under the source prefix; any sub-listing of a listing has this. */
  ghost predicate Distinct(j: Job, objs: seq<Obj>) {
    && (forall i :: 0 <= i < |objs| ==> HasPrefix(objs[i].key, j.src))
    && (forall a, b :: 0 <= a < b < |objs| ==> objs[a].key != objs[b].key)
  }

  /** The key map is injective. */
  lemma TargetInjective(j: Job, a: Bytes, b: Bytes)
    requires HasPrefix(a, j.src) && HasPrefix(b, j.src)
    ensures Target(j, a) == Target(j, b) <==> a == b
  {
    if Target(j, a) == Target(j, b) {
      var (ra, rb) := (TrimPrefix(a, j.src), TrimPrefix(b, j.src));
      assert a == j.src + ra && b == j.src + rb;
      assert (j.dst + ra)[|j.dst|..] == ra && (j.dst + rb)[|j.dst|..] == rb;
    }
  }

  /** Writes can land in the source exactly when the prefixes are nested in one bucket. */
  lemma SeparateExactly(j: Job)
    ensures Separate(j) <==> forall rel: Bytes :: !InSource(j, Loc(j.to, j.dst + rel))
  {
    if Separate(j) && j.from == j.to {
      forall rel: Bytes
        ensures !HasPrefix(j.dst + rel, j.src)
      {
        NestedOrApart(j.dst, rel, j.src);
      }
    }
    if !Separate(j) {
      var rel := if HasPrefix(j.dst, j.src) then [] else j.src[|j.dst|..];
      assert j.dst + [] == j.dst;
      assert HasPrefix(j.src, j.dst) ==> j.dst + j.src[|j.dst|..] == j.src;
      assert InSource(j, Loc(j.to, j.dst + rel));
    }
  }

  lemma NestedOrApart(p: Bytes, rel: Bytes, q: Bytes)
    ensures HasPrefix(p + rel, q) ==> HasPrefix(p, q) || HasPrefix(q, p)
  {
    if HasPrefix(p + rel, q) {
      if |q| <= |p| {
        assert q == (p + rel)[..|q|] == p[..|q|];
      } else {
        assert q[..|p|] == (p + rel)[..|q|][..|p|] == p;
      }
    }
  }

  /** Whether an object is copied, judged by the store before the walk. */
  predicate Copies(j: Job, start: Store, o: Obj, ok: bool) {
    Target(j, o.key).key != [] && j.valid(Target(j, o.key).key) && ok && Loc(j.from, o.key) in start
  }

  /** The objects that are copied, judged by the store before the walk. */
  function CopiedOf(j: Job, start: Store, objs: seq<Obj>, ok: nat -> bool): seq<Obj>
    decreases |objs|
  {
    if objs == [] then []
    else
      var n := |objs| - 1;
      CopiedOf(j, start, objs[..n], ok) + if Copies(j, start, objs[n], ok(n)) then [objs[n]] else []
  }

  function TotalSize(objs: seq<Obj>): nat
    decreases |objs|
  {
    if objs == [] then 0 else TotalSize(objs[..|objs| - 1]) + objs[|objs| - 1].size
  }

  lemma {:induction false} SourceKept(j: Job, start: Store, objs: seq<Obj>, ok: nat -> bool)
    requires Separate(j)
    ensures SourceUnchanged(j, start, Walk(j, start, objs, ok).store)
    decreases |objs|
  {
    if objs != [] {
      SourceKept(j, start, objs[..|objs| - 1], ok);
      SeparateExactly(j);
    }
  }

  lemma VisitCopies(j: Job, start: Store, t: Tally, o: Obj, ok: bool)
    requires SourceUnchanged(j, start, t.store) && HasPrefix(o.key, j.src)
    ensures var r := Visit(j, t, o, ok);
      if Copies(j, start, o, ok)
      then r.store == t.store[Target(j, o.key) := start[Loc(j.from, o.key)]]
           && r.copied == t.copied + 1 && r.bytes == t.bytes + o.size
      else r.store == t.store && r.copied == t.copied && r.bytes == t.bytes
  {
    assert InSource(j, Loc(j.from, o.key));
    assert Same(start, t.store, Loc(j.from, o.key));
  }

  /** Every visited object is counted exactly once, whatever the prefixes. */
  lemma {:induction false} CountedOnce(j: Job, start: Store, objs: seq<Obj>, ok: nat -> bool)
    ensures var t := Walk(j, start, objs, ok); t.copied + t.failed + t.skipped == |objs|
    decreases |objs|
  {
    if objs != [] {
      CountedOnce(j, start, objs[..|objs| - 1], ok);
    }
  }

  lemma TotalSizeSnoc(objs: seq<Obj>, o: Obj)
    ensures TotalSize(objs + [o]) == TotalSize(objs) + o.size
  {
    assert (objs + [o])[..|objs|] == objs;
  }

  lemma VisitCounts(j: Job, start: Store, t: Tally, c: seq<Obj>, o: Obj, ok: bool)
    requires SourceUnchanged(j, start, t.store) && HasPrefix(o.key, j.src)
    requires t.copied == |c| && t.bytes == TotalSize(c)
    ensures var (r, d) := (Visit(j, t, o, ok), c + if Copies(j, start, o, ok) then [o] else []);
      r.copied == |d| && r.bytes == TotalSize(d)
  {
    VisitCopies(j, start, t, o, ok);
    if Copies(j, start, o, ok) {
      TotalSizeSnoc(c, o);
    } else {
      assert c + [] == c;
    }
  }

  /** Copies and bytes are those of the objects really copied. */
  lemma {:induction false} CountersExact(j: Job, start: Store, objs: seq<Obj>, ok: nat -> bool)
    requires Separate(j) && Distinct(j, objs)
    ensures var t := Walk(j, start, objs, ok);
      && t.copied == |CopiedOf(j, start, objs, ok)|
      && t.bytes == TotalSize(CopiedOf(j, start, objs, ok))
    decreases |objs|
  {
    if objs != [] {
      var n := |objs| - 1;
      CountersExact(j, start, objs[..n], ok);
      SourceKept(j, start, objs[..n], ok);
      var (t, c) := (Walk(j, start, objs[..n], ok), CopiedOf(j, start, objs[..n], ok));
      VisitCounts(j, start, t, c, objs[n], ok(n));
    }
  }

  /** Each copied object's original content is at its target after the walk. */
  lemma {:induction false} Landed(j: Job, start: Store, objs: seq<Obj>, ok: nat -> bool, i: nat)
    requires Separate(j) && Distinct(j, objs) && i < |objs| && Copies(j, start, objs[i], ok(i))
    ensures var s := Walk(j, start, objs, ok).store;
      Target(j, objs[i].key) in s && s[Target(j, objs[i].key)] == start[Loc(j.from, objs[i].key)]
    decreases |objs|
  {
    var n := |objs| - 1;
    SourceKept(j, start, objs[..n], ok);
    VisitCopies(j, start, Walk(j, start, objs[..n], ok), objs[n], ok(n));
    if i < n {
      Landed(j, start, objs[..n], ok, i);
      TargetInjective(j, objs[i].key, objs[n].key);
    }
  }

  /** Only targets of copied objects change. */
  lemma {:induction false} NothingElse(j: Job, start: Store, objs: seq<Obj>, ok: nat -> bool, l: Loc)
    requires Separate(j) && Distinct(j, objs)
    requires forall i :: 0 <= i < |objs| && Copies(j, start, objs[i], ok(i)) ==> Target(j, objs[i].key) != l
    ensures Same(start, Walk(j, start, objs, ok).store, l)
    decreases |objs|
  {
    if objs != [] {
      var n := |objs| - 1;
      SourceKept(j, start, objs[..n], ok);
      VisitCopies(j, start, Walk(j, start, objs[..n], ok), objs[n], ok(n));
      NothingElse(j, start, objs[..n], ok, l);
    }
  }

  /**
   * A walk over a full listing in which no copy fails: every source object's content is at dst+rel, and the source is
   * as it was. Only a placeholder that would get the empty key is left out.
   */
  lemma PrefixCopied(j: Job, start: Store, objs: seq<Obj>, ok: nat -> bool, rel: Bytes)
    requires Separate(j) && Lists(j, start, objs) && Walk(j, start, objs, ok).failed == 0
    requires Loc(j.from, j.src + rel) in start
    ensures var s := Walk(j, start, objs, ok).store;
      && SourceUnchanged(j, start, s)
      && (j.dst + rel != [] ==>
            && Loc(j.to, j.dst + rel) in s
            && s[Loc(j.to, j.dst + rel)] == start[Loc(j.from, j.src + rel)])
  {
    SourceKept(j, start, objs, ok);
    var key := j.src + rel;
    assert InSource(j, Loc(j.from, key));
    var i :| 0 <= i < |objs| && objs[i].key == key;
    assert TrimPrefix(key, j.src) == rel;
    if j.dst + rel != [] {
      NoFailureCopies(j, start, objs, ok, i);
      Landed(j, start, objs, ok, i);
    }
  }

  lemma {:induction false} NoFailureCopies(j: Job, start: Store, objs: seq<Obj>, ok: nat -> bool, i: nat)
    requires Separate(j) && Distinct(j, objs) && i < |objs| && Walk(j, start, objs, ok).failed == 0
    requires Target(j, objs[i].key).key != []
    ensures Copies(j, start, objs[i], ok(i))
    decreases |objs|
  {
    var n := |objs| - 1;
    if i < n {
      NoFailureCopies(j, start, objs[..n], ok, i);
    } else {
      SourceKept(j, start, objs[..n], ok);
      VisitCopies(j, start, Walk(j, start, objs[..n], ok), objs[n], ok(n));
    }
  }

  // ---- What is let through and what is listed ----------------------------------------------

  /** Valid prefixes are let through exactly when the buckets differ or the destination does not continue the source. */
  lemma AcceptsExactly(j: Job)
    ensures Accepts(j) <==>
      && (j.src == [] || (j.src[|j.src| - 1] == Byte('/') && j.valid(j.src)))
      && (j.dst == [] || (j.dst[|j.dst| - 1] == Byte('/') && j.valid(j.dst)))
      && (j.from != j.to || !(exists rel :: j.dst == j.src + rel))
  {
    HasPrefixExactly(j.dst, j.src);
    EndsInSlash(j.valid, j.src);
    EndsInSlash(j.valid, j.dst);
  }

  lemma EndsInSlash(valid: Bytes -> bool, p: Bytes)
    ensures ValidPrefix(valid, p) <==> p == [] || (p[|p| - 1] == Byte('/') && valid(p))
  {
    assert Ascii("/") == [Byte('/')];
    if p != [] {
      assert p[|p| - 1..] == [p[|p| - 1]];
    }
  }

  /** The replies list the pages one after the other, each but the last with a continuation. */
  ghost predicate ListsPages(replies: seq<Reply>, pages: seq<seq<Obj>>) {
    && |replies| >= |pages| > 0
    && (forall i :: 0 <= i < |pages| ==> replies[i].Page? && replies[i].objects == pages[i])
    && (forall i :: 0 <= i < |pages| - 1 ==> replies[i].truncated && replies[i].next != [])
    && (replies[|pages| - 1].truncated ==> replies[|pages| - 1].next == [])
  }

  function Flat(pages: seq<seq<Obj>>): seq<Obj> {
    if pages == [] then [] else pages[0] + Flat(pages[1..])
  }

  /** The walk covers every object of every page. */
  lemma {:induction false} ListedAll(replies: seq<Reply>, pages: seq<seq<Obj>>)
    requires ListsPages(replies, pages)
    ensures Listed(replies) == Listing(Flat(pages), true)
  {
    if |pages| == 1 {
      assert Flat(pages[1..]) == [] && pages[0] + [] == pages[0];
    } else {
      assert ListsPages(replies[1..], pages[1..]);
      ListedAll(replies[1..], pages[1..]);
    }
  }

  /** Without the last page, because a call fails or no more are answered, the listing is the pages before. */
  lemma {:induction false} ListedInPart(replies: seq<Reply>, pages: seq<seq<Obj>>)
    requires |pages| <= |replies| && (|pages| < |replies| ==> replies[|pages|].ListFailed?)
    requires forall i :: 0 <= i < |pages| ==>
      replies[i].Page? && replies[i].objects == pages[i] && replies[i].truncated && replies[i].next != []
    ensures Listed(replies) == Listing(Flat(pages), false)
  {
    if pages != [] {
      ListedInPart(replies[1..], pages[1..]);
    }
  }

  /** The objects that would get the empty key. */
  function Placeholders(j: Job, objs: seq<Obj>): set<int> {
    set i | 0 <= i < |objs| && j.dst + TrimPrefix(objs[i].key, j.src) == []
  }

  lemma SkipsSnoc(j: Job, t: Tally, objs: seq<Obj>, o: Obj, ok: bool)
    requires t.skipped == |Placeholders(j, objs)|
    ensures Visit(j, t, o, ok).skipped == |Placeholders(j, objs + [o])|
  {
    PlaceholdersSnoc(j, objs, o);
    VisitSkips(j, t, o, ok);
  }

  /** Skipped are the placeholders that would get the empty key, and nothing else. */
  lemma {:induction false} SkippedExactly(j: Job, start: Store, objs: seq<Obj>, ok: nat -> bool)
    ensures Walk(j, start, objs, ok).skipped == |Placeholders(j, objs)|
    decreases |objs|
  {
    if objs != [] {
      var n := |objs| - 1;
      SkippedExactly(j, start, objs[..n], ok);
      assert objs == objs[..n] + [objs[n]];
      SkipsSnoc(j, Walk(j, start, objs[..n], ok), objs[..n], objs[n], ok(n));
    }
  }

  lemma VisitSkips(j: Job, t: Tally, o: Obj, ok: bool)
    ensures Visit(j, t, o, ok).skipped == t.skipped + if j.dst + TrimPrefix(o.key, j.src) == [] then 1 else 0
  {
  }

  lemma PlaceholdersSnoc(j: Job, objs: seq<Obj>, o: Obj)
    ensures |Placeholders(j, objs + [o])|
         == |Placeholders(j, objs)| + if j.dst + TrimPrefix(o.key, j.src) == [] then 1 else 0
  {
    var last := if j.dst + TrimPrefix(o.key, j.src) == [] then {|objs|} else {};
    assert Placeholders(j, objs + [o]) == Placeholders(j, objs) + last;
  }

  // ---- Where the guard is not enough -----------------------------------------------------

  /** Every walk over every full listing leaves the source as it was. */
  ghost predicate AlwaysKeepsSource(j: Job) {
    forall start: Store, objs: seq<Obj>, ok: nat -> bool ::
      Lists(j, start, objs) ==> SourceUnchanged(j, start, Walk(j, start, objs, ok).store)
  }

  /** Copying up, in one bucket, from src = dst + s: the object src + s lands on the placeholder src. */
  lemma CopyUpOverwrites(j: Job, a: Bytes, b: Bytes) returns (start: Store, objs: seq<Obj>)
    requires Accepts(j) && j.from == j.to && HasPrefix(j.src, j.dst) && a != b
    ensures Lists(j, start, objs)
    ensures Loc(j.from, j.src) in start && start[Loc(j.from, j.src)] == a
    ensures var s := Walk(j, start, objs, _ => true).store; Loc(j.from, j.src) in s && s[Loc(j.from, j.src)] == b
  {
    var s := j.src[|j.dst|..];
    assert j.src == j.dst + s && s != [];
    var upper := j.src + s;
    start := map[Loc(j.from, j.src) := a, Loc(j.from, upper) := b];
    objs := [Obj(j.src, |a|), Obj(upper, |b|)];
    assert objs[0].key == j.src && objs[1].key == upper;
    CopyUp(j, start, objs[0], objs[1], s, _ => true);
  }

  lemma CopyUp(j: Job, start: Store, o1: Obj, o2: Obj, s: Bytes, ok: nat -> bool)
    requires ok(1) && Accepts(j) && j.from == j.to && s != [] && j.src == j.dst + s
    requires o2.key == j.src + s && Loc(j.from, o2.key) in start && o1.key == j.src
    ensures var r := Walk(j, start, [o1, o2], ok).store;
      Loc(j.from, j.src) in r && r[Loc(j.from, j.src)] == start[Loc(j.from, o2.key)]
  {
    assert [o1, o2][..1] == [o1] && [o1][..0] == [];
    assert Walk(j, start, [o1][..0], ok) == Tally(start, 0, 0, 0, 0);
    var t := Walk(j, start, [o1], ok);
    assert t == Visit(j, Tally(start, 0, 0, 0, 0), o1, ok(0));
    assert TrimPrefix(j.src, j.src) == [] && j.dst + [] == j.dst;
    assert Target(j, o1.key).key == j.dst && |j.dst| < |o2.key|;
    assert t.store[Loc(j.from, o2.key)] == start[Loc(j.from, o2.key)];
    assert TrimPrefix(o2.key, j.src) == s;
  }

  /**
   * For an accepted request, the source is safe on all inputs exactly when the prefixes are apart or the buckets
   * differ.
   */
  lemma SourceSafeExactly(j: Job)
    requires Accepts(j)
    ensures AlwaysKeepsSource(j) <==> Separate(j)
  {
    if Separate(j) {
      forall start: Store, objs: seq<Obj>, ok: nat -> bool | Lists(j, start, objs)
        ensures SourceUnchanged(j, start, Walk(j, start, objs, ok).store)
      {
        SourceKept(j, start, objs, ok);
      }
    } else {
      var start, objs := CopyUpOverwrites(j, [0], [1]);
      var s := Walk(j, start, objs, _ => true).store;
      assert InSource(j, Loc(j.from, j.src)) && !Same(start, s, Loc(j.from, j.src));
    }
  }
}
