/** A whole browser-form upload: the policy on the form, the byte-limited file, and what folding the policy loses. */
module PostUploads {
  import opened ByteStrings
  import opened Int64
  import opened PostPolicies
  import LimitedReading

  // ---- The upload --------------------------------------------------------------------------

  const DEFAULT_FILE_MAX: nat := 5 * 1024 * 1024 * 1024

  /** `HasContentLengthRange`. */
  predicate HasRange(p: Policy) {
    p.lengthMin >= 0 && p.lengthMax >= 0
  }

  function UploadMax(p: Policy): int {
    if HasRange(p) then p.lengthMax else DEFAULT_FILE_MAX
  }

  /** The file is read to a clean end and is no shorter than the policy's minimum. */
  predicate SizeAccepted(p: Policy, size: nat, eager: bool) {
    LimitedReading.CleanEnd(UploadMax(p), size, eager) && (HasRange(p) ==> size >= p.lengthMin)
  }

  ghost predicate UploadAccepted(signing: set<Bytes>, p: Policy, form: Form, size: nat, eager: bool) {
    Accepts(signing, p, form) && SizeAccepted(p, size, eager)
  }

  /** Length ranges as the parser lets them through. */
  ghost predicate RangesOk(conds: seq<Condition>) {
    forall i :: 0 <= i < |conds| && conds[i].LengthRange? ==> 0 <= conds[i].lo <= conds[i].hi <= MAX_INT64
  }

  lemma {:induction false} ParsedRanges(raws: seq<RawCondition>)
    requires Parsed(raws).Some?
    ensures RangesOk(Parsed(raws).value)
  {
    if raws != [] {
      ParsedRanges(raws[..|raws| - 1]);
      if ParseCondition(raws[|raws| - 1]).value.LengthRange? {
        RangeOk(raws[|raws| - 1]);
      }
    }
  }

  lemma RangeOk(raw: RawCondition)
    requires ParseCondition(raw).Some? && ParseCondition(raw).value.LengthRange?
    ensures var c := ParseCondition(raw).value; 0 <= c.lo <= c.hi <= MAX_INT64
  {
  }

  /** The folded policy has a length range exactly when the document has one, and it is the last one. */
  lemma {:induction false} RangeIsLast(conds: seq<Condition>)
    requires RangesOk(conds)
    ensures var p := Folded(conds);
      && (HasRange(p) <==> exists i :: 0 <= i < |conds| && conds[i].LengthRange?)
      && (HasRange(p) ==> 0 <= p.lengthMin <= p.lengthMax <= MAX_INT64)
      && (HasRange(p) ==> exists i: nat :: Last(conds, i) && conds[i] == LengthRange(p.lengthMin, p.lengthMax))
  {
    if conds != [] {
      var (front, c) := (conds[..|conds| - 1], conds[|conds| - 1]);
      RangeIsLast(front);
      if c.LengthRange? {
        LastOfAll(conds);
        assert conds[|front|] == c;
      } else if HasRange(Folded(front)) {
        var i: nat :| Last(front, i) && front[i] == LengthRange(Folded(front).lengthMin, Folded(front).lengthMax);
        assert conds == front + [c];
        LastSnoc(front, c, i);
        assert conds[i] == front[i];
      } else if exists i :: 0 <= i < |conds| && conds[i].LengthRange? {
        var i :| 0 <= i < |conds| && conds[i].LengthRange?;
        assert front[i].LengthRange?;
      }
    }
  }

  /** What the condition list asks of the size: its last length range, or the default ceiling if it has none. */
  ghost predicate SizeMeets(conds: seq<Condition>, size: nat, eager: bool) {
    && (forall i: nat :: Last(conds, i) && conds[i].LengthRange? ==>
          conds[i].lo <= size && LimitedReading.CleanEnd(conds[i].hi, size, eager))
    && ((forall i :: 0 <= i < |conds| ==> !conds[i].LengthRange?) ==>
          LimitedReading.CleanEnd(5 * 1024 * 1024 * 1024, size, eager))
  }

  /**
   * Soundness and completeness for the whole upload: it is accepted exactly when the form meets the condition list and
   * the size the last length range.
   */
  lemma UploadExact(signing: set<Bytes>, conds: seq<Condition>, form: Form, size: nat, eager: bool)
    requires RangesOk(conds)
    ensures UploadAccepted(signing, Folded(conds), form, size, eager)
       <==> Meets(signing, conds, form) && SizeMeets(conds, size, eager)
  {
    var p := Folded(conds);
    PolicyExact(signing, conds, form);
    RangeIsLast(conds);
    forall i: nat | Last(conds, i) && conds[i].LengthRange?
      ensures HasRange(p) && conds[i] == LengthRange(p.lengthMin, p.lengthMax)
    {
      LastInPolicy(conds, i);
    }
  }

  datatype Verdict = Refused | FileTooLarge | FileTooSmall | Stored(content: Bytes)

  /** The form gets past the policy. */
  ghost predicate FormPasses(raws: seq<RawCondition>, form: Form, bucket: Bytes) {
    && Parsed(raws).Some?
    && (BUCKET in form ==> form[BUCKET] == bucket)
    && Meets(SIGNING_FIELDS, Parsed(raws).value, form[BUCKET := bucket])
  }

  /**
   * `servePostObject` for a backend that takes what it is sent: form and policy, then the file through the limited
   * reader, then the minimum, below which the object is deleted again. The file is stored exactly when the conditions
   * are well-formed, a bucket field agrees with the URL, the form meets the condition list and the size its last
   * length range; and then it is stored whole.
   */
  method ServePost(raws: seq<RawCondition>, form: Form, bucket: Bytes, source: LimitedReading.Source,
                   ask: nat -> LimitedReading.Ask)
    returns (v: Verdict)
    requires forall i :: ask(i).n > 0 && ask(i).k > 0
    ensures v == Refused <==> !FormPasses(raws, form, bucket)
    ensures v.Stored? <==>
      FormPasses(raws, form, bucket) && SizeMeets(Parsed(raws).value, |source.rest|, source.eager)
    ensures v.Stored? ==> v.content == source.rest
    ensures v == FileTooLarge ==>
      !LimitedReading.CleanEnd(UploadMax(Folded(Parsed(raws).value)), |source.rest|, source.eager)
    ensures v == FileTooSmall ==> |source.rest| < Folded(Parsed(raws).value).lengthMin
  {
    var ok := CheckForm(raws, form, bucket);
    if !ok {
      return Refused;
    }
    var policy := FoldConditions(raws);
    ghost var conds := Parsed(raws).value;
    ParsedRanges(raws);
    RangeIsLast(conds);
    UploadExact(SIGNING_FIELDS, conds, form[BUCKET := bucket], |source.rest|, source.eager);
    PolicyExact(SIGNING_FIELDS, conds, form[BUCKET := bucket]);
    var content, total, end := LimitedReading.ReadAll(UploadMax(policy.value), source, ask);
    if end == LimitedReading.TooLarge {
      return FileTooLarge;
    }
    if HasRange(policy.value) && total < policy.value.lengthMin {
      return FileTooSmall;
    }
    v := Stored(content);
  }

  // ---- When nothing is lost by folding --------------------------------------------------------

  /** The upload satisfies the condition. */
  predicate UploadHolds(c: Condition, form: Form, size: nat) {
    if c.LengthRange? then c.lo <= size <= c.hi else Holds(c, form)
  }

  /** Every condition of the document holds, as its rules ask; overridden ones included. */
  ghost predicate AllHold(conds: seq<Condition>, form: Form, size: nat) {
    forall i :: 0 <= i < |conds| ==> UploadHolds(conds[i], form, size)
  }

  /** The largest size that ends cleanly. */
  function LargestSize(p: Policy, eager: bool): int {
    UploadMax(p) + if eager then 1 else 0
  }

  /** What the folded policy demands already implies the condition. */
  predicate Implied(p: Policy, c: Condition, eager: bool) {
    match c
    case Eq(f, v) => f in p.equals && p.equals[f] == v
    case StartsWith(f, v) =>
      if f in p.equals then HasPrefix(p.equals[f], v) else f in p.startsWith && HasPrefix(p.startsWith[f], v)
    case LengthRange(lo, hi) => lo <= p.lengthMin && LargestSize(p, eager) <= hi
  }

  /** The policy asks of some field a value that lacks the prefix it also asks for. */
  predicate Contradictory(p: Policy) {
    exists f :: f in p.equals && f in p.startsWith && !HasPrefix(p.equals[f], p.startsWith[f])
  }

  /** No upload at all is accepted: the fields contradict each other, or the cap on the file wraps around. */
  predicate AcceptsNothing(p: Policy) {
    Contradictory(p) || UploadMax(p) == MAX_INT64
  }

  /** The smallest form that gives every conditioned field what the policy asks. */
  function LeastForm(p: Policy): Form {
    p.startsWith + p.equals
  }

  lemma LeastFormAccepted(signing: set<Bytes>, p: Policy)
    requires !Contradictory(p)
    ensures Accepts(signing, p, LeastForm(p))
  {
  }

  /** Two equalities on one field: the form that breaks the first passes, because the second replaced it. */
  lemma OverriddenConditionLost(signing: set<Bytes>, f: Bytes, v: Bytes, w: Bytes, size: nat, eager: bool)
    requires v != w && size <= DEFAULT_FILE_MAX
    ensures var conds := [Eq(f, v), Eq(f, w)];
      UploadAccepted(signing, Folded(conds), map[f := w], size, eager) && !AllHold(conds, map[f := w], size)
  {
    var conds := [Eq(f, v), Eq(f, w)];
    assert conds[..1] == [Eq(f, v)] && conds[..1][..0] == [];
    assert Folded(conds[..1]) == Merge(EMPTY_POLICY, Eq(f, v));
    assert Folded(conds).equals == map[f := w] && Folded(conds).startsWith == map[];
    assert !UploadHolds(conds[0], map[f := w], size);
  }

  /** Two length ranges: a file that breaks the first passes, because the second replaced it. */
  lemma OverriddenRangeLost(signing: set<Bytes>, a: Condition, b: Condition, size: nat, eager: bool)
    requires a.LengthRange? && b.LengthRange? && RangesOk([a, b])
    requires b.lo <= size <= b.hi < MAX_INT64 && !(a.lo <= size <= a.hi)
    ensures UploadAccepted(signing, Folded([a, b]), map[], size, eager) && !AllHold([a, b], map[], size)
  {
    assert [a, b][1] == b && 0 <= b.lo;
    assert [a, b][..1] == [a] && [a][..0] == [];
    assert Folded([a]) == Merge(EMPTY_POLICY, a);
    assert Folded([a, b]) == Policy(map[], map[], b.lo, b.hi);
    assert !UploadHolds([a, b][0], map[], size);
  }

  /** A single length range: one byte over it passes from a source that reports its end with its last bytes. */
  lemma RangeExceeded(signing: set<Bytes>, lo: nat, hi: nat)
    requires lo <= hi < MAX_INT64
    ensures var conds := [LengthRange(lo, hi)];
      UploadAccepted(signing, Folded(conds), map[], hi + 1, true) && !AllHold(conds, map[], hi + 1)
  {
    var conds := [LengthRange(lo, hi)];
    assert conds[..0] == [];
    assert Folded(conds) == Policy(map[], map[], lo, hi);
    assert !UploadHolds(conds[0], map[], hi + 1);
  }

  lemma ImpliedHolds(signing: set<Bytes>, p: Policy, c: Condition, form: Form, size: nat, eager: bool)
    requires UploadAccepted(signing, p, form, size, eager) && Implied(p, c, eager) && (c.LengthRange? ==> HasRange(p))
    ensures UploadHolds(c, form, size)
  {
    if !c.LengthRange? {
      assert EqHolds(p, form, c.field) && PrefixHolds(p, form, c.field);
    }
  }

  ghost predicate AllImplied(p: Policy, conds: seq<Condition>, eager: bool) {
    forall i :: 0 <= i < |conds| ==> Implied(p, conds[i], eager)
  }

  /** Every upload the policy accepts satisfies every condition of the document. */
  ghost predicate NothingLost(signing: set<Bytes>, p: Policy, conds: seq<Condition>, eager: bool) {
    forall form, size: nat :: UploadAccepted(signing, p, form, size, eager) ==> AllHold(conds, form, size)
  }

  lemma ImpliedIsEnough(signing: set<Bytes>, conds: seq<Condition>, eager: bool)
    requires RangesOk(conds) && AllImplied(Folded(conds), conds, eager)
    ensures NothingLost(signing, Folded(conds), conds, eager)
  {
    var p := Folded(conds);
    RangeIsLast(conds);
    forall form, size: nat | UploadAccepted(signing, p, form, size, eager)
      ensures AllHold(conds, form, size)
    {
      forall i | 0 <= i < |conds|
        ensures UploadHolds(conds[i], form, size)
      {
        ImpliedHolds(signing, p, conds[i], form, size, eager);
      }
    }
  }

  lemma AcceptsNothingAtAll(signing: set<Bytes>, p: Policy, form: Form, size: nat, eager: bool)
    requires AcceptsNothing(p)
    ensures !UploadAccepted(signing, p, form, size, eager)
  {
    if Contradictory(p) {
      var f :| f in p.equals && f in p.startsWith && !HasPrefix(p.equals[f], p.startsWith[f]);
      assert !(EqHolds(p, form, f) && PrefixHolds(p, form, f));
    }
  }

  lemma HeldByLeastForm(p: Policy, c: Condition, eager: bool)
    requires !c.LengthRange? && Holds(c, LeastForm(p)) && (c.Eq? ==> c.field in p.equals)
    ensures Implied(p, c, eager)
  {
  }

  /** The smallest and the largest accepted size show what a length range would have to allow. */
  lemma LossIsWitnessed(signing: set<Bytes>, conds: seq<Condition>, eager: bool)
    requires RangesOk(conds) && !AcceptsNothing(Folded(conds)) && NothingLost(signing, Folded(conds), conds, eager)
    ensures AllImplied(Folded(conds), conds, eager)
  {
    var p := Folded(conds);
    RangeIsLast(conds);
    LeastFormAccepted(signing, p);
    var (least, most) := (if HasRange(p) then p.lengthMin else 0, LargestSize(p, eager));
    assert UploadAccepted(signing, p, LeastForm(p), least, eager) && AllHold(conds, LeastForm(p), least);
    assert UploadAccepted(signing, p, LeastForm(p), most, eager) && AllHold(conds, LeastForm(p), most);
    forall i | 0 <= i < |conds|
      ensures Implied(p, conds[i], eager)
    {
      assert UploadHolds(conds[i], LeastForm(p), least) && UploadHolds(conds[i], LeastForm(p), most);
      if !conds[i].LengthRange? {
        FoldedHasEq(conds, i);
        HeldByLeastForm(p, conds[i], eager);
      }
    }
  }

  lemma {:induction false} FoldedHasEq(conds: seq<Condition>, i: nat)
    requires i < |conds|
    ensures conds[i].Eq? ==> conds[i].field in Folded(conds).equals
  {
    if i < |conds| - 1 { FoldedHasEq(conds[..|conds| - 1], i); }
  }

  /**
   * Accepted uploads satisfy every condition of the document exactly when each condition is implied by the folded
   * policy, or the folded policy accepts no upload at all.
   */
  lemma NothingLostExactly(signing: set<Bytes>, conds: seq<Condition>, eager: bool)
    requires RangesOk(conds)
    ensures NothingLost(signing, Folded(conds), conds, eager)
       <==> AcceptsNothing(Folded(conds)) || AllImplied(Folded(conds), conds, eager)
  {
    var p := Folded(conds);
    if AllImplied(p, conds, eager) {
      ImpliedIsEnough(signing, conds, eager);
    }
    if AcceptsNothing(p) {
      forall form, size: nat
        ensures !UploadAccepted(signing, p, form, size, eager)
      {
        AcceptsNothingAtAll(signing, p, form, size, eager);
      }
    } else if NothingLost(signing, p, conds, eager) {
      LossIsWitnessed(signing, conds, eager);
    }
  }
}
