/** Browser-form POST policies: folding the conditions and enforcing them on a form. */
module PostPolicies {
  import opened ByteStrings
  import opened Int64

  // ---- Conditions ---------------------------------------------------------------

  /** JSON values as the condition parser tells them apart; `null` decodes to a zero value. */
  datatype Json = JString(text: Bytes) | JNumber(n: int) | JNull | JOther

  datatype RawCondition = RawObject(entries: map<Bytes, Json>) | RawArray(elems: seq<Json>) | RawOther

  datatype Condition =
    | Eq(field: Bytes, value: Bytes)
    | StartsWith(field: Bytes, prefix: Bytes)
    | LengthRange(lo: int, hi: int)

  function AsString(j: Json): Option<Bytes> {
    match j
    case JString(t) => Some(t)
    case JNull => Some([])
    case _ => None
  }

  function AsInt64(j: Json): Option<int> {
    match j
    case JNumber(n) => if IsInt64(n) then Some(n) else None
    case JNull => Some(0)
    case _ => None
  }

  function StripDollar(s: Bytes): Bytes {
    if HasPrefix(s, [Byte('$')]) then s[1..] else s
  }

  function FieldCondition(make: (Bytes, Bytes) -> Condition, field: Json, value: Json): Option<Condition> {
    if AsString(field).None? || AsString(value).None? then None
    else Some(make(Lower(StripDollar(AsString(field).value)), AsString(value).value))
  }

  /** One raw condition, or nothing if it is malformed. */
  function ParseCondition(raw: RawCondition): Option<Condition> {
    match raw
    case RawObject(entries) =>
      if exists k :: k in entries && AsString(entries[k]).None? then None
      else if |entries| != 1 then None
      else
        var k := OnlyKey(entries);
        Some(Eq(Lower(k), AsString(entries[k]).value))
    case RawArray(elems) =>
      if |elems| != 3 || AsString(elems[0]).None? then None
      else
        var op := AsString(elems[0]).value;
        if op == Ascii("eq") then FieldCondition((f, v) => Eq(f, v), elems[1], elems[2])
        else if op == Ascii("starts-with") then FieldCondition((f, v) => StartsWith(f, v), elems[1], elems[2])
        else if op == Ascii("content-length-range") then
          var (lo, hi) := (AsInt64(elems[1]), AsInt64(elems[2]));
          if lo.None? || hi.None? || lo.value < 0 || hi.value < lo.value then None
          else Some(LengthRange(lo.value, hi.value))
        else None
    case RawOther => None
  }

  function OnlyKey<V>(m: map<Bytes, V>): (k: Bytes)
    requires |m| == 1
    ensures m.Keys == {k}
  {
    OnlyKeyUnique(m);
    var k :| k in m;
    k
  }

  lemma OnlyKeyUnique<V>(m: map<Bytes, V>)
    requires |m| == 1
    ensures exists k :: m.Keys == {k}
    ensures forall a, b :: a in m && b in m ==> a == b
  {
    assert |m.Keys| == 1;
    assert m.Keys != {};
    var k :| k in m.Keys;
    assert |m.Keys - {k}| == 0;
    assert m.Keys == {k};
  }

  // ---- What the documents spell ---------------------------------------------------

  predicate SpellsText(j: Json, t: Bytes) {
    j == JString(t) || (j == JNull && t == [])
  }

  predicate SpellsNumber(j: Json, n: int) {
    (j == JNumber(n) && IsInt64(n)) || (j == JNull && n == 0)
  }

  /** The field is named with or without a dollar sign, in any case. */
  predicate SpellsField(j: Json, f: Bytes, name: Bytes) {
    && (SpellsText(j, [Byte('$')] + name) || (SpellsText(j, name) && (name == [] || name[0] != Byte('$'))))
    && Lower(name) == f
  }

  /** The three-element array of an operator. */
  predicate SpellsOperator(raw: RawCondition, op: Bytes) {
    raw.RawArray? && |raw.elems| == 3 && SpellsText(raw.elems[0], op)
  }

  /** The document element spells the condition. */
  ghost predicate Spells(raw: RawCondition, c: Condition) {
    match c
    case Eq(f, v) =>
      || (raw.RawObject? && exists k, j :: raw.entries == map[k := j] && Lower(k) == f && SpellsText(j, v))
      || (SpellsOperator(raw, Ascii("eq"))
          && (exists name :: SpellsField(raw.elems[1], f, name)) && SpellsText(raw.elems[2], v))
    case StartsWith(f, v) =>
      SpellsOperator(raw, Ascii("starts-with"))
      && (exists name :: SpellsField(raw.elems[1], f, name)) && SpellsText(raw.elems[2], v)
    case LengthRange(lo, hi) =>
      SpellsOperator(raw, Ascii("content-length-range"))
      && SpellsNumber(raw.elems[1], lo) && SpellsNumber(raw.elems[2], hi) && 0 <= lo <= hi
  }

  lemma TextExactly(j: Json, t: Bytes)
    ensures AsString(j) == Some(t) <==> SpellsText(j, t)
  {
  }

  lemma NumberExactly(j: Json, n: int)
    ensures AsInt64(j) == Some(n) <==> SpellsNumber(j, n)
  {
  }

  lemma FieldExactly(j: Json, f: Bytes)
    ensures AsString(j).Some? && Lower(StripDollar(AsString(j).value)) == f
       <==> exists name :: SpellsField(j, f, name)
  {
    if AsString(j).Some? && Lower(StripDollar(AsString(j).value)) == f {
      var t := AsString(j).value;
      HasPrefixExactly(t, [Byte('$')]);
      assert HasPrefix(t, [Byte('$')]) ==> t == [Byte('$')] + t[1..];
      assert t != [] ==> t[..1] == [t[0]];
      assert SpellsField(j, f, StripDollar(t));
    }
    if name :| SpellsField(j, f, name) {
      assert ([Byte('$')] + name)[..1] == [Byte('$')] && ([Byte('$')] + name)[1..] == name;
      assert name != [] ==> name[..1] == [name[0]];
    }
  }

  lemma OperatorNames()
    ensures Ascii("eq") != Ascii("starts-with") && Ascii("eq") != Ascii("content-length-range")
    ensures Ascii("starts-with") != Ascii("content-length-range")
  {
    assert |Ascii("eq")| == 2 && |Ascii("starts-with")| == 11 && |Ascii("content-length-range")| == 20;
  }

  lemma ObjectExactly(entries: map<Bytes, Json>, c: Condition)
    ensures ParseCondition(RawObject(entries)) == Some(c) <==> Spells(RawObject(entries), c)
  {
    if ParseCondition(RawObject(entries)) == Some(c) {
      var k := OnlyKey(entries);
      assert entries == map[k := entries[k]];
      TextExactly(entries[k], c.value);
    }
    if Spells(RawObject(entries), c) {
      var k, j :| entries == map[k := j] && Lower(k) == c.field && SpellsText(j, c.value);
      TextExactly(j, c.value);
      assert entries.Keys == {k} && |entries| == 1;
      assert OnlyKey(entries) in entries.Keys;
    }
  }

  lemma ArrayExactly(elems: seq<Json>, c: Condition)
    ensures ParseCondition(RawArray(elems)) == Some(c) <==> Spells(RawArray(elems), c)
  {
    OperatorNames();
    if |elems| == 3 {
      if c.LengthRange? {
        NumberExactly(elems[1], c.lo);
        NumberExactly(elems[2], c.hi);
      } else {
        FieldExactly(elems[1], c.field);
        TextExactly(elems[2], if c.Eq? then c.value else c.prefix);
      }
    }
  }

  /** A condition parses exactly when the document spells it: nothing else is read into it, and nothing else parses. */
  lemma ParseExactly(raw: RawCondition, c: Condition)
    ensures ParseCondition(raw) == Some(c) <==> Spells(raw, c)
  {
    match raw {
      case RawObject(entries) => ObjectExactly(entries, c);
      case RawArray(elems) => ArrayExactly(elems, c);
      case RawOther =>
    }
  }

  ghost predicate AllSpell(raws: seq<RawCondition>, conds: seq<Condition>) {
    |raws| == |conds| && forall i :: 0 <= i < |raws| ==> Spells(raws[i], conds[i])
  }

  lemma ParsedSnoc(front: seq<RawCondition>, last: RawCondition, init: seq<Condition>, c: Condition)
    ensures Parsed(front + [last]) == Some(init + [c])
       <==> Parsed(front) == Some(init) && ParseCondition(last) == Some(c)
  {
    assert (front + [last])[..|front|] == front;
    if Parsed(front + [last]) == Some(init + [c]) {
      var (x, y) := (Parsed(front).value, ParseCondition(last).value);
      assert (x + [y])[..|x|] == x && (init + [c])[..|init|] == init;
    }
  }

  lemma AllSpellSnoc(front: seq<RawCondition>, last: RawCondition, init: seq<Condition>, c: Condition)
    ensures AllSpell(front + [last], init + [c]) <==> AllSpell(front, init) && Spells(last, c)
  {
    var (raws, conds) := (front + [last], init + [c]);
    if AllSpell(raws, conds) {
      assert Spells(raws[|front|], conds[|front|]);
      forall i | 0 <= i < |front| ensures Spells(front[i], init[i]) { assert Spells(raws[i], conds[i]); }
    }
  }

  /** A document parses exactly when each of its elements spells its condition, in order. */
  lemma {:induction false} ParsedExactly(raws: seq<RawCondition>, conds: seq<Condition>)
    ensures Parsed(raws) == Some(conds) <==> AllSpell(raws, conds)
  {
    if raws != [] && conds != [] {
      var (front, last) := (raws[..|raws| - 1], raws[|raws| - 1]);
      var (init, c) := (conds[..|conds| - 1], conds[|conds| - 1]);
      assert raws == front + [last] && conds == init + [c];
      ParsedExactly(front, init);
      ParseExactly(last, c);
      ParsedSnoc(front, last, init, c);
      AllSpellSnoc(front, last, init, c);
    } else {
      assert raws != [] && Parsed(raws).Some? ==> |Parsed(raws).value| > 0;
    }
  }

  /** The usual spelling of a condition. */
  function WrittenAs(c: Condition): RawCondition {
    match c
    case Eq(f, v) => RawArray([JString(Ascii("eq")), JString([Byte('$')] + f), JString(v)])
    case StartsWith(f, v) => RawArray([JString(Ascii("starts-with")), JString([Byte('$')] + f), JString(v)])
    case LengthRange(lo, hi) => RawArray([JString(Ascii("content-length-range")), JNumber(lo), JNumber(hi)])
  }

  /** Conditions the parser can yield: lower-case fields and ordered 64-bit ranges. */
  ghost predicate Writable(c: Condition) {
    if c.LengthRange? then 0 <= c.lo <= c.hi <= MAX_INT64 else Lower(c.field) == c.field
  }

  /** Writing conditions down and parsing them gives them back. */
  lemma ParseRoundTrip(conds: seq<Condition>, raws: seq<RawCondition>)
    requires |raws| == |conds| && forall i :: 0 <= i < |conds| ==> Writable(conds[i]) && raws[i] == WrittenAs(conds[i])
    ensures Parsed(raws) == Some(conds)
  {
    forall i | 0 <= i < |conds| ensures Spells(raws[i], conds[i]) { WrittenSpells(conds[i]); }
    ParsedExactly(raws, conds);
  }

  lemma WrittenSpells(c: Condition)
    requires Writable(c)
    ensures Spells(WrittenAs(c), c)
  {
    if !c.LengthRange? {
      assert SpellsField(WrittenAs(c).elems[1], c.field, c.field);
    }
  }

  /** `PostPolicy`. */
  datatype Policy = Policy(equals: map<Bytes, Bytes>, startsWith: map<Bytes, Bytes>, lengthMin: int, lengthMax: int)

  const EMPTY_POLICY: Policy := Policy(map[], map[], -1, -1)

  function Merge(p: Policy, c: Condition): Policy {
    match c
    case Eq(f, v) => p.(equals := p.equals[f := v])
    case StartsWith(f, v) => p.(startsWith := p.startsWith[f := v])
    case LengthRange(lo, hi) => p.(lengthMin := lo, lengthMax := hi)
  }

  function Folded(conds: seq<Condition>): Policy {
    if conds == [] then EMPTY_POLICY else Merge(Folded(conds[..|conds| - 1]), conds[|conds| - 1])
  }

  function Parsed(raws: seq<RawCondition>): Option<seq<Condition>> {
    if raws == [] then Some([])
    else
      var (front, c) := (Parsed(raws[..|raws| - 1]), ParseCondition(raws[|raws| - 1]));
      if front.None? || c.None? then None else Some(front.value + [c.value])
  }

  lemma {:induction false} ParsedPrefix(raws: seq<RawCondition>, i: nat)
    requires i <= |raws| && Parsed(raws[..i]).None?
    ensures Parsed(raws).None?
    decreases |raws|
  {
    if i == |raws| {
      assert raws[..i] == raws;
    } else {
      assert raws[..|raws| - 1][..i] == raws[..i];
      ParsedPrefix(raws[..|raws| - 1], i);
    }
  }

  /** The condition loop of `ParsePostPolicy`: the first malformed condition rejects the document. */
  method FoldConditions(raws: seq<RawCondition>) returns (policy: Option<Policy>)
    ensures policy == match Parsed(raws) case None => None case Some(conds) => Some(Folded(conds))
  {
    var p := EMPTY_POLICY;
    for i := 0 to |raws|
      invariant Parsed(raws[..i]).Some? && p == Folded(Parsed(raws[..i]).value)
    {
      assert raws[..i + 1][..i] == raws[..i];
      var c := ParseCondition(raws[i]);
      if c.None? {
        ParsedPrefix(raws, i + 1);
        return None;
      }
      var conds := Parsed(raws[..i]).value + [c.value];
      assert conds[..|conds| - 1] == Parsed(raws[..i]).value;
      p := Merge(p, c.value);
    }
    assert raws[..|raws|] == raws;
    policy := Some(p);
  }

  // ---- Enforcement ----------------------------------------------------------------

  type Form = map<Bytes, Bytes>

  const SIGNING_FIELDS: set<Bytes> := {
    Ascii("policy"), Ascii("x-amz-signature"), Ascii("x-amz-algorithm"), Ascii("x-amz-credential"), Ascii("x-amz-date"),
    Ascii("x-amz-security-token"), Ascii("file"), Ascii("awsaccesskeyid"), Ascii("signature") }

  predicate Named(signing: set<Bytes>, p: Policy, name: Bytes) {
    name in signing || name in p.equals || name in p.startsWith
  }

  predicate EqHolds(p: Policy, form: Form, name: Bytes) {
    name in p.equals ==> name in form && form[name] == p.equals[name]
  }

  predicate PrefixHolds(p: Policy, form: Form, name: Bytes) {
    name in p.startsWith ==> name in form && HasPrefix(form[name], p.startsWith[name])
  }

  /** The folded policy lets the form pass. */
  ghost predicate Accepts(signing: set<Bytes>, p: Policy, form: Form) {
    && (forall name :: name in form ==> Named(signing, p, name))
    && (forall name :: EqHolds(p, form, name))
    && (forall name :: PrefixHolds(p, form, name))
  }

  /**
   * `EnforcePolicy`: three loops over maps, each in whatever order the map yields. It accepts exactly the forms the
   * policy accepts, whatever the orders, and a reported field really violates the policy.
   */
  method EnforcePolicy(signing: set<Bytes>, p: Policy, form: Form) returns (violation: Option<Bytes>)
    ensures violation.None? <==> Accepts(signing, p, form)
    ensures violation.Some? ==> var f := violation.value;
      (f in form && !Named(signing, p, f)) || !EqHolds(p, form, f) || !PrefixHolds(p, form, f)
  {
    var left := form.Keys;
    while left != {}
      invariant left <= form.Keys && forall n :: n in form && n !in left ==> Named(signing, p, n)
      decreases left
    {
      var name :| name in left;
      left := left - {name};
      if !Named(signing, p, name) {
        return Some(name);
      }
    }
    left := p.equals.Keys;
    while left != {}
      invariant left <= p.equals.Keys && forall n :: n !in left ==> EqHolds(p, form, n)
      decreases left
    {
      var name :| name in left;
      left := left - {name};
      if name !in form || form[name] != p.equals[name] {
        assert !EqHolds(p, form, name);
        return Some(name);
      }
    }
    left := p.startsWith.Keys;
    while left != {}
      invariant left <= p.startsWith.Keys && forall n :: n !in left ==> PrefixHolds(p, form, n)
      decreases left
    {
      var name :| name in left;
      left := left - {name};
      if name !in form || !HasPrefix(form[name], p.startsWith[name]) {
        assert !PrefixHolds(p, form, name);
        return Some(name);
      }
    }
    violation := None;
  }

  // ---- What a condition list means ----------------------------------------------------

  /** The last condition of its kind on its field (length ranges share one field). */
  ghost predicate Last(conds: seq<Condition>, i: nat) {
    && i < |conds|
    && match conds[i]
       case Eq(f, _) => forall j :: i < j < |conds| ==> !(conds[j].Eq? && conds[j].field == f)
       case StartsWith(f, _) => forall j :: i < j < |conds| ==> !(conds[j].StartsWith? && conds[j].field == f)
       case LengthRange(_, _) => forall j :: i < j < |conds| ==> !conds[j].LengthRange?
  }

  /** The form satisfies the condition; a length range is about the file, not the form. */
  predicate Holds(c: Condition, form: Form) {
    match c
    case Eq(f, v) => f in form && form[f] == v
    case StartsWith(f, v) => f in form && HasPrefix(form[f], v)
    case LengthRange(_, _) => true
  }

  predicate Names(c: Condition, name: Bytes) {
    !c.LengthRange? && c.field == name
  }

  /**
   * Every field is a signing field or named by a condition, and the last condition of each kind on each field holds.
   */
  ghost predicate Meets(signing: set<Bytes>, conds: seq<Condition>, form: Form) {
    && (forall name :: name in form ==> name in signing || exists i :: 0 <= i < |conds| && Names(conds[i], name))
    && forall i: nat :: Last(conds, i) ==> Holds(conds[i], form)
  }

  /** The condition is the policy's own on its field. */
  ghost predicate InPolicy(p: Policy, c: Condition) {
    match c
    case Eq(f, v) => f in p.equals && p.equals[f] == v
    case StartsWith(f, v) => f in p.startsWith && p.startsWith[f] == v
    case LengthRange(lo, hi) => p.lengthMin == lo && p.lengthMax == hi
  }

  lemma LastSnoc(conds: seq<Condition>, c: Condition, i: nat)
    requires i < |conds|
    ensures Last(conds + [c], i) ==> Last(conds, i) && InPolicyKept(conds[i], c)
    ensures Last(conds, i) && InPolicyKept(conds[i], c) ==> Last(conds + [c], i)
  {
    var all := conds + [c];
    assert forall j :: 0 <= j < |conds| ==> all[j] == conds[j];
    assert all[|conds|] == c;
  }

  /** A later condition `c` does not replace `d`. */
  predicate InPolicyKept(d: Condition, c: Condition) {
    match d
    case Eq(f, _) => !(c.Eq? && c.field == f)
    case StartsWith(f, _) => !(c.StartsWith? && c.field == f)
    case LengthRange(_, _) => !c.LengthRange?
  }

  /** The last conditions are the policy's own. */
  lemma {:induction false} LastInPolicy(conds: seq<Condition>, i: nat)
    requires Last(conds, i)
    ensures InPolicy(Folded(conds), conds[i])
  {
    var (front, c) := (conds[..|conds| - 1], conds[|conds| - 1]);
    if i < |front| {
      assert conds == front + [c];
      LastSnoc(front, c, i);
      LastInPolicy(front, i);
    }
  }

  /** Whatever value the policy demands of a field comes from the last such condition. */
  lemma {:induction false} EqIsLast(conds: seq<Condition>, f: Bytes) returns (i: nat)
    requires f in Folded(conds).equals
    ensures Last(conds, i) && conds[i] == Eq(f, Folded(conds).equals[f])
  {
    var (front, c) := (conds[..|conds| - 1], conds[|conds| - 1]);
    if c.Eq? && c.field == f {
      LastOfAll(conds);
      i := |front|;
    } else {
      i := EqIsLast(front, f);
      assert conds == front + [c];
      LastSnoc(front, c, i);
    }
  }

  lemma {:induction false} PrefixIsLast(conds: seq<Condition>, f: Bytes) returns (i: nat)
    requires f in Folded(conds).startsWith
    ensures Last(conds, i) && conds[i] == StartsWith(f, Folded(conds).startsWith[f])
  {
    var (front, c) := (conds[..|conds| - 1], conds[|conds| - 1]);
    if c.StartsWith? && c.field == f {
      LastOfAll(conds);
      i := |front|;
    } else {
      i := PrefixIsLast(front, f);
      assert conds == front + [c];
      LastSnoc(front, c, i);
    }
  }

  lemma LastOfAll(conds: seq<Condition>)
    requires conds != []
    ensures Last(conds, |conds| - 1)
  {
  }

  lemma {:induction false} FoldedNames(conds: seq<Condition>, name: Bytes)
    ensures (name in Folded(conds).equals || name in Folded(conds).startsWith)
       <==> exists i :: 0 <= i < |conds| && Names(conds[i], name)
  {
    if conds != [] {
      var (front, c) := (conds[..|conds| - 1], conds[|conds| - 1]);
      FoldedNames(front, name);
      if exists i :: 0 <= i < |front| && Names(front[i], name) {
        var i :| 0 <= i < |front| && Names(front[i], name);
        assert Names(conds[i], name);
      }
      if exists i :: 0 <= i < |conds| && Names(conds[i], name) {
        var i :| 0 <= i < |conds| && Names(conds[i], name);
        assert i < |front| ==> Names(front[i], name);
      }
    }
  }

  /** Soundness and completeness: folding and enforcing accepts a form exactly when it meets the condition list. */
  lemma PolicyExact(signing: set<Bytes>, conds: seq<Condition>, form: Form)
    ensures Accepts(signing, Folded(conds), form) <==> Meets(signing, conds, form)
  {
    var p := Folded(conds);
    forall name
      ensures (name in p.equals || name in p.startsWith) <==> exists i :: 0 <= i < |conds| && Names(conds[i], name)
    {
      FoldedNames(conds, name);
    }
    if Accepts(signing, p, form) {
      forall i: nat | Last(conds, i) ensures Holds(conds[i], form) {
        LastInPolicy(conds, i);
        if !conds[i].LengthRange? { assert EqHolds(p, form, conds[i].field) && PrefixHolds(p, form, conds[i].field); }
      }
    }
    if Meets(signing, conds, form) {
      MeetsIsEnough(signing, conds, form);
    }
  }

  const BUCKET: Bytes := Ascii("bucket")

  /**
   * What `servePostObject` asks of a form sent to a bucket: the document parses, a bucket field agrees with the
   * bucket of the URL, and the form with that field set is enforced. It passes exactly when every condition is well-
   * formed and the form meets the condition list, the signing fields being exempt.
   */
  method CheckForm(raws: seq<RawCondition>, form: Form, bucket: Bytes) returns (ok: bool)
    ensures ok <==>
      && Parsed(raws).Some?
      && (BUCKET in form ==> form[BUCKET] == bucket)
      && Meets(SIGNING_FIELDS, Parsed(raws).value, form[BUCKET := bucket])
  {
    var policy := FoldConditions(raws);
    if policy.None? {
      return false;
    }
    if BUCKET in form && form[BUCKET] != bucket {
      return false;
    }
    var fields := form[BUCKET := bucket];
    var violation := EnforcePolicy(SIGNING_FIELDS, policy.value, fields);
    PolicyExact(SIGNING_FIELDS, Parsed(raws).value, fields);
    ok := violation.None?;
  }

  lemma MeetsIsEnough(signing: set<Bytes>, conds: seq<Condition>, form: Form)
    requires Meets(signing, conds, form)
    ensures forall f :: EqHolds(Folded(conds), form, f) && PrefixHolds(Folded(conds), form, f)
  {
    var p := Folded(conds);
    forall f ensures EqHolds(p, form, f) && PrefixHolds(p, form, f) {
      if f in p.equals {
        var i := EqIsLast(conds, f);
        assert Holds(conds[i], form);
      }
      if f in p.startsWith {
        var i := PrefixIsLast(conds, f);
        assert Holds(conds[i], form);
      }
    }
  }
}
