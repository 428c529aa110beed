/** The canonical query string of AWS Signature Version 4, "Create a canonical request". */
module CanonicalQueries {
  import opened ByteStrings
  import opened Escaping

  /** `url.Values`. */
  type Query = map<Bytes, seq<Bytes>>
  type Pair = (Bytes, Bytes)

  // ---- What the builder writes ----------------------------------------------

  /** The keys in sorted order. Any other way to enumerate and sort them gives the same list. */
  ghost function KeyList(keys: set<Bytes>): (r: seq<Bytes>)
    ensures Sorted(r) && multiset(r) == multiset(keys)
  {
    if keys == {} then [] else
      var k :| k in keys;
      assert multiset(keys) == multiset(keys - {k}) + multiset{k};
      InsertSorted(k, KeyList(keys - {k}));
      Insert(k, KeyList(keys - {k}))
  }

  function PairsOf(k: Bytes, vals: seq<Bytes>): (r: seq<Pair>)
    ensures |r| == |vals|
    ensures forall i :: 0 <= i < |r| ==> r[i] == (k, vals[i])
  {
    seq(|vals|, i requires 0 <= i < |vals| => (k, vals[i]))
  }

  function PairsIn(q: Query, keys: seq<Bytes>): seq<Pair>
    requires forall k :: k in keys ==> k in q
  {
    if keys == [] then [] else PairsOf(keys[0], Sort(q[keys[0]])) + PairsIn(q, keys[1..])
  }

  function PairText(p: Pair): Bytes {
    Encoded(p.0, true) + [Byte('=')] + Encoded(p.1, true)
  }

  function Texts(pairs: seq<Pair>): (r: seq<Bytes>)
    ensures |r| == |pairs|
    ensures forall i :: 0 <= i < |r| ==> r[i] == PairText(pairs[i])
  {
    seq(|pairs|, i requires 0 <= i < |pairs| => PairText(pairs[i]))
  }

  /** All pairs of the query, by key and then by value. */
  ghost function Pairs(q: Query): seq<Pair> {
    KeyListUnrepeated(q.Keys);
    PairsIn(q, KeyList(q.Keys))
  }

  ghost function QueryText(q: Query): Bytes {
    Join(Texts(Pairs(q)), Byte('&'))
  }

  // ---- The builder ----------------------------------------------------------

  lemma {:induction false} JoinSnoc(parts: seq<Bytes>, x: Bytes, sep: byte)
    ensures Join(parts + [x], sep) == if parts == [] then x else Join(parts, sep) + [sep] + x
  {
    if |parts| > 0 {
      assert (parts + [x])[1..] == parts[1..] + [x];
      JoinSnoc(parts[1..], x, sep);
    }
  }

  lemma TextsSnoc(pairs: seq<Pair>, p: Pair)
    ensures Join(Texts(pairs + [p]), Byte('&'))
         == if pairs == [] then PairText(p) else Join(Texts(pairs), Byte('&')) + [Byte('&')] + PairText(p)
  {
    assert Texts(pairs + [p]) == Texts(pairs) + [PairText(p)];
    JoinSnoc(Texts(pairs), PairText(p), Byte('&'));
  }

  /** Collects the keys in whatever order the map yields them. */
  method KeysOf(q: Query) returns (keys: seq<Bytes>)
    ensures multiset(keys) == multiset(q.Keys)
  {
    keys := [];
    var left := q.Keys;
    while left != {}
      invariant left <= q.Keys
      invariant multiset(keys) + multiset(left) == multiset(q.Keys)
      decreases left
    {
      var k :| k in left;
      assert multiset(left) == multiset(left - {k}) + multiset{k};
      keys := keys + [k];
      left := left - {k};
    }
  }

  /** `canonicalQuery`. */
  method CanonicalQuery(q: Query) returns (b: Bytes)
    ensures b == QueryText(q)
  {
    b := [];
    if |q| == 0 {
      assert q.Keys == {};
      return;
    }
    var keys := KeysOf(q);
    SortFixes(keys, KeyList(q.Keys));
    KeyListUnrepeated(q.Keys);
    b := WritePairs(q, Sort(keys));
  }

  lemma PairsInStep(done: seq<Pair>, q: Query, keys: seq<Bytes>, i: nat)
    requires i < |keys| && forall k :: k in keys ==> k in q
    ensures done + PairsIn(q, keys[i..]) == (done + PairsOf(keys[i], Sort(q[keys[i]]))) + PairsIn(q, keys[i + 1..])
  {
    assert keys[i..][0] == keys[i] && keys[i..][1..] == keys[i + 1..];
  }

  /** The outer loop of `canonicalQuery`, over the sorted keys. */
  method WritePairs(q: Query, keys: seq<Bytes>) returns (b: Bytes)
    requires forall k :: k in keys ==> k in q
    ensures b == Join(Texts(PairsIn(q, keys)), Byte('&'))
  {
    b := [];
    var first := true;
    ghost var done: seq<Pair> := [];
    for i := 0 to |keys|
      invariant done + PairsIn(q, keys[i..]) == PairsIn(q, keys)
      invariant b == Join(Texts(done), Byte('&'))
      invariant first <==> done == []
    {
      PairsInStep(done, q, keys, i);
      b, first := WriteValues(b, first, keys[i], Sort(q[keys[i]]), done);
      done := done + PairsOf(keys[i], Sort(q[keys[i]]));
    }
    assert PairsIn(q, keys[|keys|..]) == [];
    assert done == PairsIn(q, keys);
  }

  /** The inner loop of `canonicalQuery`: one `key=value` per value, '&' before all but the very first. */
  method WriteValues(b0: Bytes, first0: bool, k: Bytes, vals: seq<Bytes>, ghost done: seq<Pair>)
    returns (b: Bytes, first: bool)
    requires b0 == Join(Texts(done), Byte('&')) && (first0 <==> done == [])
    ensures b == Join(Texts(done + PairsOf(k, vals)), Byte('&'))
    ensures first <==> done + PairsOf(k, vals) == []
  {
    b, first := b0, first0;
    var ek := AwsURLEncode(k, true);
    assert done + PairsOf(k, vals[..0]) == done;
    for j := 0 to |vals|
      invariant b == Join(Texts(done + PairsOf(k, vals[..j])), Byte('&'))
      invariant first <==> done + PairsOf(k, vals[..j]) == []
    {
      ghost var written := done + PairsOf(k, vals[..j]);
      assert written + [(k, vals[j])] == done + PairsOf(k, vals[..j + 1]);
      TextsSnoc(written, (k, vals[j]));
      if !first {
        b := b + [Byte('&')];
      }
      first := false;
      var ev := AwsURLEncode(vals[j], true);
      b := b + (ek + [Byte('=')] + ev);
    }
    assert vals[..|vals|] == vals;
  }

  // ---- The text fixes the pairs ---------------------------------------------

  lemma PairTextClean(p: Pair)
    ensures Byte('&') !in PairText(p) && Byte('\n') !in PairText(p)
  {
    EncodedAlphabet(p.0);
    EncodedAlphabet(p.1);
  }

  lemma PairTextInjective(p: Pair, r: Pair)
    requires PairText(p) == PairText(r)
    ensures p == r
  {
    EncodedAlphabet(p.0);
    EncodedAlphabet(r.0);
    CutInjective(Encoded(p.0, true), Encoded(p.1, true), Byte('='), Encoded(r.0, true), Encoded(r.1, true));
    EncodedInjective(p.0, r.0, true);
    EncodedInjective(p.1, r.1, true);
  }

  lemma JoinedTextsEmpty(pairs: seq<Pair>)
    ensures Join(Texts(pairs), Byte('&')) == [] <==> pairs == []
  {
    if pairs != [] {
      assert Byte('=') in PairText(pairs[0]);
      assert Texts(pairs)[0] == PairText(pairs[0]);
    }
  }

  /** Equal texts come from equal lists of pairs. */
  lemma TextsInjective(p: seq<Pair>, r: seq<Pair>)
    requires Join(Texts(p), Byte('&')) == Join(Texts(r), Byte('&'))
    ensures p == r
  {
    JoinedTextsEmpty(p);
    JoinedTextsEmpty(r);
    if p != [] {
      forall i | 0 <= i < |p| ensures Byte('&') !in Texts(p)[i] { PairTextClean(p[i]); }
      forall i | 0 <= i < |r| ensures Byte('&') !in Texts(r)[i] { PairTextClean(r[i]); }
      JoinInjective(Texts(p), Texts(r), Byte('&'));
      forall i | 0 <= i < |p| ensures p[i] == r[i] {
        assert Texts(p)[i] == Texts(r)[i];
        PairTextInjective(p[i], r[i]);
      }
    }
  }

  // ---- The pairs are sorted and are exactly the query's ----------------------

  predicate PairLeq(p: Pair, r: Pair) {
    if p.0 == r.0 then Leq(p.1, r.1) else Leq(p.0, r.0)
  }

  ghost predicate Unrepeated(keys: seq<Bytes>) {
    forall i, j :: 0 <= i < j < |keys| ==> keys[i] != keys[j]
  }

  lemma {:induction false} CountsUnrepeated(keys: seq<Bytes>)
    requires forall k :: multiset(keys)[k] <= 1
    ensures Unrepeated(keys)
  {
    if keys != [] {
      assert keys == [keys[0]] + keys[1..];
      assert forall k :: multiset(keys)[k] >= multiset(keys[1..])[k];
      CountsUnrepeated(keys[1..]);
      assert multiset(keys[1..])[keys[0]] == 0;
      forall j | 0 < j < |keys| ensures keys[j] != keys[0] {
        assert keys[j] == keys[1..][j - 1] && keys[1..][j - 1] in multiset(keys[1..]);
      }
    }
  }

  lemma KeyListUnrepeated(keys: set<Bytes>)
    ensures Unrepeated(KeyList(keys))
    ensures forall k :: k in KeyList(keys) <==> k in keys
  {
    CountsUnrepeated(KeyList(keys));
    assert forall k :: k in KeyList(keys) <==> k in multiset(KeyList(keys));
  }

  lemma {:induction false} PairsInKeys(q: Query, keys: seq<Bytes>)
    requires forall k :: k in keys ==> k in q
    ensures forall p :: p in PairsIn(q, keys) ==> p.0 in keys
  {
    if keys != [] {
      PairsInKeys(q, keys[1..]);
    }
  }

  ghost predicate PairsInOrder(ps: seq<Pair>) {
    forall i, j :: 0 <= i < j < |ps| ==> PairLeq(ps[i], ps[j])
  }

  lemma OrderedConcat(k: Bytes, head: seq<Pair>, tail: seq<Pair>)
    requires PairsInOrder(head) && PairsInOrder(tail)
    requires forall i :: 0 <= i < |head| ==> head[i].0 == k
    requires forall j :: 0 <= j < |tail| ==> tail[j].0 != k && Leq(k, tail[j].0)
    ensures PairsInOrder(head + tail)
  {
  }

  lemma {:induction false} PairsInSorted(q: Query, keys: seq<Bytes>)
    requires forall k :: k in keys ==> k in q
    requires Sorted(keys) && Unrepeated(keys)
    ensures PairsInOrder(PairsIn(q, keys))
  {
    if keys != [] {
      var head, tail := PairsOf(keys[0], Sort(q[keys[0]])), PairsIn(q, keys[1..]);
      PairsInSorted(q, keys[1..]);
      PairsInKeys(q, keys[1..]);
      forall j | 0 <= j < |tail| ensures tail[j].0 != keys[0] && Leq(keys[0], tail[j].0) {
        assert tail[j] in tail;
        var m :| 0 <= m < |keys[1..]| && keys[1..][m] == tail[j].0;
        assert keys[m + 1] == tail[j].0;
      }
      OrderedConcat(keys[0], head, tail);
    }
  }

  /** How often the query holds the pair. */
  function Count(q: Query, k: Bytes, v: Bytes): nat {
    if k in q then multiset(q[k])[v] else 0
  }

  /** Two queries hold the same multiset of key/value pairs. */
  ghost predicate SamePairs(q: Query, r: Query) {
    forall k, v :: Count(q, k, v) == Count(r, k, v)
  }

  lemma HeadCount<T>(s: seq<T>, x: T)
    requires s != []
    ensures multiset(s)[x] == multiset(s[1..])[x] + if s[0] == x then 1 else 0
  {
    assert s == [s[0]] + s[1..];
  }

  lemma {:induction false} PairsOfCount(k: Bytes, vals: seq<Bytes>, p: Pair)
    ensures multiset(PairsOf(k, vals))[p] == if p.0 == k then multiset(vals)[p.1] else 0
  {
    if vals != [] {
      assert PairsOf(k, vals)[1..] == PairsOf(k, vals[1..]);
      HeadCount(PairsOf(k, vals), p);
      HeadCount(vals, p.1);
      PairsOfCount(k, vals[1..], p);
    }
  }

  lemma {:induction false} PairsInCount(q: Query, keys: seq<Bytes>, p: Pair)
    requires forall k :: k in keys ==> k in q
    requires Unrepeated(keys)
    ensures multiset(PairsIn(q, keys))[p] == if p.0 in keys then Count(q, p.0, p.1) else 0
  {
    if keys != [] {
      var head, tail := PairsOf(keys[0], Sort(q[keys[0]])), PairsIn(q, keys[1..]);
      assert PairsIn(q, keys) == head + tail;
      PairsOfCount(keys[0], Sort(q[keys[0]]), p);
      PairsInCount(q, keys[1..], p);
    }
  }

  lemma PairsCount(q: Query, p: Pair)
    ensures multiset(Pairs(q))[p] == Count(q, p.0, p.1)
  {
    KeyListUnrepeated(q.Keys);
    PairsInCount(q, KeyList(q.Keys), p);
  }

  lemma PairsSorted(q: Query)
    ensures PairsInOrder(Pairs(q))
  {
    KeyListUnrepeated(q.Keys);
    PairsInSorted(q, KeyList(q.Keys));
  }

  /** The canonical query is a canonical form: equal texts exactly when the same pairs, on all queries. */
  lemma QueryCanonical(q: Query, r: Query)
    ensures QueryText(q) == QueryText(r) <==> SamePairs(q, r)
  {
    if QueryText(q) == QueryText(r) {
      TextsInjective(Pairs(q), Pairs(r));
      forall k, v ensures Count(q, k, v) == Count(r, k, v) {
        PairsCount(q, (k, v));
        PairsCount(r, (k, v));
      }
    }
    if SamePairs(q, r) {
      forall p: Pair ensures multiset(Pairs(q))[p] == multiset(Pairs(r))[p] {
        PairsCount(q, p);
        PairsCount(r, p);
        assert Count(q, p.0, p.1) == Count(r, p.0, p.1);
      }
      PairsSorted(q);
      PairsSorted(r);
      forall x, y | PairLeq(x, y) && PairLeq(y, x) ensures x == y {
        LeqTotal(x.0, y.0);
        LeqTotal(x.1, y.1);
      }
      SortedUnique(PairLeq, Pairs(q), Pairs(r));
    }
  }

  /** No canonical query spans lines. */
  lemma QueryTextOneLine(q: Query)
    ensures Byte('\n') !in QueryText(q)
  {
    var ts := Texts(Pairs(q));
    forall i | 0 <= i < |ts| ensures Byte('\n') !in ts[i] { PairTextClean(Pairs(q)[i]); }
    JoinFree(ts, Byte('&'), Byte('\n'));
  }

  /** The text spells the pair: encoded key, '=', encoded value. */
  predicate SpellsPair(text: Bytes, p: Pair, k: Bytes, v: Bytes) {
    && text == k + [Byte('=')] + v && Byte('=') !in k
    && PercentDecode(k) == Some(p.0) && PercentDecode(v) == Some(p.1)
  }

  /** Cut at its first '=', the text of a pair percent-decodes to the key in front and the value behind. */
  lemma PairReadsBack(p: Pair)
    ensures SpellsPair(PairText(p), p, Encoded(p.0, true), Encoded(p.1, true))
  {
    EncodedAlphabet(p.0);
    DecodeEncoded(p.0, true);
    DecodeEncoded(p.1, true);
  }

  /** Split at '&', the canonical query is the texts of the pairs in order; the empty query has none. */
  lemma QueryReadsBack(q: Query, i: nat)
    requires i < |Pairs(q)|
    ensures var parts := Split(QueryText(q), Byte('&'));
      |parts| == |Pairs(q)| && exists k, v :: SpellsPair(parts[i], Pairs(q)[i], k, v)
  {
    var ts := Texts(Pairs(q));
    forall j | 0 <= j < |ts| ensures Byte('&') !in ts[j] { PairTextClean(Pairs(q)[j]); }
    SplitOfJoin(ts, Byte('&'));
    PairReadsBack(Pairs(q)[i]);
  }
}
