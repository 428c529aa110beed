/** Go strings and byte slices: sequences of bytes, with the `strings` helpers the proxy uses. */
module ByteStrings {

  newtype byte = x: int | 0 <= x < 256
  type Bytes = seq<byte>

  datatype Option<T> = None | Some(value: T)

  const NL: Bytes := [Byte('\n')]

  function Min(a: nat, b: nat): nat {
    if a < b then a else b
  }

  function Max(a: nat, b: nat): nat {
    if a < b then b else a
  }

  /** The byte of an ASCII or Latin-1 character. */
  function Byte(c: char): byte
    requires c as int < 256
  {
    c as int as byte
  }

  /** The bytes of an ASCII text. */
  function Ascii(s: string): (r: Bytes)
    requires forall i :: 0 <= i < |s| ==> s[i] as int < 256
    ensures |r| == |s| && forall i :: 0 <= i < |s| ==> r[i] == Byte(s[i])
  {
    seq(|s|, i requires 0 <= i < |s| => Byte(s[i]))
  }

  /** `strings.IndexByte`: the first position of `c`, or -1. */
  function IndexByte(s: Bytes, c: byte): (i: int)
    ensures -1 <= i < |s|
    ensures i == -1 <==> c !in s
    ensures i >= 0 ==> s[i] == c && c !in s[..i]
  {
    if s == [] then -1
    else if s[0] == c then 0
    else
      var r := IndexByte(s[1..], c);
      if r < 0 then -1 else
      assert s[..r + 1] == [s[0]] + s[1..][..r];
      r + 1
  }

  /** The first separator cuts the text in two. */
  lemma IndexByteCuts(s: Bytes, c: byte)
    requires c in s
    ensures var i := IndexByte(s, c); 0 <= i < |s| && s == s[..i] + [c] + s[i + 1..] && c !in s[..i]
  {
    var i := IndexByte(s, c);
    assert s == s[..i] + [s[i]] + s[i + 1..];
  }

  lemma CutAt(s: Bytes, c: byte) returns (front: Bytes, back: Bytes)
    requires c in s
    ensures s == front + [c] + back && c !in front
  {
    IndexByteCuts(s, c);
    front, back := s[..IndexByte(s, c)], s[IndexByte(s, c) + 1..];
  }

  /** The position of a separator is fixed by what stands before it. */
  lemma IndexByteAt(pre: Bytes, c: byte, post: Bytes)
    requires c !in pre
    ensures IndexByte(pre + [c] + post, c) == |pre|
  {
    var s := pre + [c] + post;
    var i := IndexByte(s, c);
    assert s[|pre|] == c;
    assert forall k :: 0 <= k < |pre| ==> s[k] == pre[k];
    assert forall k :: 0 <= k < i ==> s[k] == s[..i][k];
  }

  /** Two texts cut at their first separator agree piece by piece. */
  lemma CutInjective(a: Bytes, b: Bytes, c: byte, x: Bytes, y: Bytes)
    requires c !in a && c !in x
    requires a + [c] + b == x + [c] + y
    ensures a == x && b == y
  {
    IndexByteAt(a, c, b);
    IndexByteAt(x, c, y);
    var s := a + [c] + b;
    assert a == s[..|a|] && x == s[..|x|];
    assert b == s[|a| + 1..] && y == s[|x| + 1..];
  }

  /** `strings.Split` with a one-byte separator. */
  function Split(s: Bytes, sep: byte): (parts: seq<Bytes>)
    ensures |parts| > 0
  {
    var i := IndexByte(s, sep);
    if i < 0 then [s] else [s[..i]] + Split(s[i + 1..], sep)
  }

  /** `strings.Join` with a one-byte separator. */
  function Join(parts: seq<Bytes>, sep: byte): Bytes {
    if |parts| == 0 then []
    else if |parts| == 1 then parts[0]
    else parts[0] + [sep] + Join(parts[1..], sep)
  }

  ghost predicate AllFree(parts: seq<Bytes>, sep: byte) {
    forall i :: 0 <= i < |parts| ==> sep !in parts[i]
  }

  lemma SplitCons(head: Bytes, sep: byte, rest: Bytes)
    requires sep !in head
    ensures Split(head + [sep] + rest, sep) == [head] + Split(rest, sep)
  {
    IndexByteAt(head, sep, rest);
    var s := head + [sep] + rest;
    assert s[..|head|] == head && s[|head| + 1..] == rest;
  }

  /** Splitting undoes joining when no part holds the separator. */
  lemma {:induction false} SplitOfJoin(parts: seq<Bytes>, sep: byte)
    requires |parts| > 0 && AllFree(parts, sep)
    ensures Split(Join(parts, sep), sep) == parts
  {
    assert sep !in parts[0];
    if |parts| > 1 {
      SplitCons(parts[0], sep, Join(parts[1..], sep));
      SplitOfJoin(parts[1..], sep);
      assert parts == [parts[0]] + parts[1..];
    }
  }

  lemma JoinCons(head: Bytes, rest: seq<Bytes>, sep: byte)
    requires |rest| > 0
    ensures Join([head] + rest, sep) == head + [sep] + Join(rest, sep)
  {
    assert ([head] + rest)[1..] == rest;
  }

  lemma AllFreeCons(head: Bytes, rest: seq<Bytes>, sep: byte)
    requires sep !in head && AllFree(rest, sep)
    ensures AllFree([head] + rest, sep)
  {
  }

  /** No part of a split holds the separator. */
  lemma {:induction false} SplitFree(s: Bytes, sep: byte)
    ensures AllFree(Split(s, sep), sep)
    decreases |s|
  {
    var i := IndexByte(s, sep);
    if i >= 0 {
      SplitFree(s[i + 1..], sep);
      AllFreeCons(s[..i], Split(s[i + 1..], sep), sep);
    }
  }

  lemma JoinHead(head: Bytes, parts: seq<Bytes>, text: Bytes, sep: byte)
    requires |parts| > 0 && Join(parts, sep) == text
    ensures Join([head] + parts, sep) == head + [sep] + text
  {
    JoinCons(head, parts, sep);
  }

  lemma SplitWhole(s: Bytes, sep: byte)
    requires sep !in s
    ensures Split(s, sep) == [s]
  {
  }

  /** Joining undoes splitting. */
  lemma {:induction false} JoinOfSplit(s: Bytes, sep: byte)
    ensures Join(Split(s, sep), sep) == s
    decreases |s|
  {
    if sep in s {
      var head, rest := CutAt(s, sep);
      SplitCons(head, sep, rest);
      JoinOfSplit(rest, sep);
      JoinHead(head, Split(rest, sep), rest, sep);
    } else {
      SplitWhole(s, sep);
    }
  }

  lemma JoinInjective(p: seq<Bytes>, q: seq<Bytes>, sep: byte)
    requires |p| > 0 && |q| > 0 && AllFree(p, sep) && AllFree(q, sep)
    requires Join(p, sep) == Join(q, sep)
    ensures p == q
  {
    SplitOfJoin(p, sep);
    SplitOfJoin(q, sep);
  }

  /** A byte other than the separator occurs in a join only if it occurs in a part. */
  lemma {:induction false} JoinFree(parts: seq<Bytes>, sep: byte, c: byte)
    requires c != sep && AllFree(parts, c)
    ensures c !in Join(parts, sep)
  {
    if |parts| > 1 {
      assert AllFree(parts[1..], c);
      JoinFree(parts[1..], sep, c);
    }
  }

  /** Concatenation of a list of pieces. */
  function Concat(parts: seq<Bytes>): Bytes {
    if |parts| == 0 then [] else parts[0] + Concat(parts[1..])
  }

  predicate HasPrefix(s: Bytes, p: Bytes) {
    |p| <= |s| && s[..|p|] == p
  }

  predicate HasSuffix(s: Bytes, p: Bytes) {
    |p| <= |s| && s[|s| - |p|..] == p
  }

  /** `strings.TrimPrefix`. */
  function TrimPrefix(s: Bytes, p: Bytes): Bytes {
    if HasPrefix(s, p) then s[|p|..] else s
  }

  function LowerByte(c: byte): byte {
    if Byte('A') <= c <= Byte('Z') then c + 32 else c
  }

  function UpperByte(c: byte): byte {
    if Byte('a') <= c <= Byte('z') then c - 32 else c
  }

  /** `strings.ToLower` on ASCII. */
  function Lower(s: Bytes): (r: Bytes)
    ensures |r| == |s|
    ensures forall i :: 0 <= i < |s| ==> r[i] == LowerByte(s[i])
  {
    seq(|s|, i requires 0 <= i < |s| => LowerByte(s[i]))
  }

  /** `strings.ToUpper` on ASCII. */
  function Upper(s: Bytes): (r: Bytes)
    ensures |r| == |s|
    ensures forall i :: 0 <= i < |s| ==> r[i] == UpperByte(s[i])
  {
    seq(|s|, i requires 0 <= i < |s| => UpperByte(s[i]))
  }

  lemma LowerFixed(s: Bytes)
    requires forall c :: c in s ==> LowerByte(c) == c
    ensures Lower(s) == s
  {
    assert forall i :: 0 <= i < |s| ==> s[i] in s;
  }

  lemma LowerMembers(s: Bytes)
    ensures forall c :: c in Lower(s) ==> LowerByte(c) == c
    ensures forall c :: c in Lower(s) && c !in s ==> Byte('a') <= c <= Byte('z')
  {
    forall c | c in Lower(s) ensures LowerByte(c) == c && (c !in s ==> Byte('a') <= c <= Byte('z')) {
      var i :| 0 <= i < |s| && Lower(s)[i] == c;
    }
  }

  /** ASCII white space as `unicode.IsSpace` has it. */
  predicate IsSpace(c: byte) {
    c == Byte(' ') || Byte('\t') <= c <= Byte('\r')
  }

  function TrimLeft(s: Bytes): (r: Bytes)
    ensures r == [] || !IsSpace(r[0])
    ensures |r| <= |s|
  {
    if s != [] && IsSpace(s[0]) then TrimLeft(s[1..]) else s
  }

  lemma {:induction false} TrimLeftSuffix(s: Bytes)
    ensures TrimLeft(s) == s[|s| - |TrimLeft(s)|..]
  {
    if s != [] && IsSpace(s[0]) {
      TrimLeftSuffix(s[1..]);
    }
  }

  function TrimRight(s: Bytes): (r: Bytes)
    ensures r == [] || !IsSpace(r[|r| - 1])
    ensures |r| <= |s|
  {
    if s != [] && IsSpace(s[|s| - 1]) then TrimRight(s[..|s| - 1]) else s
  }

  lemma {:induction false} TrimRightPrefix(s: Bytes)
    ensures TrimRight(s) == s[..|TrimRight(s)|]
  {
    if s != [] && IsSpace(s[|s| - 1]) {
      TrimRightPrefix(s[..|s| - 1]);
    }
  }

  /** `strings.TrimSpace`. */
  function TrimSpace(s: Bytes): (r: Bytes)
    ensures r == [] || (!IsSpace(r[0]) && !IsSpace(r[|r| - 1]))
  {
    TrimRightPrefix(TrimLeft(s));
    TrimRight(TrimLeft(s))
  }

  lemma TrimSpaceMembers(s: Bytes)
    ensures forall c :: c in TrimSpace(s) ==> c in s
  {
    var l := TrimLeft(s);
    TrimLeftSuffix(s);
    TrimRightPrefix(l);
    assert forall c :: c in TrimRight(l) ==> c in l;
    assert forall c :: c in l ==> c in s;
  }

  /** Text whose ends are not white space is left alone. */
  lemma TrimSpaceFixed(s: Bytes)
    requires s == [] || (!IsSpace(s[0]) && !IsSpace(s[|s| - 1]))
    ensures TrimSpace(s) == s
  {
  }

  /** Lexicographic byte order, the order of `sort.Strings`. */
  predicate Leq(a: Bytes, b: Bytes) {
    if a == [] then true
    else if b == [] then false
    else if a[0] != b[0] then a[0] < b[0]
    else Leq(a[1..], b[1..])
  }

  lemma {:induction false} LeqTotal(a: Bytes, b: Bytes)
    ensures Leq(a, b) || Leq(b, a)
    ensures Leq(a, b) && Leq(b, a) ==> a == b
  {
    if a != [] && b != [] && a[0] == b[0] {
      LeqTotal(a[1..], b[1..]);
      assert a == [a[0]] + a[1..] && b == [b[0]] + b[1..];
    }
  }

  lemma {:induction false} LeqTransitive(a: Bytes, b: Bytes, c: Bytes)
    requires Leq(a, b) && Leq(b, c)
    ensures Leq(a, c)
  {
    if a != [] && b != [] && c != [] && a[0] == b[0] == c[0] {
      LeqTransitive(a[1..], b[1..], c[1..]);
    }
  }

  ghost predicate Sorted(s: seq<Bytes>) {
    forall i, j :: 0 <= i < j < |s| ==> Leq(s[i], s[j])
  }

  function Insert(x: Bytes, s: seq<Bytes>): (r: seq<Bytes>)
    ensures multiset(r) == multiset(s) + multiset{x}
  {
    if s == [] then [x]
    else if Leq(x, s[0]) then [x] + s
    else
      assert s == [s[0]] + s[1..];
      [s[0]] + Insert(x, s[1..])
  }

  lemma SortedCons(x: Bytes, s: seq<Bytes>)
    requires Sorted(s) && forall y :: y in s ==> Leq(x, y)
    ensures Sorted([x] + s)
  {
    assert forall j :: 0 <= j < |s| ==> s[j] in s;
  }

  lemma {:induction false} InsertSorted(x: Bytes, s: seq<Bytes>)
    requires Sorted(s)
    ensures Sorted(Insert(x, s))
  {
    if s == [] {
    } else if Leq(x, s[0]) {
      forall y | y in s ensures Leq(x, y) {
        var j :| 0 <= j < |s| && s[j] == y;
        if j > 0 { LeqTransitive(x, s[0], y); }
      }
      SortedCons(x, s);
    } else {
      LeqTotal(x, s[0]);
      InsertSorted(x, s[1..]);
      forall y | y in Insert(x, s[1..]) ensures Leq(s[0], y) {
        assert y in multiset(Insert(x, s[1..]));
        if y != x {
          assert y in s[1..];
          var j :| 0 <= j < |s[1..]| && s[1..][j] == y;
          assert s[j + 1] == y;
        }
      }
      SortedCons(s[0], Insert(x, s[1..]));
    }
  }

  /** `sort.Strings`. */
  function Sort(s: seq<Bytes>): (r: seq<Bytes>)
    ensures multiset(r) == multiset(s)
    ensures Sorted(r)
  {
    if s == [] then [] else
      assert s == [s[0]] + s[1..];
      InsertSorted(s[0], Sort(s[1..]));
      Insert(s[0], Sort(s[1..]))
  }

  lemma TailContents<T>(s: seq<T>)
    requires s != []
    ensures multiset(s[1..]) == multiset(s) - multiset{s[0]}
  {
    assert s == [s[0]] + s[1..];
  }

  lemma SortMembers(s: seq<Bytes>)
    ensures forall x :: x in Sort(s) <==> x in s
  {
    assert forall x :: x in Sort(s) <==> x in multiset(Sort(s));
    assert forall x :: x in s <==> x in multiset(s);
  }

  ghost predicate InOrder<T>(leq: (T, T) -> bool, s: seq<T>) {
    forall i, j :: 0 <= i < j < |s| ==> leq(s[i], s[j])
  }

  lemma InOrderTail<T>(leq: (T, T) -> bool, s: seq<T>)
    requires InOrder(leq, s) && s != []
    ensures InOrder(leq, s[1..])
  {
  }

  lemma Minimal<T>(leq: (T, T) -> bool, s: seq<T>, x: T)
    requires InOrder(leq, s)
    requires x in multiset(s)
    ensures s != [] && (s[0] == x || leq(s[0], x))
  {
    var j :| 0 <= j < |s| && s[j] == x;
  }

  lemma HeadsEqual<T(!new)>(leq: (T, T) -> bool, s: seq<T>, t: seq<T>)
    requires forall x, y :: leq(x, y) && leq(y, x) ==> x == y
    requires InOrder(leq, s) && InOrder(leq, t)
    requires multiset(s) == multiset(t) && s != []
    ensures t != [] && s[0] == t[0]
  {
    assert |multiset(s)| == |multiset(t)|;
    assert t[0] in multiset(t) && s[0] in multiset(s);
    Minimal(leq, s, t[0]);
    Minimal(leq, t, s[0]);
  }

  lemma SameTails<T>(s: seq<T>, t: seq<T>)
    requires s != [] && t != [] && s[0] == t[0] && multiset(s) == multiset(t)
    ensures multiset(s[1..]) == multiset(t[1..])
    ensures s[1..] == t[1..] ==> s == t
  {
    TailContents(s);
    TailContents(t);
    assert s == [s[0]] + s[1..] && t == [t[0]] + t[1..];
  }

  /** A list sorted by an antisymmetric order is determined by its contents. */
  lemma {:induction false} SortedUnique<T(!new)>(leq: (T, T) -> bool, s: seq<T>, t: seq<T>)
    requires forall x, y :: leq(x, y) && leq(y, x) ==> x == y
    requires InOrder(leq, s) && InOrder(leq, t)
    requires multiset(s) == multiset(t)
    ensures s == t
  {
    if s == [] {
      assert |multiset(t)| == 0;
    } else {
      HeadsEqual(leq, s, t);
      SameTails(s, t);
      InOrderTail(leq, s);
      InOrderTail(leq, t);
      SortedUnique(leq, s[1..], t[1..]);
    }
  }

  lemma LeqAntisymmetric()
    ensures forall x, y :: Leq(x, y) && Leq(y, x) ==> x == y
  {
    forall x, y | Leq(x, y) && Leq(y, x) ensures x == y { LeqTotal(x, y); }
  }

  /** Sorting a permutation of a sorted list gives that list. */
  lemma SortFixes(s: seq<Bytes>, t: seq<Bytes>)
    requires Sorted(t) && multiset(s) == multiset(t)
    ensures Sort(s) == t
  {
    LeqAntisymmetric();
    SortedUnique(Leq, Sort(s), t);
  }

  // ---- What the helpers mean --------------------------------------------------

  /** A prefix is something the text continues, and cutting it off leaves the continuation. */
  lemma HasPrefixExactly(s: Bytes, p: Bytes)
    ensures HasPrefix(s, p) <==> exists t :: s == p + t
    ensures HasPrefix(s, p) ==> s == p + TrimPrefix(s, p)
    ensures !HasPrefix(s, p) ==> TrimPrefix(s, p) == s
  {
    if HasPrefix(s, p) {
      assert s == p + s[|p|..];
    }
  }

  lemma HasSuffixExactly(s: Bytes, p: Bytes)
    ensures HasSuffix(s, p) <==> exists t :: s == t + p
  {
    if HasSuffix(s, p) {
      assert s == s[..|s| - |p|] + p;
    }
    if exists t :: s == t + p {
      var t :| s == t + p;
      assert s[|s| - |p|..] == p;
    }
  }

  predicate AllSpace(s: Bytes) {
    forall i :: 0 <= i < |s| ==> s[i] as int in {9, 10, 11, 12, 13, 32}
  }

  lemma {:induction false} TrimLeftPadded(l: Bytes, s: Bytes)
    requires AllSpace(l) && s != [] && !AllSpace([s[0]])
    ensures TrimLeft(l + s) == s
  {
    if l == [] {
      assert l + s == s;
      assert [s[0]][0] == s[0];
    } else {
      assert (l + s)[1..] == l[1..] + s;
      TrimLeftPadded(l[1..], s);
    }
  }

  lemma {:induction false} TrimRightPadded(s: Bytes, r: Bytes)
    requires AllSpace(r) && s != [] && !AllSpace([s[|s| - 1]])
    ensures TrimRight(s + r) == s
  {
    if r == [] {
      assert s + r == s;
      assert [s[|s| - 1]][0] == s[|s| - 1];
    } else {
      assert (s + r)[..|s + r| - 1] == s + r[..|r| - 1];
      TrimRightPadded(s, r[..|r| - 1]);
    }
  }

  /** Trimming takes the white space off both ends and nothing else. */
  lemma TrimSpacePadded(l: Bytes, s: Bytes, r: Bytes)
    requires AllSpace(l) && AllSpace(r) && s != [] && !AllSpace([s[0]]) && !AllSpace([s[|s| - 1]])
    ensures TrimSpace(l + s + r) == s
  {
    assert l + s + r == l + (s + r);
    TrimLeftPadded(l, s + r);
    TrimRightPadded(s, r);
  }

  lemma {:induction false} TrimLeftSpace(s: Bytes)
    requires AllSpace(s)
    ensures TrimLeft(s) == []
  {
    if s != [] { TrimLeftSpace(s[1..]); }
  }

  /** White space alone trims to nothing. */
  lemma TrimSpaceSpace(s: Bytes)
    requires AllSpace(s)
    ensures TrimSpace(s) == []
  {
    TrimLeftSpace(s);
  }

  /** Case changes pair the two alphabets and touch nothing else. */
  lemma CaseExactly(c: byte)
    ensures forall i :: 0 <= i < 26 ==>
      LowerByte(UPPER_CASE[i]) == LOWER_CASE[i] && UpperByte(LOWER_CASE[i]) == UPPER_CASE[i]
    ensures c !in UPPER_CASE ==> LowerByte(c) == c
    ensures c !in LOWER_CASE ==> UpperByte(c) == c
  {
    var (u, l) := (c as int - 65, c as int - 97);
    assert forall i :: 0 <= i < 26 ==> UPPER_CASE[i] as int == 65 + i && LOWER_CASE[i] as int == 97 + i;
    if 0 <= u < 26 {
      assert UPPER_CASE[u] == c;
    }
    if 0 <= l < 26 {
      assert LOWER_CASE[l] == c;
    }
  }

  const UPPER_CASE: Bytes := Ascii("ABCDEFGHIJKLMNOPQRSTUVWXYZ")
  const LOWER_CASE: Bytes := Ascii("abcdefghijklmnopqrstuvwxyz")

  /** The texts agree up to `k` and there `a` has the smaller byte. */
  ghost predicate SmallerAt(a: Bytes, b: Bytes, k: nat) {
    k < |a| && k < |b| && a[..k] == b[..k] && a[k] < b[k]
  }

  /** The first difference decides: the smaller byte comes first, and a prefix before its continuations. */
  lemma {:induction false} LeqExactly(a: Bytes, b: Bytes)
    ensures Leq(a, b) <==> a <= b || exists k: nat :: SmallerAt(a, b, k)
  {
    if a != [] && b != [] {
      if a[0] != b[0] {
        assert SmallerAt(a, b, 0) <==> a[0] < b[0];
        forall k: nat | 0 < k < |a| && k < |b| ensures !SmallerAt(a, b, k) {
          assert a[..k][0] == a[0] && b[..k][0] == b[0];
        }
      } else {
        var (x, y) := (a[1..], b[1..]);
        LeqExactly(x, y);
        assert a == [a[0]] + x && b == [b[0]] + y;
        if exists k: nat :: SmallerAt(a, b, k) {
          var k: nat :| SmallerAt(a, b, k);
          SmallerTails(a, b, k - 1);
        }
        if exists k: nat :: SmallerAt(x, y, k) {
          var k: nat :| SmallerAt(x, y, k);
          SmallerTails(a, b, k);
        }
      }
    }
  }

  lemma SmallerTails(a: Bytes, b: Bytes, k: nat)
    requires a != [] && b != [] && a[0] == b[0]
    ensures SmallerAt(a[1..], b[1..], k) <==> SmallerAt(a, b, k + 1)
  {
    if k < |a| - 1 && k < |b| - 1 {
      assert a[..k + 1] == [a[0]] + a[1..][..k] && b[..k + 1] == [b[0]] + b[1..][..k];
      assert a[..k + 1][1..] == a[1..][..k] && b[..k + 1][1..] == b[1..][..k];
    }
  }

  lemma FreeConcat(a: Bytes, b: Bytes, c: byte)
    requires c !in a && c !in b
    ensures c !in a + b
  {
  }

  lemma Assoc(a: Bytes, b: Bytes, c: Bytes)
    ensures a + b + c == a + (b + c)
  {
  }
}
