/** The keys of `http.Header`: the canonical form of a header name and what it identifies. */
module HeaderKeys {
  import opened ByteStrings

  /** The bytes of a token (section 3.2.6 of RFC 7230). */
  predicate TokenByte(c: byte) {
    || Byte('A') <= c <= Byte('Z') || Byte('a') <= c <= Byte('z') || Byte('0') <= c <= Byte('9')
    || c in Ascii("!#$%&'*+-.^_`|~")
  }

  predicate IsToken(name: Bytes) {
    forall i :: 0 <= i < |name| ==> TokenByte(name[i])
  }

  /** A letter is upper-case at the start and after a hyphen, and lower-case elsewhere. */
  function Cased(name: Bytes, upper: bool): (r: Bytes)
    ensures |r| == |name|
  {
    if name == [] then []
    else [if upper then UpperByte(name[0]) else LowerByte(name[0])] + Cased(name[1..], name[0] == Byte('-'))
  }

  /** `http.CanonicalHeaderKey`: names that are no tokens stay as they are. */
  function CanonicalKey(name: Bytes): Bytes {
    if IsToken(name) then Cased(name, true) else name
  }

  lemma {:induction false} LowerOfCased(name: Bytes, upper: bool)
    ensures Lower(Cased(name, upper)) == Lower(name)
  {
    if name != [] {
      LowerOfCased(name[1..], name[0] == Byte('-'));
      var c := Cased(name, upper);
      assert c[1..] == Cased(name[1..], name[0] == Byte('-'));
      assert Lower(c) == [LowerByte(c[0])] + Lower(c[1..]);
      assert Lower(name) == [LowerByte(name[0])] + Lower(name[1..]);
    }
  }

  lemma {:induction false} CasedOfLower(a: Bytes, b: Bytes, upper: bool)
    requires Lower(a) == Lower(b)
    ensures Cased(a, upper) == Cased(b, upper)
  {
    if a != [] {
      assert Lower(a)[0] == Lower(b)[0];
      assert Lower(a[1..]) == Lower(a)[1..] == Lower(b)[1..] == Lower(b[1..]);
      CasedOfLower(a[1..], b[1..], a[0] == Byte('-'));
    }
  }

  lemma TokenLower(name: Bytes)
    ensures IsToken(Lower(name)) <==> IsToken(name)
  {
    assert forall i :: 0 <= i < |name| ==> (TokenByte(Lower(name)[i]) <==> TokenByte(name[i]));
  }

  lemma TokenOfLower(a: Bytes, b: Bytes)
    requires Lower(a) == Lower(b)
    ensures IsToken(a) <==> IsToken(b)
  {
    TokenLower(a);
    TokenLower(b);
  }

  /** Two tokens name the same header exactly when they differ at most in case. */
  lemma SameKeyExactly(a: Bytes, b: Bytes)
    requires IsToken(a) && IsToken(b)
    ensures CanonicalKey(a) == CanonicalKey(b) <==> Lower(a) == Lower(b)
  {
    LowerOfCased(a, true);
    LowerOfCased(b, true);
    if Lower(a) == Lower(b) {
      CasedOfLower(a, b, true);
    }
  }

  /** Looking up a key that is canonical already changes nothing. */
  lemma CanonicalKeyIdempotent(name: Bytes)
    ensures CanonicalKey(CanonicalKey(name)) == CanonicalKey(name)
  {
    if IsToken(name) {
      LowerOfCased(name, true);
      TokenOfLower(name, Cased(name, true));
      CasedOfLower(name, Cased(name, true), true);
    }
  }

  lemma {:induction false} CasedAt(name: Bytes, upper: bool, i: nat)
    requires i < |name|
    ensures Cased(name, upper)[i]
         == if (if i == 0 then upper else name[i - 1] == Byte('-')) then UpperByte(name[i]) else LowerByte(name[i])
  {
    if i > 0 {
      CasedAt(name[1..], name[0] == Byte('-'), i - 1);
    }
  }

  /** A canonical token is upper-case at its start and after each hyphen and lower-case elsewhere; other names stay. */
  lemma CanonicalKeyExactly(name: Bytes)
    ensures |CanonicalKey(name)| == |name|
    ensures !IsToken(name) ==> CanonicalKey(name) == name
    ensures IsToken(name) ==> forall i :: 0 <= i < |name| ==>
      CanonicalKey(name)[i]
      == if i == 0 || name[i - 1] == Byte('-') then UpperByte(name[i]) else LowerByte(name[i])
  {
    forall i | 0 <= i < |name|
      ensures Cased(name, true)[i]
           == if i == 0 || name[i - 1] == Byte('-') then UpperByte(name[i]) else LowerByte(name[i])
    {
      CasedAt(name, true, i);
    }
  }
}
