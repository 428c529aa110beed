/** The signing-key cache of the verifier against direct derivation. */
module SigningKeys {
  import opened ByteStrings

  datatype Scope = Scope(akid: Bytes, date: Bytes, region: Bytes, service: Bytes)

  /** The abstract primitives: HMAC-SHA256 and the fingerprint of a secret. */
  datatype Crypto = Crypto(hmac: (Bytes, Bytes) -> Bytes, fingerprint: Bytes -> nat)

  /** `deriveSigningKey`: the four-step chain. */
  function Derive(c: Crypto, secret: Bytes, s: Scope): Bytes {
    var kDate := c.hmac(Ascii("AWS4") + secret, s.date);
    var kRegion := c.hmac(kDate, s.region);
    var kService := c.hmac(kRegion, s.service);
    c.hmac(kService, Ascii("aws4_request"))
  }

  datatype Entry = Entry(fp: nat, key: Bytes)

  type Cache = map<Scope, Entry>

  /** What a lookup answers from the cache it loads. */
  function Answer(c: Crypto, m: Cache, secret: Bytes, s: Scope): Bytes {
    if s in m && m[s].fp == c.fingerprint(secret) then m[s].key else Derive(c, secret, s)
  }

  function Store(c: Crypto, m: Cache, secret: Bytes, s: Scope): Cache {
    m[s := Entry(c.fingerprint(secret), Derive(c, secret, s))]
  }

  /** `Verifier`, as far as its cache goes. */
  class Verifier {
    const crypto: Crypto
    var keys: Cache

    constructor (crypto: Crypto)
      ensures this.crypto == crypto && keys == map[]
    {
      this.crypto := crypto;
      keys := map[];
    }

    /** `signingKey`: a hit changes nothing, a miss or a rotated secret derives and overwrites. */
    method SigningKey(secret: Bytes, s: Scope) returns (key: Bytes)
      modifies this
      ensures key == Answer(crypto, old(keys), secret, s)
      ensures keys == if s in old(keys) && old(keys)[s].fp == crypto.fingerprint(secret) then old(keys)
                      else Store(crypto, old(keys), secret, s)
    {
      var fp := crypto.fingerprint(secret);
      if s in keys {
        var e := keys[s];
        if e.fp == fp {
          return e.key;
        }
      }
      key := Derive(crypto, secret, s);
      keys := keys[s := Entry(fp, key)];
    }

    /** `InvalidateSigningKeys`: deletes entry by entry. */
    method InvalidateSigningKeys()
      modifies this
      ensures keys == map[]
    {
      while keys != map[]
        decreases |keys|
      {
        var s :| s in keys;
        keys := keys - {s};
      }
    }
  }

  // ---- Runs -----------------------------------------------------------------------

  /** The cache writes of any number of interleaved lookups and invalidations; loads may happen between any two. */
  datatype Write = Put(secret: Bytes, scope: Scope) | Drop(scope: Scope)

  function After(c: Crypto, writes: seq<Write>): Cache {
    if writes == [] then map[]
    else
      var (m, w) := (After(c, writes[..|writes| - 1]), writes[|writes| - 1]);
      match w
      case Put(secret, s) => Store(c, m, secret, s)
      case Drop(s) => m - {s}
  }

  /** The secrets that belong to an access key over time: the current one and those it was rotated from. */
  type Owners = Bytes -> set<Bytes>

  ghost predicate Uses(own: Owners, writes: seq<Write>) {
    forall i :: 0 <= i < |writes| && writes[i].Put? ==> writes[i].secret in own(writes[i].scope.akid)
  }

  /** The fingerprint tells apart the secrets of one access key whose derived keys differ. */
  ghost predicate Separates(c: Crypto, own: Owners) {
    forall a, b, s: Scope :: a in own(s.akid) && b in own(s.akid) && c.fingerprint(a) == c.fingerprint(b)
      ==> Derive(c, a, s) == Derive(c, b, s)
  }

  lemma {:induction false} EntriesAreDerived(c: Crypto, own: Owners, writes: seq<Write>, s: Scope)
    requires Uses(own, writes) && s in After(c, writes)
    ensures exists a :: a in own(s.akid) && After(c, writes)[s] == Entry(c.fingerprint(a), Derive(c, a, s))
  {
    var (front, w) := (writes[..|writes| - 1], writes[|writes| - 1]);
    if w.Put? && w.scope == s {
      assert w.secret in own(s.akid);
    } else {
      EntriesAreDerived(c, own, front, s);
    }
  }

  /** In every run each lookup with a secret of its access key answers with the key derived from that secret. */
  ghost predicate AlwaysRight(c: Crypto, own: Owners) {
    forall writes, secret, s: Scope :: Uses(own, writes) && secret in own(s.akid)
      ==> Answer(c, After(c, writes), secret, s) == Derive(c, secret, s)
  }

  lemma CollisionMisleads(c: Crypto, own: Owners, a: Bytes, b: Bytes, s: Scope)
    requires a in own(s.akid) && b in own(s.akid)
    requires c.fingerprint(a) == c.fingerprint(b) && Derive(c, a, s) != Derive(c, b, s)
    ensures Uses(own, [Put(a, s)]) && Answer(c, After(c, [Put(a, s)]), b, s) != Derive(c, b, s)
  {
    assert [Put(a, s)][..0] == [];
    assert After(c, [Put(a, s)]) == Store(c, map[], a, s);
  }

  /**
   * The cache refines direct derivation, across secret rotations under one access key and invalidations, exactly when
   * the fingerprint separates the secrets of each access key. Secrets of different access keys may collide.
   */
  lemma CacheRefinesDerivation(c: Crypto, own: Owners)
    ensures AlwaysRight(c, own) <==> Separates(c, own)
  {
    if Separates(c, own) {
      forall writes, secret, s: Scope | Uses(own, writes) && secret in own(s.akid)
        ensures Answer(c, After(c, writes), secret, s) == Derive(c, secret, s)
      {
        if s in After(c, writes) {
          EntriesAreDerived(c, own, writes, s);
        }
      }
    }
    if AlwaysRight(c, own) {
      forall a, b, s: Scope | a in own(s.akid) && b in own(s.akid) && c.fingerprint(a) == c.fingerprint(b)
        ensures Derive(c, a, s) == Derive(c, b, s)
      {
        if Derive(c, a, s) != Derive(c, b, s) {
          CollisionMisleads(c, own, a, b, s);
        }
      }
    }
  }

  // ---- The derivation -------------------------------------------------------------

  /** A keyed-hash chain over a list of texts. */
  function Chain(c: Crypto, key: Bytes, texts: seq<Bytes>): Bytes {
    if texts == [] then key else c.hmac(Chain(c, key, texts[..|texts| - 1]), texts[|texts| - 1])
  }

  /** The signing key is the chain from "AWS4" and the secret over date, region, service and "aws4_request". */
  lemma DeriveIsChain(c: Crypto, secret: Bytes, s: Scope)
    ensures Derive(c, secret, s)
         == Chain(c, Ascii("AWS4") + secret, [s.date, s.region, s.service, Ascii("aws4_request")])
  {
    var texts := [s.date, s.region, s.service, Ascii("aws4_request")];
    assert texts[..3] == [s.date, s.region, s.service];
    assert texts[..3][..2] == [s.date, s.region];
    assert [s.date, s.region][..1] == [s.date] && [s.date][..0] == [];
    var key := Ascii("AWS4") + secret;
    assert Chain(c, key, [s.date]) == c.hmac(key, s.date);
    assert Chain(c, key, [s.date, s.region]) == c.hmac(c.hmac(key, s.date), s.region);
  }

  /** With an injective keyed hash the signing key binds secret, date, region and service. */
  lemma DeriveBinds(c: Crypto, secret: Bytes, s: Scope, other: Bytes, t: Scope)
    requires forall k, x, l, y :: c.hmac(k, x) == c.hmac(l, y) ==> k == l && x == y
    ensures Derive(c, secret, s) == Derive(c, other, t)
       <==> secret == other && s.date == t.date && s.region == t.region && s.service == t.service
  {
    if Derive(c, secret, s) == Derive(c, other, t) {
      assert (Ascii("AWS4") + secret)[4..] == secret && (Ascii("AWS4") + other)[4..] == other;
    }
  }
}
