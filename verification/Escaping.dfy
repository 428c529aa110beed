/** The two percent-encoders, the outbound path and the route it is classified back into. */
module Escaping {
  import opened ByteStrings

  // ---- Percent-encoding -----------------------------------------------------

  /** The unreserved set of RFC 3986 section 2.3. */
  predicate Unreserved(c: byte) {
    || Byte('A') <= c <= Byte('Z') || Byte('a') <= c <= Byte('z') || Byte('0') <= c <= Byte('9')
    || c == Byte('-') || c == Byte('_') || c == Byte('.') || c == Byte('~')
  }

  function HexUpper(n: int): byte
    requires 0 <= n < 16
  {
    if n < 10 then Byte('0') + n as byte else Byte('A') + (n - 10) as byte
  }

  function EncodedByte(c: byte, encodeSlash: bool): Bytes {
    if Unreserved(c) || (c == Byte('/') && !encodeSlash) then [c]
    else [Byte('%'), HexUpper(c as int / 16), HexUpper(c as int % 16)]
  }

  /** What the one-pass encoder of the signature verifier produces. */
  function Encoded(s: Bytes, encodeSlash: bool): Bytes {
    if s == [] then [] else EncodedByte(s[0], encodeSlash) + Encoded(s[1..], encodeSlash)
  }

  lemma EncodedStep(b: Bytes, s: Bytes, i: nat, encodeSlash: bool)
    requires i < |s|
    ensures b + Encoded(s[i..], encodeSlash) == b + EncodedByte(s[i], encodeSlash) + Encoded(s[i + 1..], encodeSlash)
  {
    assert s[i..][1..] == s[i + 1..];
  }

  /** `awsURLEncode`: one pass over the bytes. */
  method AwsURLEncode(s: Bytes, encodeSlash: bool) returns (b: Bytes)
    ensures b == Encoded(s, encodeSlash)
  {
    b := [];
    var i := 0;
    while i < |s|
      invariant 0 <= i <= |s|
      invariant b + Encoded(s[i..], encodeSlash) == Encoded(s, encodeSlash)
    {
      var c := s[i];
      EncodedStep(b, s, i, encodeSlash);
      if Unreserved(c) {
        b := b + [c];
      } else if c == Byte('/') && !encodeSlash {
        b := b + [c];
      } else {
        b := b + [Byte('%'), HexUpper(c as int / 16), HexUpper(c as int % 16)];
      }
      i := i + 1;
    }
  }

  const HEX: Bytes := Ascii("0123456789ABCDEF")

  /** What the path escaper of the rewriter produces for one segment, digits read from a table. */
  function PathEscaped(s: Bytes): Bytes {
    if s == [] then [] else PathEscapedByte(s[0]) + PathEscaped(s[1..])
  }

  function PathEscapedByte(c: byte): Bytes {
    if Unreserved(c) then [c] else [Byte('%'), HEX[c as int / 16], HEX[c as int % 16]]
  }

  lemma PathEscapedStep(out: Bytes, s: Bytes, i: nat)
    requires i < |s|
    ensures out + PathEscaped(s[i..]) == out + PathEscapedByte(s[i]) + PathEscaped(s[i + 1..])
  {
    assert s[i..][1..] == s[i + 1..];
  }

  lemma {:induction false} PathEscapedPlain(s: Bytes)
    requires forall k :: 0 <= k < |s| ==> Unreserved(s[k])
    ensures PathEscaped(s) == s
  {
    if s != [] { PathEscapedPlain(s[1..]); }
  }

  /** `awsPathEscape`: a scan for the fast path, then the escaping loop. */
  method AwsPathEscape(s: Bytes) returns (out: Bytes)
    ensures out == PathEscaped(s)
  {
    var needs := false;
    for i := 0 to |s|
      invariant !needs ==> forall k :: 0 <= k < i ==> Unreserved(s[k])
    {
      if !Unreserved(s[i]) {
        needs := true;
        break;
      }
    }
    if !needs {
      PathEscapedPlain(s);
      return s;
    }
    out := [];
    for i := 0 to |s|
      invariant out + PathEscaped(s[i..]) == PathEscaped(s)
    {
      PathEscapedStep(out, s, i);
      if Unreserved(s[i]) {
        out := out + [s[i]];
      } else {
        out := out + [Byte('%'), HEX[s[i] as int / 16], HEX[s[i] as int % 16]];
      }
    }
  }

  function EscapedAll(segs: seq<Bytes>): (r: seq<Bytes>)
    ensures |r| == |segs|
    ensures forall i :: 0 <= i < |segs| ==> r[i] == PathEscaped(segs[i])
  {
    if segs == [] then [] else [PathEscaped(segs[0])] + EscapedAll(segs[1..])
  }

  /** Split at slashes, escape every segment, join again. */
  function KeyEscaped(key: Bytes): Bytes {
    if Byte('/') !in key then PathEscaped(key) else Join(EscapedAll(Split(key, Byte('/'))), Byte('/'))
  }

  /** `awsKeyEscape`: the segment list is rewritten in place. */
  method AwsKeyEscape(key: Bytes) returns (out: Bytes)
    ensures out == KeyEscaped(key)
  {
    if Byte('/') !in key {
      out := AwsPathEscape(key);
      return;
    }
    var split := Split(key, Byte('/'));
    var segs := split;
    for i := 0 to |segs|
      invariant |segs| == |split|
      invariant forall k :: 0 <= k < i ==> segs[k] == PathEscaped(split[k])
      invariant forall k :: i <= k < |segs| ==> segs[k] == split[k]
    {
      var e := AwsPathEscape(segs[i]);
      segs := segs[i := e];
    }
    assert segs == EscapedAll(split);
    out := Join(segs, Byte('/'));
  }

  // ---- The two encoders agree -----------------------------------------------

  lemma HexTable(n: int)
    requires 0 <= n < 16
    ensures HEX[n] == HexUpper(n)
  {
  }

  /** On a segment both encoders write the same text. */
  lemma {:induction false} SegmentAgrees(s: Bytes, encodeSlash: bool)
    requires encodeSlash || Byte('/') !in s
    ensures PathEscaped(s) == Encoded(s, encodeSlash)
  {
    if s != [] {
      HexTable(s[0] as int / 16);
      HexTable(s[0] as int % 16);
      SegmentAgrees(s[1..], encodeSlash);
    }
  }

  lemma {:induction false} EncodedConcat(a: Bytes, b: Bytes, encodeSlash: bool)
    ensures Encoded(a + b, encodeSlash) == Encoded(a, encodeSlash) + Encoded(b, encodeSlash)
  {
    if a == [] {
      assert a + b == b;
    } else {
      assert (a + b)[1..] == a[1..] + b;
      EncodedConcat(a[1..], b, encodeSlash);
    }
  }

  lemma {:induction false} JoinEscaped(segs: seq<Bytes>)
    requires |segs| > 0 && AllFree(segs, Byte('/'))
    ensures Join(EscapedAll(segs), Byte('/')) == Encoded(Join(segs, Byte('/')), false)
  {
    assert Byte('/') !in segs[0];
    SegmentAgrees(segs[0], false);
    if |segs| > 1 {
      var rest := Join(segs[1..], Byte('/'));
      JoinEscaped(segs[1..]);
      assert EscapedAll(segs)[1..] == EscapedAll(segs[1..]);
      EncodedConcat(segs[0] + [Byte('/')], rest, false);
      EncodedConcat(segs[0], [Byte('/')], false);
      assert Encoded([Byte('/')], false) == [Byte('/')];
    }
  }

  /** Split-escape-join equals the one-pass encoder that keeps slashes, on every key. */
  lemma KeyEncodersAgree(key: Bytes)
    ensures KeyEscaped(key) == Encoded(key, false)
  {
    if Byte('/') !in key {
      SegmentAgrees(key, false);
    } else {
      JoinOfSplit(key, Byte('/'));
      SplitFree(key, Byte('/'));
      JoinEscaped(Split(key, Byte('/')));
    }
  }

  // ---- Decoding -------------------------------------------------------------

  function HexValue(c: byte): (v: int)
    ensures -1 <= v < 16
  {
    if Byte('0') <= c <= Byte('9') then (c - Byte('0')) as int
    else if Byte('A') <= c <= Byte('F') then (c - Byte('A')) as int + 10
    else if Byte('a') <= c <= Byte('f') then (c - Byte('a')) as int + 10
    else -1
  }

  /** Percent-decoding of RFC 3986 section 2.1; a '%' without two hex digits is an error. */
  function PercentDecode(s: Bytes): Option<Bytes> {
    if s == [] then Some([])
    else if s[0] != Byte('%') then
      match PercentDecode(s[1..])
      case None => None
      case Some(rest) => Some([s[0]] + rest)
    else if |s| < 3 || HexValue(s[1]) < 0 || HexValue(s[2]) < 0 then None
    else
      match PercentDecode(s[3..])
      case None => None
      case Some(rest) => Some([(HexValue(s[1]) * 16 + HexValue(s[2])) as byte] + rest)
  }

  lemma HexValueOfHexUpper(n: int)
    requires 0 <= n < 16
    ensures HexValue(HexUpper(n)) == n
  {
  }

  /** Decoding the encoding of one byte in front of any text gives the byte back. */
  lemma DecodeEncodedByte(c: byte, encodeSlash: bool, rest: Bytes)
    requires PercentDecode(rest).Some?
    ensures PercentDecode(EncodedByte(c, encodeSlash) + rest) == Some([c] + PercentDecode(rest).value)
  {
    var hi, lo := c as int / 16, c as int % 16;
    HexValueOfHexUpper(hi);
    HexValueOfHexUpper(lo);
    var e := EncodedByte(c, encodeSlash);
    if |e| == 1 {
      assert (e + rest)[1..] == rest;
    } else {
      assert (e + rest)[3..] == rest;
      assert (e + rest)[..3] == [Byte('%'), HexUpper(hi), HexUpper(lo)];
    }
  }

  /** Decoding undoes encoding, whichever way slashes are treated. */
  lemma {:induction false} DecodeEncoded(s: Bytes, encodeSlash: bool)
    ensures PercentDecode(Encoded(s, encodeSlash)) == Some(s)
  {
    if s != [] {
      DecodeEncoded(s[1..], encodeSlash);
      DecodeEncodedByte(s[0], encodeSlash, Encoded(s[1..], encodeSlash));
      assert s == [s[0]] + s[1..];
    }
  }

  lemma EncodedInjective(s: Bytes, t: Bytes, encodeSlash: bool)
    requires Encoded(s, encodeSlash) == Encoded(t, encodeSlash)
    ensures s == t
  {
    DecodeEncoded(s, encodeSlash);
    DecodeEncoded(t, encodeSlash);
  }

  /** With slashes encoded, the output is made of unreserved bytes and '%' only. */
  lemma {:induction false} EncodedAlphabet(s: Bytes)
    ensures forall c :: c in Encoded(s, true) ==> Unreserved(c) || c == Byte('%')
  {
    if s != [] {
      EncodedAlphabet(s[1..]);
    }
  }

  // ---- Outbound path and route ----------------------------------------------

  function BuildOutboundPath(bucket: Bytes, key: Bytes): Bytes {
    if key == [] then [Byte('/')] + bucket else [Byte('/')] + bucket + [Byte('/')] + key
  }

  function BuildOutboundRawPath(bucket: Bytes, key: Bytes): Bytes {
    if key == [] then [Byte('/')] + PathEscaped(bucket)
    else [Byte('/')] + PathEscaped(bucket) + [Byte('/')] + KeyEscaped(key)
  }

  lemma ConsConcat(c: byte, x: Bytes, y: Bytes)
    ensures [c] + (x + y) == [c] + x + y
  {
  }

  lemma {:induction false} DecodeConcat(a: Bytes, b: Bytes)
    requires PercentDecode(a).Some? && PercentDecode(b).Some?
    ensures PercentDecode(a + b) == Some(PercentDecode(a).value + PercentDecode(b).value)
    decreases |a|
  {
    if a == [] {
      assert a + b == b;
      assert [] + PercentDecode(b).value == PercentDecode(b).value;
    } else {
      var k := if a[0] == Byte('%') then 3 else 1;
      assert (a + b)[k..] == a[k..] + b;
      DecodeConcat(a[k..], b);
      ConsConcat(PercentDecode(a).value[0], PercentDecode(a[k..]).value, PercentDecode(b).value);
    }
  }

  /** The raw path is a percent-encoding of the path, for every bucket and key. */
  lemma RawPathDecodes(bucket: Bytes, key: Bytes)
    ensures PercentDecode(BuildOutboundRawPath(bucket, key)) == Some(BuildOutboundPath(bucket, key))
  {
    SegmentAgrees(bucket, true);
    DecodeEncoded(bucket, true);
    var b := PathEscaped(bucket);
    assert PercentDecode([Byte('/')]) == Some([Byte('/')]) by {
      DecodeEncoded([Byte('/')], false);
      assert Encoded([Byte('/')], false) == [Byte('/')];
    }
    DecodeConcat([Byte('/')], b);
    if key != [] {
      KeyEncodersAgree(key);
      DecodeEncoded(key, false);
      DecodeConcat([Byte('/')] + b, [Byte('/')]);
      DecodeConcat([Byte('/')] + b + [Byte('/')], KeyEscaped(key));
    }
  }

  datatype RouteInfo = RouteInfo(bucket: Bytes, key: Bytes, pathStyle: bool)

  /** The host without its port, lower-cased. */
  function HostName(host: Bytes): Bytes {
    var h := Lower(host);
    var i := IndexByte(h, Byte(':'));
    if i >= 0 then h[..i] else h
  }

  function DottedSuffix(suf: Bytes): Bytes {
    [Byte('.')] + TrimPrefix(Lower(suf), [Byte('.')])
  }

  predicate MatchesSuffix(host: Bytes, suf: Bytes) {
    suf != [] && HasSuffix(host, DottedSuffix(suf)) && |host| > |DottedSuffix(suf)|
  }

  /** The bucket named by the first matching suffix. */
  function VirtualBucket(host: Bytes, suffixes: seq<Bytes>): Option<Bytes> {
    if suffixes == [] then None
    else if MatchesSuffix(host, suffixes[0]) then Some(host[..|host| - |DottedSuffix(suffixes[0])|])
    else VirtualBucket(host, suffixes[1..])
  }

  /** The first segment is the bucket. */
  function PathStyle(path: Bytes): RouteInfo {
    var p := TrimPrefix(path, [Byte('/')]);
    if p == [] then RouteInfo([], [], true)
    else
      var slash := IndexByte(p, Byte('/'));
      if slash < 0 then RouteInfo(p, [], true)
      else RouteInfo(p[..slash], p[slash + 1..], true)
  }

  function ClassifyRoute(host: Bytes, path: Bytes, suffixes: seq<Bytes>): RouteInfo {
    match VirtualBucket(HostName(host), suffixes)
    case Some(bucket) => RouteInfo(bucket, TrimPrefix(path, [Byte('/')]), false)
    case None => PathStyle(path)
  }

  /** Classifying an outbound path gives its bucket and key back. */
  lemma ClassifyOutbound(bucket: Bytes, key: Bytes, host: Bytes, suffixes: seq<Bytes>)
    requires bucket != [] && Byte('/') !in bucket
    requires VirtualBucket(HostName(host), suffixes).None?
    ensures ClassifyRoute(host, BuildOutboundPath(bucket, key), suffixes) == RouteInfo(bucket, key, true)
  {
    var path := BuildOutboundPath(bucket, key);
    assert path[..1] == [Byte('/')];
    if key == [] {
      assert path[1..] == bucket;
    } else {
      PathStyleRoute(bucket, key, host, suffixes);
    }
  }

  lemma {:induction false} FirstMatch(host: Bytes, suffixes: seq<Bytes>, k: nat)
    requires k < |suffixes| && MatchesSuffix(host, suffixes[k])
    requires forall j :: 0 <= j < k ==> !MatchesSuffix(host, suffixes[j])
    ensures VirtualBucket(host, suffixes) == Some(host[..|host| - |DottedSuffix(suffixes[k])|])
  {
    if k > 0 {
      FirstMatch(host, suffixes[1..], k - 1);
    }
  }

  /**
   * A virtual-hosted request for a bucket and a path-style request for the same bucket and key flatten to one outbound
   * path. `name` is the host in any case, and `suffixes[k]` the first suffix it matches.
   */
  lemma VirtualHostFlattens(
    name: Bytes, bucket: Bytes, key: Bytes, port: Bytes, suffixes: seq<Bytes>, k: nat, plain: Bytes)
    requires bucket != [] && Byte('/') !in bucket && Byte(':') !in name
    requires k < |suffixes| && suffixes[k] != [] && Lower(name) == bucket + DottedSuffix(suffixes[k])
    requires port == [] || port[0] == Byte(':')
    requires forall j :: 0 <= j < k ==> !MatchesSuffix(Lower(name), suffixes[j])
    requires VirtualBucket(HostName(plain), suffixes).None?
    ensures
      var virtual := ClassifyRoute(name + port, [Byte('/')] + key, suffixes);
      var pathStyle := ClassifyRoute(plain, [Byte('/')] + bucket + [Byte('/')] + key, suffixes);
      && virtual == RouteInfo(bucket, key, false)
      && pathStyle == RouteInfo(bucket, key, true)
      && BuildOutboundPath(virtual.bucket, virtual.key) == BuildOutboundPath(pathStyle.bucket, pathStyle.key)
  {
    VirtualHostRoute(name, bucket, key, port, suffixes, k);
    PathStyleRoute(bucket, key, plain, suffixes);
  }

  lemma VirtualHostRoute(name: Bytes, bucket: Bytes, key: Bytes, port: Bytes, suffixes: seq<Bytes>, k: nat)
    requires bucket != [] && Byte(':') !in name
    requires k < |suffixes| && suffixes[k] != [] && Lower(name) == bucket + DottedSuffix(suffixes[k])
    requires port == [] || port[0] == Byte(':')
    requires forall j :: 0 <= j < k ==> !MatchesSuffix(Lower(name), suffixes[j])
    ensures ClassifyRoute(name + port, [Byte('/')] + key, suffixes) == RouteInfo(bucket, key, false)
  {
    var (low, suf) := (Lower(name), DottedSuffix(suffixes[k]));
    HostNameStripsPort(name, port);
    assert low[|low| - |suf|..] == suf && low[..|low| - |suf|] == bucket;
    FirstMatch(low, suffixes, k);
    assert ([Byte('/')] + key)[..1] == [Byte('/')] && ([Byte('/')] + key)[1..] == key;
  }

  lemma PathStyleRoute(bucket: Bytes, key: Bytes, host: Bytes, suffixes: seq<Bytes>)
    requires bucket != [] && Byte('/') !in bucket
    requires VirtualBucket(HostName(host), suffixes).None?
    ensures ClassifyRoute(host, [Byte('/')] + bucket + [Byte('/')] + key, suffixes) == RouteInfo(bucket, key, true)
  {
    FirstSegment(bucket, key);
  }

  lemma FirstSegment(bucket: Bytes, key: Bytes)
    requires bucket != [] && Byte('/') !in bucket
    ensures PathStyle([Byte('/')] + bucket + [Byte('/')] + key) == RouteInfo(bucket, key, true)
  {
    var path := [Byte('/')] + bucket + [Byte('/')] + key;
    var p := bucket + [Byte('/')] + key;
    assert TrimPrefix(path, [Byte('/')]) == p;
    IndexByteAt(bucket, Byte('/'), key);
    assert p[..|bucket|] == bucket && p[|bucket| + 1..] == key;
  }

  /** The host name is lower-cased and rid of its port. */
  lemma HostNameStripsPort(name: Bytes, port: Bytes)
    requires Byte(':') !in name
    requires port == [] || port[0] == Byte(':')
    ensures HostName(name + port) == Lower(name)
  {
    var (low, h) := (Lower(name), Lower(name + port));
    assert h[..|name|] == low;
    assert Byte(':') !in low;
    if port == [] {
      assert h == low;
    } else {
      assert h == low + [Byte(':')] + h[|name| + 1..];
      IndexByteAt(low, Byte(':'), h[|name| + 1..]);
    }
  }

  // ---- What the encoder leaves alone, and what a route is -----------------------

  const DIGITS: Bytes := Ascii("0123456789")

  lemma DigitsExactly(c: byte)
    ensures c in DIGITS <==> Byte('0') <= c <= Byte('9')
  {
    var d := c as int - 48;
    assert forall i :: 0 <= i < 10 ==> DIGITS[i] as int == 48 + i;
    if 0 <= d < 10 {
      assert DIGITS[d] == c;
    }
  }

  lemma LettersExactly(c: byte)
    ensures c in UPPER_CASE <==> Byte('A') <= c <= Byte('Z')
    ensures c in LOWER_CASE <==> Byte('a') <= c <= Byte('z')
  {
    var (u, l) := (c as int - 65, c as int - 97);
    assert forall i :: 0 <= i < 26 ==> UPPER_CASE[i] as int == 65 + i;
    assert forall i :: 0 <= i < 26 ==> LOWER_CASE[i] as int == 97 + i;
    if 0 <= u < 26 {
      assert UPPER_CASE[u] == c;
    }
    if 0 <= l < 26 {
      assert LOWER_CASE[l] == c;
    }
  }

  /**
   * Letters, digits and "-_.~" stay as they are, and so does a slash where slashes are kept. Every other byte becomes
   * '%' and two upper-case hex digits, the high one first.
   */
  lemma EncodedExactly(c: byte, encodeSlash: bool)
    ensures Encoded([c], encodeSlash) ==
      if c in UPPER_CASE || c in LOWER_CASE || c in DIGITS || c in Ascii("-_.~") || (c == Byte('/') && !encodeSlash)
      then [c]
      else [Byte('%'), Ascii("0123456789ABCDEF")[c as int / 16], Ascii("0123456789ABCDEF")[c as int % 16]]
  {
    LettersExactly(c);
    DigitsExactly(c);
    assert Ascii("-_.~") == [Byte('-'), Byte('_'), Byte('.'), Byte('~')];
    HexTable(c as int / 16);
    HexTable(c as int % 16);
    assert [c][1..] == [];
  }

  /** A path-style path is bucket, slash and key, after a slash it may start with; without a further slash, a bucket. */
  lemma PathStyleExactly(path: Bytes)
    ensures SpellsRoute(TrimPrefix(path, [Byte('/')]), PathStyle(path))
  {
    var p := TrimPrefix(path, [Byte('/')]);
    if Byte('/') in p {
      IndexByteCuts(p, Byte('/'));
    }
  }

  predicate SpellsRoute(p: Bytes, r: RouteInfo) {
    && r.pathStyle && Byte('/') !in r.bucket
    && if Byte('/') in p then p == r.bucket + [Byte('/')] + r.key else p == r.bucket && r.key == []
  }

  /** The bare host asks for the service itself. */
  lemma ServiceLevel(host: Bytes, suffixes: seq<Bytes>)
    requires VirtualBucket(HostName(host), suffixes).None?
    ensures ClassifyRoute(host, [], suffixes) == ClassifyRoute(host, [Byte('/')], suffixes) == RouteInfo([], [], true)
  {
  }

  /** The host is a bucket in front of the dotted suffix. */
  predicate NamesBucket(host: Bytes, suf: Bytes, bucket: Bytes) {
    suf != [] && bucket != [] && host == bucket + ([Byte('.')] + TrimPrefix(Lower(suf), [Byte('.')]))
  }

  lemma MatchExactly(host: Bytes, suf: Bytes, bucket: Bytes)
    ensures MatchesSuffix(host, suf) && bucket == host[..|host| - |DottedSuffix(suf)|]
       <==> NamesBucket(host, suf, bucket)
  {
    var dotted := DottedSuffix(suf);
    if MatchesSuffix(host, suf) {
      assert host == host[..|host| - |dotted|] + dotted;
    }
    if NamesBucket(host, suf, bucket) {
      assert host[|host| - |dotted|..] == dotted && host[..|host| - |dotted|] == bucket;
    }
  }

  /** A host is virtual exactly when some suffix leaves a non-empty bucket in front of it. */
  lemma {:induction false} VirtualExactly(host: Bytes, suffixes: seq<Bytes>)
    ensures VirtualBucket(host, suffixes).Some? <==>
      exists k, bucket :: 0 <= k < |suffixes| && NamesBucket(host, suffixes[k], bucket)
  {
    if suffixes != [] {
      VirtualExactly(host, suffixes[1..]);
      if MatchesSuffix(host, suffixes[0]) {
        MatchExactly(host, suffixes[0], host[..|host| - |DottedSuffix(suffixes[0])|]);
      }
      forall k, bucket | 0 <= k < |suffixes| && NamesBucket(host, suffixes[k], bucket)
        ensures VirtualBucket(host, suffixes).Some?
      {
        MatchExactly(host, suffixes[k], bucket);
        if k > 0 {
          assert suffixes[1..][k - 1] == suffixes[k];
        }
      }
      if k, bucket :| 0 <= k < |suffixes[1..]| && NamesBucket(host, suffixes[1..][k], bucket) {
        assert NamesBucket(host, suffixes[k + 1], bucket);
      }
    }
  }
}
