/** The wire format of aws-chunked bodies: chunk headers, signatures, and one decoding step per reader. */
module ChunkCodec {
  import opened ByteStrings
  import opened Int64

  const MAX_CHUNK_SIZE: int := 64 * 1024 * 1024
  const CRLF: Bytes := [Byte('\r'), Byte('\n')]

  datatype Error =
    | HeaderRead | MissingExtension | BadSize | BadExtension | SignatureNotHex
    | SizeLimit | DataRead | TerminatorRead | MissingCrlf | SignatureMismatch | TrailerRead

  /** How the underlying reader ends once its bytes are used up. */
  datatype End = Eof | Fault

  /** One successful decoding step yields the chunk, its signature and the unread input. */
  datatype ChunkResult = Got(data: Bytes, sig: Bytes, rest: Bytes) | Failed(error: Error)

  // ---- Numbers and hex text ---------------------------------------------------

  predicate IsHexDigit(c: byte) {
    Byte('0') <= c <= Byte('9') || Byte('a') <= c <= Byte('f') || Byte('A') <= c <= Byte('F')
  }

  function DigitValue(c: byte): (v: int)
    requires IsHexDigit(c)
    ensures 0 <= v < 16
  {
    if c <= Byte('9') then (c - Byte('0')) as int
    else if c <= Byte('F') then (c - Byte('A')) as int + 10
    else (c - Byte('a')) as int + 10
  }

  predicate AllHexDigits(s: Bytes) {
    forall i :: 0 <= i < |s| ==> IsHexDigit(s[i])
  }

  function HexNumber(s: Bytes): (v: int)
    requires AllHexDigits(s)
    ensures v >= 0
  {
    if s == [] then 0 else HexNumber(s[..|s| - 1]) * 16 + DigitValue(s[|s| - 1])
  }

  /** `strconv.ParseInt(s, 16, 64)`; -1 stands for an error or a negative number, which callers reject alike. */
  function ParseSize(s: Bytes): (n: int)
    ensures -1 <= n <= MAX_INT64
  {
    var digits := if s != [] && (s[0] == Byte('+') || s[0] == Byte('-')) then s[1..] else s;
    if digits == [] || !AllHexDigits(digits) then -1
    else
      var v := HexNumber(digits);
      if s[0] == Byte('-') then (if v == 0 then 0 else -1)
      else if v > MAX_INT64 then -1 else v
  }

  function LowerDigit(n: int): byte
    requires 0 <= n < 16
  {
    if n < 10 then Byte('0') + n as byte else Byte('a') + (n - 10) as byte
  }

  /** The value of a hex digit is its place in the table, in either case. */
  lemma DigitTable(c: byte)
    requires IsHexDigit(c)
    ensures Ascii("0123456789abcdef")[DigitValue(c)] == LowerByte(c)
  {
  }

  function Pow16(n: nat): nat {
    if n == 0 then 1 else 16 * Pow16(n - 1)
  }

  lemma ShiftDigit(h: nat, p: nat, l: nat, d: nat)
    ensures (h * p + l) * 16 + d == h * (16 * p) + (l * 16 + d)
  {
  }

  /** Hex numbers are positional, the high digits first. */
  lemma {:induction false} HexNumberPositional(a: Bytes, b: Bytes)
    requires AllHexDigits(a) && AllHexDigits(b)
    ensures AllHexDigits(a + b) && HexNumber(a + b) == HexNumber(a) * Pow16(|b|) + HexNumber(b)
  {
    if b == [] {
      assert a + b == a;
    } else {
      var front := b[..|b| - 1];
      assert (a + b)[..|a + b| - 1] == a + front;
      HexNumberPositional(a, front);
      ShiftDigit(HexNumber(a), Pow16(|front|), HexNumber(front), DigitValue(b[|b| - 1]));
    }
  }

  /** The sizes that parse: hex digits for a 64-bit number, a plus sign allowed, a minus sign for zero only. */
  lemma ParseSizeExactly(s: Bytes, n: nat)
    ensures ParseSize(s) == n <==> exists digits ::
      && digits != [] && AllHexDigits(digits) && HexNumber(digits) == n <= MAX_INT64
      && (s == digits || s == [Byte('+')] + digits || (s == [Byte('-')] + digits && n == 0))
  {
    var signed := s != [] && (s[0] == Byte('+') || s[0] == Byte('-'));
    var digits := if signed then s[1..] else s;
    assert signed ==> s == [s[0]] + digits;
    forall d | AllHexDigits(d) && d != [] && (s == d || s == [Byte('+')] + d || s == [Byte('-')] + d)
      ensures d == digits
    {
      assert s == d ==> IsHexDigit(s[0]);
      assert s != d ==> s[1..] == d;
    }
  }

  /** A size in lower-case hex, as the SDKs write it. */
  function HexDigits(n: nat): (s: Bytes)
    ensures s != []
  {
    if n < 16 then [LowerDigit(n)] else HexDigits(n / 16) + [LowerDigit(n % 16)]
  }

  /** `hex.EncodeToString`. */
  function HexEncode(raw: Bytes): Bytes {
    if raw == [] then []
    else [LowerDigit(raw[0] as int / 16), LowerDigit(raw[0] as int % 16)] + HexEncode(raw[1..])
  }

  predicate IsLowerHex(c: byte) {
    Byte('0') <= c <= Byte('9') || Byte('a') <= c <= Byte('f')
  }

  ghost predicate AllLowerHex(s: Bytes) {
    forall i :: 0 <= i < |s| ==> IsLowerHex(s[i])
  }

  lemma {:induction false} HexEncodeShape(raw: Bytes)
    ensures AllLowerHex(HexEncode(raw)) && |HexEncode(raw)| == 2 * |raw|
  {
    if raw != [] { HexEncodeShape(raw[1..]); }
  }

  /** Reading a written size gives it back. */
  lemma {:induction false} HexNumberOfDigits(n: nat)
    ensures AllLowerHex(HexDigits(n)) && AllHexDigits(HexDigits(n)) && HexNumber(HexDigits(n)) == n
  {
    var s := HexDigits(n);
    if n < 16 {
      assert s[..|s| - 1] == [];
    } else {
      HexNumberOfDigits(n / 16);
      assert s[..|s| - 1] == HexDigits(n / 16);
    }
  }

  lemma ParseWrittenSize(n: nat)
    requires n <= MAX_INT64
    ensures ParseSize(HexDigits(n)) == n
  {
    HexNumberOfDigits(n);
    assert IsLowerHex(HexDigits(n)[0]);
  }

  // ---- Headers --------------------------------------------------------------

  /** `strings.TrimRight(line, "\r\n")`. */
  function TrimEol(s: Bytes): Bytes {
    if s != [] && (s[|s| - 1] == Byte('\r') || s[|s| - 1] == Byte('\n')) then TrimEol(s[..|s| - 1]) else s
  }

  /** Only line ends are cut off, and all of them. */
  lemma {:induction false} TrimEolExactly(s: Bytes)
    ensures TrimEol(s) <= s && forall i :: |TrimEol(s)| <= i < |s| ==> s[i] == Byte('\r') || s[i] == Byte('\n')
    ensures var t := TrimEol(s); t == [] || (t[|t| - 1] != Byte('\r') && t[|t| - 1] != Byte('\n'))
  {
    if s != [] && (s[|s| - 1] == Byte('\r') || s[|s| - 1] == Byte('\n')) {
      TrimEolExactly(s[..|s| - 1]);
    }
  }

  lemma TrimEolOfLine(s: Bytes)
    ensures TrimEol(s + CRLF) == TrimEol(s)
  {
    var t := s + CRLF;
    assert t[..|t| - 1] == s + [Byte('\r')];
    assert (s + [Byte('\r')])[..|s|] == s;
  }

  datatype Header = Good(size: nat, sig: Bytes) | Bad(error: Error)

  const SIG_PREFIX: Bytes := Ascii("chunk-signature=")

  /** The size field: what stands before the first ';'. */
  function SizeField(line: Bytes): Bytes {
    var semi := IndexByte(line, Byte(';'));
    if semi >= 0 then line[..semi] else line
  }

  function ParseExtension(ext: Bytes, size: nat): (h: Header)
    requires size <= MAX_INT64
    ensures h.Good? ==> h.size == size
  {
    if !HasPrefix(ext, SIG_PREFIX) then Bad(BadExtension)
    else
      var sig := Lower(TrimSpace(ext[|SIG_PREFIX|..]));
      if |sig| % 2 != 0 || !AllHexDigits(sig) then Bad(SignatureNotHex) else Good(size, sig)
  }

  /** The size the unsigned reader takes from a header line: extensions are cut off. */
  function ParseBareSize(line: Bytes): (n: int)
    ensures -1 <= n <= MAX_INT64
  {
    ParseSize(TrimSpace(SizeField(line)))
  }

  /** `parseChunkHeader`. */
  function ParseChunkHeader(line: Bytes): (h: Header)
    ensures h.Good? ==> h.size == ParseBareSize(line)
  {
    var semi := IndexByte(line, Byte(';'));
    if semi < 0 then Bad(MissingExtension)
    else
      var size := ParseSize(TrimSpace(line[..semi]));
      if size < 0 then Bad(BadSize) else ParseExtension(TrimSpace(line[semi + 1..]), size)
  }

  /** The extension names the signature, in either case and with white space around. */
  ghost predicate SpellsExtension(ext: Bytes, sig: Bytes, raw: Bytes) {
    && TrimSpace(ext) == SIG_PREFIX + raw
    && sig == Lower(TrimSpace(raw)) && |sig| % 2 == 0 && AllHexDigits(sig)
  }

  /** The header line is a size field, the first semicolon and an extension. */
  ghost predicate CutsHeader(line: Bytes, n: nat, field: Bytes, ext: Bytes) {
    line == field + [Byte(';')] + ext && Byte(';') !in field && ParseSize(TrimSpace(field)) == n
  }

  /** The header line is cut at its first semicolon. */
  lemma ParseHeaderSplits(line: Bytes, field: Bytes, ext: Bytes)
    requires line == field + [Byte(';')] + ext && Byte(';') !in field
    ensures ParseChunkHeader(line) ==
      var size := ParseSize(TrimSpace(field)); if size < 0 then Bad(BadSize) else ParseExtension(TrimSpace(ext), size)
  {
    IndexByteAt(field, Byte(';'), ext);
    assert line[..|field|] == field && line[|field| + 1..] == ext;
  }

  lemma ParseExtensionExactly(ext: Bytes, size: nat, sig: Bytes)
    requires size <= MAX_INT64
    ensures ParseExtension(TrimSpace(ext), size) == Good(size, sig) <==> exists raw :: SpellsExtension(ext, sig, raw)
  {
    var t := TrimSpace(ext);
    HasPrefixExactly(t, SIG_PREFIX);
    if ParseExtension(t, size) == Good(size, sig) {
      assert SpellsExtension(ext, sig, t[|SIG_PREFIX|..]);
    }
    if exists raw :: SpellsExtension(ext, sig, raw) {
      var raw :| SpellsExtension(ext, sig, raw);
      assert (SIG_PREFIX + raw)[|SIG_PREFIX|..] == raw;
    }
  }

  /**
   * The headers that parse are exactly a size, the first semicolon and `chunk-signature=` with an even number of hex
   * digits, with white space around the parts.
   */
  lemma ParseHeaderExactly(line: Bytes, n: nat, sig: Bytes)
    ensures ParseChunkHeader(line) == Good(n, sig) <==>
      exists field, ext, raw :: CutsHeader(line, n, field, ext) && SpellsExtension(ext, sig, raw)
    ensures SIG_PREFIX == Ascii("chunk-signature=")
  {
    if ParseChunkHeader(line) == Good(n, sig) {
      var field, ext := CutAt(line, Byte(';'));
      ParseHeaderSplits(line, field, ext);
      ParseExtensionExactly(ext, n, sig);
      var raw :| SpellsExtension(ext, sig, raw);
      assert CutsHeader(line, n, field, ext);
    }
    if exists field, ext, raw :: CutsHeader(line, n, field, ext) && SpellsExtension(ext, sig, raw) {
      var field, ext, raw :| CutsHeader(line, n, field, ext) && SpellsExtension(ext, sig, raw);
      ParseHeaderSplits(line, field, ext);
      ParseExtensionExactly(ext, n, sig);
    }
  }

  function HeaderText(n: nat, sig: Bytes): Bytes {
    HexDigits(n) + [Byte(';')] + (SIG_PREFIX + sig)
  }

  lemma LowerHexTrim(s: Bytes)
    requires AllLowerHex(s)
    ensures TrimSpace(s) == s
  {
    assert s != [] ==> IsLowerHex(s[0]) && IsLowerHex(s[|s| - 1]);
    TrimSpaceFixed(s);
  }

  lemma LowerHexLower(s: Bytes)
    requires AllLowerHex(s)
    ensures Lower(s) == s && AllHexDigits(s)
  {
    forall i | 0 <= i < |s| ensures LowerByte(s[i]) == s[i] && IsHexDigit(s[i]) { assert IsLowerHex(s[i]); }
  }

  lemma LowerHexFree(s: Bytes, c: byte)
    requires AllLowerHex(s) && !IsLowerHex(c)
    ensures c !in s
  {
  }

  lemma SigPrefixEnds()
    ensures |SIG_PREFIX| == 16 && SIG_PREFIX[0] == Byte('c') && SIG_PREFIX[15] == Byte('=')
  {
  }

  lemma TrimWrittenExtension(sig: Bytes)
    requires AllLowerHex(sig)
    ensures TrimSpace(SIG_PREFIX + sig) == SIG_PREFIX + sig
  {
    var ext := SIG_PREFIX + sig;
    SigPrefixEnds();
    assert ext[0] == Byte('c');
    assert ext[|ext| - 1] == Byte('=') || IsLowerHex(ext[|ext| - 1]);
    TrimSpaceFixed(ext);
  }

  lemma ParseWrittenExtension(sig: Bytes, size: nat)
    requires size <= MAX_INT64 && AllLowerHex(sig) && |sig| % 2 == 0
    ensures ParseExtension(SIG_PREFIX + sig, size) == Good(size, sig)
  {
    var ext := SIG_PREFIX + sig;
    LowerHexTrim(sig);
    LowerHexLower(sig);
    assert ext[..|SIG_PREFIX|] == SIG_PREFIX && ext[|SIG_PREFIX|..] == sig;
  }

  lemma WrittenSizeField(n: nat)
    requires n <= MAX_INT64
    ensures Byte(';') !in HexDigits(n) && Byte('\n') !in HexDigits(n) && ParseSize(TrimSpace(HexDigits(n))) == n
  {
    HexNumberOfDigits(n);
    ParseWrittenSize(n);
    LowerHexTrim(HexDigits(n));
    LowerHexFree(HexDigits(n), Byte(';'));
    LowerHexFree(HexDigits(n), Byte('\n'));
  }

  /** Parsing a written header gives its size and signature back. */
  lemma ParseHeaderText(n: nat, sig: Bytes)
    requires n <= MAX_CHUNK_SIZE && AllLowerHex(sig) && |sig| % 2 == 0
    ensures ParseChunkHeader(HeaderText(n, sig)) == Good(n, sig)
  {
    WrittenSizeField(n);
    ParseHeaderSplits(HeaderText(n, sig), HexDigits(n), SIG_PREFIX + sig);
    TrimWrittenExtension(sig);
    ParseWrittenExtension(sig, n);
  }

  // ---- Signatures -------------------------------------------------------------

  /** What a reader verifies under; hash functions stay abstract. */
  datatype Context = Context(
    key: Bytes, amzDate: Bytes, region: Bytes, service: Bytes, hmac: (Bytes, Bytes) -> Bytes, sha256: Bytes -> Bytes)

  /** The day of a timestamp such as 20060102T150405Z. */
  function Day(amzDate: Bytes): Bytes {
    amzDate[..Min(8, |amzDate|)]
  }

  /** The credential scope. */
  function ScopeOf(ctx: Context): Bytes {
    Day(ctx.amzDate) + [Byte('/')] + (ctx.region + [Byte('/')] + (ctx.service + Ascii("/aws4_request")))
  }

  const ALGORITHM: Bytes := Ascii("AWS4-HMAC-SHA256-PAYLOAD")
  const EMPTY_SHA256: Bytes :=
    Ascii("e3b0c44298fc1c14") + Ascii("9afbf4c8996fb924") + Ascii("27ae41e4649b934c") + Ascii("a495991b7852b855")

  /** The per-chunk string to sign; its fixed front part first. */
  function ScopeText(ctx: Context): Bytes {
    ALGORITHM + NL + ctx.amzDate + NL + ScopeOf(ctx) + NL
  }

  function StringToSign(ctx: Context, prevSig: Bytes, data: Bytes): Bytes {
    ScopeText(ctx) + (prevSig + NL + (EMPTY_SHA256 + NL + HexEncode(ctx.sha256(data))))
  }

  function ExpectedSig(ctx: Context, prevSig: Bytes, data: Bytes): Bytes {
    HexEncode(ctx.hmac(ctx.key, StringToSign(ctx, prevSig, data)))
  }

  lemma {:induction false} HexEncodeInjective(a: Bytes, b: Bytes)
    requires HexEncode(a) == HexEncode(b)
    ensures a == b
  {
    HexEncodeShape(a);
    HexEncodeShape(b);
    if a != [] {
      var (x, y) := (HexEncode(a), HexEncode(b));
      assert x[0] == y[0] && x[1] == y[1];
      assert a[0] == b[0];
      assert x[2..] == HexEncode(a[1..]) && y[2..] == HexEncode(b[1..]);
      HexEncodeInjective(a[1..], b[1..]);
      assert a == [a[0]] + a[1..] && b == [b[0]] + b[1..];
    }
  }

  /** Hex text reads back byte by byte, the high digit first. */
  lemma {:induction false} HexEncodeReadsBack(raw: Bytes, i: nat)
    requires i < |raw|
    ensures var h := HexEncode(raw);
      && |h| == 2 * |raw| && IsLowerHex(h[2 * i]) && IsLowerHex(h[2 * i + 1])
      && DigitValue(h[2 * i]) * 16 + DigitValue(h[2 * i + 1]) == raw[i] as int
  {
    HexEncodeShape(raw);
    if i > 0 {
      HexEncodeReadsBack(raw[1..], i - 1);
    }
  }

  /** The string to sign is six lines, in this order. */
  lemma StringToSignLines(ctx: Context, prevSig: Bytes, data: Bytes)
    ensures StringToSign(ctx, prevSig, data) == Join(
      [Ascii("AWS4-HMAC-SHA256-PAYLOAD"), ctx.amzDate,
       ctx.amzDate[..Min(8, |ctx.amzDate|)] + [Byte('/')]
         + (ctx.region + [Byte('/')] + (ctx.service + Ascii("/aws4_request"))),
       prevSig, EMPTY_SHA256, HexEncode(ctx.sha256(data))], Byte('\n'))
  {
    var (a, b, c, d, e, f) :=
      (ALGORITHM, ctx.amzDate, ScopeOf(ctx), prevSig, EMPTY_SHA256, HexEncode(ctx.sha256(data)));
    JoinCons(e, [f], Byte('\n'));
    JoinCons(d, [e, f], Byte('\n'));
    JoinCons(c, [d, e, f], Byte('\n'));
    JoinCons(b, [c, d, e, f], Byte('\n'));
    JoinCons(a, [b, c, d, e, f], Byte('\n'));
    assert [e] + [f] == [e, f] && [d] + [e, f] == [d, e, f] && [c] + [d, e, f] == [c, d, e, f];
    assert [b] + [c, d, e, f] == [b, c, d, e, f] && [a] + [b, c, d, e, f] == [a, b, c, d, e, f];
    FrontFirst(a, b, c, d + NL + (e + NL + f));
  }

  lemma FrontFirst(a: Bytes, b: Bytes, c: Bytes, rest: Bytes)
    ensures (a + NL + b + NL + c + NL) + rest == a + NL + (b + NL + (c + NL + rest))
  {
  }

  /** Nothing is confused with anything else: keyed hashes of different keys or texts differ. */
  ghost predicate KeyedInjective(hmac: (Bytes, Bytes) -> Bytes) {
    forall k, x, l, y :: hmac(k, x) == hmac(l, y) ==> k == l && x == y
  }

  /** Strings to sign of two contexts agree only if date, scope, previous signature and data hash do. */
  lemma StringToSignBinds(a: Context, p: Bytes, d: Bytes, b: Context, q: Bytes, e: Bytes)
    requires Byte('\n') !in a.amzDate && Byte('\n') !in b.amzDate
    requires Byte('\n') !in ScopeOf(a) && Byte('\n') !in ScopeOf(b)
    requires Byte('\n') !in p && Byte('\n') !in q && StringToSign(a, p, d) == StringToSign(b, q, e)
    ensures a.amzDate == b.amzDate && ScopeOf(a) == ScopeOf(b) && p == q && a.sha256(d) == b.sha256(e)
  {
    var (u, v) := (EMPTY_SHA256 + NL + HexEncode(a.sha256(d)), EMPTY_SHA256 + NL + HexEncode(b.sha256(e)));
    var (x, y) := (p + NL + u, q + NL + v);
    FrontFirst(ALGORITHM, a.amzDate, ScopeOf(a), x);
    FrontFirst(ALGORITHM, b.amzDate, ScopeOf(b), y);
    var (s, t) := (ScopeOf(a) + NL + x, ScopeOf(b) + NL + y);
    SameFront(ALGORITHM + NL, a.amzDate + NL + s, b.amzDate + NL + t);
    CutInjective(a.amzDate, s, Byte('\n'), b.amzDate, t);
    CutInjective(ScopeOf(a), x, Byte('\n'), ScopeOf(b), y);
    CutInjective(p, u, Byte('\n'), q, v);
    SameFront(EMPTY_SHA256 + NL, HexEncode(a.sha256(d)), HexEncode(b.sha256(e)));
    HexEncodeInjective(a.sha256(d), b.sha256(e));
  }

  lemma SameFront(front: Bytes, x: Bytes, y: Bytes)
    requires front + x == front + y
    ensures x == y
  {
    assert (front + x)[|front|..] == x && (front + y)[|front|..] == y;
  }

  /**
   * A chunk signature binds everything: equal signatures under two contexts with the same, injective hashes mean the
   * same signing key, date, scope, previous signature and data.
   */
  lemma SignatureBinds(a: Context, p: Bytes, d: Bytes, b: Context, q: Bytes, e: Bytes)
    requires a.hmac == b.hmac && a.sha256 == b.sha256 && KeyedInjective(a.hmac)
    requires forall x, y :: a.sha256(x) == a.sha256(y) ==> x == y
    requires Byte('\n') !in a.amzDate && Byte('\n') !in b.amzDate
    requires Byte('\n') !in ScopeOf(a) && Byte('\n') !in ScopeOf(b)
    requires Byte('\n') !in p && Byte('\n') !in q && ExpectedSig(a, p, d) == ExpectedSig(b, q, e)
    ensures a.key == b.key && a.amzDate == b.amzDate && ScopeOf(a) == ScopeOf(b) && p == q && d == e
  {
    HexEncodeInjective(a.hmac(a.key, StringToSign(a, p, d)), b.hmac(b.key, StringToSign(b, q, e)));
    StringToSignBinds(a, p, d, b, q, e);
  }

  /** A scope determines its day, region and service, as far as these hold no slash. */
  lemma ScopeBinds(a: Context, b: Context)
    requires ScopeOf(a) == ScopeOf(b)
    requires Byte('/') !in Day(a.amzDate) && Byte('/') !in Day(b.amzDate)
    requires Byte('/') !in a.region && Byte('/') !in b.region
    ensures Day(a.amzDate) == Day(b.amzDate) && a.region == b.region && a.service == b.service
  {
    var last := Ascii("/aws4_request");
    var (x, y) := (a.service + last, b.service + last);
    CutInjective(Day(a.amzDate), a.region + [Byte('/')] + x, Byte('/'), Day(b.amzDate), b.region + [Byte('/')] + y);
    CutInjective(a.region, x, Byte('/'), b.region, y);
    assert x[..|a.service|] == a.service && y[..|b.service|] == b.service;
  }

  /** The string to sign determines the previous signature and the hash of the chunk. */
  lemma StringToSignInjective(ctx: Context, p: Bytes, d: Bytes, q: Bytes, e: Bytes)
    requires Byte('\n') !in p && Byte('\n') !in q
    requires StringToSign(ctx, p, d) == StringToSign(ctx, q, e)
    ensures p == q && ctx.sha256(d) == ctx.sha256(e)
  {
    var front := ScopeText(ctx);
    var (x, y) := (EMPTY_SHA256 + NL + HexEncode(ctx.sha256(d)), EMPTY_SHA256 + NL + HexEncode(ctx.sha256(e)));
    assert StringToSign(ctx, p, d)[|front|..] == p + NL + x;
    assert StringToSign(ctx, q, e)[|front|..] == q + NL + y;
    CutInjective(p, x, Byte('\n'), q, y);
    var k := |EMPTY_SHA256| + 1;
    assert x[k..] == HexEncode(ctx.sha256(d)) && y[k..] == HexEncode(ctx.sha256(e));
    HexEncodeInjective(ctx.sha256(d), ctx.sha256(e));
  }

  // ---- One decoding step ------------------------------------------------------

  /** Chunk data of a known size, then CRLF. */
  function ReadBody(rest: Bytes, size: nat, sig: Bytes): (r: ChunkResult)
    ensures r.Got? ==> r.sig == sig && |r.data| == size && rest == r.data + CRLF + r.rest
  {
    if |rest| < size then Failed(DataRead)
    else if |rest| < size + 2 then Failed(TerminatorRead)
    else if rest[size..size + 2] != CRLF then Failed(MissingCrlf)
    else
      assert rest == rest[..size] + rest[size..size + 2] + rest[size + 2..];
      Got(rest[..size], sig, rest[size + 2..])
  }

  lemma ReadBodyOf(data: Bytes, rest: Bytes, sig: Bytes)
    ensures ReadBody(data + CRLF + rest, |data|, sig) == Got(data, sig, rest)
  {
    var t := data + CRLF + rest;
    assert t[..|data|] == data && t[|data|..|data| + 2] == CRLF && t[|data| + 2..] == rest;
  }

  /** How the signed reader reads a header line and what signature it expects. */
  datatype Format = Format(parse: Bytes -> Header, sign: (Bytes, Bytes) -> Bytes)

  function SignedFormat(ctx: Context): Format {
    Format(line => ParseChunkHeader(TrimEol(line)), (prevSig, data) => ExpectedSig(ctx, prevSig, data))
  }

  /** How the unsigned reader reads a header line. */
  function BareSize(): Bytes -> int {
    line => ParseBareSize(TrimEol(line))
  }

  /** Whatever header the signed reader accepts, the unsigned reader takes the same size from it. */
  lemma SizesAgree(ctx: Context, line: Bytes)
    ensures SignedFormat(ctx).parse(line).Good? ==> BareSize()(line) == SignedFormat(ctx).parse(line).size
  {
  }

  /** `chunkedReader.readNextChunk`: nothing is handed on before its signature matches. */
  function NextSigned(fmt: Format, prevSig: Bytes, rest: Bytes): (r: ChunkResult)
    ensures r.Got? ==> |r.rest| < |rest|
  {
    var i := IndexByte(rest, Byte('\n'));
    if i < 0 then Failed(HeaderRead)
    else
      var h := fmt.parse(rest[..i + 1]);
      if h.Bad? then Failed(h.error)
      else if h.size > MAX_CHUNK_SIZE then Failed(SizeLimit)
      else
        var body := ReadBody(rest[i + 1..], h.size, h.sig);
        if body.Failed? then body
        else if fmt.sign(prevSig, body.data) != h.sig then Failed(SignatureMismatch)
        else body
  }

  /** Trailer lines up to the blank line; a stream that just ends is tolerated. */
  function DrainTrailer(rest: Bytes, end: End): (r: ChunkResult)
    ensures r.Got? ==> r.data == [] && r.sig == [] && |r.rest| <= |rest|
    decreases |rest|
  {
    var i := IndexByte(rest, Byte('\n'));
    if i < 0 then (if end.Eof? then Got([], [], []) else Failed(TrailerRead))
    else if TrimEol(rest[..i + 1]) == [] then Got([], [], rest[i + 1..])
    else DrainTrailer(rest[i + 1..], end)
  }

  /** `unsignedChunkedReader.readNextChunk`. */
  function NextUnsigned(sizeOf: Bytes -> int, end: End, rest: Bytes): (r: ChunkResult)
    ensures r.Got? ==> |r.rest| < |rest| && r.sig == []
  {
    var i := IndexByte(rest, Byte('\n'));
    if i < 0 then Failed(HeaderRead)
    else
      var size := sizeOf(rest[..i + 1]);
      if size < 0 then Failed(BadSize)
      else if size == 0 then DrainTrailer(rest[i + 1..], end)
      else if size > MAX_CHUNK_SIZE then Failed(SizeLimit)
      else ReadBody(rest[i + 1..], size, [])
  }

  lemma BlankLineEndsTrailer(rest: Bytes, end: End)
    ensures DrainTrailer(CRLF + rest, end) == Got([], [], rest)
  {
    var t := CRLF + rest;
    assert t == [Byte('\r')] + [Byte('\n')] + rest;
    IndexByteAt([Byte('\r')], Byte('\n'), rest);
    assert t[..2] == [] + CRLF && t[2..] == rest;
    TrimEolOfLine([]);
  }

  lemma BodyAgrees(rest: Bytes, size: nat, sig: Bytes, end: End)
    requires ReadBody(rest, size, sig).Got?
    ensures var s := ReadBody(rest, size, sig);
            if size == 0 then s.data == [] && DrainTrailer(rest, end) == Got([], [], s.rest)
            else s.data != [] && ReadBody(rest, size, []) == s.(sig := [])
  {
    var s := ReadBody(rest, size, sig);
    if size == 0 {
      assert rest == CRLF + s.rest;
      BlankLineEndsTrailer(s.rest, end);
    }
  }

  /** A chunk the signed reader accepts is the chunk the unsigned reader finds there. */
  lemma NextAgrees(fmt: Format, sizeOf: Bytes -> int, prevSig: Bytes, end: End, rest: Bytes)
    requires forall line :: fmt.parse(line).Good? ==> sizeOf(line) == fmt.parse(line).size
    requires NextSigned(fmt, prevSig, rest).Got?
    ensures var s, u := NextSigned(fmt, prevSig, rest), NextUnsigned(sizeOf, end, rest);
            u.Got? && u.data == s.data && (s.data != [] ==> u.rest == s.rest)
  {
    var i := IndexByte(rest, Byte('\n'));
    var h := fmt.parse(rest[..i + 1]);
    assert sizeOf(rest[..i + 1]) == h.size;
    BodyAgrees(rest[i + 1..], h.size, h.sig, end);
  }
}
