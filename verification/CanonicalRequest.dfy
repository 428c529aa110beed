/** The canonical request of AWS Signature Version 4 and what its text determines. */
module CanonicalRequests {
  import opened ByteStrings
  import opened CanonicalQueries
  import opened HeaderKeys
  import opened HeaderValues

  /** `http.Header`, keyed by canonical names. */
  type Headers = map<Bytes, seq<Bytes>>

  datatype Request = Request(
    method_: Bytes, escapedPath: Bytes, query: Query, headers: Headers, signed: seq<Bytes>, payloadHash: Bytes)

  // ---- Headers ----------------------------------------------------------------

  function Values(headers: Headers, name: Bytes): seq<Bytes> {
    if CanonicalKey(name) in headers then headers[CanonicalKey(name)] else []
  }

  /** `canonicalHeaderValue`. */
  function HeaderValue(headers: Headers, name: Bytes): Bytes {
    var vals := Values(headers, name);
    if vals == [] then [] else Collapsed(Join(vals, Byte(',')))
  }

  function HeaderLine(headers: Headers, name: Bytes): Bytes {
    name + [Byte(':')] + HeaderValue(headers, name)
  }

  function HeadersText(headers: Headers, signed: seq<Bytes>): Bytes {
    if signed == [] then [] else HeaderLine(headers, signed[0]) + [Byte('\n')] + HeadersText(headers, signed[1..])
  }

  method CanonicalHeaderValue(headers: Headers, name: Bytes) returns (v: Bytes)
    ensures v == HeaderValue(headers, name)
  {
    var vals := Values(headers, name);
    if vals == [] {
      return [];
    }
    v := TrimAndCollapse(Join(vals, Byte(',')));
  }

  /**
   * The value of a header: its values joined with commas, and of that what `CollapsedExactly` says; nothing for a
   * header that is missing.
   */
  lemma HeaderValueExactly(headers: Headers, name: Bytes, ps: seq<Piece>, l: Bytes, r: Bytes)
    ensures CanonicalKey(name) !in headers ==> HeaderValue(headers, name) == []
    ensures CanonicalKey(name) in headers && headers[CanonicalKey(name)] != [] ==>
      var joined := Join(headers[CanonicalKey(name)], Byte(','));
      && (HasForm(joined, ps, l, r) ==> HeaderValue(headers, name) == SingleSpaced(ps))
      && (AllSpace(joined) ==> HeaderValue(headers, name) == [])
  {
    if CanonicalKey(name) in headers && headers[CanonicalKey(name)] != [] {
      var joined := Join(headers[CanonicalKey(name)], Byte(','));
      if HasForm(joined, ps, l, r) {
        CollapsedExactly(joined, ps, l, r);
      }
      if AllSpace(joined) {
        TrimSpaceSpace(joined);
      }
    }
  }

  /** Values without white space and quotes come through as they are, joined with commas. */
  lemma PlainHeaderValue(headers: Headers, name: Bytes, vals: seq<Bytes>)
    requires CanonicalKey(name) in headers && headers[CanonicalKey(name)] == vals
    requires forall i :: 0 <= i < |vals| ==> PlainText(vals[i])
    ensures HeaderValue(headers, name) == Join(vals, Byte(','))
  {
    JoinPlain(vals);
    CollapsedPlain(Join(vals, Byte(',')));
  }

  lemma HeadersStep(b: Bytes, headers: Headers, signed: seq<Bytes>, i: nat)
    requires i < |signed|
    ensures b + HeadersText(headers, signed[i..])
         == (b + HeaderLine(headers, signed[i]) + [Byte('\n')]) + HeadersText(headers, signed[i + 1..])
  {
    assert signed[i..][0] == signed[i] && signed[i..][1..] == signed[i + 1..];
  }

  /** `canonicalHeaders`. */
  method CanonicalHeaders(headers: Headers, signed: seq<Bytes>) returns (b: Bytes)
    ensures b == HeadersText(headers, signed)
  {
    b := [];
    for i := 0 to |signed|
      invariant b + HeadersText(headers, signed[i..]) == HeadersText(headers, signed)
    {
      HeadersStep(b, headers, signed, i);
      var value := CanonicalHeaderValue(headers, signed[i]);
      b := b + (signed[i] + [Byte(':')] + value) + [Byte('\n')];
    }
    assert HeadersText(headers, signed[|signed|..]) == [];
  }

  // ---- The request text -----------------------------------------------------

  function CanonicalURI(escapedPath: Bytes): Bytes {
    if escapedPath == [] then [Byte('/')]
    else if !HasPrefix(escapedPath, [Byte('/')]) then [Byte('/')] + escapedPath
    else escapedPath
  }

  /** A path that starts with a slash is itself; any other gets one in front. */
  lemma CanonicalURIExactly(path: Bytes)
    ensures CanonicalURI([Byte('/')] + path) == [Byte('/')] + path
    ensures path == [] || path[0] != Byte('/') ==> CanonicalURI(path) == [Byte('/')] + path
  {
    assert ([Byte('/')] + path)[..1] == [Byte('/')];
    if path != [] {
      assert path[..1] == [path[0]];
    } else {
      assert [Byte('/')] + path == [Byte('/')];
    }
  }

  ghost function RequestText(r: Request): Bytes {
    Upper(r.method_) + NL + (CanonicalURI(r.escapedPath) + NL + (QueryText(r.query) + NL
    + (HeadersText(r.headers, r.signed) + (NL + (Join(r.signed, Byte(';')) + NL + r.payloadHash)))))
  }

  /** `CanonicalRequest`: the builder appends field after field. */
  method CanonicalRequest(r: Request) returns (b: Bytes)
    ensures b == RequestText(r)
  {
    var query := CanonicalQuery(r.query);
    var headers := CanonicalHeaders(r.headers, r.signed);
    ghost var t5 := NL + (Join(r.signed, Byte(';')) + NL + r.payloadHash);
    ghost var t3 := query + NL + (headers + t5);
    ghost var t2 := CanonicalURI(r.escapedPath) + NL + t3;
    b := Upper(r.method_) + NL;
    assert b + t2 == RequestText(r);
    Assoc(b, CanonicalURI(r.escapedPath) + NL, t3);
    b := b + (CanonicalURI(r.escapedPath) + NL);
    Assoc(b, query + NL, headers + t5);
    b := b + (query + NL);
    Assoc(b, headers, t5);
    b := b + headers;
    Assoc(b, NL, Join(r.signed, Byte(';')) + NL + r.payloadHash);
    b := b + NL;
    Assoc(b, Join(r.signed, Byte(';')) + NL, r.payloadHash);
    b := b + (Join(r.signed, Byte(';')) + NL);
    b := b + r.payloadHash;
  }

  function HeaderLines(headers: Headers, signed: seq<Bytes>): (r: seq<Bytes>)
    ensures |r| == |signed|
    ensures forall i :: 0 <= i < |r| ==> r[i] == HeaderLine(headers, signed[i])
  {
    seq(|signed|, i requires 0 <= i < |signed| => HeaderLine(headers, signed[i]))
  }

  /** The request as a list of lines: three, one per signed header, three more. */
  ghost function Lines(r: Request): seq<Bytes> {
    [Upper(r.method_), CanonicalURI(r.escapedPath), QueryText(r.query)]
    + (HeaderLines(r.headers, r.signed) + [[], Join(r.signed, Byte(';')), r.payloadHash])
  }

  /** Lines that each end in a line feed. */
  function Terminated(lines: seq<Bytes>): Bytes {
    if lines == [] then [] else lines[0] + NL + Terminated(lines[1..])
  }

  lemma {:induction false} JoinTerminated(lines: seq<Bytes>, rest: seq<Bytes>)
    requires rest != []
    ensures Join(lines + rest, Byte('\n')) == Terminated(lines) + Join(rest, Byte('\n'))
  {
    if lines == [] {
      assert lines + rest == rest;
    } else {
      var tail := lines[1..] + rest;
      assert lines + rest == [lines[0]] + tail;
      JoinCons(lines[0], tail, Byte('\n'));
      JoinTerminated(lines[1..], rest);
      Assoc(lines[0] + NL, Terminated(lines[1..]), Join(rest, Byte('\n')));
    }
  }

  lemma {:induction false} HeadersTextTerminated(headers: Headers, signed: seq<Bytes>)
    ensures HeadersText(headers, signed) == Terminated(HeaderLines(headers, signed))
  {
    if signed != [] {
      HeadersTextTerminated(headers, signed[1..]);
      assert HeaderLines(headers, signed)[1..] == HeaderLines(headers, signed[1..]);
    }
  }

  lemma JoinFirstLines(m: Bytes, u: Bytes, q: Bytes, rest: seq<Bytes>)
    requires rest != []
    ensures Join([m, u, q] + rest, Byte('\n')) == m + NL + (u + NL + (q + NL + Join(rest, Byte('\n'))))
  {
    JoinCons(q, rest, Byte('\n'));
    JoinCons(u, [q] + rest, Byte('\n'));
    JoinCons(m, [u] + ([q] + rest), Byte('\n'));
    assert [m, u, q] + rest == [m] + ([u] + ([q] + rest));
  }

  lemma JoinLastLines(names: Bytes, hash: Bytes)
    ensures Join([[], names, hash], Byte('\n')) == NL + (names + NL + hash)
  {
    JoinCons(names, [hash], Byte('\n'));
    JoinCons([], [names, hash], Byte('\n'));
    assert [[], names, hash] == [[]] + [names, hash] && [names, hash] == [names] + [hash];
    assert [] + NL == NL;
  }

  lemma TextIsJoinedLines(r: Request)
    ensures RequestText(r) == Join(Lines(r), Byte('\n'))
  {
    var names := Join(r.signed, Byte(';'));
    var last := [[], names, r.payloadHash];
    JoinLastLines(names, r.payloadHash);
    HeadersTextTerminated(r.headers, r.signed);
    JoinTerminated(HeaderLines(r.headers, r.signed), last);
    var tail := HeaderLines(r.headers, r.signed) + last;
    JoinFirstLines(Upper(r.method_), CanonicalURI(r.escapedPath), QueryText(r.query), tail);
  }

  /**
   * No field spans lines and no signed name holds the list separator. The query needs no condition: its
   * encoder escapes both. `ExtractSignedHeaders` never yields a name with ';' (see `ExtractedNames`).
   */
  ghost predicate WellFormed(r: Request) {
    && Byte('\n') !in r.method_ && Byte('\n') !in r.escapedPath && Byte('\n') !in r.payloadHash
    && AllFree(r.signed, Byte('\n')) && AllFree(r.signed, Byte(';'))
    && forall name :: name in r.signed ==> AllFree(Values(r.headers, name), Byte('\n'))
  }

  lemma HeaderLineOneLine(r: Request, name: Bytes)
    requires WellFormed(r) && name in r.signed
    ensures Byte('\n') !in HeaderLine(r.headers, name)
  {
    var vals := Values(r.headers, name);
    if vals != [] {
      JoinFree(vals, Byte(','), Byte('\n'));
      TrimSpaceMembers(Join(vals, Byte(',')));
      CollapseFree(TrimSpace(Join(vals, Byte(','))), false, false, Byte('\n'));
    }
  }

  lemma LinesClean(r: Request)
    requires WellFormed(r)
    ensures AllFree(Lines(r), Byte('\n'))
  {
    var hs := HeaderLines(r.headers, r.signed);
    forall i | 0 <= i < |hs| ensures Byte('\n') !in hs[i] { HeaderLineOneLine(r, r.signed[i]); }
    QueryTextOneLine(r.query);
    FirstFieldsOneLine(r.method_, r.escapedPath);
    JoinFree(r.signed, Byte(';'), Byte('\n'));
    ThreeFree(Upper(r.method_), CanonicalURI(r.escapedPath), QueryText(r.query), Byte('\n'));
    ThreeFree([], Join(r.signed, Byte(';')), r.payloadHash, Byte('\n'));
    BothFree(hs, [[], Join(r.signed, Byte(';')), r.payloadHash], Byte('\n'));
    BothFree([Upper(r.method_), CanonicalURI(r.escapedPath), QueryText(r.query)],
             hs + [[], Join(r.signed, Byte(';')), r.payloadHash], Byte('\n'));
  }

  lemma FirstFieldsOneLine(m: Bytes, path: Bytes)
    requires Byte('\n') !in m && Byte('\n') !in path
    ensures Byte('\n') !in Upper(m) && Byte('\n') !in CanonicalURI(path)
  {
    assert forall i :: 0 <= i < |m| ==> m[i] in m;
  }

  lemma ThreeFree(a: Bytes, b: Bytes, c: Bytes, sep: byte)
    requires sep !in a && sep !in b && sep !in c
    ensures AllFree([a, b, c], sep)
  {
  }

  lemma BothFree(p: seq<Bytes>, q: seq<Bytes>, sep: byte)
    requires AllFree(p, sep) && AllFree(q, sep)
    ensures AllFree(p + q, sep)
  {
  }

  /** The lines of the request: three, one per signed header, three more. */
  ghost predicate LaidOut(lines: seq<Bytes>, r: Request) {
    var n := |r.signed|;
    && |lines| == n + 6
    && lines[0] == Upper(r.method_) && lines[1] == CanonicalURI(r.escapedPath) && lines[2] == QueryText(r.query)
    && (forall i :: 0 <= i < n ==> lines[i + 3] == r.signed[i] + [Byte(':')] + HeaderValue(r.headers, r.signed[i]))
    && lines[n + 3] == [] && lines[n + 4] == Join(r.signed, Byte(';')) && lines[n + 5] == r.payloadHash
  }

  lemma LinesLaidOut(r: Request)
    ensures LaidOut(Lines(r), r)
  {
    var (a, b, c) := (Upper(r.method_), CanonicalURI(r.escapedPath), QueryText(r.query));
    LayOut(a, b, c, HeaderLines(r.headers, r.signed), Join(r.signed, Byte(';')), r.payloadHash);
  }

  lemma LayOut(a: Bytes, b: Bytes, c: Bytes, hs: seq<Bytes>, d: Bytes, e: Bytes)
    ensures var lines := [a, b, c] + (hs + [[], d, e]);
      && |lines| == |hs| + 6 && lines[0] == a && lines[1] == b && lines[2] == c
      && (forall i :: 0 <= i < |hs| ==> lines[i + 3] == hs[i])
      && lines[|hs| + 3] == [] && lines[|hs| + 4] == d && lines[|hs| + 5] == e
  {
  }

  /** The canonical text, read line by line, is the request field by field. */
  lemma RequestLayout(r: Request)
    requires WellFormed(r)
    ensures LaidOut(Split(RequestText(r), Byte('\n')), r)
  {
    TextIsJoinedLines(r);
    LinesClean(r);
    LinesLaidOut(r);
    SplitOfJoin(Lines(r), Byte('\n'));
  }

  /** Everything the signature binds. */
  ghost predicate SameSignedContent(r: Request, t: Request) {
    && Upper(r.method_) == Upper(t.method_)
    && CanonicalURI(r.escapedPath) == CanonicalURI(t.escapedPath)
    && SamePairs(r.query, t.query)
    && r.signed == t.signed
    && (forall name :: name in r.signed ==> HeaderValue(r.headers, name) == HeaderValue(t.headers, name))
    && r.payloadHash == t.payloadHash
  }

  lemma SignedNamesEqual(a: seq<Bytes>, b: seq<Bytes>)
    requires |a| == |b| && AllFree(a, Byte(';')) && AllFree(b, Byte(';')) && Join(a, Byte(';')) == Join(b, Byte(';'))
    ensures a == b
  {
    if a != [] { JoinInjective(a, b, Byte(';')); }
  }

  lemma EqualHeaderLines(r: Request, t: Request, name: Bytes)
    requires r.signed == t.signed && name in r.signed
    requires HeaderLines(r.headers, r.signed) == HeaderLines(t.headers, t.signed)
    ensures HeaderValue(r.headers, name) == HeaderValue(t.headers, name)
  {
    var i :| 0 <= i < |r.signed| && r.signed[i] == name;
    var line := HeaderLines(r.headers, r.signed)[i];
    assert line == HeaderLine(r.headers, name) && line == HeaderLine(t.headers, name);
    assert HeaderValue(r.headers, name) == line[|name| + 1..] == HeaderValue(t.headers, name);
  }

  lemma HeaderLinesWithin(r: Request)
    ensures |Lines(r)| == |r.signed| + 6
    ensures HeaderLines(r.headers, r.signed) == Lines(r)[3..|r.signed| + 3]
  {
  }

  lemma EqualLinesAgree(r: Request, t: Request)
    requires WellFormed(r) && WellFormed(t) && Lines(r) == Lines(t)
    ensures SameSignedContent(r, t)
  {
    var (n, a, b) := (|r.signed|, Lines(r), Lines(t));
    assert |a| == n + 6 && |b| == |t.signed| + 6;
    assert a[0] == b[0] && a[1] == b[1] && a[2] == b[2];
    assert a[n + 4] == b[n + 4] && a[n + 5] == b[n + 5];
    QueryCanonical(r.query, t.query);
    SignedNamesEqual(r.signed, t.signed);
    HeaderLinesWithin(r);
    HeaderLinesWithin(t);
    forall name | name in r.signed ensures HeaderValue(r.headers, name) == HeaderValue(t.headers, name) {
      EqualHeaderLines(r, t, name);
    }
  }

  /** Two well-formed requests have the same canonical text exactly when they agree on all signed content. */
  lemma RequestInjective(r: Request, t: Request)
    requires WellFormed(r) && WellFormed(t)
    ensures RequestText(r) == RequestText(t) <==> SameSignedContent(r, t)
  {
    TextIsJoinedLines(r);
    TextIsJoinedLines(t);
    if RequestText(r) == RequestText(t) {
      LinesClean(r);
      LinesClean(t);
      JoinInjective(Lines(r), Lines(t), Byte('\n'));
      EqualLinesAgree(r, t);
    }
    if SameSignedContent(r, t) {
      QueryCanonical(r.query, t.query);
      assert HeaderLines(r.headers, r.signed) == HeaderLines(t.headers, t.signed);
    }
  }

  // ---- The signed-header list -----------------------------------------------

  /** One list element, normalised; nothing if that leaves it empty. */
  function Keep(part: Bytes): seq<Bytes> {
    var p := TrimSpace(Lower(part));
    if p != [] then [p] else []
  }

  function Kept(parts: seq<Bytes>): seq<Bytes> {
    if parts == [] then [] else Keep(parts[0]) + Kept(parts[1..])
  }

  lemma KeptStep(out: seq<Bytes>, parts: seq<Bytes>, i: nat)
    requires i < |parts|
    ensures out + Kept(parts[i..]) == (out + Keep(parts[i])) + Kept(parts[i + 1..])
  {
    assert parts[i..][0] == parts[i] && parts[i..][1..] == parts[i + 1..];
  }

  function SignedNames(raw: Bytes): seq<Bytes> {
    Sort(Kept(Split(raw, Byte(';'))))
  }

  /** `ExtractSignedHeaders`. */
  method ExtractSignedHeaders(raw: Bytes) returns (out: seq<Bytes>)
    ensures out == SignedNames(raw)
  {
    out := KeepAll(Split(raw, Byte(';')));
    out := Sort(out);
  }

  /** Its loop over the list elements. */
  method KeepAll(parts: seq<Bytes>) returns (out: seq<Bytes>)
    ensures out == Kept(parts)
  {
    out := [];
    assert parts[0..] == parts && [] + Kept(parts) == Kept(parts);
    for i := 0 to |parts|
      invariant out + Kept(parts[i..]) == Kept(parts)
    {
      KeptStep(out, parts, i);
      out := out + Keep(parts[i]);
    }
    assert parts[|parts|..] == [] && out + [] == out;
  }

  ghost predicate CleanName(p: Bytes) {
    p != [] && Byte(';') !in p && Lower(p) == p && TrimSpace(p) == p
  }

  lemma NormalizedName(raw: Bytes)
    requires Byte(';') !in raw
    ensures var p := TrimSpace(Lower(raw)); p == [] || CleanName(p)
  {
    var low := Lower(raw);
    var p := TrimSpace(low);
    TrimSpaceFixed(p);
    LowerMembers(raw);
    TrimSpaceMembers(low);
    LowerFixed(p);
  }

  lemma {:induction false} KeptClean(parts: seq<Bytes>, p: Bytes)
    requires AllFree(parts, Byte(';')) && p in Kept(parts)
    ensures CleanName(p)
  {
    var head := TrimSpace(Lower(parts[0]));
    if head != [] && p == head {
      assert Byte(';') !in parts[0];
      NormalizedName(parts[0]);
    } else {
      KeptClean(parts[1..], p);
    }
  }

  lemma {:induction false} KeptFixed(parts: seq<Bytes>)
    requires forall p :: p in parts ==> CleanName(p)
    ensures Kept(parts) == parts
  {
    if parts != [] {
      assert CleanName(parts[0]);
      KeptFixed(parts[1..]);
    }
  }

  /** Extracted names are sorted, lower-case, trimmed, non-empty and free of ';'. */
  lemma ExtractedNames(raw: Bytes)
    ensures Sorted(SignedNames(raw))
    ensures forall p :: p in SignedNames(raw) ==> CleanName(p)
    ensures AllFree(SignedNames(raw), Byte(';'))
  {
    var parts := Split(raw, Byte(';'));
    SplitFree(raw, Byte(';'));
    SortMembers(Kept(parts));
    forall p | p in SignedNames(raw) ensures CleanName(p) { KeptClean(parts, p); }
    forall i | 0 <= i < |SignedNames(raw)| ensures Byte(';') !in SignedNames(raw)[i] {
      assert CleanName(SignedNames(raw)[i]);
    }
  }

  /** Writing the names back as a list and extracting again changes nothing. */
  lemma ExtractRoundTrip(raw: Bytes)
    ensures SignedNames(Join(SignedNames(raw), Byte(';'))) == SignedNames(raw)
  {
    var names := SignedNames(raw);
    ExtractedNames(raw);
    if names == [] {
      assert Split([], Byte(';')) == [[]];
      assert Kept([[]]) == [];
    } else {
      SplitOfJoin(names, Byte(';'));
      KeptFixed(names);
      SortFixes(names, names);
    }
  }

  /** The list element is the name, in any case and with white space around. */
  predicate Denotes(part: Bytes, p: Bytes) {
    TrimSpace(Lower(part)) == p
  }

  /** All that the parts yield, in order. */
  function Gathered(keep: Bytes -> seq<Bytes>, parts: seq<Bytes>): seq<Bytes> {
    if parts == [] then [] else keep(parts[0]) + Gathered(keep, parts[1..])
  }

  lemma {:induction false} GatheredExactly(keep: Bytes -> seq<Bytes>, parts: seq<Bytes>, p: Bytes)
    ensures p in Gathered(keep, parts) <==> exists i :: 0 <= i < |parts| && p in keep(parts[i])
  {
    if parts != [] {
      var tail := parts[1..];
      GatheredExactly(keep, tail, p);
      if i :| 0 <= i < |tail| && p in keep(tail[i]) {
        assert p in keep(parts[i + 1]);
      }
      if i :| 0 < i < |parts| && p in keep(parts[i]) {
        assert p in keep(tail[i - 1]);
      }
    }
  }

  lemma {:induction false} KeptIsGathered(parts: seq<Bytes>)
    ensures Kept(parts) == Gathered(Keep, parts)
  {
    if parts != [] {
      KeptIsGathered(parts[1..]);
    }
  }

  /** A name is extracted exactly when some element of the list denotes it. */
  lemma ExtractedExactly(raw: Bytes, p: Bytes)
    ensures p in SignedNames(raw) <==> p != [] && Mentions(Split(raw, Byte(';')), p)
  {
    KeptExactly(Split(raw, Byte(';')), p);
    SortHas(Kept(Split(raw, Byte(';'))), p);
  }

  lemma SortHas(s: seq<Bytes>, p: Bytes)
    ensures p in Sort(s) <==> p in s
  {
    SortMembers(s);
  }

  lemma KeptExactly(parts: seq<Bytes>, p: Bytes)
    ensures p in Kept(parts) <==> p != [] && Mentions(parts, p)
  {
    KeptIsGathered(parts);
    GatheredExactly(Keep, parts, p);
    forall i | 0 <= i < |parts|
      ensures p in Keep(parts[i]) <==> p != [] && Denotes(parts[i], p)
    {
      KeepExactly(parts[i], p);
    }
  }

  lemma KeepExactly(part: Bytes, p: Bytes)
    ensures p in Keep(part) <==> p != [] && Denotes(part, p)
  {
  }

  ghost predicate Mentions(parts: seq<Bytes>, p: Bytes) {
    exists i :: 0 <= i < |parts| && Denotes(parts[i], p)
  }

  /** A written list of clean names is extracted whole, each name as often as it occurs, in order. */
  lemma ExtractWritten(names: seq<Bytes>)
    requires names != [] && forall p :: p in names ==> CleanName(p)
    ensures var out := SignedNames(Join(names, Byte(';'))); multiset(out) == multiset(names) && Sorted(out)
  {
    forall i | 0 <= i < |names| ensures Byte(';') !in names[i] { assert CleanName(names[i]); }
    SplitOfJoin(names, Byte(';'));
    KeptFixed(names);
  }
}
