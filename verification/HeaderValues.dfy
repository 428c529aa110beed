/** How a header value is trimmed and its blanks collapsed. */
module HeaderValues {
  import opened ByteStrings

  /** The collapsing scan: runs of blanks outside quotes become one space. */
  function CollapseFrom(s: Bytes, prevSpace: bool, inQuotes: bool): Bytes {
    if s == [] then []
    else if s[0] == Byte('"') then [s[0]] + CollapseFrom(s[1..], false, !inQuotes)
    else if !inQuotes && (s[0] == Byte(' ') || s[0] == Byte('\t')) then
      if prevSpace then CollapseFrom(s[1..], true, inQuotes) else [Byte(' ')] + CollapseFrom(s[1..], true, inQuotes)
    else [s[0]] + CollapseFrom(s[1..], false, inQuotes)
  }

  function Collapsed(s: Bytes): Bytes {
    CollapseFrom(TrimSpace(s), false, false)
  }

  lemma CollapseStep(b: Bytes, s: Bytes, i: nat, prevSpace: bool, inQuotes: bool)
    requires i < |s|
    ensures s[i] == Byte('"') ==>
      b + CollapseFrom(s[i..], prevSpace, inQuotes) == (b + [s[i]]) + CollapseFrom(s[i + 1..], false, !inQuotes)
    ensures s[i] != Byte('"') && !inQuotes && (s[i] == Byte(' ') || s[i] == Byte('\t')) ==>
      b + CollapseFrom(s[i..], prevSpace, inQuotes)
      == (if prevSpace then b else b + [Byte(' ')]) + CollapseFrom(s[i + 1..], true, inQuotes)
    ensures s[i] != Byte('"') && (inQuotes || (s[i] != Byte(' ') && s[i] != Byte('\t'))) ==>
      b + CollapseFrom(s[i..], prevSpace, inQuotes) == (b + [s[i]]) + CollapseFrom(s[i + 1..], false, inQuotes)
  {
    assert s[i..][0] == s[i] && s[i..][1..] == s[i + 1..];
  }

  /** `trimAndCollapse`. */
  method TrimAndCollapse(s0: Bytes) returns (b: Bytes)
    ensures b == Collapsed(s0)
  {
    var s := TrimSpace(s0);
    b := [];
    var prevSpace, inQuotes := false, false;
    for i := 0 to |s|
      invariant b + CollapseFrom(s[i..], prevSpace, inQuotes) == CollapseFrom(s, false, false)
    {
      var c := s[i];
      CollapseStep(b, s, i, prevSpace, inQuotes);
      if c == Byte('"') {
        inQuotes := !inQuotes;
        b := b + [c];
        prevSpace := false;
      } else if !inQuotes && (c == Byte(' ') || c == Byte('\t')) {
        if !prevSpace {
          prevSpace := true;
          b := b + [Byte(' ')];
        }
      } else {
        prevSpace := false;
        b := b + [c];
      }
    }
    assert CollapseFrom(s[|s|..], prevSpace, inQuotes) == [];
  }

  lemma {:induction false} CollapseTwice(s: Bytes, prevSpace: bool, inQuotes: bool)
    ensures CollapseFrom(CollapseFrom(s, prevSpace, inQuotes), prevSpace, inQuotes)
         == CollapseFrom(s, prevSpace, inQuotes)
  {
    if s == [] {
    } else if s[0] == Byte('"') {
      CollapseTwice(s[1..], false, !inQuotes);
    } else if !inQuotes && (s[0] == Byte(' ') || s[0] == Byte('\t')) {
      CollapseTwice(s[1..], true, inQuotes);
    } else {
      CollapseTwice(s[1..], false, inQuotes);
    }
  }

  lemma {:induction false} CollapseKeepsLast(s: Bytes, prevSpace: bool, inQuotes: bool)
    requires s != [] && !IsSpace(s[|s| - 1])
    ensures var r := CollapseFrom(s, prevSpace, inQuotes); r != [] && r[|r| - 1] == s[|s| - 1]
  {
    if |s| > 1 {
      var t := s[1..];
      if s[0] == Byte('"') {
        CollapseKeepsLast(t, false, !inQuotes);
      } else if !inQuotes && (s[0] == Byte(' ') || s[0] == Byte('\t')) {
        CollapseKeepsLast(t, true, inQuotes);
      } else {
        CollapseKeepsLast(t, false, inQuotes);
      }
    }
  }

  /** A collapsed value is its own collapsed form. */
  lemma CollapseIdempotent(s: Bytes)
    ensures Collapsed(Collapsed(s)) == Collapsed(s)
  {
    var t := TrimSpace(s);
    if t != [] {
      CollapseKeepsLast(t, false, false);
      assert Collapsed(s)[0] == t[0];
    }
    TrimSpaceFixed(Collapsed(s));
    CollapseTwice(t, false, false);
  }

  // ---- What collapsing does, piece by piece ---------------------------------

  /** A value is made of runs of blanks, plain text, closed quotes, and perhaps a quote that is never closed. */
  datatype Piece = Blanks(run: Bytes) | Plain(text: Bytes) | Quoted(body: Bytes) | Open(body: Bytes)

  predicate IsBlank(c: byte) {
    c == Byte(' ') || c == Byte('\t')
  }

  predicate ValidPiece(p: Piece) {
    match p
    case Blanks(run) => run != [] && forall i :: 0 <= i < |run| ==> IsBlank(run[i])
    case Plain(text) => text != [] && forall i :: 0 <= i < |text| ==> !IsBlank(text[i]) && text[i] != Byte('"')
    case Quoted(body) => Byte('"') !in body
    case Open(body) => Byte('"') !in body
  }

  /** Runs of blanks are taken whole, so no two follow each other, and an open quote ends the value. */
  predicate ValidPieces(ps: seq<Piece>, afterBlanks: bool) {
    ps == [] || (
      && ValidPiece(ps[0]) && !(afterBlanks && ps[0].Blanks?) && (ps[0].Open? ==> |ps| == 1)
      && ValidPieces(ps[1..], ps[0].Blanks?))
  }

  function PieceText(p: Piece): Bytes {
    match p
    case Blanks(run) => run
    case Plain(text) => text
    case Quoted(body) => [Byte('"')] + (body + [Byte('"')])
    case Open(body) => [Byte('"')] + body
  }

  function Written(ps: seq<Piece>): Bytes {
    if ps == [] then [] else PieceText(ps[0]) + Written(ps[1..])
  }

  /** Each run of blanks as one space; everything else as it is. */
  function SingleSpaced(ps: seq<Piece>): Bytes {
    if ps == [] then []
    else PieceForm(ps[0]) + SingleSpaced(ps[1..])
  }

  function PieceForm(p: Piece): Bytes {
    if p.Blanks? then [Byte(' ')] else PieceText(p)
  }

  lemma {:induction false} CollapseBlanks(run: Bytes, rest: Bytes, prevSpace: bool)
    requires forall i :: 0 <= i < |run| ==> IsBlank(run[i])
    requires run != []
    ensures CollapseFrom(run + rest, prevSpace, false)
         == (if prevSpace then [] else [Byte(' ')]) + CollapseFrom(rest, true, false)
  {
    assert (run + rest)[1..] == run[1..] + rest;
    if |run| == 1 {
      assert run[1..] + rest == rest;
    } else {
      CollapseBlanks(run[1..], rest, true);
    }
  }

  lemma {:induction false} CollapsePlain(text: Bytes, rest: Bytes, prevSpace: bool)
    requires ValidPiece(Plain(text))
    ensures CollapseFrom(text + rest, prevSpace, false) == text + CollapseFrom(rest, false, false)
  {
    assert (text + rest)[1..] == text[1..] + rest;
    if |text| == 1 {
      assert text[1..] + rest == rest;
    } else {
      CollapsePlain(text[1..], rest, false);
      assert text == [text[0]] + text[1..];
    }
  }

  lemma {:induction false} CollapseOpen(body: Bytes, prevSpace: bool)
    requires Byte('"') !in body
    ensures CollapseFrom(body, prevSpace, true) == body
  {
    if body != [] {
      CollapseOpen(body[1..], false);
    }
  }

  lemma {:induction false} CollapseQuoted(body: Bytes, rest: Bytes, prevSpace: bool)
    requires Byte('"') !in body
    ensures CollapseFrom(body + [Byte('"')] + rest, prevSpace, true)
         == body + [Byte('"')] + CollapseFrom(rest, false, false)
  {
    var s := body + [Byte('"')] + rest;
    if body == [] {
      assert s[1..] == rest && body + [Byte('"')] == [Byte('"')];
    } else {
      assert s[1..] == body[1..] + [Byte('"')] + rest;
      CollapseQuoted(body[1..], rest, false);
      assert body == [body[0]] + body[1..];
    }
  }

  /** A quote outside quotes opens one. */
  lemma QuoteOpens(t: Bytes, prevSpace: bool)
    ensures CollapseFrom([Byte('"')] + t, prevSpace, false) == [Byte('"')] + CollapseFrom(t, false, true)
  {
    assert ([Byte('"')] + t)[1..] == t;
  }

  lemma CollapseQuotedPiece(body: Bytes, rest: Bytes, prevSpace: bool)
    requires Byte('"') !in body
    ensures CollapseFrom(PieceText(Quoted(body)) + rest, prevSpace, false)
         == PieceText(Quoted(body)) + CollapseFrom(rest, false, false)
  {
    var (quote, closed) := ([Byte('"')], body + [Byte('"')]);
    Assoc(quote, closed, rest);
    QuoteOpens(closed + rest, prevSpace);
    CollapseQuoted(body, rest, false);
    Assoc(quote, closed, CollapseFrom(rest, false, false));
  }

  lemma CollapseOpenPiece(body: Bytes, prevSpace: bool)
    requires Byte('"') !in body
    ensures CollapseFrom(PieceText(Open(body)), prevSpace, false) == PieceText(Open(body))
  {
    QuoteOpens(body, prevSpace);
    CollapseOpen(body, false);
  }

  lemma CollapsePiece(p: Piece, rest: Bytes, afterBlanks: bool)
    requires ValidPiece(p) && !(afterBlanks && p.Blanks?) && (p.Open? ==> rest == [])
    ensures CollapseFrom(PieceText(p) + rest, afterBlanks, false)
         == PieceForm(p) + CollapseFrom(rest, p.Blanks?, false)
  {
    match p {
      case Blanks(run) => CollapseBlanks(run, rest, afterBlanks);
      case Plain(text) => CollapsePlain(text, rest, afterBlanks);
      case Quoted(body) => CollapseQuotedPiece(body, rest, afterBlanks);
      case Open(body) =>
        CollapseOpenPiece(body, afterBlanks);
        assert PieceText(p) + rest == PieceText(p) && PieceText(p) + [] == PieceText(p);
    }
  }

  lemma {:induction false} CollapsePieces(ps: seq<Piece>, afterBlanks: bool)
    requires ValidPieces(ps, afterBlanks)
    ensures CollapseFrom(Written(ps), afterBlanks, false) == SingleSpaced(ps)
  {
    if ps != [] {
      CollapsePiece(ps[0], Written(ps[1..]), afterBlanks);
      CollapsePieces(ps[1..], ps[0].Blanks?);
    }
  }

  lemma PiecesCons(p: Piece, rest: seq<Piece>, afterBlanks: bool)
    requires ValidPiece(p) && !(afterBlanks && p.Blanks?) && !p.Open? && ValidPieces(rest, p.Blanks?)
    ensures ValidPieces([p] + rest, afterBlanks) && Written([p] + rest) == PieceText(p) + Written(rest)
  {
    assert ([p] + rest)[1..] == rest;
  }

  /** Every text is made of such pieces. */
  lemma {:induction false} PiecesOf(s: Bytes, afterBlanks: bool) returns (ps: seq<Piece>)
    requires afterBlanks && s != [] ==> !IsBlank(s[0])
    ensures ValidPieces(ps, afterBlanks) && Written(ps) == s
    decreases |s|
  {
    ps := [];
    if s != [] {
      var p := FirstPiece(s);
      var n := |PieceText(p)|;
      if p.Open? {
        ps := [p];
        assert Written([p][1..]) == [] && s[..n] == s;
      } else {
        var rest := PiecesOf(s[n..], p.Blanks?);
        ps := [p] + rest;
        PiecesCons(p, rest, afterBlanks);
        assert s == s[..n] + s[n..];
      }
    }
  }

  lemma FirstPiece(s: Bytes) returns (p: Piece)
    requires s != []
    ensures var n := |PieceText(p)|; 0 < n <= |s| && ValidPiece(p) && s[..n] == PieceText(p)
    ensures p.Blanks? <==> IsBlank(s[0])
    ensures var n := |PieceText(p)|; (p.Blanks? && n < |s| ==> !IsBlank(s[n])) && (p.Open? ==> n == |s|)
  {
    if s[0] == Byte('"') {
      if Byte('"') in s[1..] {
        var body, rest := CutAt(s[1..], Byte('"'));
        p := Quoted(body);
        assert s == [s[0]] + s[1..] == [Byte('"')] + (body + [Byte('"')]) + rest;
      } else {
        p := Open(s[1..]);
        assert s == [s[0]] + s[1..];
      }
    } else if IsBlank(s[0]) {
      var n := BlankRun(s);
      p := Blanks(s[..n]);
    } else {
      p := Plain(s[..1]);
    }
  }

  lemma {:induction false} BlankRun(s: Bytes) returns (n: nat)
    ensures n <= |s| && (forall i :: 0 <= i < n ==> IsBlank(s[i])) && (n < |s| ==> !IsBlank(s[n]))
    ensures s != [] && IsBlank(s[0]) ==> n > 0
  {
    n := 0;
    if s != [] && IsBlank(s[0]) {
      n := BlankRun(s[1..]);
      n := n + 1;
      assert forall i :: 0 < i < n ==> s[i] == s[1..][i - 1];
    }
  }

  /** White space, a value that starts and ends with something else, white space. */
  predicate HasForm(s: Bytes, ps: seq<Piece>, l: Bytes, r: Bytes) {
    && ValidPieces(ps, false) && AllSpace(l) && AllSpace(r) && s == l + Written(ps) + r
    && var w := Written(ps); w != [] && !AllSpace([w[0]]) && !AllSpace([w[|w| - 1]])
  }

  /**
   * Collapsing, stated on the pieces: white space around the value goes, each run of blanks outside quotes becomes one
   * space, and plain and quoted text stays as it is.
   */
  lemma CollapsedExactly(s: Bytes, ps: seq<Piece>, l: Bytes, r: Bytes)
    requires HasForm(s, ps, l, r)
    ensures Collapsed(s) == SingleSpaced(ps)
  {
    TrimSpacePadded(l, Written(ps), r);
    CollapsePieces(ps, false);
  }

  /** Everything but white space has such a form. */
  lemma FormExists(s: Bytes) returns (ps: seq<Piece>, l: Bytes, r: Bytes)
    requires !AllSpace(s)
    ensures HasForm(s, ps, l, r)
  {
    var core;
    l, core, r := Core(s);
    ps := PiecesOf(core, false);
  }

  /** The text without white space around it. */
  lemma Core(s: Bytes) returns (l: Bytes, core: Bytes, r: Bytes)
    requires !AllSpace(s)
    ensures s == l + core + r && AllSpace(l) && AllSpace(r)
    ensures core != [] && !AllSpace([core[0]]) && !AllSpace([core[|core| - 1]])
  {
    var rest;
    l, rest := CutLeft(s);
    core, r := CutRight(rest);
    Assoc(l, core, r);
  }

  lemma {:induction false} CutLeft(s: Bytes) returns (l: Bytes, rest: Bytes)
    requires !AllSpace(s)
    ensures s == l + rest && AllSpace(l) && rest != [] && !AllSpace([rest[0]])
  {
    l, rest := [], s;
    if AllSpace([s[0]]) {
      assert [s[0]][0] == s[0] && s == [s[0]] + s[1..];
      l, rest := CutLeft(s[1..]);
      Assoc([s[0]], l, rest);
      l := [s[0]] + l;
    }
  }

  lemma {:induction false} CutRight(s: Bytes) returns (core: Bytes, r: Bytes)
    requires s != [] && !AllSpace([s[0]])
    ensures s == core + r && AllSpace(r) && core != [] && core[0] == s[0] && !AllSpace([core[|core| - 1]])
  {
    core, r := s, [];
    var last := s[|s| - 1];
    if AllSpace([last]) {
      var front := s[..|s| - 1];
      assert s == front + [last] && [last][0] == last && [s[0]][0] == s[0];
      core, r := CutRight(front);
      Assoc(core, r, [last]);
      r := r + [last];
    }
  }

  /** No white space and no quote. */
  predicate PlainText(s: Bytes) {
    forall i :: 0 <= i < |s| ==> !AllSpace([s[i]]) && s[i] != Byte('"')
  }

  lemma {:induction false} JoinPlain(vals: seq<Bytes>)
    requires forall i :: 0 <= i < |vals| ==> PlainText(vals[i])
    ensures PlainText(Join(vals, Byte(',')))
  {
    if |vals| > 1 {
      JoinPlain(vals[1..]);
      assert [Byte(',')][0] == Byte(',');
      assert PlainText([Byte(',')]);
    }
  }

  /** Plain text is its own collapsed form. */
  lemma CollapsedPlain(s: Bytes)
    requires PlainText(s)
    ensures Collapsed(s) == s
  {
    if s != [] {
      forall i | 0 <= i < |s|
        ensures !IsBlank(s[i])
      {
        assert IsBlank(s[i]) ==> AllSpace([s[i]]);
      }
      var ps := [Plain(s)];
      assert ps[1..] == [];
      assert Written(ps) == s + [] == s && SingleSpaced(ps) == s + [] == s;
      assert [] + s + [] == s;
      CollapsedExactly(s, ps, [], []);
    }
  }

  lemma {:induction false} CollapseFree(s: Bytes, prevSpace: bool, inQuotes: bool, c: byte)
    requires c !in s && c != Byte(' ')
    ensures c !in CollapseFrom(s, prevSpace, inQuotes)
  {
    if s != [] {
      CollapseFree(s[1..], false, !inQuotes, c);
      CollapseFree(s[1..], true, inQuotes, c);
      CollapseFree(s[1..], false, inQuotes, c);
    }
  }
}
