/**
 * `parseText`: splitting a selection into the conditional blocks
 * `<c:if test="COND">INNER</c:if>` and the text around them.
 *
 * The regular expression `/<c:if test=["'](.*?)["']>(.*?)<\/c:if>/g` is
 * modelled by a scanner. `CifMatch` says when the expression matches at a
 * position with a given end of condition and end of body; the scanner picks,
 * like the regular-expression engine, the leftmost position and there the
 * shortest condition, then the shortest body.
 */
module Fragments {
  import opened Wrappers
  import opened Strings

  const OPEN := "<c:if test="
  const CLOSE := "</c:if>"

  predicate IsQuote(c: char) {
    c == '"' || c == '\''
  }

  /**
   * The expression matches at `p`, the condition ending at `ce` (where the
   * closing quote stands) and the body ending at `ie` (where `</c:if>` starts).
   * Neither condition nor body may hold a line terminator, because `.` does not
   * match one.
   */
  ghost predicate CifMatch(t: string, p: nat, ce: nat, ie: nat) {
    && p + |OPEN| + 1 <= ce
    && ce + 2 <= ie
    && OccursAt(t, CLOSE, ie)
    && OccursAt(t, OPEN, p)
    && IsQuote(t[p + |OPEN|])
    && NoBreakIn(t, p + |OPEN| + 1, ce)
    && IsQuote(t[ce]) && t[ce + 1] == '>'
    && NoBreakIn(t, ce + 2, ie)
  }

  /** The lazy body `(.*?)<\/c:if>` starting at `lo`: the first `</c:if>` at or after `e`, unless a line terminator comes first. */
  function FindClose(t: string, lo: nat, e: nat): (r: Option<nat>)
    requires lo <= e
    requires NoBreakIn(t, lo, e)
    decreases |t| - e
    ensures r.Some? ==> e <= r.value && NoBreakIn(t, lo, r.value) && OccursAt(t, CLOSE, r.value)
    ensures r.Some? ==> forall j | e <= j < r.value :: !OccursAt(t, CLOSE, j)
    ensures r.None? ==> forall j | e <= j :: !(NoBreakIn(t, lo, j) && OccursAt(t, CLOSE, j))
  {
    if e + |CLOSE| > |t| then None
    else if OccursAt(t, CLOSE, e) then Some(e)
    else if IsLineBreak(t[e]) then None
    else FindClose(t, lo, e + 1)
  }

  /** No match at `p` has its condition end in `lo..hi`. */
  ghost predicate NoCondIn(t: string, p: nat, lo: nat, hi: nat) {
    forall c: nat, i: nat | lo <= c < hi :: !CifMatch(t, p, c, i)
  }

  /** No match at `p` has its condition end at or after `lo`. */
  ghost predicate NoCondFrom(t: string, p: nat, lo: nat) {
    forall c: nat, i: nat | lo <= c :: !CifMatch(t, p, c, i)
  }

  /** When no body follows a condition ending at `ce`, no match has that condition end. */
  lemma NoBodyAt(t: string, p: nat, ce: nat)
    requires ce + 2 <= |t|
    requires !(IsQuote(t[ce]) && t[ce + 1] == '>') || FindClose(t, ce + 2, ce + 2).None?
    ensures NoCondIn(t, p, ce, ce + 1)
  {
  }

  /** A line terminator at `ce` ends every longer condition. */
  lemma BreakEndsCond(t: string, p: nat, ce: nat)
    requires p + |OPEN| + 1 <= ce < |t| && IsLineBreak(t[ce])
    ensures NoCondFrom(t, p, ce + 1)
  {
    var lo := p + |OPEN| + 1;
    assert forall c: nat | ce < c :: !NoBreakIn(t, lo, c);
  }

  /** A condition too close to the end of the text leaves no room for `">` and `</c:if>`. */
  lemma NoRoomForCond(t: string, p: nat, ce: nat)
    requires ce + 2 > |t|
    ensures NoCondFrom(t, p, ce)
  {
  }

  lemma NoCondJoin(t: string, p: nat, lo: nat, mid: nat, hi: nat)
    requires lo <= mid <= hi
    requires NoCondIn(t, p, lo, mid) && NoCondIn(t, p, mid, hi)
    ensures NoCondIn(t, p, lo, hi)
  {
  }

  lemma NoCondJoinFrom(t: string, p: nat, lo: nat, mid: nat)
    requires lo <= mid
    requires NoCondIn(t, p, lo, mid) && NoCondFrom(t, p, mid)
    ensures NoCondFrom(t, p, lo)
  {
  }

  /**
   * The lazy condition `(.*?)["']>` of a match at `p`, trying condition ends
   * from `ce` on; at each end the body is tried before the condition grows.
   */
  function FindCond(t: string, p: nat, ce: nat): (r: Option<(nat, nat)>)
    requires OccursAt(t, OPEN, p) && p + |OPEN| < |t| && IsQuote(t[p + |OPEN|])
    requires p + |OPEN| + 1 <= ce
    requires NoBreakIn(t, p + |OPEN| + 1, ce)
    decreases |t| - ce
    ensures r.Some? ==> ce <= r.value.0 && CifMatch(t, p, r.value.0, r.value.1)
    ensures r.Some? ==> NoCondIn(t, p, ce, r.value.0)
    ensures r.Some? ==> forall i: nat | i < r.value.1 :: !CifMatch(t, p, r.value.0, i)
    ensures r.None? ==> NoCondFrom(t, p, ce)
  {
    if ce + 2 > |t| then
      NoRoomForCond(t, p, ce);
      None
    else
      var body := if IsQuote(t[ce]) && t[ce + 1] == '>' then FindClose(t, ce + 2, ce + 2) else None;
      if body.Some? then Some((ce, body.value))
      else
        NoBodyAt(t, p, ce);
        if IsLineBreak(t[ce]) then
          BreakEndsCond(t, p, ce);
          NoCondJoinFrom(t, p, ce, ce + 1);
          None
        else
          var r := FindCond(t, p, ce + 1);
          if r.Some? then
            NoCondJoin(t, p, ce, ce + 1, r.value.0);
            r
          else
            NoCondJoinFrom(t, p, ce, ce + 1);
            r
  }

  /** The match the regular expression makes at position `p`, if any: the least condition end, then the least body end. */
  function MatchAt(t: string, p: nat): (r: Option<(nat, nat)>)
    ensures r.Some? ==> CifMatch(t, p, r.value.0, r.value.1)
    ensures r.Some? ==> forall c: nat, i: nat | c < r.value.0 :: !CifMatch(t, p, c, i)
    ensures r.Some? ==> forall i: nat | i < r.value.1 :: !CifMatch(t, p, r.value.0, i)
    ensures r.None? <==> forall c: nat, i: nat :: !CifMatch(t, p, c, i)
  {
    if OccursAt(t, OPEN, p) && p + |OPEN| < |t| && IsQuote(t[p + |OPEN|]) then
      var r := FindCond(t, p, p + |OPEN| + 1);
      assert r.Some? ==> forall c: nat, i: nat | c < r.value.0 :: !CifMatch(t, p, c, i);
      assert r.None? ==> forall c: nat, i: nat :: !CifMatch(t, p, c, i);
      r
    else None
  }

  /** `exec` with `lastIndex == from`: the leftmost position at or after `from` where the expression matches. */
  function FindNext(t: string, from: nat): (r: Option<nat>)
    decreases |t| - from
    ensures r.Some? ==> from <= r.value && MatchAt(t, r.value).Some?
    ensures r.Some? ==> forall p | from <= p < r.value :: MatchAt(t, p).None?
    ensures r.None? ==> forall p | from <= p :: MatchAt(t, p).None?
  {
    if from + |OPEN| >= |t| then None
    else if MatchAt(t, from).Some? then Some(from)
    else FindNext(t, from + 1)
  }

  /** A piece of the selection: text between matches, or one matched conditional block. */
  datatype Piece = Gap(text: string) | Cif(open: char, condition: string, close: char, body: string)

  /** The text a piece was cut from. */
  function Raw(piece: Piece): string {
    match piece
    case Gap(s) => s
    case Cif(q1, c, q2, body) => OPEN + [q1] + c + [q2, '>'] + body + CLOSE
  }

  function Concat(ps: seq<Piece>): string {
    if ps == [] then [] else Raw(ps[0]) + Concat(ps[1..])
  }

  /** Every piece is well formed. */
  predicate AllWellFormed(ps: seq<Piece>) {
    forall i | 0 <= i < |ps| :: WellFormed(ps[i])
  }

  predicate WellFormed(piece: Piece) {
    piece.Cif? ==>
      && IsQuote(piece.open) && IsQuote(piece.close)
      && NoBreakIn(piece.condition, 0, |piece.condition|)
      && NoBreakIn(piece.body, 0, |piece.body|)
  }

  /** The piece cut out of a match at `p`. */
  function CifPiece(t: string, p: nat, ce: nat, ie: nat): Piece
    requires p + |OPEN| < ce && ce + 2 <= ie <= |t|
  {
    Cif(t[p + |OPEN|], t[p + |OPEN| + 1..ce], t[ce], t[ce + 2..ie])
  }

  /** The text of a match split at the quote, the condition, the `">`, the body and the closing tag. */
  lemma MatchSplit(t: string, p: nat, q: nat, ce: nat, ie: nat, e: nat)
    requires p <= q < ce && ce + 2 <= ie <= e <= |t|
    ensures t[p..e] == t[p..q] + [t[q]] + t[q + 1..ce] + [t[ce], t[ce + 1]] + t[ce + 2..ie] + t[ie..e]
  {
    SliceSplit(t, p, q, q + 1);
    SliceSplit(t, p, q + 1, ce);
    SliceSplit(t, p, ce, ce + 2);
    SliceSplit(t, p, ce + 2, ie);
    SliceSplit(t, p, ie, e);
    assert t[q..q + 1] == [t[q]];
    assert t[ce..ce + 2] == [t[ce], t[ce + 1]];
  }

  /** The same split with the opening and closing tags named. */
  lemma MatchSplitTags(t: string, p: nat, q: nat, ce: nat, ie: nat, e: nat, open: string, close: string)
    requires p <= q < ce && ce + 2 <= ie <= e <= |t|
    requires t[p..q] == open && t[ie..e] == close && t[ce + 1] == '>'
    ensures t[p..e] == open + [t[q]] + t[q + 1..ce] + [t[ce], '>'] + t[ce + 2..ie] + close
  {
    MatchSplit(t, p, q, ce, ie, e);
  }

  lemma CifRaw(t: string, p: nat, ce: nat, ie: nat)
    requires CifMatch(t, p, ce, ie)
    ensures Raw(CifPiece(t, p, ce, ie)) == t[p..ie + |CLOSE|]
  {
    var q := p + |OPEN|;
    var piece := CifPiece(t, p, ce, ie);
    assert Raw(piece) == OPEN + [t[q]] + t[q + 1..ce] + [t[ce], '>'] + t[ce + 2..ie] + CLOSE;
    MatchSplitTags(t, p, q, ce, ie, ie + |CLOSE|, OPEN, CLOSE);
  }

  lemma CifWellFormed(t: string, p: nat, ce: nat, ie: nat)
    requires CifMatch(t, p, ce, ie)
    ensures WellFormed(CifPiece(t, p, ce, ie))
  {
    var q := p + |OPEN|;
    var b, d := t[q + 1..ce], t[ce + 2..ie];
    forall i | 0 <= i < |b| ensures !IsLineBreak(b[i]) {
      assert b[i] == t[q + 1 + i];
    }
    forall i | 0 <= i < |d| ensures !IsLineBreak(d[i]) {
      assert d[i] == t[ce + 2 + i];
    }
  }

  /** Putting one gap and one match in front of the pieces of the rest of the text. */
  lemma ConcatCons(piece: Piece, rest: seq<Piece>)
    ensures Concat([piece] + rest) == Raw(piece) + Concat(rest)
  {
    assert ([piece] + rest)[1..] == rest;
  }

  lemma SegmentStepConcat(t: string, from: nat, p: nat, end: nat, block: Piece, rest: seq<Piece>)
    requires from <= p <= end <= |t|
    requires Raw(block) == t[p..end]
    requires Concat(rest) == t[end..]
    ensures Concat([Gap(t[from..p])] + ([block] + rest)) == t[from..]
  {
    ConcatCons(block, rest);
    ConcatCons(Gap(t[from..p]), [block] + rest);
    calc {
      t[from..];
      t[from..p] + t[p..end] + t[end..];
      Raw(Gap(t[from..p])) + (Raw(block) + Concat(rest));
    }
  }

  /** Gaps stand at the even positions and matched blocks at the odd ones; there is one more gap than blocks. */
  predicate Alternating(ps: seq<Piece>) {
    && |ps| % 2 == 1
    && forall i | 0 <= i < |ps| :: ps[i].Gap? <==> i % 2 == 0
  }

  lemma AlternatingCons(g: Piece, c: Piece, rest: seq<Piece>)
    requires g.Gap? && c.Cif? && Alternating(rest)
    ensures Alternating([g] + ([c] + rest))
  {
    var ps := [g] + ([c] + rest);
    forall i | 2 <= i < |ps| ensures ps[i].Gap? <==> i % 2 == 0 {
      assert ps[i] == rest[i - 2];
    }
  }

  lemma SegmentStepShape(t: string, from: nat, p: nat, ce: nat, ie: nat, rest: seq<Piece>)
    requires from <= p && CifMatch(t, p, ce, ie)
    requires AllWellFormed(rest)
    requires Alternating(rest)
    ensures var ps := [Gap(t[from..p])] + ([CifPiece(t, p, ce, ie)] + rest);
      && AllWellFormed(ps)
      && Alternating(ps)
  {
    var block := CifPiece(t, p, ce, ie);
    var ps := [Gap(t[from..p])] + ([block] + rest);
    CifWellFormed(t, p, ce, ie);
    AlternatingCons(Gap(t[from..p]), block, rest);
    forall i | 0 <= i < |ps| ensures WellFormed(ps[i]) {
      if i >= 2 {
        assert ps[i] == rest[i - 2];
      }
    }
  }

  /** One step of the loop: a gap, the match at `p`, then the pieces of the text after the match. */
  lemma SegmentStep(t: string, from: nat, p: nat, ce: nat, ie: nat, rest: seq<Piece>)
    requires from <= p && CifMatch(t, p, ce, ie)
    requires Concat(rest) == t[ie + |CLOSE|..]
    requires AllWellFormed(rest)
    requires Alternating(rest)
    ensures var ps := [Gap(t[from..p])] + ([CifPiece(t, p, ce, ie)] + rest);
      && Concat(ps) == t[from..]
      && AllWellFormed(ps)
      && Alternating(ps)
  {
    CifRaw(t, p, ce, ie);
    SegmentStepConcat(t, from, p, ie + |CLOSE|, CifPiece(t, p, ce, ie), rest);
    SegmentStepShape(t, from, p, ce, ie, rest);
  }

  /**
   * One turn of the `exec` loop from `start`: the gap runs up to the leftmost
   * match at or after `start` and `next` is that match, or, when `next` is
   * absent, there is no match at or after `start`.
   */
  ghost predicate Turn(t: string, start: nat, gap: Piece, next: Option<Piece>) {
    match next
    case None => FindNext(t, start).None?
    case Some(c) =>
      var o := start + |Raw(gap)|;
      && FindNext(t, start) == Some(o)
      && MatchAt(t, o).Some?
      && c == CifPiece(t, o, MatchAt(t, o).value.0, MatchAt(t, o).value.1)
  }

  /** Where the piece at position `i` starts, for pieces cut from `t[from..]`. */
  function StartOf(from: nat, ps: seq<Piece>, i: nat): nat
    requires i <= |ps|
  {
    from + |Concat(ps[..i])|
  }

  /** The piece after position `i`, if any. */
  function NextOf(ps: seq<Piece>, i: nat): Option<Piece> {
    if i + 1 < |ps| then Some(ps[i + 1]) else None
  }

  /** A property of one turn: where it starts, its gap, and the piece after the gap. */
  type TurnProperty = (nat, Piece, Option<Piece>) -> bool

  /** `Turn` for the text `t`. */
  ghost function TurnIn(t: string): TurnProperty {
    (start: nat, gap: Piece, next: Option<Piece>) => Turn(t, start, gap, next)
  }

  /** Every gap of the pieces of `t[from..]`, with the piece after it, has the property `turn`. */
  ghost predicate FollowsWith(turn: TurnProperty, from: nat, ps: seq<Piece>) {
    forall i | 0 <= i < |ps| && i % 2 == 0 :: turn(StartOf(from, ps, i), ps[i], NextOf(ps, i))
  }

  /** Every gap ends at the leftmost match after its start and is followed by that match; the last gap has none after it. */
  ghost predicate FollowsMatches(t: string, from: nat, ps: seq<Piece>) {
    FollowsWith(TurnIn(t), from, ps)
  }

  /** The last turn of the loop: no match at or after `from`, so the rest is one gap. */
  lemma FollowsEnd(t: string, from: nat)
    requires from <= |t| && FindNext(t, from).None?
    ensures FollowsMatches(t, from, [Gap(t[from..])])
  {
    var ps := [Gap(t[from..])];
    assert ps[..0] == [];
    assert NextOf(ps, 0) == None;
    assert Turn(t, StartOf(from, ps, 0), ps[0], NextOf(ps, 0));
    assert TurnIn(t)(StartOf(from, ps, 0), ps[0], NextOf(ps, 0));
  }

  /** Where a piece at position `i >= 2` starts, measured in the pieces after the first two. */
  lemma StartShift(from: nat, e: nat, g: Piece, c: Piece, rest: seq<Piece>, i: nat)
    requires from + |Raw(g)| + |Raw(c)| == e
    requires 2 <= i <= |rest| + 2
    ensures StartOf(from, [g] + ([c] + rest), i) == StartOf(e, rest, i - 2)
  {
    var ps := [g] + ([c] + rest);
    assert ps[..i] == [g] + ([c] + rest[..i - 2]);
    ConcatCons(c, rest[..i - 2]);
    ConcatCons(g, [c] + rest[..i - 2]);
  }

  /** A gap after the first two pieces keeps its turn once those two are put in front. */
  lemma FollowsShift(turn: TurnProperty, from: nat, e: nat, g: Piece, c: Piece, rest: seq<Piece>, i: nat)
    requires from + |Raw(g)| + |Raw(c)| == e
    requires 2 <= i < |rest| + 2
    requires turn(StartOf(e, rest, i - 2), rest[i - 2], NextOf(rest, i - 2))
    ensures var ps := [g] + ([c] + rest); turn(StartOf(from, ps, i), ps[i], NextOf(ps, i))
  {
    var ps := [g] + ([c] + rest);
    StartShift(from, e, g, c, rest, i);
    assert NextOf(ps, i) == NextOf(rest, i - 2);
    assert ps[i] == rest[i - 2];
  }

  lemma EvenStep(i: nat)
    requires 2 <= i && i % 2 == 0
    ensures (i - 2) % 2 == 0
  {
  }

  /** Putting a gap and the piece after it in front of pieces whose turns all have a property, when the two end where those pieces start. */
  lemma FollowsCons(turn: TurnProperty, from: nat, e: nat, g: Piece, c: Piece, rest: seq<Piece>)
    requires from + |Raw(g)| + |Raw(c)| == e
    requires turn(from, g, Some(c))
    requires FollowsWith(turn, e, rest)
    ensures FollowsWith(turn, from, [g] + ([c] + rest))
  {
    var ps := [g] + ([c] + rest);
    assert ps[..0] == [];
    assert StartOf(from, ps, 0) == from;
    assert NextOf(ps, 0) == Some(c);
    forall i | 0 <= i < |ps| && i % 2 == 0 ensures turn(StartOf(from, ps, i), ps[i], NextOf(ps, i)) {
      if i != 0 {
        EvenStep(i);
        assert turn(StartOf(e, rest, i - 2), rest[i - 2], NextOf(rest, i - 2));
        FollowsShift(turn, from, e, g, c, rest, i);
      }
    }
  }

  /** The first gap runs from `from` to the leftmost match at `p`, the match follows it, and the two end where the match ends. */
  lemma FollowsFirst(t: string, from: nat, p: nat, ce: nat, ie: nat)
    requires FindNext(t, from) == Some(p) && MatchAt(t, p) == Some((ce, ie))
    ensures TurnIn(t)(from, Gap(t[from..p]), Some(CifPiece(t, p, ce, ie)))
    ensures from + |Raw(Gap(t[from..p]))| + |Raw(CifPiece(t, p, ce, ie))| == ie + |CLOSE|
  {
    assert from + |Raw(Gap(t[from..p]))| == p;
    assert Turn(t, from, Gap(t[from..p]), Some(CifPiece(t, p, ce, ie)));
    CifRaw(t, p, ce, ie);
  }

  /** One turn of the loop in front of pieces that follow the loop from where the turn ends. */
  lemma FollowsStep(t: string, from: nat, e: nat, g: Piece, c: Piece, rest: seq<Piece>)
    requires TurnIn(t)(from, g, Some(c))
    requires from + |Raw(g)| + |Raw(c)| == e
    requires FollowsMatches(t, e, rest)
    ensures FollowsMatches(t, from, [g] + ([c] + rest))
  {
    FollowsCons(TurnIn(t), from, e, g, c, rest);
  }

  /**
   * The `exec` loop from `lastIndex == from`: the text cut into gaps and
   * matched blocks, alternating and starting and ending with a gap. Putting the
   * pieces back together gives the text again.
   */
  function Segment(t: string, from: nat): (ps: seq<Piece>)
    requires from <= |t|
    decreases |t| - from
    ensures Concat(ps) == t[from..]
    ensures AllWellFormed(ps)
    ensures Alternating(ps)
    ensures FollowsMatches(t, from, ps)
  {
    match FindNext(t, from)
    case None =>
      FollowsEnd(t, from);
      [Gap(t[from..])]
    case Some(p) =>
      var (ce, ie) := MatchAt(t, p).value;
      var rest := Segment(t, ie + |CLOSE|);
      SegmentStep(t, from, p, ce, ie, rest);
      FollowsFirst(t, from, p, ce, ie);
      FollowsStep(t, from, ie + |CLOSE|, Gap(t[from..p]), CifPiece(t, p, ce, ie), rest);
      [Gap(t[from..p])] + ([CifPiece(t, p, ce, ie)] + rest)
  }

  /** Where the expression matches nowhere, the text is one gap. */
  lemma SegmentWithoutMatch(t: string, from: nat)
    requires from <= |t|
    requires forall p | from <= p :: MatchAt(t, p).None?
    ensures Segment(t, from) == [Gap(t[from..])]
  {
    assert FindNext(t, from).None?;
  }

  /** One recorded conditional block: its condition verbatim and its body trimmed. */
  datatype CifBlock = CifBlock(condition: string, css: string)

  /** The result of `parseText`. */
  datatype Parsed = Parsed(cssText: string, blocks: seq<CifBlock>)

  /** The text outside the matches, in order. */
  function Outside(ps: seq<Piece>): string {
    if ps == [] then []
    else (if ps[0].Gap? then ps[0].text else []) + Outside(ps[1..])
  }

  /** Every block body is trimmed. */
  predicate AllTrimmed(bs: seq<CifBlock>) {
    forall i | 0 <= i < |bs| :: Trimmed(bs[i].css)
  }

  lemma AllTrimmedCons(b: CifBlock, rest: seq<CifBlock>)
    requires Trimmed(b.css) && AllTrimmed(rest)
    ensures AllTrimmed([b] + rest)
  {
    var bs := [b] + rest;
    forall i | 1 <= i < |bs| ensures Trimmed(bs[i].css) {
      assert bs[i] == rest[i - 1];
    }
  }

  /** The matched blocks, in order, one per matched piece, each with its body trimmed. */
  function Blocks(ps: seq<Piece>): (bs: seq<CifBlock>)
    ensures AllTrimmed(bs)
    ensures |bs| <= |ps|
    ensures (forall i | 0 <= i < |ps| :: ps[i].Gap?) ==> bs == []
    ensures ps != [] && ps[0].Cif? ==> bs != [] && bs[0] == CifBlock(ps[0].condition, Trim(ps[0].body))
  {
    if ps == [] then []
    else
      var rest := Blocks(ps[1..]);
      if ps[0].Cif? then
        var b := CifBlock(ps[0].condition, Trim(ps[0].body));
        AllTrimmedCons(b, rest);
        [b] + rest
      else rest
  }

  /** The blocks of alternating pieces: the `k`-th block comes from the `k`-th match, the piece at `2k + 1`. */
  lemma {:induction false} BlocksOfAlternating(ps: seq<Piece>)
    requires Alternating(ps)
    decreases |ps|
    ensures |Blocks(ps)| == |ps| / 2
    ensures forall i | 0 <= i < |ps| && ps[i].Cif? :: i / 2 < |ps| / 2 && Blocks(ps)[i / 2] == CifBlock(ps[i].condition, Trim(ps[i].body))
  {
    if |ps| == 1 {
      assert Blocks(ps) == Blocks(ps[1..]);
      assert ps[1..] == [];
    } else {
      var rest := ps[2..];
      assert ps[0].Gap? && ps[1].Cif?;
      forall i | 0 <= i < |rest| ensures rest[i].Gap? <==> i % 2 == 0 {
        assert rest[i] == ps[i + 2];
      }
      BlocksOfAlternating(rest);
      assert ps[1..][1..] == rest;
      var b := CifBlock(ps[1].condition, Trim(ps[1].body));
      assert Blocks(ps) == [b] + Blocks(rest);
      forall i | 2 <= i < |ps| && ps[i].Cif? ensures i / 2 < |ps| / 2 && Blocks(ps)[i / 2] == CifBlock(ps[i].condition, Trim(ps[i].body)) {
        assert rest[i - 2] == ps[i];
        assert (i - 2) / 2 == i / 2 - 1;
      }
    }
  }

  /** No two semicolons stand next to each other. */
  predicate NoDoubleSemicolon(s: string) {
    forall i | 0 <= i < |s| - 1 :: !(s[i] == ';' && s[i + 1] == ';')
  }

  /** Putting a character in front keeps runs single unless it makes a new `;;`. */
  lemma ConsNoDouble(c: char, tail: string)
    requires NoDoubleSemicolon(tail) && tail != []
    requires !(c == ';' && tail[0] == ';')
    ensures NoDoubleSemicolon([c] + tail)
  {
    var r := [c] + tail;
    forall i | 1 <= i < |r| - 1 ensures !(r[i] == ';' && r[i + 1] == ';') {
      assert r[i] == tail[i - 1] && r[i + 1] == tail[i];
    }
  }

  /** `.replace(/;;+/g, ';')`: every run of semicolons becomes a single one. */
  function CollapseSemicolons(s: string): (r: string)
    ensures NoDoubleSemicolon(r)
    ensures r == [] <==> s == []
    ensures r != [] ==> r[0] == s[0] && r[|r| - 1] == s[|s| - 1]
  {
    if |s| <= 1 then s
    else
      var tail := CollapseSemicolons(s[1..]);
      if s[0] == ';' && s[1] == ';' then tail
      else
        ConsNoDouble(s[0], tail);
        var r := [s[0]] + tail;
        assert r[|r| - 1] == tail[|tail| - 1];
        r
  }

  /** Collapsing removes semicolons only: every other character stays, in order. */
  lemma {:induction false} CollapseKeepsOthers(s: string)
    ensures Without(CollapseSemicolons(s), ';') == Without(s, ';')
    decreases |s|
  {
    if |s| > 1 {
      var tail := CollapseSemicolons(s[1..]);
      CollapseKeepsOthers(s[1..]);
      SuffixCons(s, 0);
      if !(s[0] == ';' && s[1] == ';') {
        var r := [s[0]] + tail;
        assert r[1..] == tail;
      }
    }
  }

  /** Text without `;;` is left as it is. */
  lemma {:induction false} CollapseKeepsSingles(s: string)
    requires NoDoubleSemicolon(s)
    ensures CollapseSemicolons(s) == s
    decreases |s|
  {
    if |s| > 1 {
      NoDoubleSlice(s, 1, |s|);
      CollapseKeepsSingles(s[1..]);
      SuffixCons(s, 0);
    }
  }

  /** A `;;` anywhere collapses like a single `;` there: each run of semicolons ends up as one. */
  lemma {:induction false} CollapseRun(a: string, b: string)
    ensures CollapseSemicolons(a + ";;" + b) == CollapseSemicolons(a + ";" + b)
    decreases |a|
  {
    var s, u := a + ";;" + b, a + ";" + b;
    if a == [] {
      assert s[1..] == u;
    } else {
      assert s[1..] == a[1..] + ";;" + b;
      assert u[1..] == a[1..] + ";" + b;
      CollapseRun(a[1..], b);
    }
  }

  /** A slice of a text without `;;` has none either. */
  lemma NoDoubleSlice(s: string, lo: nat, hi: nat)
    requires lo <= hi <= |s| && NoDoubleSemicolon(s)
    ensures NoDoubleSemicolon(s[lo..hi])
  {
    var m := s[lo..hi];
    forall i | 0 <= i < |m| - 1 ensures !(m[i] == ';' && m[i + 1] == ';') {
      assert m[i] == s[lo + i] && m[i + 1] == s[lo + i + 1];
    }
  }

  /** The `^;` alternative: a leading semicolon goes. */
  function StripLeadingSemicolon(s: string): (r: string)
    ensures Without(r, ';') == Without(s, ';')
    ensures NoDoubleSemicolon(s) ==> NoDoubleSemicolon(r) && (r == [] || r[0] != ';')
    ensures s != [] && s[|s| - 1] != ';' ==> r == [] || r[|r| - 1] != ';'
  {
    if s != [] && s[0] == ';' then
      var r := s[1..];
      SuffixCons(s, 0);
      assert NoDoubleSemicolon(s) ==> NoDoubleSemicolon(r) by {
        if NoDoubleSemicolon(s) {
          NoDoubleSlice(s, 1, |s|);
        }
      }
      r
    else s
  }

  /** The `;$` alternative: a trailing semicolon goes. */
  function StripTrailingSemicolon(s: string): (r: string)
    ensures Without(r, ';') == Without(s, ';')
    ensures NoDoubleSemicolon(s) ==> NoDoubleSemicolon(r) && (r == [] || r[|r| - 1] != ';')
    ensures s != [] && s[0] != ';' ==> r == [] || r[0] != ';'
  {
    if s != [] && s[|s| - 1] == ';' then
      var r := s[..|s| - 1];
      assert s == r + [';'];
      WithoutAppend(r, [';'], ';');
      assert NoDoubleSemicolon(s) ==> NoDoubleSemicolon(r) by {
        if NoDoubleSemicolon(s) {
          NoDoubleSlice(s, 0, |s| - 1);
        }
      }
      r
    else s
  }

  /** `.replace(/^;|;$/g, '')`: one leading and one trailing semicolon go. */
  function StripEdgeSemicolons(s: string): (r: string)
    ensures var x := if s != [] && s[0] == ';' then 1 else 0;
      var y := if |s| > x && s[|s| - 1] == ';' then 1 else 0;
      r == s[x..|s| - y]
    ensures Without(r, ';') == Without(s, ';')
    ensures NoDoubleSemicolon(s) ==> NoDoubleSemicolon(r) && (r == [] || (r[0] != ';' && r[|r| - 1] != ';'))
  {
    StripTrailingSemicolon(StripLeadingSemicolon(s))
  }

  /** The semicolon clean-up of the outside text. */
  function CleanSemicolons(s: string): (r: string)
    ensures NoDoubleSemicolon(r)
    ensures r == [] || (r[0] != ';' && r[|r| - 1] != ';')
    ensures Without(r, ';') == Without(s, ';')
    ensures NoDoubleSemicolon(s) ==> r == StripEdgeSemicolons(s)
  {
    CollapseKeepsOthers(s);
    assert NoDoubleSemicolon(s) ==> CollapseSemicolons(s) == s by {
      if NoDoubleSemicolon(s) {
        CollapseKeepsSingles(s);
      }
    }
    StripEdgeSemicolons(CollapseSemicolons(s))
  }

  /**
   * `parseText`: the blocks, in order, with verbatim conditions and trimmed
   * bodies; the text outside them, concatenated and cleaned of stray
   * semicolons, keeps every other character of that outside text.
   */
  function ParseText(t: string): (r: Parsed)
    ensures NoDoubleSemicolon(r.cssText)
    ensures r.cssText == [] || (r.cssText[0] != ';' && r.cssText[|r.cssText| - 1] != ';')
    ensures Without(r.cssText, ';') == Without(Outside(Segment(t, 0)), ';')
    ensures r.cssText == CleanSemicolons(Outside(Segment(t, 0)))
    ensures var ps := Segment(t, 0);
      && |r.blocks| == |ps| / 2
      && forall i | 0 <= i < |ps| && ps[i].Cif? :: i / 2 < |r.blocks| && r.blocks[i / 2] == CifBlock(ps[i].condition, Trim(ps[i].body))
  {
    var ps := Segment(t, 0);
    BlocksOfAlternating(ps);
    Parsed(CleanSemicolons(Outside(ps)), Blocks(ps))
  }

  /** `parseText` records no block exactly when the expression matches nowhere in the text. */
  lemma ParseTextNoBlocks(t: string)
    ensures ParseText(t).blocks == [] <==> forall p: nat :: MatchAt(t, p).None?
  {
    var ps := Segment(t, 0);
    assert TurnIn(t)(StartOf(0, ps, 0), ps[0], NextOf(ps, 0));
    assert Turn(t, StartOf(0, ps, 0), ps[0], NextOf(ps, 0));
    assert ps[..0] == [];
  }

  /** The first recorded block is the leftmost match: its condition verbatim and its body trimmed. */
  lemma ParseTextFirstBlock(t: string, p: nat)
    requires FindNext(t, 0) == Some(p)
    ensures var (ce, ie) := MatchAt(t, p).value;
      && ParseText(t).blocks != []
      && ParseText(t).blocks[0] == CifBlock(t[p + |OPEN| + 1..ce], Trim(t[ce + 2..ie]))
  {
    var ps := Segment(t, 0);
    assert TurnIn(t)(StartOf(0, ps, 0), ps[0], NextOf(ps, 0));
    assert Turn(t, StartOf(0, ps, 0), ps[0], NextOf(ps, 0));
    assert ps[..0] == [];
  }

  /** A text without `<c:if` has no blocks, and its cleaned text is the whole input. */
  lemma ParseTextWithoutCif(t: string)
    requires !Contains(t, "<c:if")
    ensures ParseText(t) == Parsed(CleanSemicolons(t), [])
  {
    forall p | 0 <= p ensures MatchAt(t, p).None? {
      if OccursAt(t, OPEN, p) {
        assert t[p..p + 5] == OPEN[..5];
        assert OccursAt(t, "<c:if", p);
      }
    }
    var ps := Segment(t, 0);
    SegmentWithoutMatch(t, 0);
    assert t[0..] == t;
    assert Outside(ps) == t + Outside([]);
    assert Blocks(ps) == [] + Blocks([]);
  }
}
