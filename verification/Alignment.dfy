/** Aligning the keep/delete half of a block transcript with the block's folded text
    (`scripts/block_transcript.py`, `_place_source_segments` and `_resolve_gaps`). A cursor walks
    the folded block and places one segment after another, skipping a space where it must; what
    is skipped is a gap, and gaps are settled afterwards, in place, by the segments beside them.
    Both loops are proved to compute what their recursive readings say. */
module Alignment {
  import opened Prelude
  import opened TextFold

  datatype Op = Keep | Delete | Insert

  datatype Segment = Segment(op: Op, text: string, issueKey: string)

  /** A half-open range of folded or source characters. */
  datatype Span = Span(start: nat, end: nat)

  datatype Reason =
    | UnknownBlockId
    | SourceMismatch
    | AlignmentAmbiguous
    | NoEditSegments
    | MalformedSegments
    | DuplicateBlockId
    | MalformedBlockOp
    | ConflictingBlockOp

  /** A refusal: where the walk gave up, on the block's side and on the transcript's. */
  datatype Failure = Failure(reason: Reason, segment: nat, divergence: nat, transcriptOffset: nat)

  // ---------------------------------------------------------------------
  // Placing one segment at the cursor
  // ---------------------------------------------------------------------

  function CommonPrefix(left: string, right: string): (n: nat)
    ensures n <= |left| && n <= |right| && left[..n] == right[..n]
    ensures n < |left| && n < |right| ==> left[n] != right[n]
  {
    if left != "" && right != "" && left[0] == right[0] then 1 + CommonPrefix(left[1..], right[1..]) else 0
  }

  /** `_common_prefix_len`. */
  method CommonPrefixLen(left: string, right: string) returns (n: nat)
    ensures n == CommonPrefix(left, right)
  {
    var limit := if |left| < |right| then |left| else |right|;
    n := 0;
    while n < limit && left[n] == right[n]
      invariant n <= limit
      invariant CommonPrefix(left, right) == n + CommonPrefix(left[n..], right[n..])
    {
      n := n + 1;
    }
  }

  /** The first position at or after `pos` that is not a folded space. */
  function SkipSpaces(block: string, pos: nat): (r: nat)
    requires pos <= |block|
    ensures pos <= r <= |block| && (forall j | pos <= j < r :: block[j] == ' ')
    ensures r < |block| ==> block[r] != ' '
    decreases |block| - pos
  {
    if pos < |block| && block[pos] == ' ' then SkipSpaces(block, pos + 1) else pos
  }

  datatype Placing =
    | PlacedAt(at: nat, len: nat)
    | AbsorbedWhole
    | Diverges(blockOffset: nat, transcriptOffset: nat)

  /** The model split one whitespace run and kept a space on both sides; the previous segment
      already consumed it. */
  predicate Retranscribes(block: string, pos: nat, f: string) {
    && f != "" && f[0] == ' '
    && 0 < pos <= |block| && block[pos - 1] == ' '
    && StartsWithAt(block, f[1..], pos)
  }

  /** Where one folded segment lands when the cursor is at `pos`. */
  function PlaceOne(block: string, pos: nat, f: string): Placing
    requires pos <= |block|
  {
    if StartsWithAt(block, f, pos) then PlacedAt(pos, |f|)
    else if Retranscribes(block, pos, f) then
      if |f| == 1 then AbsorbedWhole else PlacedAt(pos, |f| - 1)
    else
      var skipped := SkipSpaces(block, pos);
      if skipped > pos && StartsWithAt(block, f, skipped) then PlacedAt(skipped, |f|)
      else
        var here, there := CommonPrefix(block[pos..], f), CommonPrefix(block[skipped..], f);
        if skipped > pos && there > here then Diverges(skipped + there, there) else Diverges(pos + here, here)
  }

  // ---------------------------------------------------------------------
  // The walk
  // ---------------------------------------------------------------------

  datatype Walk =
    | Walked(placements: seq<Span>, gaps: seq<Span>, pos: nat)
    | Stuck(failure: Failure)

  /** The folded segment texts. */
  function Folds(segments: seq<Segment>): seq<string> {
    seq(|segments|, i requires 0 <= i < |segments| => Folded(segments[i].text))
  }

  /** The walk after the first `k` folded source segments. */
  function WalkTo(block: string, folds: seq<string>, k: nat): (w: Walk)
    requires k <= |folds|
    ensures w.Walked? ==> w.pos <= |block|
  {
    if k == 0 then Walked([], [], 0)
    else
      match WalkTo(block, folds, k - 1)
      case Stuck(failure) => Stuck(failure)
      case Walked(placements, gaps, pos) =>
        match PlaceOne(block, pos, folds[k - 1])
        case AbsorbedWhole => Stuck(Failure(AlignmentAmbiguous, k - 1, pos, 0))
        case Diverges(b, t) => Stuck(Failure(SourceMismatch, k - 1, b, t))
        case PlacedAt(at, len) =>
          Walked(placements + [Span(at, at + len)], gaps + [Span(pos, at)], at + len)
  }

  datatype Placement =
    | Placements(placements: seq<Span>, gaps: seq<Span>)
    | Misplaced(failure: Failure)

  /** A final keep takes over an unread tail; any other unread text is a mismatch. */
  function Finish(block: string, segments: seq<Segment>, w: Walk): Placement
    requires w.Walked? ==> w.pos <= |block| && |w.placements| == |segments|
  {
    match w
    case Stuck(failure) => Misplaced(failure)
    case Walked(placements, gaps, pos) =>
      if Blank(block[pos..]) then Placements(placements, gaps + [Span(pos, |block|)])
      else if placements != [] && segments[|segments| - 1].op == Keep then
        var last := |placements| - 1;
        Placements(placements[last := Span(placements[last].start, |block|)], gaps + [Span(|block|, |block|)])
      else Misplaced(Failure(SourceMismatch, |segments|, pos, 0))
  }

  function Place(block: string, segments: seq<Segment>): Placement {
    WalkLength(block, Folds(segments), |segments|);
    Finish(block, segments, WalkTo(block, Folds(segments), |segments|))
  }

  lemma {:induction false} WalkLength(block: string, folds: seq<string>, k: nat)
    requires k <= |folds|
    ensures var w := WalkTo(block, folds, k); w.Walked? ==> |w.placements| == |w.gaps| == k
  {
    if k > 0 { WalkLength(block, folds, k - 1); }
  }

  lemma {:induction false} StuckStays(block: string, folds: seq<string>, k: nat, n: nat)
    requires k <= n <= |folds| && WalkTo(block, folds, k).Stuck?
    ensures WalkTo(block, folds, n) == WalkTo(block, folds, k)
    decreases n
  {
    if k < n { StuckStays(block, folds, k, n - 1); }
  }

  /** A walk that gets stuck early is a misplacement of the whole transcript. */
  lemma {:induction false} StuckMisplaces(block: string, segments: seq<Segment>, k: nat)
    requires k <= |segments| && WalkTo(block, Folds(segments), k).Stuck?
    ensures Place(block, segments) == Misplaced(WalkTo(block, Folds(segments), k).failure)
  {
    StuckStays(block, Folds(segments), k, |segments|);
  }

  /** One iteration of the walk: does the folded segment match at the cursor, at the cursor
      less its re-transcribed space, or past skipped whitespace; and if nowhere, which of the
      two candidate starts got furthest. */
  method PlaceAtCursor(block: string, pos: nat, f: string) returns (r: Placing)
    requires pos <= |block|
    ensures r == PlaceOne(block, pos, f)
  {
    hide StartsWithAt, CommonPrefix;
    if StartsWithAt(block, f, pos) {
      return PlacedAt(pos, |f|);
    }
    if f != "" && f[0] == ' ' && pos > 0 && block[pos - 1] == ' ' && StartsWithAt(block, f[1..], pos) {
      return if |f| == 1 then AbsorbedWhole else PlacedAt(pos, |f| - 1);
    }
    var skipped := pos;
    while skipped < |block| && block[skipped] == ' '
      invariant pos <= skipped <= |block|
      invariant SkipSpaces(block, pos) == SkipSpaces(block, skipped)
    {
      skipped := skipped + 1;
    }
    if skipped > pos && StartsWithAt(block, f, skipped) {
      return PlacedAt(skipped, |f|);
    }
    var bestOffset := pos;
    var bestPrefix := CommonPrefixLen(block[pos..], f);
    if skipped > pos {
      var alternative := CommonPrefixLen(block[skipped..], f);
      if alternative > bestPrefix {
        bestOffset, bestPrefix := skipped, alternative;
      }
    }
    return Diverges(bestOffset + bestPrefix, bestPrefix);
  }

  method FoldSegment(text: string) returns (f: string)
    ensures f == Folded(text)
  {
    var m := FoldTextWithMap(text);
    f := m.folded;
  }

  /** Records what `PlaceAtCursor` found: a placement and the gap before it, or the failure. */
  method Advance(block: string, ghost folds: seq<string>, index: nat, f: string, w: Walk) returns (next: Walk)
    requires index < |folds| && f == folds[index]
    requires w.Walked? && w == WalkTo(block, folds, index)
    ensures next == WalkTo(block, folds, index + 1)
  {
    var placing := PlaceAtCursor(block, w.pos, f);
    match placing {
      case PlacedAt(at, len) =>
        next := Walked(w.placements + [Span(at, at + len)], w.gaps + [Span(w.pos, at)], at + len);
      case AbsorbedWhole =>
        next := Stuck(Failure(AlignmentAmbiguous, index, w.pos, 0));
      case Diverges(b, t) =>
        next := Stuck(Failure(SourceMismatch, index, b, t));
    }
  }

  /** `_place_source_segments`. */
  method PlaceSourceSegments(block: string, segments: seq<Segment>) returns (r: Placement)
    ensures r == Place(block, segments)
  {
    ghost var folds := Folds(segments);
    var w := Walked([], [], 0);
    for index := 0 to |segments|
      invariant w.Walked? && w == WalkTo(block, folds, index)
    {
      var f := FoldSegment(segments[index].text);
      w := Advance(block, folds, index, f, w);
      if w.Stuck? {
        StuckMisplaces(block, segments, index + 1);
        return Misplaced(w.failure);
      }
    }
    WalkLength(block, folds, |segments|);
    r := TakeTail(block, segments, w.placements, w.gaps, w.pos);
  }

  /** The end of the walk: what the transcript left unread. */
  method TakeTail(block: string, segments: seq<Segment>, placements: seq<Span>, gaps: seq<Span>, pos: nat)
    returns (r: Placement)
    requires pos <= |block| && |placements| == |segments|
    ensures r == Finish(block, segments, Walked(placements, gaps, pos))
  {
    if !Blank(block[pos..]) {
      if placements != [] && segments[|segments| - 1].op == Keep {
        var last := |placements| - 1;
        return Placements(placements[last := Span(placements[last].start, |block|)],
                          gaps + [Span(|block|, |block|)]);
      }
      return Misplaced(Failure(SourceMismatch, |segments|, pos, 0));
    }
    return Placements(placements, gaps + [Span(pos, |block|)]);
  }

  // ---------------------------------------------------------------------
  // Attributing the gaps
  // ---------------------------------------------------------------------

  function EndBefore(placements: seq<Span>, i: nat): nat
    requires i <= |placements|
  {
    if i == 0 then 0 else placements[i - 1].end
  }

  function StartFrom(placements: seq<Span>, n: nat, i: nat): nat
    requires i <= |placements|
  {
    if i == |placements| then n else placements[i].start
  }

  /** The gaps are what lies before, between and after the placements. */
  predicate GapsFit(placements: seq<Span>, gaps: seq<Span>, n: nat) {
    && |gaps| == |placements| + 1
    && (forall i | 0 <= i < |gaps| :: gaps[i] == Span(EndBefore(placements, i), StartFrom(placements, n, i)))
  }

  /** Gap `i` lies between a kept and a deleted segment: who owns it is anyone's guess. */
  predicate Disputed(segments: seq<Segment>, gaps: seq<Span>, i: nat)
    requires |gaps| == |segments| + 1
  {
    0 < i < |segments| && gaps[i].start != gaps[i].end && segments[i - 1].op != segments[i].op
  }

  /** Placement `i` with the whitespace that falls to it, once the first `upTo` gaps are settled. */
  function Claimed(placements: seq<Span>, n: nat, i: nat, upTo: nat): Span
    requires i < |placements|
  {
    Span(if i == 0 && upTo > 0 then 0 else placements[i].start,
         if i + 1 < upTo then StartFrom(placements, n, i + 1) else placements[i].end)
  }

  function FirstDisputed(segments: seq<Segment>, gaps: seq<Span>, from: nat): (d: nat)
    requires |gaps| == |segments| + 1 && from <= |gaps|
    ensures from <= d <= |gaps| && (d < |gaps| ==> Disputed(segments, gaps, d))
    ensures forall i | from <= i < d :: !Disputed(segments, gaps, i)
    decreases |gaps| - from
  {
    if from == |gaps| || Disputed(segments, gaps, from) then from else FirstDisputed(segments, gaps, from + 1)
  }

  /** Either the first disputed gap, or every placement widened over the whitespace that only it
      can claim. */
  function Resolve(segments: seq<Segment>, placements: seq<Span>, gaps: seq<Span>, n: nat): Placement
    requires |placements| == |segments| && GapsFit(placements, gaps, n)
  {
    var d := FirstDisputed(segments, gaps, 0);
    if d < |gaps| then Misplaced(Failure(AlignmentAmbiguous, d, gaps[d].start, 0))
    else Placements(
      seq(|placements|, i requires 0 <= i < |placements| => Claimed(placements, n, i, |gaps|)), gaps)
  }

  /** `_resolve_gaps`, placement by placement in place. */
  method ResolveGaps(segments: seq<Segment>, placements: seq<Span>, gaps: seq<Span>, n: nat)
    returns (r: Placement)
    requires |placements| == |segments| && GapsFit(placements, gaps, n)
    ensures r == Resolve(segments, placements, gaps, n)
  {
    if placements == [] {
      return Placements(placements, gaps);
    }
    var settled := placements;
    for index := 0 to |gaps|
      invariant |settled| == |placements|
      invariant FirstDisputed(segments, gaps, 0) == FirstDisputed(segments, gaps, index)
      invariant forall i | 0 <= i < |placements| :: settled[i] == Claimed(placements, n, i, index)
    {
      var gap := gaps[index];
      if gap.start == gap.end {
      } else if index == 0 {
        settled := settled[0 := Span(gap.start, settled[0].end)];
      } else if index == |placements| {
        settled := settled[index - 1 := Span(settled[index - 1].start, gap.end)];
      } else if segments[index - 1].op == segments[index].op {
        settled := settled[index - 1 := Span(settled[index - 1].start, gap.end)];
      } else {
        return Misplaced(Failure(AlignmentAmbiguous, index, gap.start, 0));
      }
    }
    return Placements(settled, gaps);
  }

  // ---------------------------------------------------------------------
  // Both halves together
  // ---------------------------------------------------------------------

  /** The folded ranges of the source segments, or why there are none. */
  function Align(block: string, segments: seq<Segment>): Placement {
    PlaceFits(block, segments);
    match Place(block, segments)
    case Misplaced(failure) => Misplaced(failure)
    case Placements(placements, gaps) => Resolve(segments, placements, gaps, |block|)
  }

  /** `_place_source_segments` leaves gaps that fit around its placements. */
  lemma {:induction false} PlaceFits(block: string, segments: seq<Segment>)
    ensures var p := Place(block, segments);
            p.Placements? ==> |p.placements| == |segments| && GapsFit(p.placements, p.gaps, |block|)
  {
    WalkLength(block, Folds(segments), |segments|);
    WalkGaps(block, Folds(segments), |segments|);
    var w := WalkTo(block, Folds(segments), |segments|);
    var p := Place(block, segments);
    if p.Placements? {
      forall i | 0 <= i < |p.gaps|
        ensures p.gaps[i] == Span(EndBefore(p.placements, i), StartFrom(p.placements, |block|, i))
      {
        if i < |segments| { assert w.gaps[i] == Span(EndBefore(w.placements, i), w.placements[i].start); }
      }
    }
  }

  lemma {:induction false} WalkGaps(block: string, folds: seq<string>, k: nat)
    requires k <= |folds|
    ensures var w := WalkTo(block, folds, k);
            w.Walked? ==>
              && |w.placements| == |w.gaps| == k && w.pos == EndBefore(w.placements, k)
              && (forall i | 0 <= i < k :: w.gaps[i] == Span(EndBefore(w.placements, i), w.placements[i].start))
  {
    WalkLength(block, folds, k);
    if k > 0 {
      WalkLength(block, folds, k - 1);
      WalkGaps(block, folds, k - 1);
      var v, w := WalkTo(block, folds, k - 1), WalkTo(block, folds, k);
      if w.Walked? {
        forall i | 0 <= i < k
          ensures w.gaps[i] == Span(EndBefore(w.placements, i), w.placements[i].start)
        {
          if i < k - 1 { assert v.gaps[i] == Span(EndBefore(v.placements, i), v.placements[i].start); }
        }
      }
    }
  }
}
