/** What an alignment that succeeds has established: its ranges tile the block, and each one
    reads the segment it was placed for. */
module AlignmentSoundness {
  import opened Prelude
  import opened Alignment

  /** Every character of the range is whitespace. */
  predicate AllSpaces(block: string, start: nat, end: nat) {
    start <= end <= |block| && Blank(block[start..end])
  }

  /** The range reads the folded segment, or the segment less its re-transcribed first space. */
  predicate Reads(block: string, span: Span, f: string) {
    && span.start < span.end <= |block|
    && f != ""
    && (block[span.start..span.end] == f || (f[0] == ' ' && block[span.start..span.end] == f[1..]))
  }

  lemma {:induction false} PlaceOneReads(block: string, pos: nat, f: string)
    requires pos <= |block| && f != "" && PlaceOne(block, pos, f).PlacedAt?
    ensures var p := PlaceOne(block, pos, f);
            Reads(block, Span(p.at, p.at + p.len), f) && AllSpaces(block, pos, p.at)
  {
    var p := PlaceOne(block, pos, f);
    forall j | 0 <= j < p.at - pos ensures IsSpace(block[pos..p.at][j]) {
      assert block[pos + j] == ' ';
    }
  }

  ghost predicate WalkSound(block: string, folds: seq<string>, w: Walk, k: nat) {
    && w.Walked? && k <= |folds| && |w.placements| == |w.gaps| == k
    && (forall i | 0 <= i < k :: Reads(block, w.placements[i], folds[i]))
    && (forall i | 0 <= i < k :: AllSpaces(block, w.gaps[i].start, w.gaps[i].end))
  }

  lemma {:induction false} WalkIsSound(block: string, folds: seq<string>, k: nat)
    requires k <= |folds| && WalkTo(block, folds, k).Walked?
    requires forall i | 0 <= i < |folds| :: folds[i] != ""
    ensures WalkSound(block, folds, WalkTo(block, folds, k), k)
  {
    if k > 0 {
      WalkIsSound(block, folds, k - 1);
      PlaceOneReads(block, WalkTo(block, folds, k - 1).pos, folds[k - 1]);
    }
  }

  /** The ranges cover `[0, n)` in order, none of them empty. */
  ghost predicate Tiles(spans: seq<Span>, n: nat) {
    && (forall i | 0 <= i < |spans| :: spans[i].start < spans[i].end == StartFrom(spans, n, i + 1))
    && StartFrom(spans, n, 0) == 0
  }

  /** Alignment soundness: the ranges of an alignment with a source segment tile the block. */
  lemma {:induction false} AlignmentTiles(block: string, segments: seq<Segment>)
    requires segments != [] && forall i | 0 <= i < |segments| :: Folds(segments)[i] != ""
    requires Align(block, segments).Placements?
    ensures |Align(block, segments).placements| == |segments|
    ensures Tiles(Align(block, segments).placements, |block|)
  {
    var n := |block|;
    var ps := Place(block, segments).placements;
    WidenedRange(block, segments, 0);
    var spans := Align(block, segments).placements;
    forall i | 0 <= i < |spans|
      ensures spans[i].start < spans[i].end == StartFrom(spans, n, i + 1)
    {
      WidenedRange(block, segments, i);
      if i + 1 < |spans| { WidenedRange(block, segments, i + 1); }
    }
  }

  /** What widening does to range `i`: it grows over its own gaps, and over nothing else. */
  lemma {:induction false} WidenedRange(block: string, segments: seq<Segment>, i: nat)
    requires i < |segments| && forall j | 0 <= j < |segments| :: Folds(segments)[j] != ""
    requires Align(block, segments).Placements?
    ensures |Place(block, segments).placements| == |segments| == |Align(block, segments).placements|
    ensures var p, s := Place(block, segments).placements[i], Align(block, segments).placements[i];
            && s.start == (if i == 0 then 0 else p.start) <= p.start < p.end <= s.end
            && s.end == StartFrom(Place(block, segments).placements, |block|, i + 1) <= |block|
            && AllSpaces(block, s.start, p.start) && AllSpaces(block, p.end, s.end)
  {
    PlaceFits(block, segments);
    var p := Place(block, segments);
    PlacedSpaces(block, segments, i);
    PlacedSpaces(block, segments, i + 1);
    assert p.gaps[i] == Span(EndBefore(p.placements, i), StartFrom(p.placements, |block|, i));
    assert p.gaps[i + 1] == Span(EndBefore(p.placements, i + 1), StartFrom(p.placements, |block|, i + 1));
  }

  /** Every gap the walk leaves is whitespace, and every placement is non-empty. */
  lemma {:induction false} PlacedSpaces(block: string, segments: seq<Segment>, i: nat)
    requires i <= |segments| && forall j | 0 <= j < |segments| :: Folds(segments)[j] != ""
    requires Place(block, segments).Placements?
    ensures var p := Place(block, segments);
            && |p.placements| == |segments| && |p.gaps| == |segments| + 1
            && AllSpaces(block, p.gaps[i].start, p.gaps[i].end)
            && (i < |segments| ==> p.placements[i].start < p.placements[i].end <= |block|)
  {
    hide WalkTo, IsSpace;
    var folds := Folds(segments);
    WalkLength(block, folds, |segments|);
    WalkIsSound(block, folds, |segments|);
    if i < |segments| {
      SoundAt(block, folds, WalkTo(block, folds, |segments|), i);
    }
  }

  lemma {:induction false} SoundAt(block: string, folds: seq<string>, w: Walk, i: nat)
    requires WalkSound(block, folds, w, |folds|) && i < |folds|
    ensures Reads(block, w.placements[i], folds[i]) && AllSpaces(block, w.gaps[i].start, w.gaps[i].end)
  {
  }

  /** A placed range and the segment it reads differ at most in whitespace at the ends. */
  lemma {:induction false} ReadsStripped(block: string, span: Span, f: string)
    requires Reads(block, span, f)
    ensures Strip(block[span.start..span.end]) == Strip(f)
  {
    var core := block[span.start..span.end];
    if core != f {
      assert f == " " + f[1..] + "";
      StripPadding(" ", core, "");
    }
  }

  /** Segment `i` is a final keep, the one segment that may take over an unread tail. */
  predicate MayExtend(segments: seq<Segment>, i: nat) {
    i + 1 == |segments| && segments[i].op == Keep
  }

  /** The unmarked-rewrite guard, on the folded side: a range reads exactly its segment, up to
      whitespace at the ends, except that a final keep may go on past what the model wrote. */
  lemma {:induction false} RangeReadsSegment(block: string, segments: seq<Segment>, i: nat)
    requires i < |segments| && forall j | 0 <= j < |segments| :: Folds(segments)[j] != ""
    requires Align(block, segments).Placements?
    ensures |Align(block, segments).placements| == |segments|
    ensures var s, f := Align(block, segments).placements[i], Folds(segments)[i];
            && s.start <= s.end <= |block|
            && Strip(f) <= Strip(block[s.start..s.end])
            && (!MayExtend(segments, i) ==> Strip(f) == Strip(block[s.start..s.end]))
  {
    WidenedRange(block, segments, i);
    var p, s := Place(block, segments).placements[i], Align(block, segments).placements[i];
    PlacedReads(block, segments, i);
    RangePadding(block, s, p);
  }

  lemma {:induction false} RangePadding(block: string, s: Span, p: Span)
    requires s.start <= p.start <= p.end <= s.end <= |block|
    requires AllSpaces(block, s.start, p.start) && AllSpaces(block, p.end, s.end)
    ensures Strip(block[s.start..s.end]) == Strip(block[p.start..p.end])
  {
    StripPadding(block[s.start..p.start], block[p.start..p.end], block[p.end..s.end]);
    assert block[s.start..s.end] == block[s.start..p.start] + block[p.start..p.end] + block[p.end..s.end];
  }

  lemma {:induction false} RangeExtends(block: string, s: Span, p: Span)
    requires s.start == p.start <= p.end <= s.end <= |block|
    ensures Strip(block[p.start..p.end]) <= Strip(block[s.start..s.end])
  {
    StripExtends(block[p.start..p.end], block[p.end..s.end]);
    assert block[s.start..s.end] == block[p.start..p.end] + block[p.end..s.end];
  }

  /** The walk's own placement of segment `i`, possibly extended over the unread tail. */
  lemma {:induction false} PlacementShape(block: string, segments: seq<Segment>, i: nat)
    requires i < |segments| && Place(block, segments).Placements?
    ensures var w := WalkTo(block, Folds(segments), |segments|);
            && w.Walked? && |w.placements| == |segments| == |Place(block, segments).placements|
            && var p := Place(block, segments).placements[i];
               (p == w.placements[i] || (MayExtend(segments, i) && p == Span(w.placements[i].start, |block|)))
  {
    hide WalkTo;
    WalkLength(block, Folds(segments), |segments|);
  }

  lemma {:induction false} PlacedReads(block: string, segments: seq<Segment>, i: nat)
    requires i < |segments| && forall j | 0 <= j < |segments| :: Folds(segments)[j] != ""
    requires Place(block, segments).Placements?
    ensures |Place(block, segments).placements| == |segments|
    ensures var p, f := Place(block, segments).placements[i], Folds(segments)[i];
            && p.start <= p.end <= |block|
            && Strip(f) <= Strip(block[p.start..p.end])
            && (!MayExtend(segments, i) ==> Strip(f) == Strip(block[p.start..p.end]))
  {
    PlacementShape(block, segments, i);
    var w := WalkTo(block, Folds(segments), |segments|);
    WalkLength(block, Folds(segments), |segments|);
    WalkIsSound(block, Folds(segments), |segments|);
    SoundAt(block, Folds(segments), w, i);
    var core := w.placements[i];
    ReadsStripped(block, core, Folds(segments)[i]);
    RangeExtends(block, Span(core.start, |block|), core);
  }
}
