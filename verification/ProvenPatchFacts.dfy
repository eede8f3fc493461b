/** What a proven patch guarantees: nothing silently rewritten, and every exact transcript proven. */
module ProvenPatchFacts {
  import opened Prelude
  import opened TextFold
  import opened Alignment
  import opened AlignmentSoundness
  import opened ProvenPatch

  // ---------------------------------------------------------------------
  // The unmarked-rewrite guard
  // ---------------------------------------------------------------------

  /** Each keep and delete of a proven patch covers text that compares equal to what the model
      wrote for it (`fold_text`); only a final keep may go on past it. */
  lemma {:induction false} UnmarkedRewriteGuard(segments: seq<Segment>, text: string, k: nat)
    requires NonEmptyTexts(segments) && Prove(segments, text).Proven?
    requires k < |segments| && segments[k].op != Insert
    ensures |Prove(segments, text).ops| == |segments|
    ensures var op := Prove(segments, text).ops[k];
            && !op.InsertOp?
            && op.start < op.end <= |text| && op.text == text[op.start..op.end]
            && (op.DeleteOp? <==> segments[k].op == Delete)
            && FoldText(segments[k].text) <= FoldText(op.text)
            && (segments[k].op == Delete || SourceIndex(segments, k) + 1 < |Sources(segments)|
                ==> FoldText(segments[k].text) == FoldText(op.text))
  {
    var m := FoldMapOf(text);
    var sources, j := Sources(segments), SourceIndex(segments, k);
    SourceAt(segments, k, |segments|);
    MapToMaps(text, |text|);
    SourceFoldsNonEmpty(segments);
    AlignmentTiles(m.folded, sources);
    var range := Align(m.folded, sources).placements[j];
    SpanFoldsTo(m, text, segments, j);
    RangeReadsSegment(m.folded, sources, j);
  }

  /** True span `j` is non-empty and folds to its folded range. */
  lemma {:induction false} SpanFoldsTo(m: FoldMap, text: string, segments: seq<Segment>, j: nat)
    requires NonEmptyTexts(segments) && m == FoldMapOf(text) && j < |Sources(segments)|
    requires Align(m.folded, Sources(segments)).Placements?
    ensures |Align(m.folded, Sources(segments)).placements| == |Sources(segments)|
    ensures var r, s := Align(m.folded, Sources(segments)).placements[j], SourceSpans(segments, text)[j];
            && r.start < r.end <= |m.folded| && s.start < s.end <= |text|
            && Folded(text[s.start..s.end]) == m.folded[r.start..r.end]
            && CleanCut(text, s.start)
  {
    AlignedBounds(m.folded, segments);
    MapToMaps(text, |text|);
    SourceFoldsNonEmpty(segments);
    AlignmentTiles(m.folded, Sources(segments));
    var r := Align(m.folded, Sources(segments)).placements[j];
    ProjectedSpan(m, text, r);
    FoldedSlice(m, text, r.start, r.end);
    SourceCutFolds(m, text, r.start);
  }

  // ---------------------------------------------------------------------
  // Completeness
  // ---------------------------------------------------------------------

  /** The text the first `j` source segments spell. */
  function Spelled(sources: seq<Segment>, j: nat): string
    requires j <= |sources|
  {
    if j == 0 then "" else Spelled(sources, j - 1) + sources[j - 1].text
  }

  /** Where source segment `j` begins when the segments are laid end to end. */
  function Offset(sources: seq<Segment>, j: nat): nat
    requires j <= |sources|
  {
    |Spelled(sources, j)|
  }

  lemma {:induction false} SpelledPrefix(sources: seq<Segment>, j: nat, n: nat)
    requires j <= n <= |sources|
    ensures Spelled(sources, j) <= Spelled(sources, n)
    decreases n
  {
    if j < n { SpelledPrefix(sources, j, n - 1); }
  }

  /** No boundary between source segments cuts a whitespace run of the block. */
  predicate CutsClean(sources: seq<Segment>, text: string) {
    forall j | 0 <= j <= |sources| :: CleanCut(text, Offset(sources, j))
  }

  /** The folded position of boundary `j`. */
  function FoldedOffset(sources: seq<Segment>, text: string, j: nat): nat
    requires j <= |sources| && Offset(sources, j) <= |text|
  {
    |FoldTo(text, Offset(sources, j))|
  }

  /** An exact transcript: the source segments spell the block, and no boundary cuts a run. */
  predicate Exact(sources: seq<Segment>, text: string) {
    Spelled(sources, |sources|) == text && CutsClean(sources, text)
  }

  lemma {:induction false} OffsetInText(sources: seq<Segment>, text: string, j: nat)
    requires Spelled(sources, |sources|) == text && j <= |sources|
    ensures Offset(sources, j) <= |text|
    ensures text[..Offset(sources, j)] == Spelled(sources, j)
  {
    SpelledPrefix(sources, j, |sources|);
  }

  lemma {:induction false} SegmentInText(sources: seq<Segment>, text: string, j: nat)
    requires Spelled(sources, |sources|) == text && j < |sources|
    ensures Offset(sources, j) <= Offset(sources, j + 1) <= |text|
    ensures text[Offset(sources, j)..Offset(sources, j + 1)] == sources[j].text
  {
    OffsetInText(sources, text, j);
    OffsetInText(sources, text, j + 1);
    Cancel(text, Offset(sources, j), Offset(sources, j + 1), sources[j].text);
  }

  /** The fold between two neighbouring boundaries is the fold of the segment between them. */
  lemma {:induction false} SegmentInFold(sources: seq<Segment>, text: string, j: nat)
    requires Exact(sources, text) && j < |sources|
    ensures Offset(sources, j) <= |text| && Offset(sources, j + 1) <= |text|
    ensures StartsWithAt(Folded(text), Folded(sources[j].text), FoldedOffset(sources, text, j))
    ensures FoldedOffset(sources, text, j + 1) == FoldedOffset(sources, text, j) + |Folded(sources[j].text)|
  {
    SegmentInText(sources, text, j);
    var a, b := Offset(sources, j), Offset(sources, j + 1);
    FoldBetween(text, a, b);
    FoldMonotone(text, b, |text|);
    FoldMonotone(text, a, |text|);
    Cancel(Folded(text), |FoldTo(text, a)|, |FoldTo(text, b)|, Folded(sources[j].text));
  }

  /** On an exact transcript every segment matches right at the cursor. */
  ghost predicate WalkExact(sources: seq<Segment>, text: string, w: Walk, j: nat)
    requires Spelled(sources, |sources|) == text
  {
    && w.Walked? && j <= |sources| && |w.placements| == |w.gaps| == j
    && Offset(sources, j) <= |text| && w.pos == FoldedOffset(sources, text, j)
    && (forall i | 0 <= i < j :: ExactRange(sources, text, i) == Some(w.placements[i]))
    && (forall i | 0 <= i < j :: w.gaps[i].start == w.gaps[i].end)
  }

  function ExactRange(sources: seq<Segment>, text: string, i: nat): Option<Span>
    requires i < |sources|
  {
    if Offset(sources, i) <= |text| && Offset(sources, i + 1) <= |text| then
      Some(Span(FoldedOffset(sources, text, i), FoldedOffset(sources, text, i + 1)))
    else None
  }

  lemma {:induction false} WalkIsExact(sources: seq<Segment>, text: string, j: nat)
    requires Exact(sources, text) && j <= |sources|
    ensures WalkExact(sources, text, WalkTo(Folded(text), Folds(sources), j), j)
  {
    if j > 0 {
      WalkIsExact(sources, text, j - 1);
      ExactStep(sources, text, j - 1);
      SegmentInText(sources, text, j - 1);
      ExactGrows(sources, text, WalkTo(Folded(text), Folds(sources), j - 1), j - 1);
    } else {
      OffsetInText(sources, text, 0);
    }
  }

  lemma {:induction false} ExactStep(sources: seq<Segment>, text: string, k: nat)
    requires Exact(sources, text) && k < |sources|
    requires WalkTo(Folded(text), Folds(sources), k).Walked? && Offset(sources, k) <= |text|
    requires WalkTo(Folded(text), Folds(sources), k).pos == FoldedOffset(sources, text, k)
    ensures Offset(sources, k + 1) <= |text|
    ensures var w, next := WalkTo(Folded(text), Folds(sources), k), FoldedOffset(sources, text, k + 1);
            WalkTo(Folded(text), Folds(sources), k + 1)
              == Walked(w.placements + [Span(w.pos, next)], w.gaps + [Span(w.pos, w.pos)], next)
  {
    hide Folded, WalkTo, FoldedOffset, Offset;
    SegmentInFold(sources, text, k);
    assert Folds(sources)[k] == Folded(sources[k].text);
    PlaceExact(Folded(text), Folds(sources), k);
  }

  lemma {:induction false} ExactGrows(sources: seq<Segment>, text: string, v: Walk, k: nat)
    requires Exact(sources, text) && k < |sources| && WalkExact(sources, text, v, k)
    requires Offset(sources, k + 1) <= |text|
    ensures var next := FoldedOffset(sources, text, k + 1);
            WalkExact(sources, text, Walked(v.placements + [Span(v.pos, next)], v.gaps + [Span(v.pos, v.pos)], next),
                k + 1)
  {
    hide Folded, FoldedOffset, Offset;
    var next := FoldedOffset(sources, text, k + 1);
    var w := Walked(v.placements + [Span(v.pos, next)], v.gaps + [Span(v.pos, v.pos)], next);
    assert ExactRange(sources, text, k) == Some(Span(v.pos, next));
    forall i | 0 <= i < k + 1
      ensures ExactRange(sources, text, i) == Some(w.placements[i]) && w.gaps[i].start == w.gaps[i].end
    {
      if i < k { assert w.placements[i] == v.placements[i] && w.gaps[i] == v.gaps[i]; }
    }
  }

  /** A segment found right at the cursor is placed there, with no gap. */
  lemma {:induction false} PlaceExact(block: string, folds: seq<string>, k: nat)
    requires k < |folds| && WalkTo(block, folds, k).Walked?
    requires StartsWithAt(block, folds[k], WalkTo(block, folds, k).pos)
    ensures var w := WalkTo(block, folds, k);
            WalkTo(block, folds, k + 1) == Walked(w.placements + [Span(w.pos, w.pos + |folds[k]|)],
                                                  w.gaps + [Span(w.pos, w.pos)], w.pos + |folds[k]|)
  {
  }

  /** Alignment of an exact transcript: range `i` runs from folded boundary `i` to the next. */
  lemma {:induction false} AlignmentIsExact(sources: seq<Segment>, text: string)
    requires Exact(sources, text)
    ensures var a := Align(Folded(text), sources);
            a.Placements? && |a.placements| == |sources| &&
            forall i | 0 <= i < |sources| :: ExactRange(sources, text, i) == Some(a.placements[i])
  {
    var block := Folded(text);
    WalkIsExact(sources, text, |sources|);
    WalkLength(block, Folds(sources), |sources|);
    PlaceFits(block, sources);
    var w, p := WalkTo(block, Folds(sources), |sources|), Place(block, sources);
    assert w.pos == |block|;
    assert p == Placements(w.placements, w.gaps + [Span(|block|, |block|)]);
    forall i | 0 <= i < |p.gaps| ensures !Disputed(sources, p.gaps, i) {
      assert p.gaps[i].start == p.gaps[i].end;
    }
    var a := Align(block, sources);
    forall i | 0 <= i < |sources| ensures a.placements[i] == w.placements[i] {
      ExactClaim(sources, text, w, i);
    }
  }

  lemma {:induction false} ExactClaim(sources: seq<Segment>, text: string, w: Walk, i: nat)
    requires Spelled(sources, |sources|) == text && WalkExact(sources, text, w, |sources|) && i < |sources|
    ensures Claimed(w.placements, |Folded(text)|, i, |sources| + 1) == w.placements[i]
  {
    assert ExactRange(sources, text, i) == Some(w.placements[i]);
    if i + 1 < |sources| { assert ExactRange(sources, text, i + 1) == Some(w.placements[i + 1]); }
  }

  /** The transcript's source segments end to end. */
  function EndToEnd(sources: seq<Segment>, j: nat): Span
    requires j < |sources|
  {
    Span(Offset(sources, j), Offset(sources, j + 1))
  }

  /** Alignment completeness, exactly: a transcript that spells the block and edits it is proven
      at its own cumulative offsets just when none of its boundaries cuts a whitespace run. */
  lemma {:induction false} ExactTranscriptIsProven(segments: seq<Segment>, text: string)
    requires NonEmptyTexts(segments) && !AllKeeps(segments)
    requires Spelled(Sources(segments), |Sources(segments)|) == text
    ensures CutsClean(Sources(segments), text) <==>
      && Prove(segments, text).Proven?
      && forall j | 0 <= j < |Sources(segments)| :: SourceSpans(segments, text)[j] == EndToEnd(Sources(segments), j)
  {
    if CutsClean(Sources(segments), text) {
      ExactSpans(segments, text);
      ReconstructionCheck(segments, text);
    } else if Prove(segments, text).Proven? {
      var j :| 0 <= j <= |Sources(segments)| && !CleanCut(text, Offset(Sources(segments), j));
      if j < |Sources(segments)| {
        SpanFoldsTo(FoldMapOf(text), text, segments, j);
      }
    }
  }

  lemma {:induction false} ExactSpans(segments: seq<Segment>, text: string)
    requires NonEmptyTexts(segments) && Exact(Sources(segments), text)
    ensures Align(FoldMapOf(text).folded, Sources(segments)).Placements?
    ensures forall j | 0 <= j < |Sources(segments)| :: SourceSpans(segments, text)[j] == EndToEnd(Sources(segments), j)
  {
    var m, sources := FoldMapOf(text), Sources(segments);
    MapToMaps(text, |text|);
    AlignmentIsExact(sources, text);
    forall j | 0 <= j < |sources|
      ensures SourceSpans(segments, text)[j] == EndToEnd(sources, j)
    {
      ExactSpan(m, segments, text, j);
    }
  }

  lemma {:induction false} ExactSpan(m: FoldMap, segments: seq<Segment>, text: string, j: nat)
    requires NonEmptyTexts(segments) && Exact(Sources(segments), text) && j < |Sources(segments)|
    requires m == FoldMapOf(text) && Maps(m, text) && Align(m.folded, Sources(segments)).Placements?
    ensures SourceSpans(segments, text)[j] == EndToEnd(Sources(segments), j)
  {
    var sources := Sources(segments);
    AlignmentIsExact(sources, text);
    SpanFoldsTo(m, text, segments, j);
    SegmentInText(sources, text, j);
    assert ExactRange(sources, text, j) == Some(Align(m.folded, sources).placements[j]);
    ProjectedSpan(m, text, Align(m.folded, sources).placements[j]);
    CutInFold(m, text, Offset(sources, j));
    CutInFold(m, text, Offset(sources, j + 1));
  }
}
