/** Exactly which patches are proven. */
module ProvenPatchExactness {
  import opened Prelude
  import opened TextFold
  import opened Alignment
  import opened AlignmentSoundness
  import opened AlignmentExactness
  import opened ProvenPatch
  import opened ProvenPatchFacts

  lemma {:induction false} FoldIsSingleSpaced(text: string)
    ensures SingleSpaced(Folded(text))
  {
    FoldedSpaces(text, |text|);
  }

  /** A patch is proven exactly when it edits something, reads something of a block that has text, and
      its keeps and deletes can be arranged on the block. */
  lemma {:induction false} ProvenExactly(segments: seq<Segment>, text: string)
    requires NonEmptyTexts(segments)
    ensures Prove(segments, text).Proven?
      <==> (!AllKeeps(segments) && (Sources(segments) != [] || text == "")
            && exists spans :: Arranged(Folded(text), Sources(segments), spans))
  {
    hide Arranged, SingleSpaced, Align;
    MapToMaps(text, |text|);
    SourceFoldsNonEmpty(segments);
    FoldIsSingleSpaced(text);
    AlignsExactly(Folded(text), Sources(segments));
    if Align(Folded(text), Sources(segments)).Placements? { ReconstructionCheck(segments, text); }
  }

  // ---------------------------------------------------------------------
  // A transcript that spells the block up to whitespace
  // ---------------------------------------------------------------------

  /** Segment `j` is whitespace, and goes on the whitespace the segments before it end in. */
  predicate Redundant(sources: seq<Segment>, j: nat)
    requires j < |sources|
  {
    Blank(sources[j].text) && JoinsRun(Spelled(sources, j), sources[j].text)
  }

  /** Where the first `j` segments end on the folded block. */
  function Mark(sources: seq<Segment>, j: nat): nat
    requires j <= |sources|
  {
    |Folded(Spelled(sources, j))|
  }

  function Marks(sources: seq<Segment>): seq<Span> {
    seq(|sources|, j requires 0 <= j < |sources| => Span(Mark(sources, j), Mark(sources, j + 1)))
  }

  predicate SameFold(sources: seq<Segment>, text: string) {
    Folded(Spelled(sources, |sources|)) == Folded(text)
  }

  lemma {:induction false} MarksAt(sources: seq<Segment>, j: nat)
    requires j <= |sources|
    ensures |Marks(sources)| == |sources| && EndBefore(Marks(sources), j) == Mark(sources, j)
    ensures j < |sources| ==> Marks(sources)[j] == Span(Mark(sources, j), Mark(sources, j + 1))
  {
  }

  lemma {:induction false} BlankLast(t: string, p: nat)
    requires 0 < p <= |t|
    ensures Blank(t[..p]) <==> Blank(t[..p - 1]) && IsSpace(t[p - 1])
  {
    hide IsSpace;
    var all, front := t[..p], t[..p - 1];
    assert all[p - 1] == t[p - 1];
    assert forall i | 0 <= i < p - 1 :: front[i] == all[i];
  }

  lemma {:induction false} BlankFold(t: string, p: nat)
    requires 0 < p <= |t|
    ensures FoldTo(t, p) == " " <==> Blank(t[..p])
  {
    hide IsSpace, FoldChar, Blank;
    BlankLast(t, p);
    FoldedEnds(t, p);
    if p > 1 {
      BlankFold(t, p - 1);
      FoldedEnds(t, p - 1);
    } else {
      NothingBlank(t);
    }
  }

  lemma {:induction false} NothingBlank(t: string)
    ensures Blank(t[..0])
  {
  }

  /** The fold of the segments so far is a stretch of the folded block, and so is what one more adds. */
  lemma {:induction false} MarksGrow(sources: seq<Segment>, text: string, j: nat)
    requires SameFold(sources, text) && j <= |sources|
    ensures Folded(Spelled(sources, j)) <= Folded(text)
    decreases |sources| - j
  {
    hide Folded, Continued, JoinsRun;
    if j < |sources| {
      MarksGrow(sources, text, j + 1);
      FoldedConcat(Spelled(sources, j), sources[j].text);
    }
  }

  lemma {:induction false} EndsOfFold(t: string)
    requires t != ""
    ensures Folded(t) != "" && (Folded(t)[0] == ' ' <==> IsSpace(t[0]))
    ensures Folded(t)[|Folded(t)| - 1] == ' ' <==> IsSpace(t[|t| - 1])
  {
    FoldedEnds(t, |t|);
  }

  /** What one more segment adds to a fold, as a stretch of the block. */
  lemma {:induction false} FoldStretch(block: string, before: string, f: string, next: string, joins: bool)
    requires before <= block && next <= block && next == before + Continued(f, joins) && f != ""
    requires joins ==> before != "" && before[|before| - 1] == ' ' && f[0] == ' '
    ensures var a, b := |before|, |next|;
            && a <= b <= |block|
            && if joins then 0 < a && block[a - 1] == ' ' && f == " " + block[a..b] else block[a..b] == f
  {
    var a, b := |before|, |next|;
    Cancel(block, a, b, Continued(f, joins));
    if joins { assert f == [f[0]] + f[1..]; }
  }

  lemma {:induction false} MarkStep(sources: seq<Segment>, text: string, j: nat)
    requires SameFold(sources, text) && j < |sources| && sources[j].text != ""
    ensures var block, f, a, b := Folded(text), Folded(sources[j].text), Mark(sources, j), Mark(sources, j + 1);
            && f != "" && a <= b <= |block|
            && (if JoinsRun(Spelled(sources, j), sources[j].text)
                then 0 < a && block[a - 1] == ' ' && f == " " + block[a..b]
                else block[a..b] == f)
  {
    hide Folded, IsSpace, Continued, SameFold;
    var before, next := Spelled(sources, j), sources[j].text;
    MarksGrow(sources, text, j);
    MarksGrow(sources, text, j + 1);
    FoldedConcat(before, next);
    EndsOfFold(next);
    if before != "" { EndsOfFold(before); }
    FoldStretch(Folded(text), Folded(before), Folded(next), Folded(before + next), JoinsRun(before, next));
  }

  lemma {:induction false} LandsNext(block: string, a: nat, b: nat, f: string, joins: bool)
    requires f != "" && a <= b <= |block|
    requires if joins then 0 < a && block[a - 1] == ' ' && f == " " + block[a..b] else block[a..b] == f
    ensures Lands(block, a, Span(a, b), f) || (joins && f == " ")
  {
    assert block[a..a] == "";
  }

  lemma {:induction false} BlankFolds(t: string)
    requires t != ""
    ensures Folded(t) == " " <==> Blank(t)
  {
    BlankFold(t, |t|);
    assert t[..|t|] == t;
  }

  /** A segment that adds to the fold lands where the fold says. */
  lemma {:induction false} MarkLands(sources: seq<Segment>, text: string, j: nat)
    requires SameFold(sources, text) && j < |sources| && sources[j].text != "" && !Redundant(sources, j)
    ensures Arrives(Folded(text), Marks(sources), j, Folded(sources[j].text))
  {
    MarkStep(sources, text, j);
    MarksAt(sources, j);
    BlankFolds(sources[j].text);
    assert !(Blank(sources[j].text) && JoinsRun(Spelled(sources, j), sources[j].text));
    hide Folded, IsSpace, Mark, Marks, Spelled, EndBefore, Blank, JoinsRun, Lands, Redundant, SameFold;
    var joins := JoinsRun(Spelled(sources, j), sources[j].text);
    LandsNext(Folded(text), Mark(sources, j), Mark(sources, j + 1), Folded(sources[j].text), joins);
  }

  /** As far as every segment adds to the fold, the walk puts each where the fold says. */
  lemma {:induction false} MarksAreWalked(sources: seq<Segment>, text: string, j: nat)
    requires SameFold(sources, text) && j <= |sources|
    requires forall i | 0 <= i < |sources| :: sources[i].text != ""
    requires forall i | 0 <= i < j :: !Redundant(sources, i)
    ensures WalkTo(Folded(text), Folds(sources), j).Walked?
    ensures WalkTo(Folded(text), Folds(sources), j).placements == Marks(sources)[..j]
    ensures WalkTo(Folded(text), Folds(sources), j).pos == Mark(sources, j)
  {
    FoldIsSingleSpaced(text);
    FoldsInked(sources);
    MarksAt(sources, j);
    hide SameFold, Redundant, Folded, SingleSpaced, Arrives, Mark, Marks, WalkTo, EndBefore;
    forall i | 0 <= i < j ensures Arrives(Folded(text), Marks(sources), i, Folds(sources)[i]) {
      MarkLands(sources, text, i);
    }
    WalkFinds(Folded(text), Folds(sources), Marks(sources), j);
  }

  /** A segment that adds nothing is absorbed, and the transcript with it. */
  lemma {:induction false} RedundantFails(sources: seq<Segment>, text: string, j: nat)
    requires SameFold(sources, text) && j < |sources| && Redundant(sources, j)
    requires forall i | 0 <= i < |sources| :: sources[i].text != ""
    ensures Align(Folded(text), sources).Misplaced?
  {
    hide Redundant, SameFold, Folded, Align, WalkTo, Folds;
    if i :| 0 <= i < j && Redundant(sources, i) {
      RedundantFails(sources, text, i);
    } else {
      MarksAreWalked(sources, text, j);
      SpaceIsAbsorbed(sources, text, j);
      StuckFails(Folded(text), sources, j + 1);
    }
  }

  lemma {:induction false} StuckFails(block: string, segments: seq<Segment>, k: nat)
    requires k <= |segments| && WalkTo(block, Folds(segments), k).Stuck?
    ensures Align(block, segments).Misplaced?
  {
    StuckMisplaces(block, segments, k);
  }

  lemma {:induction false} SpaceIsAbsorbed(sources: seq<Segment>, text: string, j: nat)
    requires SameFold(sources, text) && j < |sources| && Redundant(sources, j) && sources[j].text != ""
    requires WalkTo(Folded(text), Folds(sources), j).Walked?
    requires WalkTo(Folded(text), Folds(sources), j).pos == Mark(sources, j)
    ensures WalkTo(Folded(text), Folds(sources), j + 1).Stuck?
  {
    FoldIsSingleSpaced(text);
    MarkStep(sources, text, j);
    BlankFolds(sources[j].text);
    hide SameFold, Folded, SingleSpaced, Mark, Spelled, Blank, JoinsRun, WalkTo;
    Absorbed(Folded(text), Folds(sources), j);
  }

  lemma {:induction false} Absorbed(block: string, folds: seq<string>, k: nat)
    requires SingleSpaced(block) && k < |folds| && folds[k] == " " && WalkTo(block, folds, k).Walked?
    requires var pos := WalkTo(block, folds, k).pos; pos > 0 && block[pos - 1] == ' '
    ensures WalkTo(block, folds, k + 1).Stuck?
  {
    var pos := WalkTo(block, folds, k).pos;
    hide SkipSpaces, CommonPrefix, IsSpace;
    StartsAs(block, " ", pos);
    assert pos < |block| ==> !(block[pos - 1] == ' ' && block[pos - 1 + 1] == ' ');
    assert block[pos..pos] == "";
  }

  // ---------------------------------------------------------------------
  // The theorem
  // ---------------------------------------------------------------------

  /** Ranges that meet, and reach the end of the block, are left as they are. */
  lemma {:induction false} TightAligns(block: string, segments: seq<Segment>, w: Walk)
    requires w == WalkTo(block, Folds(segments), |segments|) && w.Walked? && |w.placements| == |segments|
    requires w.pos == |block| == EndBefore(w.placements, |segments|)
    requires forall i | 0 <= i < |segments| :: w.placements[i].start == EndBefore(w.placements, i)
    ensures Align(block, segments).Placements? && Align(block, segments).placements == w.placements
  {
    hide WalkTo, Folds;
    PlaceFits(block, segments);
    assert block[|block|..] == "";
    var p := Place(block, segments);
    assert p.placements == w.placements;
    forall i | 0 <= i < |p.gaps| ensures p.gaps[i].start == p.gaps[i].end {
      assert p.gaps[i] == Span(EndBefore(p.placements, i), StartFrom(p.placements, |block|, i));
    }
    forall i | 0 <= i < |segments| ensures Claimed(p.placements, |block|, i, |p.gaps|) == p.placements[i] {
      if i + 1 < |segments| { assert p.placements[i + 1].start == EndBefore(p.placements, i + 1); }
    }
  }

  lemma {:induction false} MarksAlign(sources: seq<Segment>, text: string)
    requires SameFold(sources, text)
    requires forall i | 0 <= i < |sources| :: sources[i].text != "" && !Redundant(sources, i)
    ensures Align(Folded(text), sources).Placements? && Align(Folded(text), sources).placements == Marks(sources)
  {
    var n := |sources|;
    MarksAreWalked(sources, text, n);
    forall j | 0 <= j <= n ensures j < n ==> Marks(sources)[j].start == EndBefore(Marks(sources), j) {
      MarksAt(sources, j);
    }
    MarksAt(sources, n);
    assert Marks(sources)[..n] == Marks(sources);
    assert Mark(sources, n) == |Folded(text)|;
    hide SameFold, Redundant, Folded, Spelled, WalkTo, Mark, Marks, Align;
    TightAligns(Folded(text), sources, WalkTo(Folded(text), Folds(sources), n));
  }

  /** Segment `j`'s range of the block's own text: what comes before it folds to what the segments before
      it fold to, what it ends on to those and itself, and neither end cuts a whitespace run. */
  predicate MeetsFolds(sources: seq<Segment>, text: string, j: nat, span: Span)
    requires j < |sources|
  {
    && CleanCut(text, span.start) && FoldTo(text, span.start) == Folded(Spelled(sources, j))
    && CleanCut(text, span.end) && FoldTo(text, span.end) == Folded(Spelled(sources, j + 1))
  }

  lemma {:induction false} RangeProjects(m: FoldMap, text: string, r: Span)
    requires Maps(m, text) && r.start < r.end <= |m.folded|
    ensures var s := TrueSpan(m, text, r);
            && CleanCut(text, s.start) && FoldTo(text, s.start) == m.folded[..r.start]
            && CleanCut(text, s.end) && FoldTo(text, s.end) == m.folded[..r.end]
  {
    ProjectedSpan(m, text, r);
    SourceCutFolds(m, text, r.start);
    SourceCutFolds(m, text, r.end);
  }

  lemma {:induction false} MarkFolds(sources: seq<Segment>, text: string, j: nat)
    requires SameFold(sources, text) && j < |sources|
    ensures var r := Marks(sources)[j];
            && r.start <= |Folded(text)| && Folded(Spelled(sources, j)) == Folded(text)[..r.start]
            && r.end <= |Folded(text)| && Folded(Spelled(sources, j + 1)) == Folded(text)[..r.end]
  {
    MarksGrow(sources, text, j);
    MarksGrow(sources, text, j + 1);
    hide Folded, Spelled;
  }

  lemma {:induction false} MarkProjects(segments: seq<Segment>, text: string, j: nat)
    requires NonEmptyTexts(segments) && SameFold(Sources(segments), text) && j < |Sources(segments)|
    requires Align(FoldMapOf(text).folded, Sources(segments)).Placements?
    requires Align(FoldMapOf(text).folded, Sources(segments)).placements == Marks(Sources(segments))
    ensures MeetsFolds(Sources(segments), text, j, SourceSpans(segments, text)[j])
  {
    var m := FoldMapOf(text);
    MapToMaps(text, |text|);
    AlignedBounds(m.folded, segments);
    MarkFolds(Sources(segments), text, j);
    hide SameFold, Folded, Spelled, MapsTo, Align;
    SpanFoldsTo(m, text, segments, j);
    RangeProjects(m, text, Marks(Sources(segments))[j]);
  }

  lemma {:induction false} NothingToRead(segments: seq<Segment>, text: string)
    requires SameFold(Sources(segments), text) && Sources(segments) == []
    ensures text == ""
  {
    if text != "" { FoldedEnds(text, |text|); }
  }

  /** Completeness up to whitespace, exactly: a transcript that edits a block, and whose keeps and deletes
      fold to what the block folds to, is proven just when none of them is whitespace that only goes on
      the whitespace before it; and then its spans meet where the folds do. */
  lemma {:induction false} SameFoldIsProven(segments: seq<Segment>, text: string)
    requires NonEmptyTexts(segments) && !AllKeeps(segments) && SameFold(Sources(segments), text)
    ensures Prove(segments, text).Proven?
      <==> (forall j | 0 <= j < |Sources(segments)| :: !Redundant(Sources(segments), j))
    ensures Prove(segments, text).Proven? ==>
      forall j | 0 <= j < |Sources(segments)| ::
        MeetsFolds(Sources(segments), text, j, SourceSpans(segments, text)[j])
  {
    var sources := Sources(segments);
    MapToMaps(text, |text|);
    SourceFoldsNonEmpty(segments);
    hide SameFold, Redundant, MeetsFolds, Folded, Align;
    if j :| 0 <= j < |sources| && Redundant(sources, j) {
      RedundantFails(sources, text, j);
    } else {
      MarksAlign(sources, text);
      ReconstructionCheck(segments, text);
      if sources == [] { NothingToRead(segments, text); }
      forall j | 0 <= j < |sources| ensures MeetsFolds(sources, text, j, SourceSpans(segments, text)[j]) {
        MarkProjects(segments, text, j);
      }
    }
  }

}
