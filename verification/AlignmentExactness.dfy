/** Exactly which transcripts align: the walk takes no decision of its own, it finds the one arrangement there is. */
module AlignmentExactness {
  import opened Prelude
  import opened TextFold
  import opened Alignment
  import opened AlignmentSoundness

  /** A segment's range, when what comes before it ends at `from`: the range reads the segment, past
      whitespace nobody wrote; or less its first space, which is the one the range before ends in. */
  predicate Lands(block: string, from: nat, span: Span, f: string) {
    && from <= span.start < span.end <= |block|
    && ((Blank(block[from..span.start]) && block[span.start..span.end] == f)
        || (0 < from == span.start && block[from - 1] == ' ' && f == " " + block[span.start..span.end]))
  }

  predicate Arrives(block: string, spans: seq<Span>, i: nat, f: string)
    requires i < |spans|
  {
    Lands(block, EndBefore(spans, i), spans[i], f)
  }

  /** The ranges take the segments in order, and every character of the block falls to a segment: a gap
      between a keep and a delete falls to neither, and unread text at the end to a final keep alone. */
  predicate Arranged(block: string, segments: seq<Segment>, spans: seq<Span>) {
    && |spans| == |segments|
    && (forall i | 0 <= i < |segments| :: Arrives(block, spans, i, Folded(segments[i].text)))
    && (forall i | 0 < i < |segments| ::
          spans[i].start == EndBefore(spans, i) || segments[i - 1].op == segments[i].op)
    && Rests(block, segments, EndBefore(spans, |spans|))
  }

  predicate Rests(block: string, segments: seq<Segment>, end: nat) {
    end <= |block| && (Blank(block[end..]) || (segments != [] && segments[|segments| - 1].op == Keep))
  }

  /** Whitespace as a folded text has it: single ASCII spaces. */
  predicate SingleSpaced(block: string) {
    && (forall k | 0 <= k < |block| :: IsSpace(block[k]) <==> block[k] == ' ')
    && (forall k | 0 <= k < |block| - 1 :: !(block[k] == ' ' && block[k + 1] == ' '))
  }

  // ---------------------------------------------------------------------
  // One segment
  // ---------------------------------------------------------------------

  lemma {:induction false} GapIsOneSpace(block: string, from: nat, start: nat)
    requires SingleSpaced(block) && from < start <= |block| && Blank(block[from..start])
    ensures start == from + 1 && block[from] == ' '
    ensures start < |block| ==> SkipSpaces(block, from) == start
  {
    hide IsSpace;
    forall k | from <= k < start ensures block[k] == ' ' {
      assert block[from..start][k - from] == block[k];
    }
    assert from + 1 < |block| ==> !(block[from] == ' ' && block[from + 1] == ' ');
    if start < |block| { assert SkipSpaces(block, from) == SkipSpaces(block, start); }
  }

  lemma {:induction false} StartsAs(block: string, f: string, at: nat)
    requires f != ""
    ensures StartsWithAt(block, f, at) ==> at < |block| && block[at] == f[0]
  {
    assert at + |f| <= |block| ==> block[at..at + |f|][0] == block[at];
  }

  lemma {:induction false} LandsAsPlaced(block: string, pos: nat, f: string, span: Span)
    requires SingleSpaced(block) && pos <= |block| && f != "" && Lands(block, pos, span, f)
    ensures PlaceOne(block, pos, f) == PlacedAt(span.start, span.end - span.start)
  {
    hide IsSpace, CommonPrefix;
    StartsAs(block, f, pos);
    if block[span.start..span.end] != f {
      assert f[1..] == block[span.start..span.end] && f[0] == ' ';
      assert StartsWithAt(block, f[1..], pos);
    } else {
      assert block[span.start..span.end][0] == block[span.start];
      assert StartsWithAt(block, f, span.start);
      if pos < span.start { GapIsOneSpace(block, pos, span.start); }
    }
  }

  lemma {:induction false} PlacedLands(block: string, pos: nat, f: string)
    requires pos <= |block| && f != "" && PlaceOne(block, pos, f).PlacedAt?
    ensures var p := PlaceOne(block, pos, f); Lands(block, pos, Span(p.at, p.at + p.len), f)
  {
    hide CommonPrefix;
    PlaceOneReads(block, pos, f);
    if !StartsWithAt(block, f, pos) && Retranscribes(block, pos, f) { assert f == " " + f[1..]; }
  }

  /** A segment lands wherever it can: there is one such range, or none. */
  lemma {:induction false} PlaceOneFinds(block: string, pos: nat, f: string, span: Span)
    requires SingleSpaced(block) && pos <= |block| && f != ""
    ensures Lands(block, pos, span, f)
      <==> (var p := PlaceOne(block, pos, f); p.PlacedAt? && span == Span(p.at, p.at + p.len))
  {
    hide PlaceOne;
    if Lands(block, pos, span, f) { LandsAsPlaced(block, pos, f, span); }
    if PlaceOne(block, pos, f).PlacedAt? { PlacedLands(block, pos, f); }
  }

  /** Where the walk may try a segment: at the cursor, or past the space there. */
  predicate Candidate(block: string, pos: nat, at: nat) {
    at == pos || (at == pos + 1 && pos < |block| && block[pos] == ' ')
  }

  lemma {:induction false} CommonPrefixLongest(left: string, right: string, n: nat)
    requires n <= |right|
    ensures StartsWithAt(left, right[..n], 0) <==> n <= CommonPrefix(left, right)
  {
    var c := CommonPrefix(left, right);
    if n <= |left| {
      assert left[0..n] == left[..n];
      if n <= c {
        assert left[..n] == left[..c][..n] && right[..n] == right[..c][..n];
      } else {
        assert left[..n][c] == left[c] && right[..n][c] == right[c];
      }
    }
  }

  lemma {:induction false} ReadsOn(block: string, at: nat, f: string, n: nat)
    requires at <= |block| && n <= |f|
    ensures StartsWithAt(block, f[..n], at) <==> n <= CommonPrefix(block[at..], f)
  {
    CommonPrefixLongest(block[at..], f, n);
    if at + n <= |block| { assert block[at..][0..n] == block[at..at + n]; }
  }

  /** A segment that lands nowhere is reported where the block reads on with most of it: no candidate
      start reads further, and the cursor itself is preferred. */
  lemma {:induction false} DivergesFurthest(block: string, pos: nat, f: string)
    requires SingleSpaced(block) && pos <= |block| && PlaceOne(block, pos, f).Diverges?
    ensures var p := PlaceOne(block, pos, f);
            && p.transcriptOffset <= |f| && p.transcriptOffset <= p.blockOffset
            && var at, read := p.blockOffset - p.transcriptOffset, p.transcriptOffset;
            && Candidate(block, pos, at) && StartsWithAt(block, f[..read], at)
            && (forall other, n | Candidate(block, pos, other) && 0 <= n <= |f| && StartsWithAt(block, f[..n], other) ::
                  n < read || (n == read && (at == pos || other == at)))
  {
    hide IsSpace;
    var p := PlaceOne(block, pos, f);
    var skipped := SkipSpaces(block, pos);
    if skipped > pos {
      assert skipped == pos + 1 by {
        if pos + 1 < |block| { assert SkipSpaces(block, pos) == SkipSpaces(block, pos + 1); }
      }
    }
    var at, read := p.blockOffset - p.transcriptOffset, p.transcriptOffset;
    ReadsOn(block, at, f, read);
    forall other, n | Candidate(block, pos, other) && 0 <= n <= |f| && StartsWithAt(block, f[..n], other)
      ensures n < read || (n == read && (at == pos || other == at))
    {
      ReadsOn(block, other, f, n);
    }
  }

  // ---------------------------------------------------------------------
  // The whole transcript
  // ---------------------------------------------------------------------

  /** The ranges of an arrangement of the first `k` segments. */
  predicate ArrivedTo(block: string, folds: seq<string>, spans: seq<Span>, k: nat)
    requires k <= |folds| == |spans|
  {
    forall i | 0 <= i < k :: Arrives(block, spans, i, folds[i])
  }

  lemma {:induction false} LandsBounded(block: string, from: nat, span: Span, f: string)
    requires Lands(block, from, span, f)
    ensures from <= span.start < span.end <= |block|
  {
  }

  lemma {:induction false} WalkStep(block: string, folds: seq<string>, k: nat, span: Span)
    requires k < |folds| && WalkTo(block, folds, k).Walked? && span.start <= span.end
    requires PlaceOne(block, WalkTo(block, folds, k).pos, folds[k]) == PlacedAt(span.start, span.end - span.start)
    ensures var w, next := WalkTo(block, folds, k), WalkTo(block, folds, k + 1);
            next.Walked? && next.placements == w.placements + [span] && next.pos == span.end
  {
    hide PlaceOne;
  }

  /** Wherever the first `k` segments can be arranged, the walk arranges them so. */
  lemma {:induction false} WalkFinds(block: string, folds: seq<string>, spans: seq<Span>, k: nat)
    requires SingleSpaced(block) && (forall i | 0 <= i < |folds| :: folds[i] != "")
    requires k <= |folds| == |spans| && ArrivedTo(block, folds, spans, k)
    ensures WalkTo(block, folds, k).Walked? && WalkTo(block, folds, k).placements == spans[..k]
    ensures WalkTo(block, folds, k).pos == EndBefore(spans, k)
  {
    hide Arrives, SingleSpaced;
    assert WalkTo(block, folds, 0) == Walked([], [], 0) && spans[..0] == [];
    hide WalkTo;
    if k > 0 {
      WalkFinds(block, folds, spans, k - 1);
      FindsNext(block, folds, spans, k - 1);
    }
  }

  lemma {:induction false} FindsNext(block: string, folds: seq<string>, spans: seq<Span>, k: nat)
    requires SingleSpaced(block) && k < |folds| == |spans| && folds[k] != "" && Arrives(block, spans, k, folds[k])
    requires WalkTo(block, folds, k).Walked? && WalkTo(block, folds, k).placements == spans[..k]
    requires WalkTo(block, folds, k).pos == EndBefore(spans, k)
    ensures WalkTo(block, folds, k + 1).Walked? && WalkTo(block, folds, k + 1).placements == spans[..k + 1]
    ensures WalkTo(block, folds, k + 1).pos == EndBefore(spans, k + 1)
  {
    hide WalkTo, PlaceOne, SingleSpaced, Lands;
    LandsBounded(block, EndBefore(spans, k), spans[k], folds[k]);
    LandsAsPlaced(block, EndBefore(spans, k), folds[k], spans[k]);
    WalkStep(block, folds, k, spans[k]);
    assert spans[..k + 1] == spans[..k] + [spans[k]];
  }

  /** What the walk arranges is an arrangement. */
  lemma {:induction false} WalkLands(block: string, folds: seq<string>, k: nat)
    requires SingleSpaced(block) && (forall i | 0 <= i < |folds| :: folds[i] != "")
    requires k <= |folds| && WalkTo(block, folds, k).Walked?
    ensures var w := WalkTo(block, folds, k);
            && |w.placements| == k && w.pos == EndBefore(w.placements, k)
            && forall i | 0 <= i < k :: Arrives(block, w.placements, i, folds[i])
  {
    WalkLength(block, folds, k);
    if k > 0 {
      WalkLands(block, folds, k - 1);
      var v, w := WalkTo(block, folds, k - 1), WalkTo(block, folds, k);
      WalkLength(block, folds, k - 1);
      PlaceOneFinds(block, v.pos, folds[k - 1], w.placements[k - 1]);
      forall i | 0 <= i < k ensures Arrives(block, w.placements, i, folds[i]) {
        if i < k - 1 { assert w.placements[i] == v.placements[i]; }
      }
    }
  }

  /** The source segments align exactly when there is an arrangement of them. */
  lemma {:induction false} AlignsExactly(block: string, segments: seq<Segment>)
    requires SingleSpaced(block) && forall i | 0 <= i < |segments| :: segments[i].text != ""
    ensures Align(block, segments).Placements? <==> exists spans :: Arranged(block, segments, spans)
  {
    if Align(block, segments).Placements? {
      AlignedIsArranged(block, segments);
    }
    if spans :| Arranged(block, segments, spans) {
      ArrangedAligns(block, segments, spans);
    }
  }

  lemma {:induction false} FoldsInked(segments: seq<Segment>)
    requires forall i | 0 <= i < |segments| :: segments[i].text != ""
    ensures forall i | 0 <= i < |segments| :: Folds(segments)[i] == Folded(segments[i].text) != ""
  {
    forall i | 0 <= i < |segments| ensures Folds(segments)[i] != "" {
      FoldedEnds(segments[i].text, |segments[i].text|);
    }
  }

  /** What the walk leaves to `Finish` and `Resolve`: its ranges, whatever they do about the tail. */
  lemma {:induction false} AlignsFrom(block: string, segments: seq<Segment>, w: Walk)
    requires w == WalkTo(block, Folds(segments), |segments|) && w.Walked? && |w.placements| == |segments|
    requires w.pos == EndBefore(w.placements, |segments|) <= |block|
    ensures Align(block, segments).Placements?
      <==> (Rests(block, segments, w.pos)
            && forall i | 0 < i < |segments| ::
              w.placements[i].start == EndBefore(w.placements, i) || segments[i - 1].op == segments[i].op)
  {
    hide WalkTo, IsSpace, Folds;
    PlaceFits(block, segments);
    var p := Place(block, segments);
    if p.Placements? {
      forall i | 0 < i < |segments|
        ensures Disputed(segments, p.gaps, i)
          <==> w.placements[i].start != EndBefore(w.placements, i) && segments[i - 1].op != segments[i].op
      {
        assert p.gaps[i] == Span(EndBefore(p.placements, i), StartFrom(p.placements, |block|, i));
      }
    }
  }

  lemma {:induction false} AlignedIsArranged(block: string, segments: seq<Segment>)
    requires SingleSpaced(block) && forall i | 0 <= i < |segments| :: segments[i].text != ""
    requires Align(block, segments).Placements?
    ensures WalkTo(block, Folds(segments), |segments|).Walked?
    ensures Arranged(block, segments, WalkTo(block, Folds(segments), |segments|).placements)
  {
    hide WalkTo, Arrives, SingleSpaced, Folded, Rests;
    FoldsInked(segments);
    WalkLands(block, Folds(segments), |segments|);
    AlignsFrom(block, segments, WalkTo(block, Folds(segments), |segments|));
    hide Align, Place, Finish, Resolve;
  }

  /** An arrangement is found, and its ranges are where the walk puts the segments. */
  lemma {:induction false} ArrangedAligns(block: string, segments: seq<Segment>, spans: seq<Span>)
    requires SingleSpaced(block) && forall i | 0 <= i < |segments| :: segments[i].text != ""
    requires Arranged(block, segments, spans)
    ensures Align(block, segments).Placements?
    ensures WalkTo(block, Folds(segments), |segments|).Walked?
    ensures spans == WalkTo(block, Folds(segments), |segments|).placements
  {
    hide WalkTo, Arrives, SingleSpaced, Folded, Align;
    FoldsInked(segments);
    WalkFinds(block, Folds(segments), spans, |segments|);
    assert spans[..|segments|] == spans;
    AlignsFrom(block, segments, WalkTo(block, Folds(segments), |segments|));
  }
}
