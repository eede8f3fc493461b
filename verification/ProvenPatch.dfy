/** Proving one block patch (`scripts/block_transcript.py`, `_prove_patch`): shape, alignment,
    projection back onto the block's real text, and the accept-all text that results. */
module ProvenPatch {
  import opened Prelude
  import opened TextFold
  import opened Alignment
  import opened AlignmentSoundness
  import opened SegmentShape

  /** One op of a proven patch; every offset indexes the block's real text. */
  datatype ProvenOp =
    | KeepOp(start: nat, end: nat, text: string)
    | DeleteOp(start: nat, end: nat, text: string, issueKey: string)
    | InsertOp(at: nat, text: string, issueKey: string)

  datatype Proof =
    | Proven(ops: seq<ProvenOp>, finalText: string)
    | Refused(failure: Failure)

  // ---------------------------------------------------------------------
  // The keep/delete half
  // ---------------------------------------------------------------------

  /** The keep and delete segments among the first `k`. */
  function SourcesTo(segments: seq<Segment>, k: nat): seq<Segment>
    requires k <= |segments|
  {
    if k == 0 then []
    else SourcesTo(segments, k - 1) + (if segments[k - 1].op == Insert then [] else [segments[k - 1]])
  }

  function Sources(segments: seq<Segment>): seq<Segment> {
    SourcesTo(segments, |segments|)
  }

  /** A source segment's position among the source segments. */
  function SourceIndex(segments: seq<Segment>, k: nat): nat
    requires k <= |segments|
  {
    |SourcesTo(segments, k)|
  }

  lemma {:induction false} SourceAt(segments: seq<Segment>, k: nat, n: nat)
    requires k < n <= |segments| && segments[k].op != Insert
    ensures SourceIndex(segments, k) < |SourcesTo(segments, n)|
    ensures SourcesTo(segments, n)[SourceIndex(segments, k)] == segments[k]
    decreases n
  {
    if k < n - 1 { SourceAt(segments, k, n - 1); }
  }

  lemma {:induction false} SourcesMonotone(segments: seq<Segment>, k: nat, n: nat)
    requires k <= n <= |segments|
    ensures SourceIndex(segments, k) <= SourceIndex(segments, n)
    decreases n
  {
    if k < n { SourcesMonotone(segments, k, n - 1); }
  }

  /** Where each source segment came from. */
  lemma {:induction false} SourceFrom(segments: seq<Segment>, j: nat, n: nat) returns (k: nat)
    requires n <= |segments| && j < |SourcesTo(segments, n)|
    ensures k < n && segments[k].op != Insert && SourceIndex(segments, k) == j
    ensures SourcesTo(segments, n)[j] == segments[k]
  {
    if j < SourceIndex(segments, n - 1) {
      k := SourceFrom(segments, j, n - 1);
    } else {
      k := n - 1;
    }
  }

  predicate NonEmptyTexts(segments: seq<Segment>) {
    forall i | 0 <= i < |segments| :: segments[i].text != ""
  }

  lemma {:induction false} SourceFoldsNonEmpty(segments: seq<Segment>)
    requires NonEmptyTexts(segments)
    ensures NonEmptyTexts(Sources(segments))
    ensures forall j | 0 <= j < |Sources(segments)| :: Folds(Sources(segments))[j] != ""
  {
    var sources := Sources(segments);
    forall j | 0 <= j < |sources|
      ensures sources[j].text != "" && Folds(sources)[j] != ""
    {
      var k := SourceFrom(segments, j, |segments|);
      FoldedEnds(sources[j].text, |sources[j].text|);
    }
  }

  // ---------------------------------------------------------------------
  // Projection
  // ---------------------------------------------------------------------

  /** A folded range as a range of the block's real text. */
  function TrueSpan(m: FoldMap, text: string, s: Span): Span
    requires s.start <= s.end <= |m.folded| == |m.starts| == |m.ends|
  {
    if s.end > s.start then Span(m.starts[s.start], m.ends[s.end - 1])
    else
      var at := if s.start < |m.starts| then m.starts[s.start] else |text|;
      Span(at, at)
  }

  predicate Bounded(spans: seq<Span>, n: nat) {
    forall i | 0 <= i < |spans| :: spans[i].start <= spans[i].end <= n
  }

  function TrueSpans(m: FoldMap, text: string, spans: seq<Span>): seq<Span>
    requires |m.folded| == |m.starts| == |m.ends| && Bounded(spans, |m.folded|)
  {
    seq(|spans|, i requires 0 <= i < |spans| => TrueSpan(m, text, spans[i]))
  }

  function RebuiltTo(text: string, spans: seq<Span>, k: nat): string
    requires k <= |spans| && Bounded(spans, |text|)
  {
    if k == 0 then "" else RebuiltTo(text, spans, k - 1) + text[spans[k - 1].start..spans[k - 1].end]
  }

  /** The folded ranges of a tiling, projected, tile the real text. */
  lemma {:induction false} ProjectionTiles(m: FoldMap, text: string, spans: seq<Span>)
    requires Maps(m, text) && spans != [] && Tiles(spans, |m.folded|) && Bounded(spans, |m.folded|)
    ensures Tiles(TrueSpans(m, text, spans), |text|) && Bounded(TrueSpans(m, text, spans), |text|)
  {
    var t := TrueSpans(m, text, spans);
    forall i | 0 <= i < |spans|
      ensures t[i].start < t[i].end == StartFrom(t, |text|, i + 1) <= |text|
    {
      ProjectedNeighbours(m, text, spans, i);
    }
    ProjectedSpan(m, text, spans[0]);
    SourceCutFolds(m, text, 0);
    assert StartFrom(spans, |m.folded|, 0) == 0;
  }

  lemma {:induction false} ProjectedNeighbours(m: FoldMap, text: string, spans: seq<Span>, i: nat)
    requires Maps(m, text) && Tiles(spans, |m.folded|) && Bounded(spans, |m.folded|) && i < |spans|
    ensures var t := TrueSpans(m, text, spans);
            t[i].start < t[i].end == StartFrom(t, |text|, i + 1) <= |text|
  {
    ProjectedSpan(m, text, spans[i]);
    assert spans[i].end == StartFrom(spans, |m.folded|, i + 1);
    if i + 1 < |spans| { ProjectedSpan(m, text, spans[i + 1]); }
  }

  lemma {:induction false} ProjectedSpan(m: FoldMap, text: string, s: Span)
    requires Maps(m, text) && s.start < s.end <= |m.folded|
    ensures TrueSpan(m, text, s) == Span(SourceCut(m, text, s.start), SourceCut(m, text, s.end))
    ensures TrueSpan(m, text, s).start < TrueSpan(m, text, s).end <= |text|
  {
    SourceCutFolds(m, text, s.end);
    SourceCutOrdered(m, text, s.start, s.end);
    SourceCutFolds(m, text, s.start);
  }

  /** Ranges that tile a text read back out of it in order give the text. */
  lemma {:induction false} TilesRebuild(text: string, spans: seq<Span>, k: nat)
    requires k <= |spans| && Tiles(spans, |text|) && Bounded(spans, |text|)
    ensures EndBefore(spans, k) <= |text| && RebuiltTo(text, spans, k) == text[..EndBefore(spans, k)]
  {
    if k > 0 {
      TilesRebuild(text, spans, k - 1);
      TilesMeet(spans, |text|, k - 1);
      JoinSlices(text, spans[k - 1].start, spans[k - 1].end);
    }
  }

  lemma {:induction false} JoinSlices(text: string, a: nat, b: nat)
    requires a <= b <= |text|
    ensures text[..a] + text[a..b] == text[..b]
  {
  }

  lemma {:induction false} TilesMeet(spans: seq<Span>, n: nat, i: nat)
    requires Tiles(spans, n) && i < |spans|
    ensures spans[i].start == EndBefore(spans, i)
  {
    if i > 0 { assert spans[i - 1].end == StartFrom(spans, n, i); }
  }

  // ---------------------------------------------------------------------
  // The proof
  // ---------------------------------------------------------------------

  /** The op segment `k` becomes: an insert sits where the source read so far ends. */
  function OpAt(segments: seq<Segment>, spans: seq<Span>, text: string, k: nat): ProvenOp
    requires k < |segments| && |spans| == |Sources(segments)| && Bounded(spans, |text|)
  {
    var s := segments[k];
    SourcesMonotone(segments, k, |segments|);
    if s.op == Insert then InsertOp(EndBefore(spans, SourceIndex(segments, k)), s.text, s.issueKey)
    else
      SourceAt(segments, k, |segments|);
      var span := spans[SourceIndex(segments, k)];
      if s.op == Keep then KeepOp(span.start, span.end, text[span.start..span.end])
      else DeleteOp(span.start, span.end, text[span.start..span.end], s.issueKey)
  }

  function OpsOf(segments: seq<Segment>, spans: seq<Span>, text: string): seq<ProvenOp>
    requires |spans| == |Sources(segments)| && Bounded(spans, |text|)
  {
    seq(|segments|, k requires 0 <= k < |segments| => OpAt(segments, spans, text, k))
  }

  /** What an op contributes to the accepted text. */
  function AcceptedText(op: ProvenOp): string {
    if op.DeleteOp? then "" else op.text
  }

  /** The accepted text of `ops[k..]`. */
  function FinalFrom(ops: seq<ProvenOp>, k: nat): string
    requires k <= |ops|
    decreases |ops| - k
  {
    if k == |ops| then "" else AcceptedText(ops[k]) + FinalFrom(ops, k + 1)
  }

  predicate AllKeeps(segments: seq<Segment>) {
    forall i | 0 <= i < |segments| :: segments[i].op == Keep
  }

  /** The spans of an alignment of the source segments, projected; well defined because an
      alignment with a source segment tiles the block. */
  function SourceSpans(segments: seq<Segment>, text: string): (spans: seq<Span>)
    requires NonEmptyTexts(segments)
    requires Align(FoldMapOf(text).folded, Sources(segments)).Placements?
    ensures |spans| == |Sources(segments)| && Bounded(spans, |text|)
  {
    var m := FoldMapOf(text);
    MapToMaps(text, |text|);
    SourceFoldsNonEmpty(segments);
    if Sources(segments) == [] then []
    else
      AlignmentTiles(m.folded, Sources(segments));
      TilesBounded(Align(m.folded, Sources(segments)).placements, |m.folded|);
      ProjectionTiles(m, text, Align(m.folded, Sources(segments)).placements);
      TrueSpans(m, text, Align(m.folded, Sources(segments)).placements)
  }

  lemma {:induction false} TilesBounded(spans: seq<Span>, n: nat)
    requires Tiles(spans, n)
    ensures Bounded(spans, n)
  {
    forall i | 0 <= i < |spans| ensures spans[i].end <= n { TilesEnd(spans, n, i); }
  }

  lemma {:induction false} TilesEnd(spans: seq<Span>, n: nat, i: nat)
    requires Tiles(spans, n) && i < |spans|
    ensures spans[i].end <= n
    decreases |spans| - i
  {
    assert spans[i].end == StartFrom(spans, n, i + 1);
    if i + 1 < |spans| { TilesEnd(spans, n, i + 1); }
  }

  function Prove(segments: seq<Segment>, text: string): Proof
    requires NonEmptyTexts(segments)
  {
    if AllKeeps(segments) then Refused(Failure(NoEditSegments, |segments|, 0, 0))
    else
      match Align(FoldMapOf(text).folded, Sources(segments))
      case Misplaced(failure) => Refused(failure)
      case Placements(_, _) =>
        var spans := SourceSpans(segments, text);
        var rebuilt := RebuiltTo(text, spans, |spans|);
        if rebuilt != text then Refused(Failure(SourceMismatch, |segments|, CommonPrefix(rebuilt, text), 0))
        else
          var ops := OpsOf(segments, spans, text);
          Proven(ops, FinalFrom(ops, 0))
  }

  /** The reconstruction check can fire only for a transcript with no source segment at all,
      over a block of nothing but whitespace. */
  lemma {:induction false} ReconstructionCheck(segments: seq<Segment>, text: string)
    requires NonEmptyTexts(segments)
    requires Align(FoldMapOf(text).folded, Sources(segments)).Placements?
    ensures var spans := SourceSpans(segments, text);
            RebuiltTo(text, spans, |spans|) == text <==> Sources(segments) != [] || text == ""
  {
    var spans := SourceSpans(segments, text);
    if Sources(segments) != [] {
      SpansTile(segments, text);
      TilesRebuild(text, spans, |spans|);
      assert spans[|spans| - 1].end == StartFrom(spans, |text|, |spans|);
      assert text[..|text|] == text;
    }
  }

  /** Alignment soundness in real offsets: the true spans tile the block's own text. */
  lemma {:induction false} SpansTile(segments: seq<Segment>, text: string)
    requires NonEmptyTexts(segments) && Sources(segments) != []
    requires Align(FoldMapOf(text).folded, Sources(segments)).Placements?
    ensures Tiles(SourceSpans(segments, text), |text|)
  {
    var m := FoldMapOf(text);
    MapToMaps(text, |text|);
    SourceFoldsNonEmpty(segments);
    AlignmentTiles(m.folded, Sources(segments));
    TilesBounded(Align(m.folded, Sources(segments)).placements, |m.folded|);
    ProjectionTiles(m, text, Align(m.folded, Sources(segments)).placements);
  }

  /** `_prove_patch` on a raw segment list: refused for its shape, or proved as typed segments. */
  function ProveRaw(segments: Json, text: string): Proof {
    if !WellShaped(segments) then Refused(Failure(MalformedSegments, 0, 0, 0))
    else
      ShapeFacts(segments);
      Prove(SegmentsOf(segments), text)
  }

  /** `_prove_patch`. */
  method ProvePatch(rawSegments: Json, text: string) returns (proof: Proof)
    ensures proof == ProveRaw(rawSegments, text)
  {
    var problem := SegmentShapeError(rawSegments);
    if problem.Some? {
      return Refused(Failure(MalformedSegments, 0, 0, 0));
    }
    ShapeFacts(rawSegments);
    var segments := SegmentsOf(rawSegments);
    if forall i | 0 <= i < |segments| :: segments[i].op == Keep {
      return Refused(Failure(NoEditSegments, |segments|, 0, 0));
    }
    var m := FoldTextWithMap(text);
    var sources := Sources(segments);
    var placed := PlaceSourceSegments(m.folded, sources);
    if placed.Misplaced? {
      return Refused(placed.failure);
    }
    PlaceFits(m.folded, sources);
    var settled := ResolveGaps(sources, placed.placements, placed.gaps, |m.folded|);
    if settled.Misplaced? {
      return Refused(settled.failure);
    }
    var spans := ProjectSpans(m, text, segments, settled.placements);
    var rebuilt := Rebuild(text, spans);
    if rebuilt != text {
      var divergence := CommonPrefixLen(rebuilt, text);
      return Refused(Failure(SourceMismatch, |segments|, divergence, 0));
    }
    var ops := BuildOps(segments, spans, text);
    var finalText := JoinAccepted(ops);
    return Proven(ops, finalText);
  }

  /** The true spans of the settled placements. */
  method ProjectSpans(m: FoldMap, text: string, segments: seq<Segment>, placements: seq<Span>)
    returns (spans: seq<Span>)
    requires NonEmptyTexts(segments) && m == FoldMapOf(text) && Maps(m, text)
    requires Align(m.folded, Sources(segments)).Placements?
    requires placements == Align(m.folded, Sources(segments)).placements
    ensures spans == SourceSpans(segments, text)
  {
    AlignedBounds(m.folded, segments);
    spans := TrueSpans(m, text, placements);
  }

  lemma {:induction false} AlignedBounds(folded: string, segments: seq<Segment>)
    requires NonEmptyTexts(segments) && Align(folded, Sources(segments)).Placements?
    ensures Bounded(Align(folded, Sources(segments)).placements, |folded|)
    ensures |Align(folded, Sources(segments)).placements| == |Sources(segments)|
  {
    SourceFoldsNonEmpty(segments);
    PlaceFits(folded, Sources(segments));
    if Sources(segments) != [] {
      AlignmentTiles(folded, Sources(segments));
      TilesBounded(Align(folded, Sources(segments)).placements, |folded|);
    }
  }

  method Rebuild(text: string, spans: seq<Span>) returns (rebuilt: string)
    requires Bounded(spans, |text|)
    ensures rebuilt == RebuiltTo(text, spans, |spans|)
  {
    rebuilt := "";
    for i := 0 to |spans|
      invariant rebuilt == RebuiltTo(text, spans, i)
    {
      rebuilt := rebuilt + text[spans[i].start..spans[i].end];
    }
  }

  /** The ops loop: `cursor` is where the source read so far ends, `sourceIndex` the next span. */
  method BuildOps(segments: seq<Segment>, spans: seq<Span>, text: string) returns (ops: seq<ProvenOp>)
    requires |spans| == |Sources(segments)| && Bounded(spans, |text|)
    ensures ops == OpsOf(segments, spans, text)
  {
    ops := [];
    var cursor, sourceIndex := 0, 0;
    for k := 0 to |segments|
      invariant sourceIndex == SourceIndex(segments, k) <= |spans|
      invariant cursor == EndBefore(spans, sourceIndex)
      invariant |ops| == k && forall j | 0 <= j < k :: ops[j] == OpAt(segments, spans, text, j)
    {
      var segment := segments[k];
      SourcesMonotone(segments, k + 1, |segments|);
      if segment.op == Insert {
        ops := ops + [InsertOp(cursor, segment.text, segment.issueKey)];
      } else {
        SourceAt(segments, k, |segments|);
        var span := spans[sourceIndex];
        sourceIndex, cursor := sourceIndex + 1, span.end;
        ops := ops + [if segment.op == Keep then KeepOp(span.start, span.end, text[span.start..span.end])
                      else DeleteOp(span.start, span.end, text[span.start..span.end], segment.issueKey)];
      }
    }
  }

  method JoinAccepted(ops: seq<ProvenOp>) returns (finalText: string)
    ensures finalText == FinalFrom(ops, 0)
  {
    finalText := "";
    for k := 0 to |ops|
      invariant finalText + FinalFrom(ops, k) == FinalFrom(ops, 0)
    {
      assert finalText + (AcceptedText(ops[k]) + FinalFrom(ops, k + 1))
          == (finalText + AcceptedText(ops[k])) + FinalFrom(ops, k + 1);
      if !ops[k].DeleteOp? {
        finalText := finalText + ops[k].text;
      }
    }
  }
}
