/** A proven patch as an edit: applied at its offsets it makes the accepted text of the source text. */
module AppliedEdits {
  import opened Prelude
  import opened Alignment
  import opened AlignmentSoundness
  import opened ProvenPatch

  // ---------------------------------------------------------------------
  // What applying edits means, offset by offset
  // ---------------------------------------------------------------------

  /** The inserts of `ops[i..]` that go in at one offset, in their order. */
  function InsertedAt(ops: seq<ProvenOp>, i: nat, at: nat): string
    requires i <= |ops|
    decreases |ops| - i
  {
    if i == |ops| then ""
    else (if ops[i].InsertOp? && ops[i].at == at then ops[i].text else "") + InsertedAt(ops, i + 1, at)
  }

  /** A delete of `ops[i..]` covers the character at this offset. */
  predicate Struck(ops: seq<ProvenOp>, i: nat, at: nat)
    requires i <= |ops|
    decreases |ops| - i
  {
    i < |ops| && ((ops[i].DeleteOp? && ops[i].start <= at < ops[i].end) || Struck(ops, i + 1, at))
  }

  /** The source from `at` on, with the edits of `ops[i..]` applied. */
  function Applied(source: string, ops: seq<ProvenOp>, i: nat, at: nat): string
    requires i <= |ops| && at <= |source|
    decreases |source| - at
  {
    InsertedAt(ops, i, at) +
    if at == |source| then ""
    else (if Struck(ops, i, at) then "" else [source[at]]) + Applied(source, ops, i, at + 1)
  }

  // ---------------------------------------------------------------------
  // Ops that follow one another
  // ---------------------------------------------------------------------

  /** `ops[i..]` carry on from `cursor` to the end of the source: keeps and deletes cover it
      without a gap, inserts sit where the source read so far ends. */
  ghost predicate Follows(source: string, ops: seq<ProvenOp>, i: nat, cursor: nat)
    requires i <= |ops|
    decreases |ops| - i
  {
    if i == |ops| then cursor == |source|
    else
      match ops[i]
      case InsertOp(at, _, _) => at == cursor && Follows(source, ops, i + 1, cursor)
      case KeepOp(start, end, text) =>
        start == cursor < end <= |source| && text == source[start..end] && Follows(source, ops, i + 1, end)
      case DeleteOp(start, end, text, _) =>
        start == cursor < end <= |source| && text == source[start..end] && Follows(source, ops, i + 1, end)
  }

  function Position(op: ProvenOp): nat {
    if op.InsertOp? then op.at else op.start
  }

  /** Later ops never go back. */
  lemma {:induction false} FollowsForward(source: string, ops: seq<ProvenOp>, i: nat, cursor: nat, j: nat)
    requires i <= j < |ops| && Follows(source, ops, i, cursor)
    ensures cursor <= Position(ops[j]) <= |source|
    decreases |ops| - i
  {
    if i < j {
      FollowsForward(source, ops, i + 1, if ops[i].InsertOp? then cursor else ops[i].end, j);
    } else {
      FollowsInside(source, ops, i, cursor);
    }
  }

  lemma {:induction false} FollowsInside(source: string, ops: seq<ProvenOp>, i: nat, cursor: nat)
    requires i <= |ops| && Follows(source, ops, i, cursor)
    ensures cursor <= |source|
    decreases |ops| - i
  {
    if i < |ops| && ops[i].InsertOp? { FollowsInside(source, ops, i + 1, cursor); }
  }

  /** Nothing in `ops[i..]` touches an offset before their cursor. */
  lemma {:induction false} Untouched(source: string, ops: seq<ProvenOp>, i: nat, cursor: nat, at: nat)
    requires i <= |ops| && Follows(source, ops, i, cursor) && at < cursor
    ensures InsertedAt(ops, i, at) == "" && !Struck(ops, i, at)
    decreases |ops| - i
  {
    if i < |ops| {
      Untouched(source, ops, i + 1, if ops[i].InsertOp? then cursor else ops[i].end, at);
    }
  }

  /** The op edits nothing at `at` or after it. */
  predicate Behind(op: ProvenOp, at: nat) {
    match op
    case InsertOp(p, _, _) => p < at
    case DeleteOp(_, e, _, _) => e <= at
    case KeepOp(_, _, _) => true
  }

  /** An op behind `at` does not matter from `at` on. */
  lemma {:induction false} AppliedSkips(source: string, ops: seq<ProvenOp>, i: nat, at: nat)
    requires i < |ops| && at <= |source|
    requires Behind(ops[i], at)
    ensures Applied(source, ops, i, at) == Applied(source, ops, i + 1, at)
    decreases |source| - at
  {
    hide InsertedAt, Struck;
    SkipsHere(ops, i, at);
    if at < |source| { AppliedSkips(source, ops, i, at + 1); }
  }

  lemma {:induction false} SkipsHere(ops: seq<ProvenOp>, i: nat, at: nat)
    requires i < |ops|
    requires Behind(ops[i], at)
    ensures InsertedAt(ops, i, at) == InsertedAt(ops, i + 1, at) && Struck(ops, i, at) == Struck(ops, i + 1, at)
  {
  }

  /** A stretch no later op touches is emitted as it stands. */
  lemma {:induction false} AppliedKeeps(source: string, ops: seq<ProvenOp>, i: nat, at: nat, end: nat)
    requires i <= |ops| && at <= end <= |source| && Follows(source, ops, i, end)
    ensures Applied(source, ops, i, at) == source[at..end] + Applied(source, ops, i, end)
    decreases end - at
  {
    if at < end {
      Untouched(source, ops, i, end, at);
      AppliedKeeps(source, ops, i, at + 1, end);
      assert Applied(source, ops, i, at) == [source[at]] + Applied(source, ops, i, at + 1);
      SliceHead(source, at, end, Applied(source, ops, i, end));
    } else {
      assert source[at..end] == "";
    }
  }

  lemma {:induction false} SliceHead(source: string, at: nat, end: nat, rest: string)
    requires at < end <= |source|
    ensures [source[at]] + (source[at + 1..end] + rest) == source[at..end] + rest
  {
    assert source[at..end] == [source[at]] + source[at + 1..end];
  }

  /** A stretch op `i` deletes is dropped. */
  lemma {:induction false} AppliedDrops(source: string, ops: seq<ProvenOp>, i: nat, at: nat, end: nat)
    requires i < |ops| && ops[i].DeleteOp? && ops[i].start <= at <= end == ops[i].end <= |source|
    requires Follows(source, ops, i + 1, end)
    ensures Applied(source, ops, i, at) == Applied(source, ops, i, end)
    decreases end - at
  {
    if at < end {
      Untouched(source, ops, i + 1, end, at);
      AppliedDrops(source, ops, i, at + 1, end);
    }
  }

  lemma {:induction false} AppliedIsFinal(source: string, ops: seq<ProvenOp>, i: nat, cursor: nat)
    requires i <= |ops| && Follows(source, ops, i, cursor) && cursor <= |source|
    ensures Applied(source, ops, i, cursor) == FinalFrom(ops, i)
    decreases |ops| - i
  {
    if i < |ops| {
      match ops[i] {
        case InsertOp(at, text, _) =>
          AppliedIsFinal(source, ops, i + 1, cursor);
          AppliedInsert(source, ops, i, cursor);
        case KeepOp(start, end, text) =>
          AppliedIsFinal(source, ops, i + 1, end);
          AppliedSkips(source, ops, i, cursor);
          AppliedKeeps(source, ops, i + 1, cursor, end);
        case DeleteOp(start, end, text, _) =>
          AppliedIsFinal(source, ops, i + 1, end);
          AppliedDrops(source, ops, i, cursor, end);
          AppliedSkips(source, ops, i, end);
      }
    }
  }

  lemma {:induction false} AppliedInsert(source: string, ops: seq<ProvenOp>, i: nat, at: nat)
    requires i < |ops| && ops[i].InsertOp? && ops[i].at == at <= |source|
    ensures Applied(source, ops, i, at) == ops[i].text + Applied(source, ops, i + 1, at)
  {
    hide Applied, InsertedAt, Struck, After;
    InsertedHere(ops, i, at);
    AfterSkips(source, ops, i, at);
    AppliedIs(source, ops, i, at);
    AppliedIs(source, ops, i + 1, at);
    AppendAssociates(ops[i].text, InsertedAt(ops, i + 1, at), After(source, ops, i + 1, at));
  }

  /** What `Applied` emits behind the inserts at `at`. */
  function After(source: string, ops: seq<ProvenOp>, i: nat, at: nat): string
    requires i <= |ops| && at <= |source|
  {
    if at == |source| then ""
    else (if Struck(ops, i, at) then "" else [source[at]]) + Applied(source, ops, i, at + 1)
  }

  lemma {:induction false} AfterSkips(source: string, ops: seq<ProvenOp>, i: nat, at: nat)
    requires i < |ops| && ops[i].InsertOp? && ops[i].at == at <= |source|
    ensures After(source, ops, i, at) == After(source, ops, i + 1, at)
  {
    hide Applied, Struck;
    StruckSkips(ops, i, at);
    if at < |source| { AppliedSkips(source, ops, i, at + 1); }
  }

  lemma {:induction false} AppliedIs(source: string, ops: seq<ProvenOp>, i: nat, at: nat)
    requires i <= |ops| && at <= |source|
    ensures Applied(source, ops, i, at) == InsertedAt(ops, i, at) + After(source, ops, i, at)
  {
    hide InsertedAt, Struck;
  }

  lemma {:induction false} InsertedHere(ops: seq<ProvenOp>, i: nat, at: nat)
    requires i < |ops| && ops[i].InsertOp? && ops[i].at == at
    ensures InsertedAt(ops, i, at) == ops[i].text + InsertedAt(ops, i + 1, at)
  {
  }

  lemma {:induction false} StruckSkips(ops: seq<ProvenOp>, i: nat, at: nat)
    requires i < |ops| && ops[i].InsertOp?
    ensures Struck(ops, i, at) == Struck(ops, i + 1, at)
  {
  }

  // ---------------------------------------------------------------------
  // Proven patches
  // ---------------------------------------------------------------------

  /** Ops built over spans that tile the text follow one another. */
  lemma {:induction false} OpsFollow(segments: seq<Segment>, spans: seq<Span>, text: string, k: nat)
    requires |spans| == |Sources(segments)| && Bounded(spans, |text|) && k <= |segments|
    requires Tiles(spans, |text|)
    ensures SourceIndex(segments, k) <= |spans|
    ensures Follows(text, OpsOf(segments, spans, text), k, EndBefore(spans, SourceIndex(segments, k)))
    decreases |segments| - k
  {
    hide Tiles, Bounded, EndBefore;
    SourcesMonotone(segments, k, |segments|);
    if k == |segments| {
      LastEnd(spans, |text|);
    } else {
      OpsFollow(segments, spans, text, k + 1);
      OpContinues(segments, spans, text, k);
    }
  }

  /** Op `k` picks up at the cursor and leaves it where the next op expects it. */
  lemma {:induction false} OpContinues(segments: seq<Segment>, spans: seq<Span>, text: string, k: nat)
    requires |spans| == |Sources(segments)| && Bounded(spans, |text|) && k < |segments|
    requires Tiles(spans, |text|)
    ensures SourceIndex(segments, k) <= SourceIndex(segments, k + 1) <= |spans|
    ensures var cursor := EndBefore(spans, SourceIndex(segments, k));
            match OpsOf(segments, spans, text)[k]
            case InsertOp(at, _, _) => at == cursor && SourceIndex(segments, k + 1) == SourceIndex(segments, k)
            case KeepOp(a, e, t) =>
              a == cursor < e <= |text| && t == text[a..e] && e == EndBefore(spans, SourceIndex(segments, k + 1))
            case DeleteOp(a, e, t, _) =>
              a == cursor < e <= |text| && t == text[a..e] && e == EndBefore(spans, SourceIndex(segments, k + 1))
  {
    hide Tiles, Bounded;
    SourcesMonotone(segments, k + 1, |segments|);
    assert OpsOf(segments, spans, text)[k] == OpAt(segments, spans, text, k);
    if segments[k].op != Insert {
      var j := SourceIndex(segments, k);
      SourceAt(segments, k, |segments|);
      TilesMeet(spans, |text|, j);
      SpanInText(spans, text, j);
      assert EndBefore(spans, j + 1) == spans[j].end;
    }
  }

  lemma {:induction false} SpanInText(spans: seq<Span>, text: string, j: nat)
    requires Tiles(spans, |text|) && Bounded(spans, |text|) && j < |spans|
    ensures spans[j].start < spans[j].end <= |text|
  {
  }

  lemma {:induction false} LastEnd(spans: seq<Span>, n: nat)
    requires Tiles(spans, n)
    ensures EndBefore(spans, |spans|) == n
  {
    if spans != [] { assert spans[|spans| - 1].end == StartFrom(spans, n, |spans|); }
  }

  /** The ops of a proven patch follow one another from the start of the source to its end. */
  lemma {:induction false} ProvenFollows(segments: seq<Segment>, text: string, k: nat)
    requires NonEmptyTexts(segments) && Prove(segments, text).Proven? && k <= |segments|
    ensures var ops, spans := Prove(segments, text).ops, SourceSpans(segments, text);
            && |ops| == |segments| && SourceIndex(segments, k) <= |spans|
            && Follows(text, ops, k, EndBefore(spans, SourceIndex(segments, k)))
  {
    ReconstructionCheck(segments, text);
    if Sources(segments) != [] { SpansTile(segments, text); }
    OpsFollow(segments, SourceSpans(segments, text), text, k);
  }

  /** Applying a proven patch's ops to the block's own text gives exactly its `final_text`. */
  lemma {:induction false} ProvenOpsApply(segments: seq<Segment>, text: string)
    requires NonEmptyTexts(segments) && Prove(segments, text).Proven?
    ensures Applied(text, Prove(segments, text).ops, 0, 0) == Prove(segments, text).finalText
  {
    ProvenFollows(segments, text, 0);
    AppliedIsFinal(text, Prove(segments, text).ops, 0, 0);
  }

  /** The offsets of a proven patch's ops never decrease. */
  lemma {:induction false} ProvenOffsetsOrdered(segments: seq<Segment>, text: string, j: nat, k: nat)
    requires NonEmptyTexts(segments) && Prove(segments, text).Proven? && j < k < |segments|
    ensures |Prove(segments, text).ops| == |segments|
    ensures Position(Prove(segments, text).ops[j]) <= Position(Prove(segments, text).ops[k]) <= |text|
  {
    var ops := Prove(segments, text).ops;
    ProvenFollows(segments, text, j);
    ProvenFollows(segments, text, j + 1);
    FollowsForward(text, ops, j, EndBefore(SourceSpans(segments, text), SourceIndex(segments, j)), k);
  }
}
