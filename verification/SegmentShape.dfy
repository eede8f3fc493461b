/** The shape rules for a model-authored segment list (`scripts/block_transcript.py`,
    `_segment_shape_error`). Nothing here looks at a block's text: a list is refused for the form
    of its segments alone, for the first segment that breaks a rule and by the first rule it
    breaks. What the rules buy is what the alignment needs: texts that are not empty, edits that
    are attributed, and neighbours that could not have been one segment. */
module SegmentShape {
  import opened Prelude
  import opened Alignment

  datatype ShapeKind =
    | NotAList
    | NotAnObject
    | UnknownKeys
    | BadOp
    | BadText
    | KeepWithIssue
    | NoIssueKey
    | ConsecutiveKeeps
    | SameIssueTwice

  datatype ShapeProblem = ShapeProblem(kind: ShapeKind, index: nat)

  const SEGMENT_KEYS: set<string> := {"op", "text", "issue_key"}

  /** The op a segment names, when it names one of the three. */
  function OpNamed(name: Json): Option<Op> {
    if name == JStr("keep") then Some(Keep)
    else if name == JStr("delete") then Some(Delete)
    else if name == JStr("insert") then Some(Insert)
    else None
  }

  /** What is wrong with segment `i` itself. */
  function OwnProblem(segment: Json): Option<ShapeKind> {
    if !segment.JObj? then Some(NotAnObject)
    else if !(segment.fields.Keys <= SEGMENT_KEYS) then Some(UnknownKeys)
    else
      var op, text, issue := OpNamed(segment.Get("op")), segment.Get("text"), segment.Get("issue_key");
      if op.None? then Some(BadOp)
      else if !text.JStr? || text.text == "" then Some(BadText)
      else if op == Some(Keep) then (if issue != JNull then Some(KeepWithIssue) else None)
      else if !issue.JStr? || Blank(issue.text) then Some(NoIssueKey)
      else None
  }

  /** What is wrong with segment `i`, on its own or right after segment `i - 1`. */
  function ProblemAt(items: seq<Json>, i: nat): Option<ShapeKind>
    requires i < |items|
  {
    if OwnProblem(items[i]).Some? then OwnProblem(items[i])
    else if i > 0 && items[i - 1].Get("op") == items[i].Get("op") then
      if items[i].Get("op") == JStr("keep") then Some(ConsecutiveKeeps)
      else if items[i - 1].Get("issue_key") == items[i].Get("issue_key") then Some(SameIssueTwice)
      else None
    else None
  }

  predicate WellShaped(segments: Json) {
    segments.JList? && segments.items != [] &&
    forall i | 0 <= i < |segments.items| :: ProblemAt(segments.items, i).None?
  }

  /** `_segment_shape_error`: no problem exactly when every segment passes, and otherwise the
      first segment that does not. */
  method SegmentShapeError(segments: Json) returns (problem: Option<ShapeProblem>)
    ensures match problem
            case None => WellShaped(segments)
            case Some(p) =>
              if !segments.JList? || segments.items == [] then p == ShapeProblem(NotAList, 0)
              else
                && p.index < |segments.items| && ProblemAt(segments.items, p.index) == Some(p.kind)
                && forall j | 0 <= j < p.index :: ProblemAt(segments.items, j).None?
  {
    if !segments.JList? || segments.items == [] {
      return Some(ShapeProblem(NotAList, 0));
    }
    var previous: Option<Json> := None;
    for index := 0 to |segments.items|
      invariant previous == if index == 0 then None else Some(segments.items[index - 1])
      invariant forall j | 0 <= j < index :: ProblemAt(segments.items, j).None?
    {
      var segment := segments.items[index];
      var own := OwnProblem(segment);
      if own.Some? {
        return Some(ShapeProblem(own.value, index));
      }
      if previous.Some? && previous.value.Get("op") == segment.Get("op") {
        if segment.Get("op") == JStr("keep") {
          return Some(ShapeProblem(ConsecutiveKeeps, index));
        }
        if previous.value.Get("issue_key") == segment.Get("issue_key") {
          return Some(ShapeProblem(SameIssueTwice, index));
        }
      }
      previous := Some(segment);
    }
    return None;
  }

  /** A segment that passed the shape rules, as a typed record. */
  function SegmentOf(segment: Json): Segment
    requires OwnProblem(segment).None?
  {
    var issue := segment.Get("issue_key");
    Segment(OpNamed(segment.Get("op")).value, segment.Get("text").text,
            if issue.JStr? then issue.text else "")
  }

  function SegmentsOf(segments: Json): (r: seq<Segment>)
    requires WellShaped(segments)
  {
    seq(|segments.items|, i requires 0 <= i < |segments.items| => ShapeOwn(segments, i); SegmentOf(segments.items[i]))
  }

  lemma {:induction false} ShapeOwn(segments: Json, i: nat)
    requires WellShaped(segments) && i < |segments.items|
    ensures OwnProblem(segments.items[i]).None?
  {
    assert ProblemAt(segments.items, i).None?;
  }

  /** What the shape rules buy: texts are non-empty, edits are attributed, keeps are not, and
      neighbouring segments with one op are separate edits. */
  lemma {:induction false} ShapeFacts(segments: Json)
    requires WellShaped(segments)
    ensures SegmentsOf(segments) != []
    ensures forall i | 0 <= i < |SegmentsOf(segments)| :: SegmentsOf(segments)[i].text != ""
    ensures forall i | 0 <= i < |SegmentsOf(segments)| ::
      var s := SegmentsOf(segments)[i]; if s.op == Keep then s.issueKey == "" else !Blank(s.issueKey)
    ensures forall i | 0 <= i < |SegmentsOf(segments)| - 1 ::
      var s, t := SegmentsOf(segments)[i], SegmentsOf(segments)[i + 1];
      s.op == t.op ==> s.op != Keep && s.issueKey != t.issueKey
  {
    var r := SegmentsOf(segments);
    forall i | 0 <= i < |r|
      ensures r[i].text != "" && (if r[i].op == Keep then r[i].issueKey == "" else !Blank(r[i].issueKey))
    {
      ShapeOwn(segments, i);
    }
    forall i | 0 <= i < |r| - 1
      ensures r[i].op == r[i + 1].op ==> r[i].op != Keep && r[i].issueKey != r[i + 1].issueKey
    {
      ShapeOwn(segments, i);
      ShapeOwn(segments, i + 1);
      assert ProblemAt(segments.items, i + 1).None?;
    }
  }

  // ---------------------------------------------------------------------
  // Exactly the lists that spell segments
  // ---------------------------------------------------------------------

  /** The JSON is the segment: an op, a text, and an issue exactly when it is an edit; nothing else. */
  ghost predicate Spells(item: Json, s: Segment) {
    && item.JObj? && (forall field | field in item.fields :: field in ["op", "text", "issue_key"])
    && item.Get("op") == JStr(match s.op case Keep => "keep" case Delete => "delete" case Insert => "insert")
    && item.Get("text") == JStr(s.text) && s.text != ""
    && if s.op == Keep then item.Get("issue_key") == JNull && s.issueKey == ""
       else item.Get("issue_key") == JStr(s.issueKey) && !Blank(s.issueKey)
  }

  /** Two segments that could have been one: keeps, or edits of one kind for one issue. */
  predicate Mergeable(s: Segment, t: Segment) {
    s.op == t.op && (s.op == Keep || s.issueKey == t.issueKey)
  }

  lemma {:induction false} OwnIsSpelled(item: Json, s: Segment)
    ensures Spells(item, s) <==> OwnProblem(item).None? && s == SegmentOf(item)
  {
    hide Blank;
    if item.JObj? {
      assert item.fields.Keys <= SEGMENT_KEYS
        <==> forall field | field in item.fields :: field in ["op", "text", "issue_key"];
    }
  }

  ghost predicate SpellsAll(items: seq<Json>, segments: seq<Segment>) {
    && |items| == |segments| > 0
    && (forall i | 0 <= i < |items| :: Spells(items[i], segments[i]))
    && (forall i | 0 < i < |items| :: !Mergeable(segments[i - 1], segments[i]))
  }

  lemma {:induction false} NeighbourIsMergeable(items: seq<Json>, i: nat, s: Segment, t: Segment)
    requires 0 < i < |items| && Spells(items[i - 1], s) && Spells(items[i], t)
    ensures ProblemAt(items, i).None? <==> !Mergeable(s, t)
  {
    OwnIsSpelled(items[i], t);
  }

  /** A list passes the shape rules exactly when it spells segments, no two neighbours of which could
      have been one; and those are what it is read as. */
  lemma {:induction false} ShapedExactly(items: seq<Json>, segments: seq<Segment>)
    ensures SpellsAll(items, segments) <==> WellShaped(JList(items)) && segments == SegmentsOf(JList(items))
  {
    hide Spells, OwnProblem, ProblemAt, SegmentOf, Mergeable;
    if SpellsAll(items, segments) { SpelledIsShaped(items, segments); }
    if WellShaped(JList(items)) { ShapedIsSpelled(items); }
  }

  lemma {:induction false} SpelledIsShaped(items: seq<Json>, segments: seq<Segment>)
    requires SpellsAll(items, segments)
    ensures WellShaped(JList(items)) && segments == SegmentsOf(JList(items))
  {
    forall i | 0 <= i < |items| ensures ProblemAt(items, i).None? && segments[i] == SegmentOf(items[i]) {
      OwnIsSpelled(items[i], segments[i]);
      if i > 0 {
        assert !Mergeable(segments[i - 1], segments[i]);
        NeighbourIsMergeable(items, i, segments[i - 1], segments[i]);
      }
    }
    hide Spells, OwnProblem, ProblemAt, Mergeable;
  }

  lemma {:induction false} ShapedIsSpelled(items: seq<Json>)
    requires WellShaped(JList(items))
    ensures SpellsAll(items, SegmentsOf(JList(items)))
  {
    hide Spells, OwnProblem, ProblemAt, Mergeable;
    var segments := SegmentsOf(JList(items));
    forall i | 0 <= i < |items| ensures Spells(items[i], segments[i]) {
      ShapeOwn(JList(items), i);
      OwnIsSpelled(items[i], segments[i]);
    }
    forall i | 0 < i < |items| ensures !Mergeable(segments[i - 1], segments[i]) {
      assert ProblemAt(JList(items).items, i).None?;
      NeighbourIsMergeable(items, i, segments[i - 1], segments[i]);
    }
  }
}
