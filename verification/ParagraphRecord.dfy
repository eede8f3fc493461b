/** A paragraph's record (`scripts/extraction_normalization_stage.py`) and its clean text
    (`scripts/normalize_input.py`), with the one thing a second reading can change: a field folded in twice. */
module ParagraphRecord {
  import opened Prelude
  import opened Markup
  import opened Reading
  import opened ParagraphDraft
  import opened ParagraphWalk
  import opened Boundaries

  /** A tracked insertion or deletion of the paragraph's own mark. */
  datatype MarkNote = MarkNote(deleted: bool, author: string)

  datatype Record = Record(text: string, resulting: string, boundary: string, pending: seq<Cluster>,
                           comment: bool, hidden: bool, fields: seq<FieldNote>, marks: seq<MarkNote>)
  {
    predicate HasRevisions() {
      pending != [] || comment || hidden || fields != [] || marks != []
    }
  }

  function MarkOf(property: Node): seq<MarkNote> {
    if property.tag == Ins || property.tag == Del
    then [MarkNote(property.tag == Del, if property.val != "" then property.val else "unknown")]
    else []
  }

  function MarksIn(properties: seq<Node>): seq<MarkNote> {
    if properties == [] then [] else MarkOf(properties[0]) + MarksIn(properties[1..])
  }

  function MarksOf(p: seq<Node>): seq<MarkNote> {
    MarksIn(FindChildren(FindChildren(p, PPr), RPr))
  }

  /** The record of a paragraph's children, in terms of its leaves. */
  function RecordOf(p: seq<Node>): Record {
    var d := Closed(Drafted(EMPTY, Leaves(p, TOP)));
    Record(Strip(d.original), Strip(d.resulting), DecisionText(Strip(d.boundary)), d.clusters,
           d.comment, d.hidden, d.fields, MarksOf(p))
  }

  /** `_paragraph_mark_revisions`. */
  method ParagraphMarkRevisions(p: seq<Node>) returns (marks: seq<MarkNote>)
    ensures marks == MarksOf(p)
  {
    hide MarkOf;
    var properties := FindChildren(FindChildren(p, PPr), RPr);
    marks := [];
    assert properties[0..] == properties;
    for i := 0 to |properties|
      invariant marks + MarksIn(properties[i..]) == MarksIn(properties)
    {
      assert properties[i..][0] == properties[i] && properties[i..][1..] == properties[i + 1..];
      marks := marks + MarkOf(properties[i]);
    }
  }

  /** `_build_paragraph_record`. */
  method BuildParagraphRecord(p: seq<Node>) returns (r: Record)
    ensures r == RecordOf(p)
  {
    hide Drafted, Leaves, Closed, Strip, DecisionText;
    var builder := new ParaBuilder();
    WalkContent(p, builder, TOP);
    builder.CloseCluster();
    var marks := ParagraphMarkRevisions(p);
    r := Record(Strip(builder.original), Strip(builder.resulting), DecisionText(Strip(builder.boundary)),
                builder.clusters, builder.hasComment, builder.hasHidden, builder.fields, marks);
  }

  // ---------------------------------------------------------------------
  // The clean text
  // ---------------------------------------------------------------------

  /** A field's displayed result, folded into a text that does not contain it already. */
  function FoldResult(text: string, result: string): string {
    if result != "" && !Contains(text, result) then Strip(text + " " + result) else text
  }

  function FoldResults(text: string, fields: seq<FieldNote>): string
    decreases |fields|
  {
    if fields == [] then text else FoldResults(FoldResult(text, fields[0].result), fields[1..])
  }

  /** The operative text: what a pending change results in, or the text with its fields folded in. */
  function CleanText(record: Record): string {
    if record.pending != [] then record.resulting else FoldResults(record.text, record.fields)
  }

  const BOM: int := 0xFEFF

  const SUSPICIOUS_CONTROL_RANGES: Codes :=
    Range(0x034F, 0x034F, Range(0x115F, 0x1160, Range(0x180E, 0x180E, Range(0x200B, 0x200F,
    Range(0x202A, 0x202E, Range(0x2060, 0x2064, Range(0x2066, 0x2069, Range(0x3164, 0x3164,
    Range(0xFE00, 0xFE0F, Range(0xFFA0, 0xFFA0, Range(0xE0000, 0xE007F, Range(0xE0100, 0xE01EF,
    Nowhere))))))))))))

  /** An invisible character, other than a leading byte-order mark. */
  predicate SuspiciousAt(text: string, i: nat)
    requires i < |text|
  {
    if text[i] as int == BOM then i != 0 else Within(text[i] as int, SUSPICIOUS_CONTROL_RANGES)
  }

  predicate Suspicious(text: string) {
    exists i | 0 <= i < |text| :: SuspiciousAt(text, i)
  }

  /** `_normalize_paragraph`'s outcome: the clean text, or nothing when it fails closed. */
  function Normalized(heading: string, record: Record): Option<string> {
    if Suspicious(heading) || Suspicious(CleanText(record)) then None else Some(CleanText(record))
  }

  /** The offsets of the invisible characters among the first `k`, all of them, in order. */
  function SuspiciousTo(text: string, k: nat): (offsets: seq<nat>)
    requires k <= |text|
    ensures forall i: nat :: i in offsets <==> i < k && SuspiciousAt(text, i)
    ensures forall a, b | 0 <= a < b < |offsets| :: offsets[a] < offsets[b]
  {
    if k == 0 then []
    else if SuspiciousAt(text, k - 1) then
      LastIsNew(SuspiciousTo(text, k - 1), k - 1);
      SuspiciousTo(text, k - 1) + [k - 1]
    else SuspiciousTo(text, k - 1)
  }

  lemma {:induction false} LastIsNew(offsets: seq<nat>, k: nat)
    requires forall i | i in offsets :: i < k
    ensures forall a | 0 <= a < |offsets| :: offsets[a] < k
    ensures forall i: nat :: i in offsets + [k] <==> i in offsets || i == k
  {
    forall a | 0 <= a < |offsets| ensures offsets[a] < k { assert offsets[a] in offsets; }
  }

  method FindSuspicious(text: string) returns (offsets: seq<nat>)
    ensures offsets == SuspiciousTo(text, |text|)
    ensures offsets != [] <==> Suspicious(text)
  {
    hide Within, SuspiciousAt;
    offsets := [];
    for i := 0 to |text|
      invariant offsets == SuspiciousTo(text, i)
    {
      if SuspiciousAt(text, i) { offsets := offsets + [i]; }
    }
    if Suspicious(text) {
      var i :| 0 <= i < |text| && SuspiciousAt(text, i);
      assert i in offsets;
    }
    if offsets != [] { assert offsets[0] in offsets; }
  }

  /** `_normalize_paragraph`: the revisions in turn, then the screen. */
  method NormalizeParagraph(heading: string, record: Record) returns (r: Option<string>)
    ensures r == Normalized(heading, record)
  {
    hide FoldResult, Suspicious;
    var clean := record.text;
    assert record.fields[0..] == record.fields;
    for i := 0 to |record.fields|
      invariant FoldResults(clean, record.fields[i..]) == FoldResults(record.text, record.fields)
    {
      assert record.fields[i..][0] == record.fields[i] && record.fields[i..][1..] == record.fields[i + 1..];
      clean := FoldField(clean, record.fields[i].result);
    }
    if record.pending != [] {
      clean := record.resulting;
    }
    var inHeading := FindSuspicious(heading);
    var inText := FindSuspicious(clean);
    r := if inHeading != [] || inText != [] then None else Some(clean);
  }

  method FoldField(text: string, result: string) returns (r: string)
    ensures r == FoldResult(text, result)
  {
    r := text;
    if result != "" && !Contains(text, result) {
      r := Strip(text + " " + result);
    }
  }

  // ---------------------------------------------------------------------
  // Folding a field result twice
  // ---------------------------------------------------------------------

  /** Nothing to fold: every field result is blank, or already in the text. */
  predicate FieldsSettled(text: string, fields: seq<FieldNote>) {
    forall i | 0 <= i < |fields| :: Blank(fields[i].result) || Contains(text, fields[i].result)
  }

  /** Folding leaves a stripped text alone exactly when there is nothing to fold. */
  lemma {:induction false} FoldSettles(text: string, fields: seq<FieldNote>)
    requires Strip(text) == text
    ensures |FoldResults(text, fields)| >= |text|
    ensures FoldResults(text, fields) == text <==> FieldsSettled(text, fields)
    decreases |fields|
  {
    if fields != [] {
      hide Strip, Contains, Blank;
      var next := FoldResult(text, fields[0].result);
      FoldOnce(text, fields[0].result);
      FoldSettles(next, fields[1..]);
      SettledSplits(text, fields);
    }
  }

  lemma {:induction false} SettledSplits(text: string, fields: seq<FieldNote>)
    requires fields != []
    ensures FieldsSettled(text, fields)
      <==> (Blank(fields[0].result) || Contains(text, fields[0].result)) && FieldsSettled(text, fields[1..])
  {
    hide Blank, Contains;
    assert forall i | 0 <= i < |fields| - 1 :: fields[1..][i] == fields[i + 1];
    if FieldsSettled(text, fields[1..]) {
      forall i | 0 < i < |fields| ensures Blank(fields[i].result) || Contains(text, fields[i].result) {
        assert fields[i] == fields[1..][i - 1];
      }
    }
  }

  lemma {:induction false} FoldOnce(text: string, result: string)
    requires Strip(text) == text
    ensures Strip(FoldResult(text, result)) == FoldResult(text, result)
    ensures Blank(result) || Contains(text, result) ==> FoldResult(text, result) == text
    ensures !(Blank(result) || Contains(text, result)) ==> |FoldResult(text, result)| > |text|
  {
    if result != "" && !Contains(text, result) {
      StripTwice(text + " " + result);
      if Blank(result) {
        StripPadding("", text, " " + result);
        assert "" + text + (" " + result) == text + " " + result;
      } else {
        StripGrows(text, result);
      }
    }
  }

  lemma {:induction false} StripTwice(s: string)
    ensures Strip(Strip(s)) == Strip(s)
  {
    StrippedEnds(s);
    if Strip(s) != "" { StripKeepsInkedEnds(Strip(s)); }
  }

  lemma {:induction false} StripGrows(text: string, result: string)
    requires Strip(text) == text && !Blank(result)
    ensures |Strip(text + " " + result)| > |text|
  {
    assert text + " " + result == (text + " ") + result;
    if text == "" {
      StripNonBlank(text + " " + result, |text + " "|, result);
    } else {
      StrippedEnds(text);
      assert StripLeft(text + " " + result) == text + " " + result;
      StripRightAppend(text + " ", result);
    }
  }

  lemma {:induction false} StripNonBlank(s: string, at: nat, result: string)
    requires !Blank(result) && at + |result| == |s| && s[at..] == result
    ensures Strip(s) != ""
  {
    var i :| 0 <= i < |result| && !IsSpace(result[i]);
    assert s[at + i] == result[i];
    StripLeftInked(s, at + i);
    if Strip(s) == "" { StrippedAway(StripLeft(s)); }
  }

  lemma {:induction false} StripLeftInked(s: string, i: nat)
    requires i < |s| && !IsSpace(s[i])
    ensures !Blank(StripLeft(s))
  {
    if IsSpace(s[0]) { StripLeftInked(s[1..], i - 1); }
  }

  lemma {:induction false} StrippedAway(s: string)
    requires StripRight(s) == ""
    ensures Blank(s)
  {
    if s != "" { StrippedAway(s[..|s| - 1]); }
  }
}
