/** One paragraph, read raw and read from the accepted document: what must agree, and exactly when
    the two clean texts and the two boundary decisions do. */
module ParagraphAgreement {
  import opened Prelude
  import opened Markup
  import opened Splice
  import opened Reading
  import opened ParagraphText
  import opened ParagraphDraft
  import opened Boundaries
  import opened ParagraphRecord

  // ---------------------------------------------------------------------
  // Leaves that survive show no revision and keep their field notes
  // ---------------------------------------------------------------------

  lemma {:induction false} SurvivorsShowNothing(leaves: seq<Leaf>)
    ensures !ShowsRevision(Surviving(leaves))
    decreases leaves, 0
  {
    if leaves != [] {
      SurvivorsShowNothing(leaves[1..]);
      FirstSurvivor(leaves);
      if !leaves[0].context.struck {
        SurvivorShowsNothing(leaves[0]);
        var s := Surviving(leaves);
        assert s[0] == SettledLeaf(leaves[0]) && s[1..] == Surviving(leaves[1..]);
      }
    }
  }

  lemma {:induction false} SurvivorShowsNothing(leaf: Leaf)
    ensures !LeafShowsRevision(SettledLeaf(leaf))
    decreases leaf, 1
  {
    hide RunGlyphs;
    if leaf.FieldLeaf? { SurvivorsShowNothing(leaf.result); }
  }

  /** No simple field directly met below a deletion. */
  predicate FieldsStand(leaves: seq<Leaf>) {
    forall i | 0 <= i < |leaves| :: leaves[i].FieldLeaf? ==> !leaves[i].context.struck
  }

  lemma {:induction false} ReadFieldsStand(children: seq<Node>, c: Context)
    requires NothingRevived(children, c.struck)
    ensures FieldsStand(Leaves(children, c))
    decreases children, 0
  {
    if children != [] {
      ReadFieldsStandIn(children[0], c);
      ReadFieldsStand(children[1..], c);
    }
  }

  lemma {:induction false} ReadFieldsStandIn(node: Node, c: Context)
    requires NothingRevivedIn(node, c.struck)
    ensures FieldsStand(LeavesOf(node, c))
    decreases node, 1
  {
    hide Items, Content;
    if node.tag != FldSimple && Content(node) != [] {
      ContentBelow(node);
      ContentNotRevived(node, c);
      ReadFieldsStand(Content(node), Inside(node, c));
    }
  }

  lemma {:induction false} NotesSurvive(leaves: seq<Leaf>)
    requires FieldsStand(leaves) && !ShowsRevision(leaves) && DeletedIsStruck(leaves) && RevivedGlyphs(leaves) == []
    ensures FieldNotes(Surviving(leaves)) == FieldNotes(leaves)
    decreases |leaves|
  {
    if leaves != [] {
      var leaf, rest := leaves[0], leaves[1..];
      NotesSurvive(rest);
      FirstSurvivor(leaves);
      if !leaf.context.struck {
        NoteSurvives(leaf);
        var s := Surviving(leaves);
        assert s[0] == SettledLeaf(leaf) && s[1..] == Surviving(rest);
      }
    }
  }

  lemma {:induction false} NoteSurvives(leaf: Leaf)
    requires !leaf.context.struck && !LeafShowsRevision(leaf)
    requires leaf.FieldLeaf? ==> DeletedIsStruck(leaf.result) && RevivedGlyphs(leaf.result) == []
    ensures FieldNotesOf(SettledLeaf(leaf)) == FieldNotesOf(leaf)
  {
    if leaf.FieldLeaf? {
      SurvivingSpells(leaf.result);
      UnrevisedReadsAlike(leaf.result);
      SurvivorsShowNothing(leaf.result);
    }
  }

  // ---------------------------------------------------------------------
  // The record
  // ---------------------------------------------------------------------

  lemma {:induction false} SettledHasNoMarks(properties: seq<Node>)
    requires Settled(properties)
    ensures MarksIn(properties) == []
  {
    if properties != [] { SettledHasNoMarks(properties[1..]); }
  }

  lemma {:induction false} FoundIsSettled(children: seq<Node>, tag: Tag)
    requires Settled(children)
    ensures Settled(FindChildren(children, tag))
  {
    if children != [] && children[0].tag != tag { FoundIsSettled(children[1..], tag); }
  }

  lemma {:induction false} AcceptedHasNoMarks(p: seq<Node>)
    ensures MarksOf(Spliced(p)) == []
  {
    hide Spliced, MarksIn, FindChildren, Settled;
    SpliceSettles(p);
    FoundIsSettled(Spliced(p), PPr);
    FoundIsSettled(FindChildren(Spliced(p), PPr), RPr);
    SettledHasNoMarks(FindChildren(FindChildren(Spliced(p), PPr), RPr));
  }

  /** The record in terms of the leaves. */
  lemma {:induction false} RecordHolds(p: seq<Node>)
    ensures var r, leaves := RecordOf(p), Leaves(p, TOP);
            && r.text == Strip(Text(OriginalGlyphs(leaves))) && r.resulting == Strip(Text(AcceptGlyphs(leaves)))
            && r.boundary == DecisionText(Strip(BoundaryText(AcceptGlyphs(leaves))))
            && (r.pending != [] <==> ShowsRevision(leaves))
            && r.fields == FieldNotes(leaves) && r.marks == MarksOf(p)
  {
    hide Leaves, OriginalGlyphs, AcceptGlyphs, Text, BoundaryText, ShowsRevision, FieldNotes, MarksOf, DecisionText,
      Drafted, Strip;
    var leaves := Leaves(p, TOP);
    DraftHolds(EMPTY, leaves);
    assert "" + Text(OriginalGlyphs(leaves)) == Text(OriginalGlyphs(leaves));
    assert "" + Text(AcceptGlyphs(leaves)) == Text(AcceptGlyphs(leaves));
    assert "" + BoundaryText(AcceptGlyphs(leaves)) == BoundaryText(AcceptGlyphs(leaves));
    assert [] + FieldNotes(leaves) == FieldNotes(leaves);
    ClusteringKeepsTexts(Drafted(EMPTY, leaves), "", false);
  }

  /** The fields the accepted paragraph reads whole, told from the raw one: its surviving fields. */
  function FieldsLeft(p: seq<Node>): seq<FieldNote> {
    FieldNotes(Surviving(Leaves(p, TOP)))
  }

  /** The accepted paragraph's record: the raw record's accepted text and decision text, nothing
      pending, no tracked mark, the surviving fields; and the very same fields where the raw record
      has nothing pending. */
  lemma {:induction false} RecordAgrees(p: seq<Node>)
    requires WellPlaced(p) && NothingRevived(p, false)
    ensures var raw, accepted := RecordOf(p), RecordOf(Spliced(p));
            && accepted.text == accepted.resulting == raw.resulting
            && accepted.boundary == raw.boundary
            && accepted.pending == [] && accepted.marks == [] && accepted.fields == FieldsLeft(p)
            && (raw.pending == [] ==> raw.text == raw.resulting && accepted.fields == raw.fields)
  {
    hide Leaves, OriginalGlyphs, AcceptGlyphs, Text, BoundaryText, ShowsRevision, FieldNotes, MarksOf, DecisionText,
      Strip,
      Spliced, WellPlaced, NothingRevived, Surviving, RevivedGlyphs, DeletedIsStruck, FieldsStand, RecordOf;
    var leaves := Leaves(p, TOP);
    RecordHolds(p);
    RecordHolds(Spliced(p));
    AcceptedHasNoMarks(p);
    TextsAgree(p);
    TextSpaceMeetsByteSpace(p);
    SplicedLeaves(p, TOP);
    SurvivorsShowNothing(leaves);
    if !ShowsRevision(leaves) {
      UnrevisedReadsAlike(leaves);
      NothingRevivedReads(p, TOP);
      ReadDeletedIsStruck(p, TOP);
      ReadFieldsStand(p, TOP);
      NotesSurvive(leaves);
    }
  }

  /** The clean texts agree exactly when the raw read had nothing pending, or no surviving field is
      left to fold: each result is blank, or in the accepted text as it stands. */
  lemma {:induction false} CleanTextsAgree(p: seq<Node>)
    requires WellPlaced(p) && NothingRevived(p, false)
    ensures var raw, accepted := RecordOf(p), RecordOf(Spliced(p));
            (CleanText(accepted) == CleanText(raw))
                <==> (raw.pending == [] || FieldsSettled(raw.resulting, FieldsLeft(p)))
  {
    hide RecordOf, Strip, FoldResults, FieldsSettled, FieldsLeft;
    RecordAgrees(p);
    var accepted := RecordOf(Spliced(p));
    assert Strip(accepted.text) == accepted.text by { TextIsStripped(Spliced(p)); }
    FoldSettles(accepted.text, accepted.fields);
  }

  lemma {:induction false} TextIsStripped(p: seq<Node>)
    ensures Strip(RecordOf(p).text) == RecordOf(p).text
  {
    hide Strip, Drafted, Leaves, DecisionText;
    StripTwice(Closed(Drafted(EMPTY, Leaves(p, TOP))).original);
  }

  /** A visible run of one text. */
  predicate Spells(run: Node, text: string) {
    && run.tag == R && !run.hidden && |run.children| == 1
    && run.children[0].tag == T && run.children[0].val == text && run.children[0].children == []
    && SOFT_HYPHEN !in text
  }

  lemma {:induction false} NothingSoft(text: string)
    requires SOFT_HYPHEN !in text
    ensures WithoutSoftHyphens(text) == text
  {
    if text != "" { NothingSoft(text[1..]); }
  }

  /** Such a run is read as its text, and hides nothing. */
  lemma {:induction false} SpelledRun(run: Node, text: string, c: Context)
    requires Spells(run, text)
    ensures Leaves([run], c) == [RunLeaf(false, [TextItem(text)], c)]
    ensures WellPlaced([run]) && NothingRevived([run], c.struck)
  {
    OneRun(run, c);
    OneSpliced(run.children[0]);
    hide Items, Leaves;
    assert run.children == [run.children[0]];
    assert run.children[1..] == [] && [run][1..] == [];
    assert RunPlaced(run.children[1..]) && RunPlaced(run.children);
    assert Inline(run) == [];
  }

  /** An inserted text and, behind it, a simple field with one visible text. */
  predicate InsertionThenField(p: seq<Node>, lead: string, code: string, result: string) {
    && |p| == 2 && p[0].tag == Ins && p[1].tag == FldSimple && p[1].val == code
    && |p[0].children| == 1 && Spells(p[0].children[0], lead)
    && |p[1].children| == 1 && Spells(p[1].children[0], result)
  }

  lemma {:induction false} OneWrapper(node: Node, struck: bool)
    requires node.tag == FldSimple || node.tag == Ins
    requires WellPlaced(node.children) && NothingRevived(node.children, struck) && !struck
    ensures WellPlacedIn(node) && NothingRevivedIn(node, struck)
  {
    assert Inline(node) == node.children;
  }

  lemma {:induction false} InsertionThenFieldLeaves(p: seq<Node>, lead: string, code: string, result: string)
    requires InsertionThenField(p, lead, code, result)
    ensures Leaves(p, TOP) == [RunLeaf(false, [TextItem(lead)], Inside(p[0], TOP)),
                               FieldLeaf(code, [RunLeaf(false, [TextItem(result)], Inside(p[1], TOP))], TOP)]
  {
    hide Spells, LeavesOf;
    var ins, field := p[0], p[1];
    assert ins.children == [ins.children[0]] && field.children == [field.children[0]];
    SpelledRun(ins.children[0], lead, Inside(ins, TOP));
    SpelledRun(field.children[0], result, Inside(field, TOP));
    OneNodeLeaves(ins, TOP);
    OneFieldLeaf(field, TOP);
    LeavesConcat([ins], [field], TOP);
    assert p == [ins] + [field];
    hide Leaves;
  }

  lemma {:induction false} InsertionThenFieldPlaced(p: seq<Node>, lead: string, code: string, result: string)
    requires InsertionThenField(p, lead, code, result)
    ensures WellPlaced(p) && NothingRevived(p, false)
  {
    hide Spells;
    var ins, field := p[0], p[1];
    assert ins.children == [ins.children[0]] && field.children == [field.children[0]];
    SpelledRun(ins.children[0], lead, TOP);
    SpelledRun(field.children[0], result, TOP);
    OneWrapper(ins, false);
    OneWrapper(field, false);
    assert p[1..] == [field] && [field][1..] == [];
    hide WellPlacedIn, NothingRevivedIn, Leaves;
    assert WellPlaced([field]) && NothingRevived([field], false);
  }

  /** A run leaf of one text, and a field leaf of one such run. */
  predicate TwoLeaves(leaves: seq<Leaf>, lead: string, code: string, result: string) {
    && |leaves| == 2 && SOFT_HYPHEN !in lead && SOFT_HYPHEN !in result
    && leaves[0] == RunLeaf(false, [TextItem(lead)], leaves[0].context)
    && leaves[0].context.mode == Inserted && !leaves[0].context.struck
    && leaves[1] == FieldLeaf(code, [PlainRun(result)], TOP)
  }

  function PlainRun(text: string): Leaf {
    RunLeaf(false, [TextItem(text)], Context(Plain, false, "", true))
  }

  lemma {:induction false} TwoLeavesSpell(leaves: seq<Leaf>, lead: string, code: string, result: string)
    requires TwoLeaves(leaves, lead, code, result) && lead != ""
    ensures Text(AcceptGlyphs(leaves)) == lead + result && ShowsRevision(leaves)
  {
    GlyphsOfText(lead);
    GlyphsOfText(result);
    var run, field := leaves[0], leaves[1];
    OneLeaf(PlainRun(result));
    OneLeaf(field);
    TextConcat(GlyphsFor(lead, true), GlyphsFor(result, true));
    hide RunGlyphs, GlyphsFor, Text;
    assert leaves == [run, field] && leaves[1..] == [field];
    assert AcceptGlyphs(leaves) == AcceptGlyphsOf(run) + AcceptGlyphs([field]);
    assert AcceptGlyphs([field]) == AcceptGlyphs([PlainRun(result)]) == AcceptGlyphsOf(PlainRun(result));
    assert LeafShowsRevision(run);
  }

  lemma {:induction false} TwoLeavesNote(leaves: seq<Leaf>, lead: string, code: string, result: string)
    requires TwoLeaves(leaves, lead, code, result) && Strip(code) == code != ""
    ensures FieldNotes(Surviving(leaves)) == [FieldNote(code, result)]
  {
    GlyphsOfText(result);
    var run, field := leaves[0], leaves[1];
    var inner := PlainRun(result);
    OneLeaf(inner);
    OneSurvivor(inner);
    OneSurvivor(field);
    FirstSurvivor(leaves);
    hide RunGlyphs, GlyphsFor, Text, Surviving, Strip;
    assert leaves[1..] == [field];
    var s := [SettledLeaf(run), SettledLeaf(field)];
    assert Surviving(leaves) == s && s[1..] == [SettledLeaf(field)];
    OneLeaf(SettledLeaf(field));
    assert SettledLeaf(field) == field;
    assert FieldNotesOf(SettledLeaf(run)) == [] && FieldNotesOf(field) == [FieldNote(code, result)];
  }

  lemma {:induction false} GlyphsOfText(text: string)
    requires SOFT_HYPHEN !in text
    ensures RunGlyphs([TextItem(text)], false) == GlyphsFor(text, true) && Text(GlyphsFor(text, true)) == text
    ensures |GlyphsFor(text, true)| == |text|
  {
    NothingSoft(text);
    assert [TextItem(text)][1..] == [] && GlyphsFor(text, true) + [] == GlyphsFor(text, true);
  }

  /** A pending insertion, and behind it a field that ends the paragraph on a space: the raw read
      gives the accepted text, and the accepted read says the field's result twice. */
  lemma {:induction false} FieldFoldedTwice(p: seq<Node>, lead: string, code: string, result: string)
    requires lead == "Due " && code == "DATE" && result == "May "
    requires InsertionThenField(p, lead, code, result)
    ensures WellPlaced(p) && NothingRevived(p, false)
    ensures CleanText(RecordOf(p)) == "Due May" && CleanText(RecordOf(Spliced(p))) == "Due May May"
  {
    hide Leaves, AcceptGlyphs, Text, RecordOf, Spells, Surviving, FoldResults;
    InsertionThenFieldPlaced(p, lead, code, result);
    InsertionThenFieldLeaves(p, lead, code, result);
    assert Strip(code) == code by { StripKeepsInkedEnds(code); }
    TwoLeavesSpell(Leaves(p, TOP), lead, code, result);
    TwoLeavesNote(Leaves(p, TOP), lead, code, result);
    RecordHolds(p);
    RecordAgrees(p);
    TrailingFieldFolds(lead, code, result);
  }

  lemma {:induction false} TrailingFieldFolds(lead: string, code: string, result: string)
    requires lead == "Due " && result == "May "
    ensures Strip(lead + result) == "Due May" && FoldResults("Due May", [FieldNote(code, result)]) == "Due May May"
  {
    var text := "Due May";
    assert lead + result == text + " ";
    StripKeepsInkedEnds(text);
    StripPadding("", text, " ");
    assert "" + text + " " == text + " ";
    forall k | 0 <= k <= |text| ensures !StartsWithAt(text, result, k) {
      if k + |result| <= |text| {
        assert text[k..k + |result|][0] == text[k] && text[k..k + |result|][3] == text[k + 3];
      }
    }
    var folded := "Due May May";
    var joined := text + " " + result;
    assert joined == folded + " ";
    StripKeepsInkedEnds(folded);
    StripPadding("", folded, " ");
    assert "" + folded + " " == folded + " ";
    var fields := [FieldNote(code, result)];
    assert fields[1..] == [];
    assert FoldResults(text, fields) == FoldResults(FoldResult(text, result), []);
  }

  /** Whatever is read, the clean text is empty exactly when the accepted text is. */
  lemma {:induction false} CleanEmptiness(p: seq<Node>)
    ensures CleanText(RecordOf(p)) == "" <==> RecordOf(p).resulting == ""
  {
    hide Leaves, OriginalGlyphs, AcceptGlyphs, Text, BoundaryText, ShowsRevision, FieldNotes, MarksOf, DecisionText,
      Strip,
      RecordOf, FoldResults;
    var r, leaves := RecordOf(p), Leaves(p, TOP);
    RecordHolds(p);
    TextIsStripped(p);
    if r.pending == [] {
      UnrevisedReadsAlike(leaves);
      FoldSettles(r.text, r.fields);
      if r.text == "" {
        StripNothing(Text(OriginalGlyphs(leaves)));
        NotesBlank(leaves);
      }
    }
  }

  lemma {:induction false} StripNothing(s: string)
    requires Strip(s) == ""
    ensures Blank(s)
  {
    if !Blank(s) {
      var i :| 0 <= i < |s| && !IsSpace(s[i]);
      StripNonBlank(s, 0, s);
    }
  }

  /** The notes of a paragraph that spells nothing but whitespace hold nothing but whitespace. */
  lemma {:induction false} NotesBlank(leaves: seq<Leaf>)
    requires Blank(Text(OriginalGlyphs(leaves)))
    ensures forall i | 0 <= i < |FieldNotes(leaves)| :: Blank(FieldNotes(leaves)[i].result)
  {
    hide OriginalGlyphsOf, Text, ShowsRevision, Strip;
    if leaves != [] {
      var leaf, rest := leaves[0], leaves[1..];
      TextConcat(OriginalGlyphsOf(leaf), OriginalGlyphs(rest));
      BlankParts(Text(OriginalGlyphsOf(leaf)), Text(OriginalGlyphs(rest)));
      NotesBlank(rest);
      NoteBlank(leaf);
    }
  }

  lemma {:induction false} NoteBlank(leaf: Leaf)
    requires Blank(Text(OriginalGlyphsOf(leaf)))
    ensures forall i | 0 <= i < |FieldNotesOf(leaf)| :: Blank(FieldNotesOf(leaf)[i].result)
  {
    hide Text, ShowsRevision, Strip, OriginalGlyphs;
  }

  lemma {:induction false} BlankParts(a: string, b: string)
    requires Blank(a + b)
    ensures Blank(a) && Blank(b)
  {
    forall i | 0 <= i < |a| ensures IsSpace(a[i]) { assert (a + b)[i] == a[i]; }
    forall i | 0 <= i < |b| ensures IsSpace(b[i]) { assert (a + b)[|a| + i] == b[i]; }
  }

  // ---------------------------------------------------------------------
  // The boundary decision
  // ---------------------------------------------------------------------

  /** No revision wrapper in the paragraph or its properties brings up a property that is read. */
  predicate StylePlaced(p: seq<Node>) {
    Steady(p, PPr) && Steady(FindChildren(p, PPr), PStyle) && Steady(FindChildren(p, PPr), OutlineLvl)
  }

  /** Style and outline level are the same in both reads. */
  lemma {:induction false} StyleAgrees(p: seq<Node>)
    requires StylePlaced(p)
    ensures StyleOf(Spliced(p)) == StyleOf(p) && OutlineOf(Spliced(p)) == OutlineOf(p)
  {
    hide Spliced, ParseInt, Find, FindThrough;
    FindChildrenSpliced(p, PPr);
    FindSpliced(FindChildren(p, PPr), PStyle);
    FindSpliced(FindChildren(p, PPr), OutlineLvl);
  }

  /** A run with text once accepted. */
  predicate SeenAsText(node: Node) {
    node.tag == R && FindThrough(node.children, T).Some?
  }

  /** The accepted run is bold. */
  predicate SeenAsBold(run: seq<Node>) {
    match FindThrough(run, RPr)
    case None => false
    case Some(properties) =>
      match FindThrough(properties.children, Bold)
      case None => false
      case Some(bold) => Lower(Strip(bold.val)) !in ["0", "false", "none"]
  }

  /** Some run with text, directly or within insertions and move targets. */
  predicate TextThrough(children: seq<Node>)
    decreases children
  {
    children != [] &&
    (SeenAsText(children[0]) || (Unwrapped(children[0].tag) && TextThrough(children[0].children))
        || TextThrough(children[1..]))
  }

  /** Every run with text, directly or within insertions and move targets, is bold. */
  predicate AllBoldThrough(children: seq<Node>)
    decreases children
  {
    children == [] ||
    (&& (SeenAsText(children[0]) ==> SeenAsBold(children[0].children))
     && (Unwrapped(children[0].tag) ==> AllBoldThrough(children[0].children)) && AllBoldThrough(children[1..]))
  }

  lemma {:induction false} RunSpliced(run: Node)
    ensures IsTextRun(AcceptedNode(run)) == SeenAsText(run)
    ensures RunIsBold(AcceptedNode(run).children) == SeenAsBold(run.children)
  {
    hide Spliced, Lower, FindThrough;
    FindSpliced(run.children, T);
    FindSpliced(run.children, RPr);
    if FindThrough(run.children, RPr).Some? { FindSpliced(FindThrough(run.children, RPr).value.children, Bold); }
  }

  predicate HasText(p: seq<Node>) {
    exists i | 0 <= i < |p| :: IsTextRun(p[i])
  }

  predicate TextIsBold(p: seq<Node>) {
    forall i | 0 <= i < |p| :: IsTextRun(p[i]) ==> RunIsBold(p[i].children)
  }

  lemma {:induction false} TextConcats(a: seq<Node>, b: seq<Node>)
    ensures HasText(a + b) <==> HasText(a) || HasText(b)
    ensures TextIsBold(a + b) <==> TextIsBold(a) && TextIsBold(b)
  {
    hide IsTextRun, RunIsBold;
    assert forall i | 0 <= i < |a| :: (a + b)[i] == a[i];
    assert forall i | 0 <= i < |b| :: (a + b)[|a| + i] == b[i];
    assert forall i | |a| <= i < |a + b| :: (a + b)[i] == b[i - |a|];
  }

  lemma {:induction false} SeenThrough(children: seq<Node>)
    ensures HasText(Spliced(children)) <==> TextThrough(children)
    ensures TextIsBold(Spliced(children)) <==> AllBoldThrough(children)
    decreases children
  {
    hide IsTextRun, RunIsBold, SeenAsText, SeenAsBold;
    if children != [] {
      var head := children[0];
      SeenThrough(children[1..]);
      TextConcats(SplicedChild(head), Spliced(children[1..]));
      OnlyRunsAreSeen(head);
      if Unwrapped(head.tag) {
        SeenThrough(head.children);
      } else if !Removed(head.tag) {
        RunSpliced(head);
        var accepted := [AcceptedNode(head)];
        assert SplicedChild(head) == accepted && accepted[0] == AcceptedNode(head);
        assert HasText(accepted) <==> IsTextRun(accepted[0]);
        assert TextIsBold(accepted) <==> (IsTextRun(accepted[0]) ==> RunIsBold(accepted[0].children));
      }
    }
  }

  lemma {:induction false} OnlyRunsAreSeen(node: Node)
    ensures Unwrapped(node.tag) || Removed(node.tag) ==> !SeenAsText(node)
  {
  }

  /** The accepted paragraph is wholly bold exactly when the raw one has text runs, directly or
      within insertions and move targets, and all of those are bold. */
  lemma {:induction false} AcceptedBoldness(p: seq<Node>)
    ensures WhollyBold(Spliced(p)) <==> TextThrough(p) && AllBoldThrough(p)
  {
    hide Spliced, IsTextRun, RunIsBold;
    SeenThrough(p);
    assert WhollyBold(Spliced(p)) <==> HasText(Spliced(p)) && TextIsBold(Spliced(p));
  }

  /** The bold runs the raw read looks at tell what the accepted read will see. */
  predicate BoldnessSeen(p: seq<Node>) {
    WhollyBold(p) <==> TextThrough(p) && AllBoldThrough(p)
  }

  /** Boldness alone would make this text a boundary: a short line, with nothing else to make it
      one. */
  predicate BoldDecides(text: string, signals: Signals) {
    var s := Strip(text);
    && !HeadingStyle(signals.style) && !HasOutline(signals)
    && 0 < |s| <= MAX_FALLBACK_HEADING_CHARS && '\n' !in s
    && NumberedEnd(s).None? && LetteredEnd(s).None? && !IsUpper(s)
  }

  /** The two reads decide alike exactly when they see the same boldness, or boldness decides
      nothing for this paragraph. */
  lemma {:induction false} BoundaryAgrees(p: seq<Node>, text: string)
    requires StylePlaced(p)
    ensures IsBoundary(text, SignalsOf(Spliced(p))) == IsBoundary(text, SignalsOf(p))
      <==> BoldnessSeen(p) || !BoldDecides(text, SignalsOf(p))
  {
    hide Spliced, WhollyBold, StylePlaced, Strip, NumberedEnd, LetteredEnd, IsUpper, HeadingStyle, TextThrough,
      AllBoldThrough;
    StyleAgrees(p);
    AcceptedBoldness(p);
  }

  /** A bold insertion that is the paragraph's only text: the raw read looks at direct runs alone
      and sees no boldness, the accepted read sees a bold line. */
  lemma {:induction false} InsertedBoldIsSeenOnce(ins: Node, run: Node)
    requires ins.tag == Ins && ins.children == [run] && SeenAsText(run) && SeenAsBold(run.children)
    ensures !WhollyBold([ins]) && WhollyBold(Spliced([ins]))
  {
    hide SeenAsText, SeenAsBold, Spliced;
    AcceptedBoldness([ins]);
    OnlyRunsAreSeen(ins);
    OnlyRunsAreSeen(run);
    assert [ins][1..] == [] && [run][1..] == [];
    assert AllBoldThrough([run][1..]) && AllBoldThrough([run]) && TextThrough([run]);
    assert AllBoldThrough([ins][1..]) && AllBoldThrough(ins.children) && TextThrough(ins.children);
  }
}
