/** The block map, said simply, and why the raw document and the accepted one are given the same one. */
module BlockAgreement {
  import opened Prelude
  import opened Markup
  import opened Splice
  import opened Reading
  import opened ParagraphText
  import opened Boundaries
  import opened ParagraphRecord
  import opened ParagraphAgreement
  import opened DocumentParagraphs
  import opened Blocks

  // ---------------------------------------------------------------------
  // Blocks from views
  // ---------------------------------------------------------------------

  /** All the block map depends on in one paragraph: of a heading, its title, and whether an invisible
      character in it fails the document closed. */
  datatype View = Nothing | Head(title: string, refused: bool) | Body(clean: string)

  function ViewOf(p: Node): View {
    var r := RecordOf(p.children);
    if r.resulting == "" then Nothing
    else if IsBoundary(r.boundary, SignalsOf(p.children)) then HeadOf(Label(r.resulting), CleanText(r))
    else Body(CleanText(r))
  }

  function HeadOf(title: string, clean: string): View {
    Head(title, Suspicious(title) || Suspicious(clean))
  }

  function Views(ps: seq<Node>): seq<View> {
    seq(|ps|, i requires 0 <= i < |ps| => ViewOf(ps[i]))
  }

  /** An invisible character in what would reach the reader. */
  predicate Refused(view: View) {
    match view
    case Nothing => false
    case Head(_, refused) => refused
    case Body(clean) => Suspicious(clean)
  }

  predicate AnyRefused(views: seq<View>, k: nat)
    requires k <= |views|
  {
    k > 0 && (Refused(views[k - 1]) || AnyRefused(views, k - 1))
  }

  function Extended(sections: seq<Section>, text: string): seq<Section> {
    if sections == [] then [Section(UNTITLED, [text])]
    else
      var last := sections[|sections| - 1];
      sections[..|sections| - 1] + [last.(texts := last.texts + [text])]
  }

  /** The clauses of the first `k` views. */
  function SectionsFrom(views: seq<View>, k: nat): seq<Section>
    requires k <= |views|
  {
    if k == 0 then []
    else
      match views[k - 1]
      case Nothing => SectionsFrom(views, k - 1)
      case Head(title, _) => SectionsFrom(views, k - 1) + [Section(title, [])]
      case Body(clean) => Extended(SectionsFrom(views, k - 1), clean)
  }

  /** The block map as its readers understand it. */
  function BlocksFrom(views: seq<View>): Option<seq<Block>> {
    if AnyRefused(views, |views|) then None else Some(Numbered(SectionsFrom(views, |views|)))
  }

  // ---------------------------------------------------------------------
  // The loops compute it
  // ---------------------------------------------------------------------

  lemma {:induction false} SectionsPrefix(a: seq<Group>, b: seq<Group>, k: nat)
    requires k <= |a|
    ensures SectionsTo(a + b, k) == SectionsTo(a, k) && (AnyFails(a + b, k) <==> AnyFails(a, k))
  {
    hide SectionOf, Fails;
    if k > 0 { SectionsPrefix(a, b, k - 1); }
  }

  /** One more group at the end. */
  lemma {:induction false} SectionsSnoc(groups: seq<Group>, group: Group)
    ensures SectionsTo(groups + [group], |groups| + 1) == SectionsTo(groups, |groups|) + SectionOf(group)
    ensures AnyFails(groups + [group], |groups| + 1) <==> AnyFails(groups, |groups|) || Fails(group)
  {
    hide SectionOf, Fails;
    SectionsPrefix(groups, [group], |groups|);
  }

  /** One more group at the front. */
  lemma {:induction false} SectionsCons(group: Group, groups: seq<Group>, k: nat)
    requires k <= |groups|
    ensures SectionsTo([group] + groups, k + 1) == SectionOf(group) + SectionsTo(groups, k)
    ensures AnyFails([group] + groups, k + 1) <==> Fails(group) || AnyFails(groups, k)
  {
    hide SectionOf, Fails;
    if k > 0 {
      SectionsCons(group, groups, k - 1);
      assert ([group] + groups)[k] == groups[k - 1];
      assert (SectionOf(group) + SectionsTo(groups, k - 1)) + SectionOf(groups[k - 1])
        == SectionOf(group) + (SectionsTo(groups, k - 1) + SectionOf(groups[k - 1]));
    } else {
      assert SectionsTo([group] + groups, 1) == SectionsTo([group] + groups, 0) + SectionOf(group);
      assert [] + SectionOf(group) == SectionOf(group) == SectionOf(group) + [];
    }
  }

  lemma {:induction false} CleanTextsSnoc(records: seq<Record>, record: Record, k: nat)
    requires k <= |records|
    ensures CleanTexts(records + [record], k) == CleanTexts(records, k)
  {
    hide CleanText;
    if k > 0 { CleanTextsSnoc(records, record, k - 1); }
  }

  /** A group with one more paragraph: its section has one more text, unless that is empty; it
      fails as before, or because the paragraph does. */
  lemma {:induction false} GroupGrows(group: Group, record: Record)
    requires group.emitsBlock
    ensures var grown := group.(physical := group.physical + [record]);
            && SectionOf(group) == [Section(group.heading, CleanTexts(group.physical, |group.physical|))]
            && SectionOf(grown) == (if CleanText(record) == "" then SectionOf(group)
                                    else [Section(group.heading,
                                      CleanTexts(group.physical, |group.physical|) + [CleanText(record)])])
            && (Fails(grown) <==> Fails(group) || Normalized(group.heading, record).None?)
  {
    hide CleanText, Normalized;
    var n := |group.physical|;
    var grown := group.(physical := group.physical + [record]);
    CleanTextsSnoc(group.physical, record, n);
    var texts := CleanTexts(group.physical, n);
    assert grown.physical[n] == record && texts + [] == texts;
    assert CleanTexts(grown.physical, n + 1) == texts + (if CleanText(record) != "" then [CleanText(record)] else []);
    FailsSnoc(group, record);
  }

  lemma {:induction false} FailsSnoc(group: Group, record: Record)
    ensures Fails(group.(physical := group.physical + [record]))
      <==> Fails(group) || Normalized(group.heading, record).None?
  {
    hide Normalized;
    var n := |group.physical|;
    var grown := group.(physical := group.physical + [record]);
    assert grown.physical[n] == record;
    if i :| 0 <= i < |grown.physical| && Normalized(grown.heading, grown.physical[i]).None? {
      if i < n { assert grown.physical[i] == group.physical[i]; }
    }
    if i :| 0 <= i < n && Normalized(group.heading, group.physical[i]).None? {
      assert grown.physical[i] == group.physical[i];
    }
  }

  predicate AllFrom(codes: Codes, low: int) {
    codes.Range? ==> low <= codes.first && AllFrom(codes.rest, low)
  }

  lemma {:induction false} BelowAll(code: int, codes: Codes, low: int)
    requires AllFrom(codes, low) && code < low
    ensures !Within(code, codes)
  {
    if codes.Range? { BelowAll(code, codes.rest, low); }
  }

  lemma {:induction false} PlainIsClean(s: string)
    requires forall i | 0 <= i < |s| :: s[i] as int < 0x34F
    ensures !Suspicious(s)
  {
    assert AllFrom(SUSPICIOUS_CONTROL_RANGES, 0x34F);
    forall i | 0 <= i < |s| ensures !SuspiciousAt(s, i) {
      BelowAll(s[i] as int, SUSPICIOUS_CONTROL_RANGES, 0x34F);
    }
  }

  lemma {:induction false} UntitledIsClean()
    ensures !Suspicious(UNTITLED) && !Suspicious("")
  {
    PlainIsClean(UNTITLED);
  }

  /** A paragraph of a group fails for its own text, or for a heading that fails the group anyway. */
  lemma {:induction false} FailsByText(group: Group, record: Record)
    requires group.source.None? ==> group.heading == UNTITLED
    ensures Fails(group) || Normalized(group.heading, record).None? <==> Fails(group) || Suspicious(CleanText(record))
  {
    hide Suspicious, CleanText;
    UntitledIsClean();
  }

  /** After `k` paragraphs the groups hold the clauses of the first `k` views. */
  ghost predicate Mirrors(g: Grouping, views: seq<View>, k: nat)
    requires k <= |views|
  {
    && SectionsTo(Flushed(g), |Flushed(g)|) == SectionsFrom(views, k)
    && (AnyFails(Flushed(g), |Flushed(g)|) <==> AnyRefused(views, k))
    && (g.current.None? ==> g.closed == [])
    && (g.current.Some?
      ==> g.current.value.emitsBlock && (g.current.value.source.None? ==> g.current.value.heading == UNTITLED))
    && (forall i | 0 <= i < |g.leading| :: CleanText(g.leading[i]) == "")
  }

  lemma {:induction false} LoopsMirror(ps: seq<Node>, k: nat)
    requires k <= |ps|
    ensures Mirrors(GroupingTo(EntriesOf(ps), k), Views(ps), k)
  {
    hide EntryOf, ViewOf, Add, Mirrors;
    if k > 0 {
      LoopsMirror(ps, k - 1);
      OneMoreParagraph(GroupingTo(EntriesOf(ps), k - 1), Views(ps), k - 1, ps[k - 1]);
    } else {
      NothingYet(Views(ps));
    }
  }

  lemma {:induction false} NothingYet(views: seq<View>)
    ensures Mirrors(Grouping([], None, []), views, 0)
  {
  }

  lemma {:induction false} OneMoreParagraph(g: Grouping, views: seq<View>, k: nat, p: Node)
    requires k < |views| && views[k] == ViewOf(p) && Mirrors(g, views, k)
    ensures Mirrors(Add(g, EntryOf(p)), views, k + 1)
  {
    hide RecordOf, IsBoundary, SignalsOf, Label, CleanText, Mirrors, SectionsFrom, AnyRefused;
    var r := RecordOf(p.children);
    CleanEmptiness(p.children);
    match EntryOf(p) {
      case Spacer => AddNothing(g, views, k);
      case Opening(title, record) => AddOpening(g, views, k, title, record);
      case Member(record) =>
        if g.current.Some? { AddToCurrent(g, views, k, record); }
        else if record.resulting == "" { AddLeading(g, views, k, record); }
        else { AddFirst(g, views, k, record); }
    }
  }

  lemma {:induction false} AddNothing(g: Grouping, views: seq<View>, k: nat)
    requires k < |views| && views[k] == Nothing && Mirrors(g, views, k)
    ensures Mirrors(g, views, k + 1)
  {
  }

  lemma {:induction false} AddOpening(g: Grouping, views: seq<View>, k: nat, title: string, record: Record)
    requires k < |views| && views[k] == HeadOf(title, CleanText(record)) && Mirrors(g, views, k)
    ensures Mirrors(Add(g, Opening(title, record)), views, k + 1)
  {
    hide CleanText, Suspicious, SectionsTo, AnyFails;
    var group := Group(title, Some(record), [], true);
    SectionsSnoc(Flushed(g), group);
    assert SectionOf(group) == [Section(title, [])];
    assert Flushed(Add(g, Opening(title, record))) == Flushed(g) + [group];
  }

  lemma {:induction false} AddToCurrent(g: Grouping, views: seq<View>, k: nat, record: Record)
    requires k < |views| && g.current.Some? && Mirrors(g, views, k)
    requires views[k] == if CleanText(record) == "" then Nothing else Body(CleanText(record))
    ensures Mirrors(Add(g, Member(record)), views, k + 1)
  {
    hide CleanText, Suspicious, SectionsTo, AnyFails, SectionOf, Fails, Normalized, CleanTexts;
    var group := g.current.value;
    var grown := group.(physical := group.physical + [record]);
    SectionsSnoc(g.closed, group);
    SectionsSnoc(g.closed, grown);
    GroupGrows(group, record);
    FailsByText(group, record);
    UntitledIsClean();
    assert Flushed(g) == g.closed + [group] && Flushed(Add(g, Member(record))) == g.closed + [grown];
    var before := SectionsTo(g.closed, |g.closed|);
    var section := SectionOf(group)[0];
    assert before + [section] == SectionsFrom(views, k);
    assert (before + [section])[..|before|] == before;
  }

  lemma {:induction false} AddFirst(g: Grouping, views: seq<View>, k: nat, record: Record)
    requires k < |views| && g.current.None? && record.resulting != "" && Mirrors(g, views, k)
    requires views[k] == Body(CleanText(record)) && CleanText(record) != ""
    ensures Mirrors(Add(g, Member(record)), views, k + 1)
  {
    var vacant, group := Group(UNTITLED, None, [], true), Group(UNTITLED, None, [record], true);
    NothingFails(vacant);
    hide CleanText, Suspicious, CleanTexts, Normalized, SectionOf, Fails;
    UntitledIsClean();
    assert Flushed(g) == [] && SectionsFrom(views, k) == [];
    GroupGrows(vacant, record);
    FailsByText(vacant, record);
    assert [] + [record] == [record] && [] + [CleanText(record)] == [CleanText(record)];
    SectionsSnoc([], group);
    assert [] + [group] == [group] && [] + SectionOf(group) == SectionOf(group);
    assert Flushed(Add(g, Member(record))) == [group];
  }

  lemma {:induction false} AddLeading(g: Grouping, views: seq<View>, k: nat, record: Record)
    requires k < |views| && g.current.None? && record.resulting == "" == CleanText(record) && Mirrors(g, views, k)
    requires views[k] == Nothing
    ensures Mirrors(Add(g, Member(record)), views, k + 1)
  {
    hide CleanText, SectionsTo, AnyFails;
    var after := Add(g, Member(record));
    assert Flushed(after) == Flushed(g);
    forall i | 0 <= i < |after.leading| ensures CleanText(after.leading[i]) == "" {
      if i < |g.leading| { assert after.leading[i] == g.leading[i]; }
    }
  }

  lemma {:induction false} NothingFails(group: Group)
    requires group.source.None? && group.physical == []
    ensures !Fails(group) && CleanTexts(group.physical, 0) == []
  {
  }

  lemma {:induction false} EmptyTexts(records: seq<Record>, k: nat)
    requires k <= |records| && forall i | 0 <= i < |records| :: CleanText(records[i]) == ""
    ensures CleanTexts(records, k) == []
  {
    hide CleanText;
    if k > 0 { EmptyTexts(records, k - 1); }
  }

  /** A held group of wholly struck paragraphs emits no block and fails nothing. */
  lemma {:induction false} LeadingIsSilent(leading: seq<Record>)
    requires forall i | 0 <= i < |leading| :: CleanText(leading[i]) == ""
    ensures SectionOf(Group(UNTITLED, None, leading, false)) == [] && !Fails(Group(UNTITLED, None, leading, false))
  {
    EmptyTexts(leading, |leading|);
    UntitledIsClean();
    hide CleanText, Suspicious;
  }

  lemma {:induction false} MirroredOutcome(g: Grouping, views: seq<View>, groups: seq<Group>)
    requires Mirrors(g, views, |views|)
    requires groups == (if g.leading == [] then [] else [Group(UNTITLED, None, g.leading, false)]) + Flushed(g)
    ensures Outcome(groups) == BlocksFrom(views)
  {
    var held, flushed := Group(UNTITLED, None, g.leading, false), Flushed(g);
    LeadingIsSilent(g.leading);
    hide SectionOf, Fails, CleanText, SectionsTo, AnyFails, SectionsFrom, AnyRefused, Numbered, Flushed;
    SectionsCons(held, flushed, |flushed|);
    assert [] + SectionsTo(flushed, |flushed|) == SectionsTo(flushed, |flushed|);
    assert g.leading == [] ==> groups == flushed;
  }

  /** Grouping and normalizing paragraphs is reading their views in order. */
  lemma {:induction false} GroupsReadAsViews(ps: seq<Node>)
    ensures Outcome(Groups(EntriesOf(ps))) == BlocksFrom(Views(ps))
  {
    hide Mirrors, GroupingTo, Outcome, BlocksFrom, EntryOf, ViewOf;
    LoopsMirror(ps, |ps|);
    MirroredOutcome(GroupingTo(EntriesOf(ps), |ps|), Views(ps), Groups(EntriesOf(ps)));
  }

  /** The whole reading of a document body, from elements to addressed blocks. */
  method ReadBlocks(body: seq<Node>) returns (blocks: Option<seq<Block>>)
    ensures blocks == BlocksFrom(Views(Kept(Paragraphs(InBody, body))))
  {
    hide Outcome, Groups, EntriesOf, BlocksFrom, Views, Kept;
    var ps := BodyParagraphs(body);
    var groups := ExtractGroups(ps);
    GroupsReadAsViews(ps);
    blocks := NormalizeParagraphs(groups);
  }

  // ---------------------------------------------------------------------
  // Raw and accepted documents
  // ---------------------------------------------------------------------

  /** The raw read sees the boldness the accepted read sees, or boldness does not matter here. */
  predicate BoldnessAgrees(p: Node) {
    BoldnessSeen(p.children) || !BoldDecides(RecordOf(p.children).boundary, SignalsOf(p.children))
  }

  /** Nothing was pending, or no surviving field is left to fold in. */
  predicate FieldsAgree(p: Node) {
    RecordOf(p.children).pending == [] || FieldsSettled(RecordOf(p.children).resulting, FieldsLeft(p.children))
  }

  predicate OpensClause(p: Node) {
    IsBoundary(RecordOf(p.children).boundary, SignalsOf(p.children))
  }

  /** What the reads may make of the paragraph's part in the block map: nothing without accepted text;
      otherwise boldness must agree, and, unless the paragraph only opens a clause, its fields. */
  predicate PartAgrees(p: Node) {
    RecordOf(p.children).resulting == "" || (BoldnessAgrees(p) && (OpensClause(p) || FieldsAgree(p)))
  }

  /** The two views put the same into the block map. */
  predicate SamePart(a: View, b: View) {
    match (a, b)
    case (Nothing, Nothing) => true
    case (Head(s, _), Head(t, _)) => s == t
    case (Body(s), Body(t)) => s == t
    case (_, _) => false
  }

  /** The accepted read's view, told from the raw paragraph: its accepted text, the boldness that will be
      seen, and its surviving fields folded in. */
  function SeenView(p: Node): View {
    var r := RecordOf(p.children);
    var clean := FoldResults(r.resulting, FieldsLeft(p.children));
    var signals := SignalsOf(p.children).(bold := TextThrough(p.children) && AllBoldThrough(p.children));
    if r.resulting == "" then Nothing
    else if IsBoundary(r.boundary, signals) then HeadOf(Label(r.resulting), clean)
    else Body(clean)
  }

  function SeenViews(ps: seq<Node>): seq<View> {
    seq(|ps|, i requires 0 <= i < |ps| => SeenView(ps[i]))
  }

  lemma {:induction false} AcceptedView(p: Node)
    requires Placed(p) && NothingRevived(p.children, false)
    ensures ViewOf(AcceptedNode(p)) == SeenView(p)
  {
    hide RecordOf, IsBoundary, Label, Spliced, WellPlaced, StylePlaced, NothingRevived, FoldResults, FieldsLeft,
      WhollyBold,
      TextThrough, AllBoldThrough, HeadOf, StyleOf, OutlineOf;
    RecordAgrees(p.children);
    StyleAgrees(p.children);
    AcceptedBoldness(p.children);
  }

  /** A paragraph's part in the block map is the same in both reads exactly when it has no accepted text,
      or its boldness agrees and it opens a clause or its fields agree. */
  lemma {:induction false} ViewsAgree(p: Node)
    requires Placed(p) && NothingRevived(p.children, false)
    ensures SamePart(ViewOf(AcceptedNode(p)), ViewOf(p)) <==> PartAgrees(p)
    ensures PartAgrees(p) && FieldsAgree(p) ==> ViewOf(AcceptedNode(p)) == ViewOf(p)
  {
    hide RecordOf, IsBoundary, SignalsOf, Label, CleanText, Spliced, WellPlaced, StylePlaced, NothingRevived,
      BoldnessSeen, FieldsSettled,
      BoldDecides, FieldsLeft, HeadOf;
    RecordAgrees(p.children);
    CleanTextsAgree(p.children);
    BoundaryAgrees(p.children, RecordOf(p.children).boundary);
    assert forall title, clean :: HeadOf(title, clean).Head? && HeadOf(title, clean).title == title
      by { HeadsAreHeads(); }
  }

  lemma {:induction false} HeadsAreHeads()
    ensures forall title, clean :: HeadOf(title, clean).Head? && HeadOf(title, clean).title == title
  {
    hide Suspicious;
  }

  // ---------------------------------------------------------------------
  // The block map determines the views' parts
  // ---------------------------------------------------------------------

  /** Silent at the same places. */
  predicate SameSilence(a: seq<View>, b: seq<View>) {
    |a| == |b| && forall i | 0 <= i < |a| :: a[i].Nothing? == b[i].Nothing?
  }

  predicate SameParts(a: seq<View>, b: seq<View>, k: nat)
    requires k <= |a| && k <= |b|
  {
    forall i | 0 <= i < k :: SamePart(a[i], b[i])
  }

  predicate AllSilent(views: seq<View>, k: nat)
    requires k <= |views|
  {
    forall i | 0 <= i < k :: views[i].Nothing?
  }

  lemma {:induction false} NoSectionsWhenSilent(views: seq<View>, k: nat)
    requires k <= |views|
    ensures SectionsFrom(views, k) == [] <==> AllSilent(views, k)
  {
    if k > 0 { NoSectionsWhenSilent(views, k - 1); }
  }

  lemma {:induction false} ExtendedInjective(a: seq<Section>, s: string, b: seq<Section>, t: string)
    requires a == [] <==> b == []
    ensures Extended(a, s) == Extended(b, t) <==> a == b && s == t
  {
    if a != [] && Extended(a, s) == Extended(b, t) {
      var m, n := |a| - 1, |b| - 1;
      assert Extended(a, s)[m] == a[m].(texts := a[m].texts + [s])
        && Extended(b, t)[n] == b[n].(texts := b[n].texts + [t]);
      assert Extended(a, s)[..m] == a[..m] && Extended(b, t)[..n] == b[..n];
      LastTexts(a[m].texts, s, b[n].texts, t);
      assert a == a[..m] + [a[m]] && b == b[..n] + [b[n]];
    }
  }

  lemma {:induction false} LastTexts(a: seq<string>, s: string, b: seq<string>, t: string)
    requires a + [s] == b + [t]
    ensures a == b && s == t
  {
    assert (a + [s])[..|a|] == a && (b + [t])[..|b|] == b && (a + [s])[|a|] == s && (b + [t])[|b|] == t;
  }

  /** A clause just opened holds no text, one just extended holds some. */
  lemma {:induction false} OpenedIsNotExtended(a: seq<Section>, title: string, b: seq<Section>, text: string)
    ensures a + [Section(title, [])] != Extended(b, text)
  {
    var opening, grown := a + [Section(title, [])], Extended(b, text);
    assert opening[|opening| - 1].texts == [] && grown[|grown| - 1].texts != [];
  }

  /** Silent at the same places, two readings have the same clauses exactly when they put the same parts
      into them. */
  lemma {:induction false} SectionsDetermineParts(a: seq<View>, b: seq<View>, k: nat)
    requires SameSilence(a, b) && k <= |a|
    ensures SectionsFrom(a, k) == SectionsFrom(b, k) <==> SameParts(a, b, k)
  {
    hide Extended;
    if k > 0 {
      SectionsDetermineParts(a, b, k - 1);
      NoSectionsWhenSilent(a, k - 1);
      NoSectionsWhenSilent(b, k - 1);
      LastPart(a, b, k);
      assert SameParts(a, b, k) <==> SameParts(a, b, k - 1) && SamePart(a[k - 1], b[k - 1]);
    }
  }

  lemma {:induction false} LastPart(a: seq<View>, b: seq<View>, k: nat)
    requires SameSilence(a, b) && 0 < k <= |a|
    requires SectionsFrom(a, k - 1) == [] <==> SectionsFrom(b, k - 1) == []
    ensures SectionsFrom(a, k) == SectionsFrom(b, k)
      <==> SectionsFrom(a, k - 1) == SectionsFrom(b, k - 1) && SamePart(a[k - 1], b[k - 1])
  {
    hide Extended;
    var x, y := SectionsFrom(a, k - 1), SectionsFrom(b, k - 1);
    match (a[k - 1], b[k - 1]) {
      case (Head(s, _), Head(t, _)) => OneMoreClause(x, s, y, t);
      case (Body(s), Body(t)) => ExtendedInjective(x, s, y, t);
      case (Head(s, _), Body(t)) => OpenedIsNotExtended(x, s, y, t);
      case (Body(s), Head(t, _)) => OpenedIsNotExtended(y, t, x, s);
      case (_, _) =>
    }
  }

  lemma {:induction false} OneMoreClause(a: seq<Section>, s: string, b: seq<Section>, t: string)
    ensures a + [Section(s, [])] == b + [Section(t, [])] <==> a == b && s == t
  {
    var x, y := a + [Section(s, [])], b + [Section(t, [])];
    assert x[..|x| - 1] == a && y[..|y| - 1] == b && x[|x| - 1].heading == s && y[|y| - 1].heading == t;
  }

  /** The blocks tell the sections they were made of. */
  lemma {:induction false} NumberedInjective(a: seq<Section>, b: seq<Section>)
    requires Numbered(a) == Numbered(b)
    ensures a == b
  {
    hide BlockOf;
    assert |Numbered(a)| == |a| && |Numbered(b)| == |b|;
    forall i | 0 <= i < |a| ensures a[i] == b[i] {
      assert Numbered(a)[i] == BlockOf(i + 1, a[i]) && Numbered(b)[i] == BlockOf(i + 1, b[i]);
      BlockTellsSection(i + 1, a[i], b[i]);
    }
  }

  lemma {:induction false} BlockTellsSection(position: nat, a: Section, b: Section)
    requires BlockOf(position, a) == BlockOf(position, b)
    ensures a == b
  {
    hide BlockId, Joined, SpanOf, Cuts;
    SpansRebuild(position, a);
    SpansRebuild(position, b);
  }

  /** Two readings silent at the same places give the same block map exactly when both are refused, or
      neither is and they put the same parts into it. */
  lemma {:induction false} BlocksDetermineParts(a: seq<View>, b: seq<View>)
    requires SameSilence(a, b)
    ensures BlocksFrom(a) == BlocksFrom(b)
      <==> ((AnyRefused(a, |a|) && AnyRefused(b, |b|))
            || (!AnyRefused(a, |a|) && !AnyRefused(b, |b|) && SameParts(a, b, |a|)))
  {
    hide Numbered, SectionsFrom, AnyRefused, SamePart;
    SectionsDetermineParts(a, b, |a|);
    if BlocksFrom(a) == BlocksFrom(b) && BlocksFrom(a).Some? {
      NumberedInjective(SectionsFrom(a, |a|), SectionsFrom(b, |b|));
    }
  }

  // ---------------------------------------------------------------------
  // The two block maps
  // ---------------------------------------------------------------------

  /** What is asked of the markup the readers go through: no revision wrapper brings to light what a
      reader looks for, and nothing struck is read as standing in a paragraph that is kept. */
  predicate DocumentPlaced(body: seq<Node>) {
    var ps := Paragraphs(InBody, body);
    && ControlsPlaced(InBody, body) && Unveiled(InBody, body) == 0
    && (forall i | 0 <= i < |ps| :: Placed(ps[i]))
    && (forall p | p in Kept(ps) :: NothingRevived(p.children, false))
  }

  /** The accepted document's paragraphs, as views. */
  lemma {:induction false} AcceptedViews(body: seq<Node>)
    requires DocumentPlaced(body)
    ensures Views(Kept(Paragraphs(InBody, Spliced(body)))) == SeenViews(Kept(Paragraphs(InBody, body)))
    ensures forall p | p in Kept(Paragraphs(InBody, body)) :: Placed(p)
  {
    hide Kept, Paragraphs, Spliced, Placed, ControlsPlaced, Unveiled, NothingRevived, ViewOf, SeenView, AcceptedNode;
    var ps := Paragraphs(InBody, body);
    ParagraphsSpliced(InBody, body);
    KeptAgree(ps);
    var kept := Kept(ps);
    forall i | 0 <= i < |kept| ensures Placed(kept[i]) && ViewOf(AcceptedNode(kept[i])) == SeenView(kept[i]) {
      assert kept[i] in kept;
      KeptIsOne(ps, i);
      AcceptedView(kept[i]);
    }
    assert Views(AcceptedAll(kept)) == SeenViews(kept);
  }

  lemma {:induction false} PartsAgree(kept: seq<Node>)
    requires forall p | p in kept :: Placed(p) && NothingRevived(p.children, false)
    ensures SameSilence(SeenViews(kept), Views(kept))
    ensures SameParts(SeenViews(kept), Views(kept), |kept|) <==> forall p | p in kept :: PartAgrees(p)
  {
    hide Placed, NothingRevived, ViewOf, SeenView, PartAgrees, AcceptedNode, SamePart;
    var a, b := SeenViews(kept), Views(kept);
    forall i | 0 <= i < |kept|
        ensures (SamePart(a[i], b[i]) <==> PartAgrees(kept[i])) && a[i].Nothing? == b[i].Nothing? {
      assert kept[i] in kept;
      AcceptedView(kept[i]);
      ViewsAgree(kept[i]);
      BothSilent(kept[i]);
    }
    if forall p | p in kept :: PartAgrees(p) {
      forall i | 0 <= i < |kept| ensures SamePart(a[i], b[i]) { assert kept[i] in kept; }
    }
    if SameParts(a, b, |kept|) {
      forall p | p in kept ensures PartAgrees(p) {
        var i :| 0 <= i < |kept| && kept[i] == p;
        assert SamePart(a[i], b[i]);
      }
    }
  }

  lemma {:induction false} BothSilent(p: Node)
    ensures SeenView(p).Nothing? == ViewOf(p).Nothing?
  {
    hide RecordOf, IsBoundary, SignalsOf, Label, CleanText, FoldResults, FieldsLeft, TextThrough, AllBoldThrough,
      Suspicious;
  }

  /** The raw document and the accepted document have the same block map - the same ids, headings, texts
      and spans - exactly when both reads are refused, or neither is and every kept paragraph with
      accepted text has agreeing boldness and opens a clause or has agreeing fields. */
  lemma {:induction false} BlockMapsAgree(body: seq<Node>)
    requires DocumentPlaced(body)
    ensures var kept := Kept(Paragraphs(InBody, body));
            var raw, seen := AnyRefused(Views(kept), |kept|), AnyRefused(SeenViews(kept), |kept|);
            BlocksFrom(Views(Kept(Paragraphs(InBody, Spliced(body))))) == BlocksFrom(Views(kept))
            <==> (raw && seen) || (!raw && !seen && forall p | p in kept :: PartAgrees(p))
  {
    hide Kept, Paragraphs, Spliced, Placed, ControlsPlaced, Unveiled, NothingRevived, ViewOf, SeenView, BlocksFrom,
      AnyRefused, PartAgrees,
      SameSilence, SameParts;
    var kept := Kept(Paragraphs(InBody, body));
    AcceptedViews(body);
    PartsAgree(kept);
    BlocksDetermineParts(SeenViews(kept), Views(kept));
  }

  /** Whether a read is refused or not: where boldness and fields agree in every kept paragraph with
      accepted text, both reads give the same, refusal or block map. */
  lemma {:induction false} AlikeDocumentsAgree(body: seq<Node>)
    requires DocumentPlaced(body)
    requires forall p | p in Kept(Paragraphs(InBody, body)) ::
      RecordOf(p.children).resulting == "" || (BoldnessAgrees(p) && FieldsAgree(p))
    ensures BlocksFrom(Views(Kept(Paragraphs(InBody, Spliced(body)))))
      == BlocksFrom(Views(Kept(Paragraphs(InBody, body))))
  {
    AcceptedViews(body);
    hide Kept, Paragraphs, Spliced, Placed, ControlsPlaced, Unveiled, NothingRevived, BlocksFrom, ViewOf, SeenView,
      BoldnessAgrees, FieldsAgree;
    var kept := Kept(Paragraphs(InBody, body));
    forall i | 0 <= i < |kept| ensures SeenView(kept[i]) == ViewOf(kept[i]) {
      assert kept[i] in kept;
      OneAlike(kept[i]);
    }
    assert SeenViews(kept) == Views(kept);
  }

  lemma {:induction false} OneAlike(p: Node)
    requires Placed(p) && NothingRevived(p.children, false)
    requires RecordOf(p.children).resulting == "" || (BoldnessAgrees(p) && FieldsAgree(p))
    ensures SeenView(p) == ViewOf(p)
  {
    AcceptedView(p);
    ViewsAgree(p);
    hide RecordOf, BoldnessAgrees, FieldsAgree, IsBoundary, SignalsOf, FoldResults, FieldsLeft, CleanText, Suspicious,
      Label, AcceptedNode,
      TextThrough, AllBoldThrough;
  }
}
