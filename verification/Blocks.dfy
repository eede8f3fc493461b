/** From paragraphs to addressed blocks: grouping under clause boundaries, normalization and numbering, and
    the block map, all in `scripts/extraction_normalization_stage.py`. */
module Blocks {
  import opened Prelude
  import opened Markup
  import opened Boundaries
  import opened ParagraphRecord

  // ---------------------------------------------------------------------
  // Grouping
  // ---------------------------------------------------------------------

  const UNTITLED: string := "<untitled>"

  /** A logical paragraph before normalization. `source` is the boundary paragraph's own record;
      a group that emits no block only carries dispositions. */
  datatype Group = Group(heading: string, source: Option<Record>, physical: seq<Record>, emitsBlock: bool)

  /** What one paragraph does to the grouping. */
  datatype Entry = Spacer | Opening(title: string, record: Record) | Member(record: Record)

  function Label(text: string): string {
    if CleanHeading(text) != "" then CleanHeading(text) else UNTITLED
  }

  function EntryOf(p: Node): Entry {
    var r := RecordOf(p.children);
    if r.resulting == "" && !r.HasRevisions() then Spacer
    else if r.resulting != "" && IsBoundary(r.boundary, SignalsOf(p.children)) then Opening(Label(r.resulting), r)
    else Member(r)
  }

  function EntriesOf(ps: seq<Node>): seq<Entry> {
    seq(|ps|, i requires 0 <= i < |ps| => EntryOf(ps[i]))
  }

  /** The groups closed so far, the open one, and the struck paragraphs held before any opened. */
  datatype Grouping = Grouping(closed: seq<Group>, current: Option<Group>, leading: seq<Record>)

  function Flushed(g: Grouping): seq<Group> {
    g.closed + if g.current.Some? then [g.current.value] else []
  }

  function Add(g: Grouping, entry: Entry): Grouping {
    match entry
    case Spacer => g
    case Opening(title, record) => Grouping(Flushed(g), Some(Group(title, Some(record), [], true)), g.leading)
    case Member(record) =>
      if g.current.Some? then g.(current := Some(g.current.value.(physical := g.current.value.physical + [record])))
      else if record.resulting == "" then g.(leading := g.leading + [record])
      else g.(current := Some(Group(UNTITLED, None, [record], true)))
  }

  function GroupingTo(entries: seq<Entry>, k: nat): Grouping
    requires k <= |entries|
  {
    if k == 0 then Grouping([], None, []) else Add(GroupingTo(entries, k - 1), entries[k - 1])
  }

  /** The logical paragraphs; struck leading paragraphs come first, in a group without a block. */
  function Groups(entries: seq<Entry>): seq<Group> {
    var g := GroupingTo(entries, |entries|);
    (if g.leading == [] then [] else [Group(UNTITLED, None, g.leading, false)]) + Flushed(g)
  }

  /** One paragraph of the grouping loop. */
  method AddParagraph(p: Node, closed: seq<Group>, current: Option<Group>, leading: seq<Record>)
    returns (nowClosed: seq<Group>, nowCurrent: Option<Group>, nowLeading: seq<Record>)
    ensures Grouping(nowClosed, nowCurrent, nowLeading) == Add(Grouping(closed, current, leading), EntryOf(p))
  {
    hide RecordOf, IsBoundary, SignalsOf, Label;
    nowClosed, nowCurrent, nowLeading := closed, current, leading;
    var record := BuildParagraphRecord(p.children);
    if record.resulting == "" && !record.HasRevisions() {
      return;
    }
    if record.resulting != "" && IsBoundary(record.boundary, SignalsOf(p.children)) {
      nowClosed := closed + if current.Some? then [current.value] else [];
      nowCurrent := Some(Group(Label(record.resulting), Some(record), [], true));
    } else {
      if current.None? {
        if record.resulting == "" {
          nowLeading := leading + [record];
          return;
        }
        nowCurrent := Some(Group(UNTITLED, None, [], true));
      }
      nowCurrent := Some(nowCurrent.value.(physical := nowCurrent.value.physical + [record]));
      assert [] + [record] == [record];
    }
  }

  /** `_extract_document_paragraphs_from_root`, past the partition. */
  method ExtractGroups(ps: seq<Node>) returns (groups: seq<Group>)
    ensures groups == Groups(EntriesOf(ps))
  {
    hide EntryOf, Add;
    ghost var entries := EntriesOf(ps);
    var closed: seq<Group>, current: Option<Group>, leading: seq<Record> := [], None, [];
    for k := 0 to |ps|
      invariant Grouping(closed, current, leading) == GroupingTo(entries, k)
    {
      closed, current, leading := AddParagraph(ps[k], closed, current, leading);
    }
    groups := closed;
    if current.Some? { groups := groups + [current.value]; }
    if leading != [] { groups := [Group(UNTITLED, None, leading, false)] + groups; }
  }

  // ---------------------------------------------------------------------
  // Normalization
  // ---------------------------------------------------------------------

  /** A clause: its heading and its non-empty paragraphs' clean texts. */
  datatype Section = Section(heading: string, texts: seq<string>)

  /** An addressed block. `spans` are the ranges its paragraphs occupy in `text`. */
  datatype Block = Block(id: string, heading: string, text: string, spans: seq<(nat, nat)>)

  /** The non-empty clean texts of the first `k` records. */
  function CleanTexts(records: seq<Record>, k: nat): seq<string>
    requires k <= |records|
  {
    if k == 0 then []
    else CleanTexts(records, k - 1) + (if CleanText(records[k - 1]) != "" then [CleanText(records[k - 1])] else [])
  }

  /** A group fails closed when its boundary paragraph or one of its own does. */
  predicate Fails(group: Group) {
    || (group.source.Some? && Normalized(group.heading, group.source.value).None?)
    || (exists i | 0 <= i < |group.physical| :: Normalized(group.heading, group.physical[i]).None?)
  }

  predicate AnyFails(groups: seq<Group>, k: nat)
    requires k <= |groups|
  {
    k > 0 && (Fails(groups[k - 1]) || AnyFails(groups, k - 1))
  }

  function SectionOf(group: Group): seq<Section> {
    var texts := CleanTexts(group.physical, |group.physical|);
    if group.emitsBlock || texts != [] then [Section(group.heading, texts)] else []
  }

  function SectionsTo(groups: seq<Group>, k: nat): seq<Section>
    requires k <= |groups|
  {
    if k == 0 then [] else SectionsTo(groups, k - 1) + SectionOf(groups[k - 1])
  }

  /** `"\n".join(texts)`. */
  function Joined(texts: seq<string>): string {
    JoinedTo(texts, |texts|)
  }

  function JoinedTo(texts: seq<string>, k: nat): string
    requires k <= |texts|
  {
    if k == 0 then "" else if k == 1 then texts[0] else JoinedTo(texts, k - 1) + "\n" + texts[k - 1]
  }

  /** The span of text `i`: each text starts one newline past the one before. */
  function SpanOf(texts: seq<string>, i: nat): (nat, nat)
    requires i < |texts|
  {
    var start := if i == 0 then 0 else SpanOf(texts, i - 1).1 + 1;
    (start, start + |texts[i]|)
  }

  /** `_block_id`. */
  function BlockId(position: nat): string {
    "p" + Padded(position, 4)
  }

  function BlockOf(position: nat, section: Section): Block {
    Block(BlockId(position), section.heading, Joined(section.texts),
          seq(|section.texts|, i requires 0 <= i < |section.texts| => SpanOf(section.texts, i)))
  }

  /** The sections, addressed in document order from one. */
  function Numbered(sections: seq<Section>): seq<Block> {
    seq(|sections|, i requires 0 <= i < |sections| => BlockOf(i + 1, sections[i]))
  }

  /** All or nothing: one paragraph that fails closed fails the document. */
  function Outcome(groups: seq<Group>): Option<seq<Block>> {
    if AnyFails(groups, |groups|) then None else Some(Numbered(SectionsTo(groups, |groups|)))
  }

  method NormalizeGroup(group: Group) returns (failed: bool, texts: seq<string>)
    ensures failed <==> Fails(group)
    ensures !failed ==> texts == CleanTexts(group.physical, |group.physical|)
  {
    hide Normalized, CleanText;
    failed, texts := false, [];
    if group.source.Some? {
      var own := NormalizeParagraph(group.heading, group.source.value);
      failed := own.None?;
    }
    ghost var ownFailed := failed;
    for i := 0 to |group.physical|
      invariant failed <==> ownFailed || exists j | 0 <= j < i :: Normalized(group.heading, group.physical[j]).None?
      invariant !failed ==> texts == CleanTexts(group.physical, i)
    {
      var result := NormalizeParagraph(group.heading, group.physical[i]);
      NormalizedIs(group.heading, group.physical[i]);
      if result.None? {
        failed := true;
      } else if result.value != "" {
        texts := texts + [result.value];
      }
    }
  }

  lemma {:induction false} NormalizedIs(heading: string, record: Record)
    ensures Normalized(heading, record).Some? ==> Normalized(heading, record).value == CleanText(record)
  {
  }

  method JoinTexts(texts: seq<string>) returns (text: string, spans: seq<(nat, nat)>)
    ensures text == Joined(texts)
    ensures |spans| == |texts| && forall i | 0 <= i < |texts| :: spans[i] == SpanOf(texts, i)
  {
    hide SpanOf, NextStart, JoinedTo;
    text, spans := "", [];
    var pos := 0;
    JoinNone(texts);
    for i := 0 to |texts|
      invariant text == JoinedTo(texts, i)
      invariant |spans| == i && forall j | 0 <= j < i :: spans[j] == SpanOf(texts, j)
      invariant pos == NextStart(texts, i)
    {
      JoinNext(texts, i);
      var end := pos + |texts[i]|;
      NextSpan(texts, i);
      text := if i == 0 then texts[0] else text + "\n" + texts[i];
      spans := spans + [(pos, end)];
      pos := end + 1;
    }
  }

  /** Where the text after the first `i` starts. */
  function NextStart(texts: seq<string>, i: nat): nat
    requires i <= |texts|
  {
    if i == 0 then 0 else SpanOf(texts, i - 1).1 + 1
  }

  lemma {:induction false} JoinNone(texts: seq<string>)
    ensures JoinedTo(texts, 0) == "" && NextStart(texts, 0) == 0
  {
  }

  lemma {:induction false} JoinNext(texts: seq<string>, i: nat)
    requires i < |texts|
    ensures JoinedTo(texts, i + 1) == if i == 0 then texts[0] else JoinedTo(texts, i) + "\n" + texts[i]
  {
  }

  lemma {:induction false} NextSpan(texts: seq<string>, i: nat)
    requires i < |texts|
    ensures SpanOf(texts, i) == (NextStart(texts, i), NextStart(texts, i) + |texts[i]|)
    ensures NextStart(texts, i + 1) == SpanOf(texts, i).1 + 1
  {
  }

  /** The block of a normalized group, at its position. */
  method MakeBlock(position: nat, heading: string, texts: seq<string>) returns (block: Block)
    ensures block == BlockOf(position, Section(heading, texts))
  {
    hide SpanOf, Joined, BlockId;
    var text, spans := JoinTexts(texts);
    block := Block(BlockId(position), heading, text, spans);
  }

  lemma {:induction false} NumberedGrows(sections: seq<Section>, section: Section)
    ensures Numbered(sections + [section]) == Numbered(sections) + [BlockOf(|sections| + 1, section)]
  {
    hide BlockOf;
  }

  /** `normalize_paragraphs`. */
  method NormalizeParagraphs(groups: seq<Group>) returns (blocks: Option<seq<Block>>)
    ensures blocks == Outcome(groups)
  {
    hide Fails, CleanTexts, BlockOf;
    var failed, clean: seq<Block> := false, [];
    for k := 0 to |groups|
      invariant failed <==> AnyFails(groups, k)
      invariant !failed ==> clean == Numbered(SectionsTo(groups, k))
    {
      var bad, texts := NormalizeGroup(groups[k]);
      if bad {
        failed := true;
      } else {
        ghost var sections := SectionsTo(groups, k);
        if groups[k].emitsBlock || texts != [] {
          var block := MakeBlock(|clean| + 1, groups[k].heading, texts);
          clean := clean + [block];
          NumberedGrows(sections, Section(groups[k].heading, texts));
        } else {
          assert sections + [] == sections;
        }
      }
    }
    blocks := if failed then None else Some(clean);
  }

  // ---------------------------------------------------------------------
  // The block map
  // ---------------------------------------------------------------------

  /** `build_block_map`: positions by id, or nothing when an id is missing or repeated. */
  method BuildBlockMap(blocks: seq<Block>) returns (index: Option<map<string, nat>>)
    ensures index.Some? <==> IdsAddress(blocks, |blocks|)
    ensures index.Some? ==> forall id :: id in index.value <==> exists i | 0 <= i < |blocks| :: blocks[i].id == id
    ensures index.Some? ==> forall i | 0 <= i < |blocks| :: index.value[blocks[i].id] == i
  {
    var found: map<string, nat> := map[];
    for k := 0 to |blocks|
      invariant IdsAddress(blocks, k)
      invariant forall id :: id in found <==> exists i | 0 <= i < k :: blocks[i].id == id
      invariant forall i | 0 <= i < k :: found[blocks[i].id] == i
    {
      if blocks[k].id == "" || blocks[k].id in found {
        return None;
      }
      found := found[blocks[k].id := k];
    }
    return Some(found);
  }

  /** The first `k` blocks have ids, all different. */
  predicate IdsAddress(blocks: seq<Block>, k: nat)
    requires k <= |blocks|
  {
    && (forall i | 0 <= i < k :: blocks[i].id != "")
    && (forall i, j | 0 <= i < j < k :: blocks[i].id != blocks[j].id)
  }

  /** Ids are dense from p0001 and never repeat, so the block map of a normalized document is
      always built. */
  lemma {:induction false} IdsAreDense(sections: seq<Section>)
    ensures IdsAddress(Numbered(sections), |sections|)
    ensures forall i | 0 <= i < |sections| :: Numbered(sections)[i].id == BlockId(i + 1)
    ensures sections != [] ==> Numbered(sections)[0].id == "p0001"
  {
    hide BlockId;
    var blocks := Numbered(sections);
    forall i | 0 <= i < |sections| ensures blocks[i].id != "" { IdsDiffer(i + 1, i + 2); }
    forall i, j | 0 <= i < j < |sections| ensures blocks[i].id != blocks[j].id { IdsDiffer(i + 1, j + 1); }
    FirstId();
  }

  lemma {:induction false} IdsDiffer(i: nat, j: nat)
    requires i != j
    ensures BlockId(i) != BlockId(j) && BlockId(i) != ""
  {
    hide Padded;
    assert BlockId(i)[1..] == Padded(i, 4) && BlockId(j)[1..] == Padded(j, 4);
    if BlockId(i) == BlockId(j) { PaddedInjective(i, j, 4); }
  }

  lemma {:induction false} FirstId()
    ensures BlockId(1) == "p0001"
  {
    assert Decimal(1) == "1";
    assert Padded(1, 4) == "0001";
  }

  // ---------------------------------------------------------------------
  // Spans rebuild the text
  // ---------------------------------------------------------------------

  /** The ranges a block's spans cut its text into. */
  function Cuts(block: Block): seq<string>
    requires forall i | 0 <= i < |block.spans| :: block.spans[i].0 <= block.spans[i].1 <= |block.text|
  {
    seq(|block.spans|, i requires 0 <= i < |block.spans| => block.text[block.spans[i].0..block.spans[i].1])
  }

  lemma {:induction false} SpanFits(texts: seq<string>, i: nat, k: nat)
    requires i < k <= |texts|
    ensures var (start, end) := SpanOf(texts, i);
            start <= end <= |JoinedTo(texts, k)| && JoinedTo(texts, k)[start..end] == texts[i]
    ensures |JoinedTo(texts, k)| == SpanOf(texts, k - 1).1
  {
    if k > 1 {
      SpanFits(texts, if i < k - 1 then i else i - 1, k - 1);
      var before := JoinedTo(texts, k - 1);
      assert JoinedTo(texts, k) == before + "\n" + texts[k - 1];
      if i < k - 1 {
        var (start, end) := SpanOf(texts, i);
        assert JoinedTo(texts, k)[start..end] == before[start..end];
      }
    }
  }

  /** The paragraphs a block's spans cut out of its text, joined by newlines, are its text. */
  lemma {:induction false} SpansRebuild(position: nat, section: Section)
    ensures var b := BlockOf(position, section);
            && (forall i | 0 <= i < |b.spans| :: b.spans[i].0 <= b.spans[i].1 <= |b.text|)
            && Cuts(b) == section.texts && Joined(Cuts(b)) == b.text
  {
    hide BlockId, SpanOf, JoinedTo;
    var b := BlockOf(position, section);
    forall i | 0 <= i < |b.spans|
      ensures b.spans[i].0 <= b.spans[i].1 <= |b.text| && b.text[b.spans[i].0..b.spans[i].1] == section.texts[i]
    {
      SpanFits(section.texts, i, |section.texts|);
    }
    assert Cuts(b) == section.texts;
  }
}
