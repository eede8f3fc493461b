/** What each kind of element reads as, alone and in a run (`_walk_content`, `_process_run`,
    `_iter_field_events` and `_paragraph_mark_revisions`,
    `scripts/extraction_normalization_stage.py`). The other modules prove laws over these
    readings; this one says, element by element and in terms of text, what the readings are. */
module ReadingTables {
  import opened Prelude
  import Characters
  import opened Markup
  import opened Reading
  import opened ParagraphText
  import opened ParagraphDraft
  import opened ParagraphRecord
  import opened FieldEvents

  // ---------------------------------------------------------------------
  // Characters
  // ---------------------------------------------------------------------

  /** `at` are the positions of the other characters, in order. */
  ghost predicate OtherPositions(s: string, at: seq<nat>) {
    && (forall a, b | 0 <= a < b < |at| :: at[a] < at[b])
    && (forall i: nat :: i in at <==> i < |s| && s[i] as int != 0xAD)
  }

  predicate ReadsAt(s: string, at: seq<nat>, r: string) {
    |r| == |at| && forall k | 0 <= k < |at| :: at[k] < |s| && r[k] == s[at[k]]
  }

  /** Soft hyphens go, and every other character stays, in its order. */
  lemma {:induction false} SoftHyphensAlone(s: string) returns (at: seq<nat>)
    ensures OtherPositions(s, at) && ReadsAt(s, at, WithoutSoftHyphens(s))
  {
    hide OtherPositions, ReadsAt;
    if s == "" {
      at := [];
      NoPositions();
    } else {
      var rest := SoftHyphensAlone(s[1..]);
      PositionsShift(s, rest, WithoutSoftHyphens(s[1..]));
      at := if s[0] as int == 0xAD then Later(rest) else [0] + Later(rest);
    }
  }

  lemma {:induction false} NoPositions()
    ensures OtherPositions("", []) && ReadsAt("", [], "")
  {
  }

  function Later(at: seq<nat>): seq<nat> {
    seq(|at|, k requires 0 <= k < |at| => at[k] + 1)
  }

  lemma {:induction false} LaterAre(at: seq<nat>, i: nat)
    ensures i in Later(at) <==> i > 0 && i - 1 in at
  {
    if i > 0 && i - 1 in at {
      var k :| 0 <= k < |at| && at[k] == i - 1;
      assert Later(at)[k] == i;
    }
  }

  lemma {:induction false} PositionsShift(s: string, rest: seq<nat>, r: string)
    requires s != "" && OtherPositions(s[1..], rest) && ReadsAt(s[1..], rest, r)
    ensures s[0] as int == 0xAD ==> OtherPositions(s, Later(rest)) && ReadsAt(s, Later(rest), "" + r)
    ensures s[0] as int != 0xAD ==> OtherPositions(s, [0] + Later(rest)) && ReadsAt(s, [0] + Later(rest), [s[0]] + r)
  {
    ReadsShift(s, rest, r);
    forall i: nat ensures i in Later(rest) <==> 0 < i < |s| && s[i] as int != 0xAD {
      LaterAre(rest, i);
      if i > 0 { assert i - 1 in rest <==> i - 1 < |s[1..]| && s[1..][i - 1] as int != 0xAD; }
    }
    hide ReadsAt;
    assert forall i: nat :: i in [0] + Later(rest) <==> i == 0 || i in Later(rest);
  }

  lemma {:induction false} ReadsShift(s: string, rest: seq<nat>, r: string)
    requires s != "" && ReadsAt(s[1..], rest, r)
    ensures ReadsAt(s, Later(rest), "" + r) && ReadsAt(s, [0] + Later(rest), [s[0]] + r)
  {
    assert "" + r == r;
    LaterReads(s, rest, r);
    ReadsFirst(s, Later(rest), r);
  }

  lemma {:induction false} LaterReads(s: string, rest: seq<nat>, r: string)
    requires s != "" && ReadsAt(s[1..], rest, r)
    ensures ReadsAt(s, Later(rest), r)
  {
    forall k | 0 <= k < |rest| ensures Later(rest)[k] < |s| && r[k] == s[Later(rest)[k]] {
      assert r[k] == s[1..][rest[k]];
    }
  }

  lemma {:induction false} ReadsFirst(s: string, at: seq<nat>, r: string)
    requires s != "" && ReadsAt(s, at, r)
    ensures ReadsAt(s, [0] + at, [s[0]] + r)
  {
    var more, longer := [0] + at, [s[0]] + r;
    forall k | 0 <= k < |more| ensures more[k] < |s| && longer[k] == s[more[k]] {
      if k > 0 { assert more[k] == at[k - 1] && longer[k] == r[k - 1]; }
    }
  }

  /** A character that makes a text suspicious: an invisible one, or a byte-order mark that does not open
      it. */
  lemma {:induction false} SuspiciousExactly(text: string, i: nat)
    requires i < |text|
    ensures var n := text[i] as int;
            SuspiciousAt(text, i)
            <==> ((n == 0xFEFF && i > 0) || n == 0x034F || 0x115F <= n <= 0x1160 || n == 0x180E || 0x200B <= n <= 0x200F
                  || 0x202A <= n <= 0x202E || 0x2060 <= n <= 0x2064 || 0x2066 <= n <= 0x2069 || n == 0x3164
                  || 0xFE00 <= n <= 0xFE0F || n == 0xFFA0 || 0xE0000 <= n <= 0xE007F || 0xE0100 <= n <= 0xE01EF)
  {
    var n, c := text[i] as int, SUSPICIOUS_CONTROL_RANGES;
    var d := c.rest.rest.rest.rest;
    var e := d.rest.rest.rest.rest;
    Characters.FourRanges(n, c);
    Characters.FourRanges(n, d);
    Characters.FourRanges(n, e);
  }

  // ---------------------------------------------------------------------
  // A run's children
  // ---------------------------------------------------------------------

  /** The text a run's children spell, read as text or as deleted text, and the part of it clause boundaries
      are decided on. */
  function Spelled(children: seq<Node>, deleted: bool): string {
    Text(RunGlyphs(Items(children), deleted))
  }

  function SpelledForBoundary(children: seq<Node>, deleted: bool): string {
    BoundaryText(RunGlyphs(Items(children), deleted))
  }

  lemma {:induction false} ItemsConcat(a: seq<Node>, b: seq<Node>)
    ensures Items(a + b) == Items(a) + Items(b)
  {
    hide ItemsOf;
    if a == [] {
      assert a + b == b;
    } else {
      ItemsConcat(a[1..], b);
      assert (a + b)[1..] == a[1..] + b && (a + b)[0] == a[0];
    }
  }

  lemma {:induction false} RunGlyphsConcat(a: seq<Item>, b: seq<Item>, deleted: bool)
    ensures RunGlyphs(a + b, deleted) == RunGlyphs(a, deleted) + RunGlyphs(b, deleted)
  {
    hide ItemGlyphs;
    if a == [] {
      assert a + b == b;
    } else {
      RunGlyphsConcat(a[1..], b, deleted);
      assert (a + b)[1..] == a[1..] + b && (a + b)[0] == a[0];
    }
  }

  /** A run spells what its children spell one after the other. */
  lemma {:induction false} SpelledInTurn(a: seq<Node>, b: seq<Node>, deleted: bool)
    ensures Spelled(a + b, deleted) == Spelled(a, deleted) + Spelled(b, deleted)
    ensures SpelledForBoundary(a + b, deleted) == SpelledForBoundary(a, deleted) + SpelledForBoundary(b, deleted)
  {
    ItemsConcat(a, b);
    RunGlyphsConcat(Items(a), Items(b), deleted);
    BoundaryTextConcat(RunGlyphs(Items(a), deleted), RunGlyphs(Items(b), deleted));
  }

  lemma {:induction false} GlyphsSpell(s: string, boundary: bool)
    ensures Text(GlyphsFor(s, boundary)) == s
    ensures BoundaryText(GlyphsFor(s, boundary)) == if boundary then s else ""
  {
    if s != "" {
      GlyphsSpell(s[1..], boundary);
      assert GlyphsFor(s, boundary)[1..] == GlyphsFor(s[1..], boundary);
    }
  }

  /** What one child of a run spells. */
  lemma {:induction false} ChildSpells(child: Node, deleted: bool)
    ensures Spelled([child], deleted)
      == match child.tag
         case T => if deleted then "" else WithoutSoftHyphens(child.val)
         case DelText => if deleted then WithoutSoftHyphens(child.val) else ""
         case TabMark => "\t"
         case Br => "\n"
         case Cr => "\n"
         case NoBreakHyphen => [0x2011 as char]
         case Sym => child.val
         case _ => ""
    ensures SpelledForBoundary([child], deleted)
      == match child.tag
         case T => if deleted then "" else WithoutSoftHyphens(child.val)
         case DelText => if deleted then WithoutSoftHyphens(child.val) else ""
         case TabMark => "\t"
         case _ => ""
  {
    hide WithoutSoftHyphens, GlyphsFor, Text, BoundaryText, Items, RunGlyphs;
    OneItem(child, deleted);
    ChildItem(child, deleted);
    GlyphsSpell(WithoutSoftHyphens(child.val), true);
    GlyphsSpell(child.val, false);
    NothingSpelled();
  }

  lemma {:induction false} ChildItem(child: Node, deleted: bool)
    ensures (if ItemsOf(child) == [] then [] else ItemGlyphs(ItemsOf(child)[0], deleted))
      == match child.tag
         case T => if deleted then [] else GlyphsFor(WithoutSoftHyphens(child.val), true)
         case DelText => if deleted then GlyphsFor(WithoutSoftHyphens(child.val), true) else []
         case TabMark => [Glyph('\t', true)]
         case Br => [Glyph('\n', false)]
         case Cr => [Glyph('\n', false)]
         case NoBreakHyphen => [Glyph(0x2011 as char, false)]
         case Sym => GlyphsFor(child.val, false)
         case _ => []
  {
    hide WithoutSoftHyphens, GlyphsFor;
  }

  lemma {:induction false} NothingSpelled()
    ensures Text([]) == "" == BoundaryText([])
    ensures forall glyph :: Text([glyph]) == [glyph.letter] && BoundaryText([glyph]) == BoundaryLetter(glyph)
  {
    forall glyph ensures BoundaryText([glyph]) == BoundaryLetter(glyph) {
      assert [glyph][1..] == [];
    }
  }

  lemma {:induction false} OneItem(child: Node, deleted: bool)
    ensures var items := ItemsOf(child);
            RunGlyphs(Items([child]), deleted) == if items == [] then [] else ItemGlyphs(items[0], deleted)
  {
    var items := ItemsOf(child);
    assert [child][1..] == [] && Items([child]) == items;
    if items != [] { assert items[1..] == []; }
  }

  // ---------------------------------------------------------------------
  // Elements
  // ---------------------------------------------------------------------

  /** What an element alone adds to the accepted text and to the text before any edit. */
  function Accepted(node: Node): string {
    Text(AcceptGlyphs(Leaves([node], TOP)))
  }

  function Original(node: Node): string {
    Text(OriginalGlyphs(Leaves([node], TOP)))
  }

  /** The wrappers whose content is read as if it stood there itself. */
  predicate Wraps(tag: Tag) {
    tag in {Hyperlink, MoveTo, SmartTag, Dir, Bdo, CustomXml}
  }

  lemma {:induction false} OneNode(node: Node, c: Context)
    ensures Leaves([node], c) == LeavesOf(node, c)
  {
    hide LeavesOf;
    assert [node][1..] == [];
  }

  lemma {:induction false} WrapperLeaves(node: Node, c: Context)
    requires Wraps(node.tag)
    ensures Leaves([node], c) == OwnLeaves(node, c) + Leaves(node.children, c)
  {
    OneNode(node, c);
    assert Content(node) == node.children;
    if node.children == [] { assert Leaves(node.children, c) == []; }
  }

  lemma {:induction false} OwnAddsNothing(node: Node, c: Context, rest: seq<Leaf>)
    requires Wraps(node.tag)
    ensures AcceptGlyphs(OwnLeaves(node, c) + rest) == AcceptGlyphs(rest)
    ensures OriginalGlyphs(OwnLeaves(node, c) + rest) == OriginalGlyphs(rest)
  {
    var own := OwnLeaves(node, c);
    if own == [] {
      assert own + rest == rest;
    } else {
      assert (own + rest)[1..] == rest;
    }
  }

  /** A wrapper's content is read as if it stood there itself. */
  lemma {:induction false} WrappedReads(node: Node)
    requires Wraps(node.tag)
    ensures Accepted(node) == Text(AcceptGlyphs(Leaves(node.children, TOP)))
    ensures Original(node) == Text(OriginalGlyphs(Leaves(node.children, TOP)))
  {
    WrapperLeaves(node, TOP);
    OwnAddsNothing(node, TOP, Leaves(node.children, TOP));
  }

  /** A content control reads as its content, or as nothing while it shows its placeholder. */
  lemma {:induction false} ControlReads(node: Node)
    requires node.tag == Sdt
    ensures Leaves([node], TOP)
      == if ShowsPlaceholder(node.children) then [] else Leaves(FindChildren(node.children, SdtContent), TOP)
  {
    OneNode(node, TOP);
    if Content(node) == [] { assert Leaves(Content(node), TOP) == []; }
  }

  /** What neither is a run, a simple field or a bookmark, nor wraps what is read, reads as nothing. */
  lemma {:induction false} OthersReadNothing(node: Node, c: Context)
    requires !Wraps(node.tag) && node.tag !in {R, Ins, Del, Sdt, FldSimple, BookmarkStart}
    ensures Leaves([node], c) == []
  {
    OneNode(node, c);
  }

  /** A run stands in both texts when it is read plain; inserted, in the accepted text alone; struck, in the text
      before any edit alone, its deleted text counting there and its other text not; hidden, in neither. */
  lemma {:induction false} RunReads(run: Node, ins: Node, del: Node)
    requires run.tag == R && ins.tag == Ins && del.tag == Del && ins.children == [run] == del.children
    ensures Accepted(run) == Original(run) == if run.hidden then "" else Spelled(run.children, false)
    ensures Accepted(ins) == (if run.hidden then "" else Spelled(run.children, false)) && Original(ins) == ""
    ensures Accepted(del) == "" && Original(del) == if run.hidden then "" else Spelled(run.children, true)
  {
    hide RunGlyphs, Items, Leaves, AcceptGlyphs, OriginalGlyphs, Text;
    PlainRunLeaf(run);
    RevisedRunLeaf(run, ins, TOP);
    RevisedRunLeaf(run, del, TOP);
    var items := Items(run.children);
    OneRunLeaf(run.hidden, items, TOP);
    OneRunLeaf(run.hidden, items, Context(Inserted, false, ins.val, false));
    OneRunLeaf(run.hidden, items, Context(Deleted, true, del.val, false));
    NothingSpelled();
  }

  lemma {:induction false} PlainRunLeaf(run: Node)
    requires run.tag == R
    ensures Leaves([run], TOP) == [RunLeaf(run.hidden, Items(run.children), TOP)]
  {
    hide Items;
    OneNode(run, TOP);
  }

  lemma {:induction false} OneRunLeaf(hidden: bool, items: seq<Item>, c: Context)
    ensures AcceptGlyphs([RunLeaf(hidden, items, c)])
      == if hidden || c.mode == Deleted then [] else RunGlyphs(items, false)
    ensures OriginalGlyphs([RunLeaf(hidden, items, c)])
      == if hidden || c.mode == Inserted then [] else RunGlyphs(items, c.mode == Deleted)
  {
    var leaf := RunLeaf(hidden, items, c);
    assert [leaf][1..] == [] && AcceptGlyphs([]) == [] && OriginalGlyphs([]) == [];
  }

  /** A run in an insertion or a deletion is read as that, by the author it names, or by the author around
      it when it names none. */
  lemma {:induction false} RevisedRunLeaf(run: Node, revision: Node, c: Context)
    requires run.tag == R && revision.tag in {Ins, Del} && revision.children == [run]
    ensures Leaves([revision], c)
      == [RunLeaf(run.hidden, Items(run.children),
                  Context(if revision.tag == Ins then Inserted else Deleted, c.struck || revision.tag == Del,
                          if revision.val != "" then revision.val else c.author, c.inField))]
  {
    hide Items;
    OneNode(revision, c);
    OneNode(run, Inside(revision, c));
  }

  // ---------------------------------------------------------------------
  // Field events
  // ---------------------------------------------------------------------

  /** What one child of a visible run tells of fields. */
  lemma {:induction false} ChildEvents(child: Node)
    ensures RunEvents(Items([child]))
      == match child.tag
         case FldChar =>
           if child.val == "begin" then [Begin]
           else if child.val == "separate" then [Separate]
           else if child.val == "end" then [End]
           else []
         case InstrText => [Instr(child.val)]
         case T => if child.val != "" then [Shown(child.val)] else []
         case TabMark => [Shown("\t")]
         case _ => []
  {
    var items := ItemsOf(child);
    assert [child][1..] == [] && Items([child]) == items;
    if items != [] { assert items[1..] == []; }
  }

  // ---------------------------------------------------------------------
  // The paragraph's own mark
  // ---------------------------------------------------------------------

  /** Exactly the insertions and deletions directly among the mark's run properties are noted, each with its
      author, or as unknown. */
  lemma {:induction false} MarksExactly(properties: seq<Node>, note: MarkNote)
    ensures note in MarksIn(properties)
      <==> exists p | p in properties ::
        p.tag == (if note.deleted then Del else Ins) && note.author == if p.val != "" then p.val else "unknown"
  {
    if properties != [] {
      MarksExactly(properties[1..], note);
      assert forall p :: p in properties <==> p == properties[0] || p in properties[1..];
      var p := properties[0];
      assert note in MarkOf(p)
        <==> p.tag == (if note.deleted then Del else Ins) && note.author == if p.val != "" then p.val else "unknown";
    }
  }

  // ---------------------------------------------------------------------
  // Neighbouring edits
  // ---------------------------------------------------------------------

  /** Two edits side by side by named authors are one pending change when the author is one, and two when not;
      plain text between them always makes them two. */
  lemma {:induction false} NeighbouringEdits(d: Draft, a: string, b: string, between: string)
    requires a != "" && b != "" && d.open.None?
    ensures |Closed(Ensured(Ensured(d, a, false), b, false)).clusters| == |d.clusters| + if a == b then 1 else 2
    ensures |Closed(Ensured(WithPlain(Ensured(d, a, false), between, between), b, false)).clusters| == |d.clusters| + 2
    ensures |Closed(Ensured(Ensured(d, "", false), b, false)).clusters| == |d.clusters| + 1
    ensures |Closed(Ensured(Ensured(d, a, false), "", false)).clusters| == |d.clusters| + 1
    ensures Closed(Ensured(Ensured(d, a, true), a, false)).clusters == d.clusters + [Cluster(a, true, None)]
    ensures Closed(Ensured(Ensured(d, a, false), a, true)).clusters == d.clusters + [Cluster(a, true, None)]
    ensures Closed(Ensured(Ensured(d, a, false), a, false)).clusters == d.clusters + [Cluster(a, false, None)]
  {
  }
}
