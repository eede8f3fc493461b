/** The three texts a paragraph's leaves spell (`_process_run`): raw and accepted tree spell the same. */
module ParagraphText {
  import opened Markup
  import opened Splice
  import opened Reading

  /** A visible character, and whether clause boundaries are decided on it too. */
  datatype Glyph = Glyph(letter: char, boundary: bool)

  const SOFT_HYPHEN: char := 0xAD as char
  const HARD_HYPHEN: char := 0x2011 as char

  /** `_strip_soft_hyphens`. */
  function WithoutSoftHyphens(s: string): string {
    if s == "" then "" else (if s[0] == SOFT_HYPHEN then "" else [s[0]]) + WithoutSoftHyphens(s[1..])
  }

  function GlyphsFor(s: string, boundary: bool): seq<Glyph> {
    seq(|s|, i requires 0 <= i < |s| => Glyph(s[i], boundary))
  }

  /** What one child of a run contributes when the run is read as deleted text, or as text. */
  function ItemGlyphs(item: Item, deleted: bool): seq<Glyph> {
    match item
    case TextItem(text) => if deleted then [] else GlyphsFor(WithoutSoftHyphens(text), true)
    case DeletedText(text) => if deleted then GlyphsFor(WithoutSoftHyphens(text), true) else []
    case TabItem => [Glyph('\t', true)]
    case BreakItem => [Glyph('\n', false)]
    case HyphenItem => [Glyph(HARD_HYPHEN, false)]
    case SymbolItem(text) => GlyphsFor(text, false)
    case _ => []
  }

  function RunGlyphs(items: seq<Item>, deleted: bool): seq<Glyph> {
    if items == [] then [] else ItemGlyphs(items[0], deleted) + RunGlyphs(items[1..], deleted)
  }

  function Text(glyphs: seq<Glyph>): string {
    seq(|glyphs|, i requires 0 <= i < |glyphs| => glyphs[i].letter)
  }

  function BoundaryLetter(glyph: Glyph): string {
    if glyph.boundary then [glyph.letter] else ""
  }

  /** The characters clause boundaries are decided on. */
  function BoundaryText(glyphs: seq<Glyph>): string {
    if glyphs == [] then "" else BoundaryLetter(glyphs[0]) + BoundaryText(glyphs[1..])
  }

  lemma {:induction false} TextConcat(a: seq<Glyph>, b: seq<Glyph>)
    ensures Text(a + b) == Text(a) + Text(b)
  {
  }

  lemma {:induction false} BoundaryTextConcat(a: seq<Glyph>, b: seq<Glyph>)
    ensures BoundaryText(a + b) == BoundaryText(a) + BoundaryText(b)
  {
    hide BoundaryLetter;
    if a == [] {
      assert a + b == b;
    } else {
      BoundaryTextConcat(a[1..], b);
      assert (a + b)[1..] == a[1..] + b && (a + b)[0] == a[0];
    }
  }

  // ---------------------------------------------------------------------
  // A paragraph's leaves
  // ---------------------------------------------------------------------

  function AcceptGlyphsOf(leaf: Leaf): seq<Glyph>
    decreases leaf, 1
  {
    match leaf
    case RunLeaf(hidden, items, c) => if hidden || c.mode == Deleted then [] else RunGlyphs(items, false)
    case FieldLeaf(_, result, _) => AcceptGlyphs(result)
    case _ => []
  }

  /** The accept-all reading: every visible run that is not read as deleted. */
  function AcceptGlyphs(leaves: seq<Leaf>): seq<Glyph>
    decreases leaves, 0
  {
    if leaves == [] then [] else AcceptGlyphsOf(leaves[0]) + AcceptGlyphs(leaves[1..])
  }

  function OriginalGlyphsOf(leaf: Leaf): seq<Glyph>
    decreases leaf, 1
  {
    match leaf
    case RunLeaf(hidden, items, c) => if hidden || c.mode == Inserted then [] else RunGlyphs(items, c.mode == Deleted)
    case FieldLeaf(_, result, _) => OriginalGlyphs(result)
    case _ => []
  }

  /** The pre-edit reading: every visible run that is not an insertion. */
  function OriginalGlyphs(leaves: seq<Leaf>): seq<Glyph>
    decreases leaves, 0
  {
    if leaves == [] then [] else OriginalGlyphsOf(leaves[0]) + OriginalGlyphs(leaves[1..])
  }

  /** The visible text the walk reads as standing although a deletion encloses it. */
  function RevivedGlyphsOf(leaf: Leaf): seq<Glyph>
    decreases leaf, 1
  {
    if leaf.context.struck then AcceptGlyphsOf(leaf)
    else if leaf.FieldLeaf? then RevivedGlyphs(leaf.result)
    else []
  }

  function RevivedGlyphs(leaves: seq<Leaf>): seq<Glyph>
    decreases leaves, 0
  {
    if leaves == [] then [] else RevivedGlyphsOf(leaves[0]) + RevivedGlyphs(leaves[1..])
  }

  lemma {:induction false} AcceptConcat(a: seq<Leaf>, b: seq<Leaf>)
    ensures AcceptGlyphs(a + b) == AcceptGlyphs(a) + AcceptGlyphs(b)
    decreases |a|
  {
    hide AcceptGlyphsOf;
    if a == [] {
      assert a + b == b;
    } else {
      AcceptConcat(a[1..], b);
      assert (a + b)[1..] == a[1..] + b && (a + b)[0] == a[0];
    }
  }

  /** Reading a run as deleted text happens only under a deletion. */
  predicate DeletedIsStruck(leaves: seq<Leaf>)
    decreases leaves
  {
    leaves == [] ||
    ((leaves[0].context.mode == Deleted ==> leaves[0].context.struck)
     && (leaves[0].FieldLeaf? ==> DeletedIsStruck(leaves[0].result)) && DeletedIsStruck(leaves[1..]))
  }

  lemma {:induction false} DeletedIsStruckConcat(a: seq<Leaf>, b: seq<Leaf>)
    requires DeletedIsStruck(a) && DeletedIsStruck(b)
    ensures DeletedIsStruck(a + b)
    decreases |a|
  {
    if a == [] {
      assert a + b == b;
    } else {
      DeletedIsStruckConcat(a[1..], b);
      assert (a + b)[1..] == a[1..] + b && (a + b)[0] == a[0];
    }
  }

  lemma {:induction false} ReadDeletedIsStruck(children: seq<Node>, c: Context)
    requires c.mode == Deleted ==> c.struck
    ensures DeletedIsStruck(Leaves(children, c))
    decreases children
  {
    if children != [] {
      var head := children[0];
      ReadDeletedIsStruck(children[1..], c);
      if head.tag == FldSimple {
        ReadDeletedIsStruck(head.children, Inside(head, c));
      } else if Content(head) != [] {
        ContentBelow(head);
        ReadDeletedIsStruck(Content(head), Inside(head, c));
        OwnDeletedIsStruck(head, c);
        DeletedIsStruckConcat(OwnLeaves(head, c), Leaves(Content(head), Inside(head, c)));
      } else {
        OwnDeletedIsStruck(head, c);
      }
      DeletedIsStruckConcat(LeavesOf(head, c), Leaves(children[1..], c));
    }
  }

  lemma {:induction false} OwnDeletedIsStruck(node: Node, c: Context)
    requires c.mode == Deleted ==> c.struck
    ensures DeletedIsStruck(OwnLeaves(node, c))
  {
    hide Items;
    if OwnLeaves(node, c) != [] { assert OwnLeaves(node, c)[1..] == []; }
  }

  /** What the surviving leaves spell, and what the read adds to it. */
  lemma {:induction false} SurvivingSpells(leaves: seq<Leaf>)
    requires DeletedIsStruck(leaves)
    ensures |AcceptGlyphs(leaves)| == |AcceptGlyphs(Surviving(leaves))| + |RevivedGlyphs(leaves)|
    ensures RevivedGlyphs(leaves) == [] ==> AcceptGlyphs(leaves) == AcceptGlyphs(Surviving(leaves))
    ensures OriginalGlyphs(Surviving(leaves)) == AcceptGlyphs(Surviving(leaves))
    decreases leaves
  {
    if leaves != [] {
      var leaf := leaves[0];
      SurvivingSpells(leaves[1..]);
      if leaf.FieldLeaf? { SurvivingSpells(leaf.result); }
      OneSurvivorOnly(leaf, leaves[1..]);
    }
  }

  lemma {:induction false} OneSurvivorOnly(leaf: Leaf, rest: seq<Leaf>)
    ensures leaf.context.struck ==>
      AcceptGlyphs(SurvivingOf(leaf) + Surviving(rest)) == AcceptGlyphs(Surviving(rest))
      && OriginalGlyphs(SurvivingOf(leaf) + Surviving(rest)) == OriginalGlyphs(Surviving(rest))
    ensures !leaf.context.struck ==>
      AcceptGlyphs(SurvivingOf(leaf) + Surviving(rest)) == AcceptGlyphsOf(SettledLeaf(leaf))
          + AcceptGlyphs(Surviving(rest))
      && OriginalGlyphs(SurvivingOf(leaf) + Surviving(rest)) == OriginalGlyphsOf(SettledLeaf(leaf))
        + OriginalGlyphs(Surviving(rest))
  {
    hide SettledLeaf, AcceptGlyphsOf, OriginalGlyphsOf, Surviving;
    var s := SurvivingOf(leaf) + Surviving(rest);
    if leaf.context.struck {
      assert s == Surviving(rest);
    } else {
      assert s[0] == SettledLeaf(leaf) && s[1..] == Surviving(rest);
    }
  }

  // ---------------------------------------------------------------------
  // Text space and byte space
  // ---------------------------------------------------------------------

  /** The accept-all reading of the raw tree spells what the accepted tree spells, exactly when
      no visible run below a deletion is read as standing text; and in the accepted tree the
      pre-edit reading is the accept-all reading. */
  lemma {:induction false} TextSpaceMeetsByteSpace(children: seq<Node>)
    requires WellPlaced(children)
    ensures AcceptGlyphs(Leaves(Spliced(children), TOP)) == AcceptGlyphs(Leaves(children, TOP))
      <==> RevivedGlyphs(Leaves(children, TOP)) == []
    ensures OriginalGlyphs(Leaves(Spliced(children), TOP)) == AcceptGlyphs(Leaves(Spliced(children), TOP))
  {
    hide Leaves, AcceptGlyphs, OriginalGlyphs, RevivedGlyphs, Spliced, Surviving;
    ReadDeletedIsStruck(children, TOP);
    SplicedLeaves(children, TOP);
    SurvivingSpells(Leaves(children, TOP));
  }

  /** Wherever the walk reads: no insertion and no simple field below a deletion. */
  predicate NothingRevived(children: seq<Node>, struck: bool)
    decreases children, 0
  {
    children == [] || (NothingRevivedIn(children[0], struck) && NothingRevived(children[1..], struck))
  }

  predicate NothingRevivedIn(node: Node, struck: bool)
    decreases node, 1
  {
    && (struck ==> node.tag != Ins && node.tag != FldSimple)
    && (Inline(node) == [] ||
        (InlineBelow(node);
         NothingRevived(Inline(node), struck || node.tag == Del)))
  }

  lemma {:induction false} ContentNotRevived(node: Node, c: Context)
    requires NothingRevivedIn(node, c.struck)
    ensures NothingRevived(Inline(node), Inside(node, c).struck)
  {
    hide Content;
  }

  lemma {:induction false} RevivedConcat(a: seq<Leaf>, b: seq<Leaf>)
    ensures RevivedGlyphs(a + b) == RevivedGlyphs(a) + RevivedGlyphs(b)
    decreases |a|
  {
    hide RevivedGlyphsOf;
    if a == [] {
      assert a + b == b;
    } else {
      RevivedConcat(a[1..], b);
      assert (a + b)[1..] == a[1..] + b && (a + b)[0] == a[0];
    }
  }

  /** Nothing these leaves hold reads as standing although struck. */
  predicate Unrevived(leaves: seq<Leaf>, struck: bool) {
    RevivedGlyphs(leaves) == [] && (struck ==> AcceptGlyphs(leaves) == [])
  }

  lemma {:induction false} UnrevivedConcat(a: seq<Leaf>, b: seq<Leaf>, struck: bool)
    requires Unrevived(a, struck) && Unrevived(b, struck)
    ensures Unrevived(a + b, struck)
  {
    AcceptConcat(a, b);
    RevivedConcat(a, b);
  }

  lemma {:induction false} OneUnrevived(leaf: Leaf)
    requires leaf.context.struck ==> AcceptGlyphsOf(leaf) == []
    requires leaf.FieldLeaf? ==> RevivedGlyphs(leaf.result) == []
    ensures Unrevived([leaf], leaf.context.struck)
  {
    assert [leaf][1..] == [];
  }

  lemma {:induction false} OwnUnrevived(node: Node, c: Context)
    requires c.struck <==> c.mode == Deleted
    ensures Unrevived(OwnLeaves(node, c), c.struck)
  {
    hide Items;
    var own := OwnLeaves(node, c);
    if own != [] {
      assert own == [own[0]];
      OneUnrevived(own[0]);
    }
  }

  lemma {:induction false} NothingRevivedReads(children: seq<Node>, c: Context)
    requires NothingRevived(children, c.struck) && (c.struck <==> c.mode == Deleted)
    ensures Unrevived(Leaves(children, c), c.struck)
    decreases children, 0
  {
    hide Unrevived, LeavesOf;
    if children != [] {
      NothingRevivedReadsIn(children[0], c);
      NothingRevivedReads(children[1..], c);
      UnrevivedConcat(LeavesOf(children[0], c), Leaves(children[1..], c), c.struck);
    } else {
      EmptyUnrevived(c);
    }
  }

  lemma {:induction false} EmptyUnrevived(c: Context)
    ensures Unrevived(Leaves([], c), c.struck)
  {
  }

  lemma {:induction false} NothingRevivedReadsIn(node: Node, c: Context)
    requires NothingRevivedIn(node, c.struck) && (c.struck <==> c.mode == Deleted)
    ensures Unrevived(LeavesOf(node, c), c.struck)
    decreases node, 1
  {
    var inner := Inside(node, c);
    if node.tag == FldSimple {
      ContentNotRevived(node, c);
      NothingRevivedReads(node.children, inner);
      OneUnrevived(FieldLeaf(node.val, Leaves(node.children, inner), c));
    } else {
      hide Content, OwnLeaves, AcceptGlyphs, RevivedGlyphs;
      OwnUnrevived(node, c);
      if Content(node) != [] {
        ContentBelow(node);
        ContentNotRevived(node, c);
        NothingRevivedReads(Content(node), inner);
        UnrevivedConcat(OwnLeaves(node, c), Leaves(Content(node), inner), c.struck);
      } else {
        assert OwnLeaves(node, c) + [] == OwnLeaves(node, c);
      }
    }
  }

  /** With no insertion and no simple field below a deletion, at any depth, the raw read and the
      accepted read spell the same text and the same boundary text. */
  lemma {:induction false} TextsAgree(children: seq<Node>)
    requires WellPlaced(children) && NothingRevived(children, false)
    ensures Text(AcceptGlyphs(Leaves(Spliced(children), TOP))) == Text(AcceptGlyphs(Leaves(children, TOP)))
    ensures BoundaryText(AcceptGlyphs(Leaves(Spliced(children), TOP)))
      == BoundaryText(AcceptGlyphs(Leaves(children, TOP)))
    ensures OriginalGlyphs(Leaves(Spliced(children), TOP)) == AcceptGlyphs(Leaves(children, TOP))
  {
    hide Text, BoundaryText, Leaves, AcceptGlyphs, OriginalGlyphs, RevivedGlyphs, Spliced, NothingRevived;
    TextSpaceMeetsByteSpace(children);
    NothingRevivedReads(children, TOP);
  }

  /** Below a deletion the walk re-enters insertion mode: the raw read keeps an inserted run the
      accepted tree has lost with its deletion. */
  lemma {:induction false} InsertionBelowDeletionIsRevived(del: Node, ins: Node, run: Node)
    requires del.tag == Del && del.children == [ins] && ins.tag == Ins && ins.children == [run]
    requires run.tag == R && !run.hidden
    ensures AcceptGlyphs(Leaves([del], TOP)) == RunGlyphs(Items(run.children), false)
    ensures AcceptGlyphs(Leaves(Spliced([del]), TOP)) == []
  {
    hide Items, RunGlyphs, Leaves, LeavesOf, AcceptGlyphs, Spliced;
    var below := Inside(ins, Inside(del, TOP));
    OneSpliced(del);
    OneNodeLeaves(del, TOP);
    OneNodeLeaves(ins, Inside(del, TOP));
    OneRun(run, below);
    RevivedRun(RunLeaf(false, Items(run.children), below));
    EmptySpells();
    assert [] + Leaves([run], below) == Leaves([run], below)
      && [] + Leaves([ins], Inside(del, TOP)) == Leaves([ins], Inside(del, TOP));
  }

  lemma {:induction false} EmptySpells()
    ensures AcceptGlyphs([]) == [] && forall c :: Leaves([], c) == []
  {
  }

  lemma {:induction false} RevivedRun(leaf: Leaf)
    ensures AcceptGlyphs([leaf]) == AcceptGlyphsOf(leaf)
  {
    assert [leaf][1..] == [];
  }

  /** Where a run is split does not matter: two runs over the parts of one run's content, in the
      same context, spell what the one run spells, boundary text included. */
  lemma {:induction false} RunSplit(a: seq<Item>, b: seq<Item>, c: Context)
    ensures AcceptGlyphs([RunLeaf(false, a + b, c)]) == AcceptGlyphs([RunLeaf(false, a, c), RunLeaf(false, b, c)])
  {
    var first, second := RunLeaf(false, a, c), RunLeaf(false, b, c);
    assert [first, second] == [first] + [second];
    AcceptConcat([first], [second]);
    RevivedRun(RunLeaf(false, a + b, c));
    RevivedRun(first);
    RevivedRun(second);
    RunGlyphsConcat(a, b, false);
  }

  lemma {:induction false} RunGlyphsConcat(a: seq<Item>, b: seq<Item>, deleted: bool)
    ensures RunGlyphs(a + b, deleted) == RunGlyphs(a, deleted) + RunGlyphs(b, deleted)
  {
    hide ItemGlyphs;
    if a == [] {
      assert a + b == b;
    } else {
      RunGlyphsConcat(a[1..], b, deleted);
      assert (a + b)[1..] == a[1..] + b && (a + b)[0] == a[0];
    }
  }
}
