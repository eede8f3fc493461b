/** The reader's one pass over inline content, which meets in the accepted tree exactly the leaves that survive. */
module Reading {
  import opened Prelude
  import opened Markup
  import opened Splice

  // ---------------------------------------------------------------------
  // What is read
  // ---------------------------------------------------------------------

  /** A direct child of a run, as the readers see it. */
  datatype Item =
    | TextItem(text: string)
    | DeletedText(text: string)
    | TabItem
    | BreakItem
    | HyphenItem
    | SymbolItem(text: string)
    | CommentItem
    | FieldCharItem(kind: string)
    | InstructionItem(code: string)

  /** The run's recognised children in document order; soft hyphens and everything else drop. */
  function Items(children: seq<Node>): seq<Item> {
    if children == [] then [] else ItemsOf(children[0]) + Items(children[1..])
  }

  function ItemsOf(node: Node): seq<Item> {
    match node.tag
    case T => [TextItem(node.val)]
    case DelText => [DeletedText(node.val)]
    case TabMark => [TabItem]
    case Br => [BreakItem]
    case Cr => [BreakItem]
    case NoBreakHyphen => [HyphenItem]
    case Sym => [SymbolItem(node.val)]
    case CommentReference => [CommentItem]
    case FldChar => [FieldCharItem(node.val)]
    case InstrText => [InstructionItem(node.val)]
    case _ => []
  }

  datatype Mode = Plain | Inserted | Deleted

  /** Where the walk stands: the text mode, whether a deletion encloses it, the revision author
      in force, and whether it is inside a simple field. */
  datatype Context = Context(mode: Mode, struck: bool, author: string, inField: bool)

  const TOP: Context := Context(Plain, false, "", false)

  /** Something the walk meets: a run, a simple field with all that is met in its result, a link
      anchor or a bookmark. */
  datatype Leaf =
    | RunLeaf(hidden: bool, items: seq<Item>, context: Context)
    | FieldLeaf(instr: string, result: seq<Leaf>, context: Context)
    | AnchorLeaf(name: string, context: Context)
    | BookmarkLeaf(name: string, context: Context)

  function Author(node: Node, c: Context): string {
    if node.val != "" then node.val else c.author
  }

  /** The context inside a revision or a simple field. A simple field's result is read plain
      whatever surrounds it. */
  function Inside(node: Node, c: Context): Context {
    match node.tag
    case Ins => c.(mode := Inserted, author := Author(node, c))
    case Del => c.(mode := Deleted, struck := true, author := Author(node, c))
    case FldSimple => Context(Plain, c.struck, "", true)
    case _ => c
  }

  /** The wrappers both walks descend into with their children unchanged. */
  predicate Transparent(tag: Tag) {
    tag.Hyperlink? || tag.MoveTo? || tag.SmartTag? || tag.Dir? || tag.Bdo? || tag.CustomXml?
    || tag.Ins? || tag.Del?
  }

  /** The inline content an element contributes to the walk. */
  function Content(node: Node): seq<Node> {
    if Transparent(node.tag) then node.children
    else if node.tag == Sdt then ControlContent(node.children)
    else []
  }

  /** What the walk meets at an element itself, before its content. */
  function OwnLeaves(node: Node, c: Context): seq<Leaf> {
    match node.tag
    case R => [RunLeaf(node.hidden, Items(node.children), c)]
    case Hyperlink => if node.val != "" then [AnchorLeaf(node.val, c)] else []
    case BookmarkStart => if node.val != "" then [BookmarkLeaf(node.val, c)] else []
    case _ => []
  }

  lemma {:induction false} FoundBelow(children: seq<Node>, tag: Tag)
    requires FindChildren(children, tag) != []
    ensures children decreases to FindChildren(children, tag)
    decreases |children|
  {
    if children[0].tag != tag { FoundBelow(children[1..], tag); }
  }

  lemma {:induction false} ContentBelow(node: Node)
    requires Content(node) != []
    ensures node decreases to Content(node)
  {
    if node.tag == Sdt { FoundBelow(node.children, SdtContent); }
  }

  function Leaves(children: seq<Node>, c: Context): seq<Leaf>
    decreases children, 0
  {
    if children == [] then [] else LeavesOf(children[0], c) + Leaves(children[1..], c)
  }

  function LeavesOf(node: Node, c: Context): seq<Leaf>
    decreases node, 1
  {
    if node.tag == FldSimple then [FieldLeaf(node.val, Leaves(node.children, Inside(node, c)), c)]
    else
      OwnLeaves(node, c) +
      if Content(node) == [] then []
      else
        ContentBelow(node);
        Leaves(Content(node), Inside(node, c))
  }

  lemma {:induction false} LeavesConcat(a: seq<Node>, b: seq<Node>, c: Context)
    ensures Leaves(a + b, c) == Leaves(a, c) + Leaves(b, c)
    decreases |a|
  {
    hide LeavesOf;
    if a == [] {
      assert a + b == b;
    } else {
      LeavesConcat(a[1..], b, c);
      assert (a + b)[1..] == a[1..] + b && (a + b)[0] == a[0];
    }
  }

  // ---------------------------------------------------------------------
  // Well-placed markup
  // ---------------------------------------------------------------------

  /** The first child with the tag once revisions are accepted: those an insertion or a move target
      holds count among its siblings. */
  function FindThrough(children: seq<Node>, tag: Tag): Option<Node>
    decreases children
  {
    if children == [] then None
    else if children[0].tag == tag then Some(children[0])
    else if Unwrapped(children[0].tag) && FindThrough(children[0].children, tag).Some? then
      FindThrough(children[0].children, tag)
    else FindThrough(children[1..], tag)
  }

  /** No child with the tag is brought up in front of the one found directly. */
  predicate Steady(children: seq<Node>, tag: Tag) {
    FindThrough(children, tag) == Find(children, tag)
  }

  /** Nothing a run reads is among these children, or brought up among them. */
  predicate HoldsNoItem(children: seq<Node>)
    decreases children
  {
    children == [] ||
    (ItemsOf(children[0]) == [] && (Unwrapped(children[0].tag) ==> HoldsNoItem(children[0].children))
        && HoldsNoItem(children[1..]))
  }

  /** No insertion or move target in a run holds what the run reads. */
  predicate RunPlaced(run: seq<Node>) {
    run == [] || ((Unwrapped(run[0].tag) ==> HoldsNoItem(run[0].children)) && RunPlaced(run[1..]))
  }

  /** No insertion or move target in a content control holds a part of it. */
  predicate ControlPlaced(sdt: seq<Node>) {
    && Steady(sdt, SdtPr) && Steady(FindChildren(sdt, SdtPr), ShowingPlcHdr)
    && (!ShowsPlaceholder(sdt) ==> Steady(sdt, SdtContent))
  }

  /** The content the walk reads below an element. */
  function Inline(node: Node): seq<Node> {
    if node.tag == FldSimple then node.children else Content(node)
  }

  lemma {:induction false} InlineBelow(node: Node)
    requires Inline(node) != []
    ensures node decreases to Inline(node)
  {
    if node.tag != FldSimple { ContentBelow(node); }
  }

  /** Wherever the walk reads, and only there: revision wrappers hold run-level content, as the
      schema has it (`CT_RunTrackChange`, section 17.13.5 of ECMA-376 Part 1), so that unwrapping
      one hands no run its content and no content control its parts. */
  predicate WellPlaced(children: seq<Node>)
    decreases children, 0
  {
    children == [] || (WellPlacedIn(children[0]) && WellPlaced(children[1..]))
  }

  predicate WellPlacedIn(node: Node)
    decreases node, 1
  {
    || Removed(node.tag)
    || (&& (node.tag == R ==> RunPlaced(node.children))
        && (node.tag == Sdt ==> ControlPlaced(node.children))
        && (Inline(node) == [] ||
            (InlineBelow(node);
             WellPlaced(Inline(node)))))
  }

  lemma {:induction false} FindConcat(a: seq<Node>, b: seq<Node>, tag: Tag)
    ensures Find(a + b, tag) == if Find(a, tag).Some? then Find(a, tag) else Find(b, tag)
    decreases |a|
  {
    if a == [] {
      assert a + b == b;
    } else {
      FindConcat(a[1..], b, tag);
      assert (a + b)[1..] == a[1..] + b && (a + b)[0] == a[0];
    }
  }

  /** What the accepted children hold is what is found through the unwrapped ones, accepted. */
  lemma {:induction false} FindSpliced(children: seq<Node>, tag: Tag)
    requires !Removed(tag) && !Unwrapped(tag)
    ensures Find(Spliced(children), tag)
         == match FindThrough(children, tag) case None => None case Some(node) => Some(AcceptedNode(node))
    decreases children
  {
    if children != [] {
      var head := children[0];
      FindSpliced(children[1..], tag);
      FindConcat(SplicedChild(head), Spliced(children[1..]), tag);
      if Unwrapped(head.tag) {
        FindSpliced(head.children, tag);
      } else if !Removed(head.tag) {
        var accepted := AcceptedNode(head);
        assert SplicedChild(head) == [accepted] && [accepted][1..] == [];
        assert Find([accepted], tag) == if head.tag == tag then Some(accepted) else None;
      }
    }
  }

  lemma {:induction false} FindChildrenSpliced(children: seq<Node>, tag: Tag)
    requires Steady(children, tag) && !Removed(tag) && !Unwrapped(tag)
    ensures FindChildren(Spliced(children), tag) == Spliced(FindChildren(children, tag))
  {
    FindSpliced(children, tag);
  }

  /** A content control shows its placeholder before exactly when it does after, and its content
      after is its content before, accepted. */
  lemma {:induction false} ControlSpliced(sdt: seq<Node>)
    requires ControlPlaced(sdt)
    ensures ControlContent(Spliced(sdt)) == Spliced(ControlContent(sdt))
  {
    hide Spliced, Find, FindThrough;
    FindChildrenSpliced(sdt, SdtPr);
    FindSpliced(FindChildren(sdt, SdtPr), ShowingPlcHdr);
    if ShowsPlaceholder(sdt) { EmptySpliced(); } else { FindChildrenSpliced(sdt, SdtContent); }
  }

  lemma {:induction false} ItemsConcat(a: seq<Node>, b: seq<Node>)
    ensures Items(a + b) == Items(a) + Items(b)
    decreases |a|
  {
    hide ItemsOf;
    if a == [] {
      assert a + b == b;
    } else {
      ItemsConcat(a[1..], b);
      assert (a + b)[1..] == a[1..] + b && (a + b)[0] == a[0];
    }
  }

  lemma {:induction false} AcceptedItems(node: Node)
    ensures Items([AcceptedNode(node)]) == ItemsOf(node)
  {
    var accepted := AcceptedNode(node);
    assert [accepted][1..] == [] && ItemsOf(accepted) + [] == ItemsOf(accepted) == ItemsOf(node);
  }

  lemma {:induction false} NoItemSpliced(children: seq<Node>)
    ensures Items(Spliced(children)) == [] <==> HoldsNoItem(children)
    decreases children
  {
    if children != [] {
      var head := children[0];
      NoItemSpliced(children[1..]);
      ItemsConcat(SplicedChild(head), Spliced(children[1..]));
      if Unwrapped(head.tag) {
        NoItemSpliced(head.children);
      } else if !Removed(head.tag) {
        AcceptedItems(head);
      }
    }
  }

  /** A run reads the same before and after exactly when no revision in it holds what it reads. */
  lemma {:induction false} ItemsSpliced(run: seq<Node>)
    ensures Items(Spliced(run)) == Items(run) <==> RunPlaced(run)
    ensures |Items(Spliced(run))| == |Items(run)| ==> RunPlaced(run)
    ensures |Items(Spliced(run))| >= |Items(run)|
    decreases |run|
  {
    if run != [] {
      var head := run[0];
      ItemsSpliced(run[1..]);
      ItemsConcat(SplicedChild(head), Spliced(run[1..]));
      hide Items, ItemsOf, Spliced;
      ItemsHead(run);
      if Unwrapped(head.tag) {
        NoItemSpliced(head.children);
      } else if !Removed(head.tag) {
        AcceptedItems(head);
      }
    }
  }

  lemma {:induction false} ItemsHead(run: seq<Node>)
    requires run != []
    ensures Items(run) == ItemsOf(run[0]) + Items(run[1..]) && Spliced(run) == SplicedChild(run[0]) + Spliced(run[1..])
    ensures Removed(run[0].tag) || Unwrapped(run[0].tag) ==> ItemsOf(run[0]) == []
    ensures Items([]) == []
  {
  }

  // ---------------------------------------------------------------------
  // The accepted tree reads as the surviving leaves
  // ---------------------------------------------------------------------

  /** The context an accepted tree gives a leaf that was met in `c`: no revision about it. */
  function SettledContext(c: Context): Context {
    Context(Plain, false, "", c.inField)
  }

  function SettledLeaf(leaf: Leaf): Leaf
    decreases leaf, 0
  {
    var settled := leaf.(context := SettledContext(leaf.context));
    if leaf.FieldLeaf? then settled.(result := Surviving(leaf.result)) else settled
  }

  function SurvivingOf(leaf: Leaf): seq<Leaf>
    decreases leaf, 1
  {
    if leaf.context.struck then [] else [SettledLeaf(leaf)]
  }

  /** The leaves no deletion encloses, their revision context settled. */
  function Surviving(leaves: seq<Leaf>): seq<Leaf>
    decreases leaves, 0
  {
    if leaves == [] then [] else SurvivingOf(leaves[0]) + Surviving(leaves[1..])
  }

  lemma {:induction false} FirstSurvivor(leaves: seq<Leaf>)
    requires leaves != []
    ensures var rest := Surviving(leaves[1..]);
            Surviving(leaves) == if leaves[0].context.struck then rest else [SettledLeaf(leaves[0])] + rest
  {
    hide SettledLeaf;
  }

  lemma {:induction false} SurvivingConcat(a: seq<Leaf>, b: seq<Leaf>)
    ensures Surviving(a + b) == Surviving(a) + Surviving(b)
    decreases |a|
  {
    hide SurvivingOf;
    if a == [] {
      assert a + b == b;
    } else {
      SurvivingConcat(a[1..], b);
      assert (a + b)[1..] == a[1..] + b && (a + b)[0] == a[0];
    }
  }

  predicate AllStruck(leaves: seq<Leaf>) {
    forall i | 0 <= i < |leaves| :: leaves[i].context.struck
  }

  /** Nothing met under a deletion survives. */
  lemma {:induction false} StruckStaysStruck(children: seq<Node>, c: Context)
    requires c.struck
    ensures AllStruck(Leaves(children, c))
    decreases children
  {
    if children != [] {
      var head := children[0];
      StruckStaysStruck(children[1..], c);
      if Content(head) != [] {
        ContentBelow(head);
        StruckStaysStruck(Content(head), Inside(head, c));
      }
    }
  }

  lemma {:induction false} StruckDoNotSurvive(leaves: seq<Leaf>)
    requires AllStruck(leaves)
    ensures Surviving(leaves) == []
  {
    if leaves != [] { StruckDoNotSurvive(leaves[1..]); }
  }

  /** Reading the accepted tree meets exactly the leaves of the raw tree that survive, in the
      same order: text space and byte space commute. */
  lemma {:induction false} SplicedLeaves(children: seq<Node>, c: Context)
    requires WellPlaced(children) && !c.struck
    ensures Leaves(Spliced(children), SettledContext(c)) == Surviving(Leaves(children, c))
    decreases children, 0
  {
    if children != [] {
      SplicedLeaves(children[1..], c);
      SplicedLeavesOf(children[0], c);
      LeavesConcat(SplicedChild(children[0]), Spliced(children[1..]), SettledContext(c));
      SurvivingConcat(LeavesOf(children[0], c), Leaves(children[1..], c));
    }
  }

  lemma {:induction false} SplicedLeavesOf(node: Node, c: Context)
    requires WellPlacedIn(node) && !c.struck
    ensures Leaves(SplicedChild(node), SettledContext(c)) == Surviving(LeavesOf(node, c))
    decreases node, 2
  {
    hide LeavesOf, Surviving;
    if Removed(node.tag) || Unwrapped(node.tag) {
      OneNodeLeaves(node, c);
      assert OwnLeaves(node, c) + BelowLeaves(node, c) == BelowLeaves(node, c);
      RevisionLeaves(node, c);
    } else if node.tag == FldSimple {
      FieldLeaves(node, c);
    } else {
      AcceptedLeaves(node, c);
    }
  }

  lemma {:induction false} FieldLeaves(node: Node, c: Context)
    requires WellPlacedIn(node) && !c.struck && node.tag == FldSimple
    ensures Leaves(SplicedChild(node), SettledContext(c)) == Surviving(LeavesOf(node, c))
    decreases node, 1
  {
    hide Surviving;
    var inner, accepted := Inside(node, c), AcceptedNode(node);
    SplicedLeaves(node.children, inner);
    OneFieldLeaf(accepted, SettledContext(c));
    OneFieldLeaf(node, c);
    OneSurvivor(FieldLeaf(node.val, Leaves(node.children, inner), c));
  }

  lemma {:induction false} OneFieldLeaf(node: Node, c: Context)
    requires node.tag == FldSimple
    ensures Leaves([node], c) == LeavesOf(node, c) == [FieldLeaf(node.val, Leaves(node.children, Inside(node, c)), c)]
  {
    assert [node][1..] == [];
  }

  lemma {:induction false} OneSurvivor(leaf: Leaf)
    ensures Surviving([leaf]) == SurvivingOf(leaf)
  {
    assert [leaf][1..] == [];
  }

  /** What is under a revision: gone with a removed one, settled under an unwrapped one. */
  lemma {:induction false} RevisionLeaves(node: Node, c: Context)
    requires WellPlacedIn(node) && !c.struck && (Removed(node.tag) || Unwrapped(node.tag))
    ensures Leaves(SplicedChild(node), SettledContext(c)) == Surviving(BelowLeaves(node, c))
    decreases node, 1
  {
    var inner := Inside(node, c);
    if node.tag == Del {
      hide Surviving;
      StruckStaysStruck(node.children, inner);
      StruckDoNotSurvive(Leaves(node.children, inner));
    } else if Unwrapped(node.tag) {
      hide Surviving;
      SplicedLeaves(node.children, inner);
    }
  }

  lemma {:induction false} AcceptedLeaves(node: Node, c: Context)
    requires WellPlacedIn(node) && !c.struck && !Removed(node.tag) && !Unwrapped(node.tag) && node.tag != FldSimple
    ensures Leaves([AcceptedNode(node)], SettledContext(c)) == Surviving(LeavesOf(node, c))
    decreases node, 1
  {
    hide OwnLeaves, BelowLeaves, LeavesOf, Surviving, Spliced;
    OneNodeLeaves(AcceptedNode(node), SettledContext(c));
    OneNodeLeaves(node, c);
    AcceptedOwnLeaves(node, c);
    AcceptedBelow(node, c);
    SurvivingConcat(OwnLeaves(node, c), BelowLeaves(node, c));
  }

  lemma {:induction false} OneNodeLeaves(node: Node, c: Context)
    requires node.tag != FldSimple
    ensures Leaves([node], c) == LeavesOf(node, c) == OwnLeaves(node, c) + BelowLeaves(node, c)
  {
    assert [node][1..] == [];
  }

  lemma {:induction false} AcceptedBelow(node: Node, c: Context)
    requires WellPlacedIn(node) && !c.struck && !Removed(node.tag) && !Unwrapped(node.tag) && node.tag != FldSimple
    ensures BelowLeaves(AcceptedNode(node), SettledContext(c)) == Surviving(BelowLeaves(node, c))
    decreases node, 0
  {
    hide Content;
    AcceptedContent(node);
    if Content(node) != [] {
      ContentBelow(node);
      SplicedLeaves(Content(node), Inside(node, c));
    }
  }

  /** The leaves below an element. */
  function BelowLeaves(node: Node, c: Context): seq<Leaf> {
    if Content(node) == [] then []
    else
      ContentBelow(node);
      Leaves(Content(node), Inside(node, c))
  }

  lemma {:induction false} AcceptedOwnLeaves(node: Node, c: Context)
    requires !c.struck && (node.tag == R ==> RunPlaced(node.children))
    ensures OwnLeaves(AcceptedNode(node), SettledContext(c)) == Surviving(OwnLeaves(node, c))
  {
    hide Items, RunPlaced, Spliced;
    ItemsSpliced(node.children);
    var own := OwnLeaves(node, c);
    if own != [] {
      assert own == [own[0]];
      OneSurvivor(own[0]);
    }
  }

  lemma {:induction false} AcceptedContent(node: Node)
    requires node.tag == Sdt ==> ControlPlaced(node.children)
    ensures Content(AcceptedNode(node)) == Spliced(Content(node))
  {
    hide ControlPlaced, ControlContent;
    if node.tag == Sdt { ControlSpliced(node.children); } else { EmptySpliced(); }
  }

  lemma {:induction false} OneSpliced(node: Node)
    ensures Spliced([node]) == SplicedChild(node) && Items([node]) == ItemsOf(node)
  {
    assert [node][1..] == [];
  }

  lemma {:induction false} OneRun(run: Node, c: Context)
    requires run.tag == R
    ensures Leaves([run], c) == [RunLeaf(run.hidden, Items(run.children), c)]
  {
    OneNodeLeaves(run, c);
  }

  /** Unwrapping an insertion inside a run hands the run its text. */
  lemma {:induction false} UnwrappedIntoRun(run: Node, ins: Node, text: Node)
    requires run.tag == R && run.children == [ins] && ins.tag == Ins && ins.children == [text]
    requires text.tag == T && text.children == []
    ensures Spliced([run]) == [Node(R, run.val, run.hidden, [text])]
    ensures Items([text]) == [TextItem(text.val)] && Items([ins]) == []
  {
    hide Spliced, Items;
    OneSpliced(text);
    OneSpliced(ins);
    OneSpliced(run);
    assert Spliced([]) == [] by { EmptySpliced(); }
  }

  lemma {:induction false} EmptySpliced()
    ensures Spliced([]) == []
  {
  }

  /** Placement matters: an insertion inside a run, which the schema rules out, is passed over by
      the raw read and hands its text to the run once unwrapped. */
  lemma {:induction false} MisplacedRevisionReadsDifferently(run: Node, ins: Node, text: Node)
    requires run.tag == R && run.children == [ins] && ins.tag == Ins && ins.children == [text]
    requires text.tag == T && text.children == []
    ensures !WellPlaced([run])
    ensures Leaves(Spliced([run]), TOP) == [RunLeaf(run.hidden, [TextItem(text.val)], TOP)]
    ensures Leaves([run], TOP) == [RunLeaf(run.hidden, [], TOP)]
  {
    hide Leaves, Spliced, Items;
    assert !HoldsNoItem(ins.children) by { assert ItemsOf(ins.children[0]) != []; }
    assert !RunPlaced(run.children) && !WellPlacedIn(run);
    UnwrappedIntoRun(run, ins, text);
    OneRun(Node(R, run.val, run.hidden, [text]), TOP);
    OneRun(run, TOP);
  }
}
