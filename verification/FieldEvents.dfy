/** The complex-field events of one paragraph, over the accept-all view (`_iter_field_events`,
    `scripts/extraction_normalization_stage.py`): the same from the raw and the accepted tree. */
module FieldEvents {
  import opened Markup
  import opened Splice
  import opened Reading

  datatype Event =
    | Begin | Separate | End
    | Instr(code: string) | Shown(text: string) | Anchor(name: string) | Bookmark(name: string)

  function ItemEvents(item: Item): seq<Event> {
    match item
    case FieldCharItem(kind) =>
      if kind == "begin" then [Begin]
      else if kind == "separate" then [Separate]
      else if kind == "end" then [End]
      else []
    case InstructionItem(code) => [Instr(code)]
    case TextItem(text) => if text != "" then [Shown(text)] else []
    case TabItem => [Shown("\t")]
    case _ => []
  }

  function RunEvents(items: seq<Item>): seq<Event> {
    if items == [] then [] else ItemEvents(items[0]) + RunEvents(items[1..])
  }

  /** What an element yields itself, before its content. */
  function OwnEvents(node: Node): seq<Event> {
    match node.tag
    case BookmarkStart => if node.val != "" then [Bookmark(node.val)] else []
    case Hyperlink => if node.val != "" then [Anchor(node.val)] else []
    case R => if node.hidden then [] else RunEvents(Items(node.children))
    case _ => []
  }

  /** The content the event walk descends into: a deletion's never. */
  function EventContent(node: Node): seq<Node> {
    if node.tag == Del then [] else if node.tag == FldSimple then node.children else Content(node)
  }

  lemma {:induction false} EventContentBelow(node: Node)
    requires EventContent(node) != []
    ensures node decreases to EventContent(node)
  {
    if node.tag != FldSimple { ContentBelow(node); }
  }

  /** `_iter_field_events`. */
  function ParagraphEvents(elements: seq<Node>): seq<Event>
    decreases elements, 0
  {
    if elements == [] then [] else FieldEventsOf(elements[0]) + ParagraphEvents(elements[1..])
  }

  function FieldEventsOf(node: Node): seq<Event>
    decreases node, 1
  {
    OwnEvents(node) +
    if EventContent(node) == [] then []
    else
      EventContentBelow(node);
      ParagraphEvents(EventContent(node))
  }

  // ---------------------------------------------------------------------
  // The same events, from the leaves
  // ---------------------------------------------------------------------

  function LeafEvents(leaf: Leaf): seq<Event>
    decreases leaf, 1
  {
    if leaf.context.struck then []
    else
      match leaf
      case RunLeaf(hidden, items, _) => if hidden then [] else RunEvents(items)
      case FieldLeaf(_, result, _) => EventsOf(result)
      case AnchorLeaf(name, _) => [Anchor(name)]
      case BookmarkLeaf(name, _) => [Bookmark(name)]
  }

  function EventsOf(leaves: seq<Leaf>): seq<Event>
    decreases leaves, 0
  {
    if leaves == [] then [] else LeafEvents(leaves[0]) + EventsOf(leaves[1..])
  }

  lemma {:induction false} EventsConcat(a: seq<Leaf>, b: seq<Leaf>)
    ensures EventsOf(a + b) == EventsOf(a) + EventsOf(b)
    decreases |a|
  {
    hide LeafEvents;
    if a == [] {
      assert a + b == b;
    } else {
      EventsConcat(a[1..], b);
      assert (a + b)[1..] == a[1..] + b && (a + b)[0] == a[0];
    }
  }

  lemma {:induction false} StruckYieldsNothing(leaves: seq<Leaf>)
    requires AllStruck(leaves)
    ensures EventsOf(leaves) == []
  {
    if leaves != [] { StruckYieldsNothing(leaves[1..]); }
  }

  /** Outside a deletion, the event walk yields the events of the leaves. */
  lemma {:induction false} EventsFromLeaves(elements: seq<Node>, c: Context)
    requires !c.struck
    ensures ParagraphEvents(elements) == EventsOf(Leaves(elements, c))
    decreases elements, 0
  {
    hide FieldEventsOf, LeavesOf;
    if elements == [] {
    } else {
      EventsFromLeavesOf(elements[0], c);
      EventsFromLeaves(elements[1..], c);
      EventsConcat(LeavesOf(elements[0], c), Leaves(elements[1..], c));
    }
  }

  lemma {:induction false} EventsFromLeavesOf(node: Node, c: Context)
    requires !c.struck
    ensures FieldEventsOf(node) == EventsOf(LeavesOf(node, c))
    decreases node, 1
  {
    hide RunEvents, Items, EventsOf, Content, Leaves;
    var inner := Inside(node, c);
    if node.tag == FldSimple {
      if node.children != [] { EventsFromLeaves(node.children, inner); } else { NoLeavesNoEvents(inner); }
      OneFieldLeaf(node, c);
      OneLeafEvents(LeavesOf(node, c)[0]);
      assert [] + EventsOf(Leaves(node.children, inner)) == EventsOf(Leaves(node.children, inner));
    } else {
      OneNodeLeaves(node, c);
      EventsConcat(OwnLeaves(node, c), BelowLeaves(node, c));
      OwnEventsFromLeaves(node, c);
      NoLeavesNoEvents(inner);
      if node.tag == Del {
        StruckStaysStruck(Content(node), inner);
        StruckYieldsNothing(Leaves(Content(node), inner));
      } else if Content(node) != [] {
        ContentBelow(node);
        EventsFromLeaves(Content(node), inner);
      }
    }
  }

  lemma {:induction false} NoLeavesNoEvents(c: Context)
    ensures Leaves([], c) == [] && EventsOf([]) == [] && ParagraphEvents([]) == []
  {
  }

  lemma {:induction false} OneLeafEvents(leaf: Leaf)
    ensures EventsOf([leaf]) == LeafEvents(leaf)
  {
    hide LeafEvents;
    assert [leaf][1..] == [];
  }

  lemma {:induction false} OwnEventsFromLeaves(node: Node, c: Context)
    requires !c.struck
    ensures OwnEvents(node) == EventsOf(OwnLeaves(node, c))
  {
    hide RunEvents, Items;
    var own := OwnLeaves(node, c);
    if own != [] {
      assert own == [own[0]];
      OneLeafEvents(own[0]);
    }
  }

  lemma {:induction false} SurvivorsYieldAll(leaves: seq<Leaf>)
    ensures EventsOf(Surviving(leaves)) == EventsOf(leaves)
    decreases leaves, 0
  {
    hide SettledLeaf, LeafEvents;
    if leaves != [] {
      SurvivorsYieldAll(leaves[1..]);
      SurvivorYieldsAll(leaves[0]);
      FirstSurvivor(leaves);
      if !leaves[0].context.struck {
        var s := Surviving(leaves);
        assert s[0] == SettledLeaf(leaves[0]) && s[1..] == Surviving(leaves[1..]);
      }
    }
  }

  lemma {:induction false} SurvivorYieldsAll(leaf: Leaf)
    ensures if leaf.context.struck then LeafEvents(leaf) == [] else LeafEvents(SettledLeaf(leaf)) == LeafEvents(leaf)
    decreases leaf, 1
  {
    hide RunEvents;
    if leaf.FieldLeaf? { SurvivorsYieldAll(leaf.result); }
  }

  /** The raw paragraph and the accepted paragraph yield the same field events, wherever the
      revisions sit and whatever is below a deletion. */
  lemma {:induction false} FieldEventsAgree(p: seq<Node>)
    requires WellPlaced(p)
    ensures ParagraphEvents(Spliced(p)) == ParagraphEvents(p)
  {
    hide ParagraphEvents, EventsOf, Leaves, Spliced, WellPlaced, Surviving;
    EventsFromLeaves(p, TOP);
    EventsFromLeaves(Spliced(p), TOP);
    SplicedLeaves(p, TOP);
    SurvivorsYieldAll(Leaves(p, TOP));
  }
}
