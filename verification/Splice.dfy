/** Accepting every pending revision in the tree (`_splice_accept_all`,
    `scripts/extraction_normalization_stage.py`), as a function of the tree. */
module Splice {
  import opened Markup

  /** What becomes of a list of children once every revision among and under them is accepted. */
  function Spliced(children: seq<Node>): seq<Node>
    decreases children, 0
  {
    if children == [] then [] else SplicedChild(children[0]) + Spliced(children[1..])
  }

  /** A removed child leaves nothing, an unwrapped one its own accepted children. */
  function SplicedChild(node: Node): seq<Node>
    decreases node, 1
  {
    if Removed(node.tag) then []
    else if Unwrapped(node.tag) then Spliced(node.children)
    else [AcceptedNode(node)]
  }

  function AcceptedNode(node: Node): Node
    decreases node, 0
  {
    Node(node.tag, node.val, node.hidden, Spliced(node.children))
  }

  lemma {:induction false} SplicedConcat(a: seq<Node>, b: seq<Node>)
    ensures Spliced(a + b) == Spliced(a) + Spliced(b)
    decreases |a|
  {
    if a == [] {
      assert a + b == b;
    } else {
      SplicedConcat(a[1..], b);
      assert (a + b)[1..] == a[1..] + b && (a + b)[0] == a[0];
    }
  }

  // ---------------------------------------------------------------------
  // Normal form
  // ---------------------------------------------------------------------

  /** No tag with an accept rule anywhere. */
  predicate Settled(children: seq<Node>)
    decreases children
  {
    children == [] ||
    (!Removed(children[0].tag) && !Unwrapped(children[0].tag) && Settled(children[0].children)
        && Settled(children[1..]))
  }

  lemma {:induction false} SettledConcat(a: seq<Node>, b: seq<Node>)
    requires Settled(a) && Settled(b)
    ensures Settled(a + b)
    decreases |a|
  {
    if a == [] {
      assert a + b == b;
    } else {
      SettledConcat(a[1..], b);
      assert (a + b)[1..] == a[1..] + b && (a + b)[0] == a[0];
    }
  }

  /** After the splice no accept-rule tag is left. */
  lemma {:induction false} SpliceSettles(children: seq<Node>)
    ensures Settled(Spliced(children))
    decreases children
  {
    if children != [] {
      SpliceSettles(children[0].children);
      SpliceSettles(children[1..]);
      SettledOne(children[0]);
      SettledConcat(SplicedChild(children[0]), Spliced(children[1..]));
    }
  }

  lemma {:induction false} SettledOne(node: Node)
    requires Settled(Spliced(node.children))
    ensures Settled(SplicedChild(node))
  {
    var s := SplicedChild(node);
    if !Removed(node.tag) && !Unwrapped(node.tag) { assert s[1..] == []; }
  }

  /** A settled tree is left exactly as it is, so a second splice changes nothing. */
  lemma {:induction false} SettledStays(children: seq<Node>)
    requires Settled(children)
    ensures Spliced(children) == children
    decreases children
  {
    if children != [] {
      SettledStays(children[0].children);
      SettledStays(children[1..]);
      assert AcceptedNode(children[0]) == children[0];
      assert children == [children[0]] + children[1..];
    }
  }

  // ---------------------------------------------------------------------
  // The tally
  // ---------------------------------------------------------------------

  /** What a tally entry is filed under: a tag, or one of the two paragraph-mark revisions. */
  datatype Kind = Named(tag: Tag) | ParagraphMarkIns | ParagraphMarkDel

  /** `_count_accepted`'s key: inside a paragraph mark's own run properties an insertion or
      deletion proposes a split or a merge, and is filed apart. */
  function KindOf(tag: Tag, inMark: bool): Kind {
    if inMark && tag == Ins then ParagraphMarkIns
    else if inMark && tag == Del then ParagraphMarkDel
    else Named(tag)
  }

  /** The revisions accepted among and under the children of a `parent` element. */
  function Tally(parent: Tag, inMark: bool, children: seq<Node>): multiset<Kind>
    decreases children, 0
  {
    if children == [] then multiset{}
    else TallyChild(parent, inMark, children[0]) + Tally(parent, inMark, children[1..])
  }

  /** The node's children are a paragraph mark's own run properties. */
  predicate IsMark(parent: Tag, node: Node) {
    !Unwrapped(node.tag) && parent == PPr && node.tag == RPr
  }

  /** What one child adds to the tally on its own account. */
  function OwnTally(inMark: bool, node: Node): multiset<Kind> {
    if Removed(node.tag) || Unwrapped(node.tag) then multiset{KindOf(node.tag, inMark)} else multiset{}
  }

  function TallyChild(parent: Tag, inMark: bool, node: Node): multiset<Kind>
    decreases node, 1
  {
    if Removed(node.tag) then OwnTally(inMark, node)
    else OwnTally(inMark, node) + Tally(node.tag, IsMark(parent, node), node.children)
  }

  /** Nothing counted, nothing changed: an empty tally means the tree is the tree it was. */
  lemma {:induction false} EmptyTallyUnchanged(parent: Tag, inMark: bool, children: seq<Node>)
    ensures Tally(parent, inMark, children) == multiset{} <==> Settled(children)
    ensures Tally(parent, inMark, children) == multiset{} ==> Spliced(children) == children
    decreases children
  {
    if children != [] {
      var head := children[0];
      EmptyTallyUnchanged(parent, inMark, children[1..]);
      EmptySum(TallyChild(parent, inMark, head), Tally(parent, inMark, children[1..]));
      if Removed(head.tag) || Unwrapped(head.tag) {
        assert KindOf(head.tag, inMark) in TallyChild(parent, inMark, head);
      } else {
        EmptyTallyUnchanged(head.tag, IsMark(parent, head), head.children);
      }
    }
    if Settled(children) { SettledStays(children); }
  }

  lemma {:induction false} EmptySum<K>(a: multiset<K>, b: multiset<K>)
    ensures a + b == multiset{} <==> a == multiset{} && b == multiset{}
  {
    if a + b == multiset{} {
      assert |a| + |b| == |a + b| == 0;
    }
  }

  // ---------------------------------------------------------------------
  // Conservation of revisions
  // ---------------------------------------------------------------------

  /** How many elements with a revision tag stand among and under the children, counting a
      removed element but nothing inside it. */
  function Standing(children: seq<Node>, tag: Tag): nat
    decreases children
  {
    if children == [] then 0
    else
      (if children[0].tag == tag then 1 else 0)
      + (if Removed(children[0].tag) then 0 else Standing(children[0].children, tag))
      + Standing(children[1..], tag)
  }

  /** `_unapplied_revision_markup`: how many elements with the tag stand anywhere. */
  function Remaining(children: seq<Node>, tag: Tag): nat
    decreases children
  {
    if children == [] then 0
    else
      (if children[0].tag == tag then 1 else 0) + Remaining(children[0].children, tag) + Remaining(children[1..], tag)
  }

  /** How many entries of a tally were elements with the tag. */
  function AcceptedCount(tally: multiset<Kind>, tag: Tag): nat {
    tally[Named(tag)] + (if tag == Ins then tally[ParagraphMarkIns] else 0)
    + (if tag == Del then tally[ParagraphMarkDel] else 0)
  }

  lemma {:induction false} RemainingConcat(a: seq<Node>, b: seq<Node>, tag: Tag)
    ensures Remaining(a + b, tag) == Remaining(a, tag) + Remaining(b, tag)
    decreases |a|
  {
    if a == [] {
      assert a + b == b;
    } else {
      RemainingConcat(a[1..], b, tag);
      assert (a + b)[1..] == a[1..] + b && (a + b)[0] == a[0];
    }
  }

  lemma {:induction false} AcceptedAdds(a: multiset<Kind>, b: multiset<Kind>, tag: Tag)
    ensures AcceptedCount(a + b, tag) == AcceptedCount(a, tag) + AcceptedCount(b, tag)
  {
  }

  /** Every revision element outside a removed subtree is either counted as accepted or still
      there to be reported as unapplied, tag by tag. */
  lemma {:induction false} RevisionsConserved(parent: Tag, inMark: bool, children: seq<Node>, tag: Tag)
    requires IsRevision(tag)
    ensures Standing(children, tag)
         == AcceptedCount(Tally(parent, inMark, children), tag) + Remaining(Spliced(children), tag)
    decreases children
  {
    hide SplicedChild, TallyChild, IsRevision;
    if children != [] {
      var head := children[0];
      RevisionsConserved(parent, inMark, children[1..], tag);
      RemainingConcat(SplicedChild(head), Spliced(children[1..]), tag);
      AcceptedAdds(TallyChild(parent, inMark, head), Tally(parent, inMark, children[1..]), tag);
      if !Removed(head.tag) {
        RevisionsConserved(head.tag, IsMark(parent, head), head.children, tag);
      }
      HeadConserved(parent, inMark, head, tag);
    }
  }

  lemma {:induction false} HeadConserved(parent: Tag, inMark: bool, head: Node, tag: Tag)
    requires IsRevision(tag)
    requires Removed(head.tag) || Standing(head.children, tag)
      == AcceptedCount(Tally(head.tag, IsMark(parent, head), head.children), tag)
          + Remaining(Spliced(head.children), tag)
    ensures (if head.tag == tag then 1 else 0) + (if Removed(head.tag) then 0 else Standing(head.children, tag))
         == AcceptedCount(TallyChild(parent, inMark, head), tag) + Remaining(SplicedChild(head), tag)
  {
    OwnConserved(inMark, head, tag);
    if !Removed(head.tag) {
      AcceptedAdds(OwnTally(inMark, head), Tally(head.tag, IsMark(parent, head), head.children), tag);
    }
    if !Removed(head.tag) && !Unwrapped(head.tag) {
      assert SplicedChild(head)[1..] == [];
    }
  }

  lemma {:induction false} OwnConserved(inMark: bool, head: Node, tag: Tag)
    ensures AcceptedCount(OwnTally(inMark, head), tag)
         == if (Removed(head.tag) || Unwrapped(head.tag)) && head.tag == tag then 1 else 0
  {
  }
}
