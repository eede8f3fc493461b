/** Which accepted revisions are filed as a paragraph mark's (`_count_accepted`,
    `scripts/extraction_normalization_stage.py`): a struck or inserted mark proposes a merge or
    a split, and the tally must not pass it off as a deletion or an insertion of text, nor the
    other way round. */
module SpliceTally {
  import opened Markup
  import opened Splice

  /** How many of the children have the tag. */
  function Direct(children: seq<Node>, tag: Tag): nat {
    if children == [] then 0 else (if children[0].tag == tag then 1 else 0) + Direct(children[1..], tag)
  }

  /** How many stand directly in run properties among these children. */
  function InRunProperties(children: seq<Node>, tag: Tag): nat {
    if children == [] then 0
    else (if children[0].tag == RPr then Direct(children[0].children, tag) else 0) + InRunProperties(children[1..], tag)
  }

  /** How many stand directly in the run properties of paragraph properties, anywhere but below something
      removed. */
  function OfMarks(children: seq<Node>, tag: Tag): nat
    decreases children
  {
    if children == [] then 0
    else
      (if Removed(children[0].tag) then 0
       else (if children[0].tag == PPr then InRunProperties(children[0].children, tag) else 0)
            + OfMarks(children[0].children, tag))
      + OfMarks(children[1..], tag)
  }

  function MarkKind(deleted: bool): Kind {
    if deleted then ParagraphMarkDel else ParagraphMarkIns
  }

  function MarkTag(deleted: bool): Tag {
    if deleted then Del else Ins
  }

  /** Splits and merges proposed by paragraph marks are filed apart: exactly as many insertions and deletions as
      stand directly in the run properties of paragraph properties. */
  lemma {:induction false} MarksFiledApart(parent: Tag, inMark: bool, children: seq<Node>, deleted: bool)
    ensures Tally(parent, inMark, children)[MarkKind(deleted)]
      == (if inMark then Direct(children, MarkTag(deleted)) else 0)
         + (if parent == PPr then InRunProperties(children, MarkTag(deleted)) else 0)
         + OfMarks(children, MarkTag(deleted))
    decreases children
  {
    hide TallyChild, IsMark, Removed, KindOf;
    if children != [] {
      var head := children[0];
      MarksFiledApart(parent, inMark, children[1..], deleted);
      if !Removed(head.tag) { MarksFiledApart(head.tag, IsMark(parent, head), head.children, deleted); }
      ChildFiled(parent, inMark, head, deleted);
      MarkIs(parent, head);
    }
  }

  lemma {:induction false} ChildFiled(parent: Tag, inMark: bool, head: Node, deleted: bool)
    ensures TallyChild(parent, inMark, head)[MarkKind(deleted)]
      == (if inMark && head.tag == MarkTag(deleted) then 1 else 0)
         + (if Removed(head.tag) then 0 else Tally(head.tag, IsMark(parent, head), head.children)[MarkKind(deleted)])
  {
  }

  lemma {:induction false} MarkIs(parent: Tag, head: Node)
    ensures IsMark(parent, head) <==> parent == PPr && head.tag == RPr
    ensures head.tag == RPr || head.tag == PPr ==> !Removed(head.tag)
  {
  }
}
