/** The walk over one paragraph's inline content as it runs: a builder filled in while elements
    are met in document order (`_walk_content`, `_ParaBuilder`, `_build_paragraph_record`,
    `scripts/extraction_normalization_stage.py`). The builder is an object whose fields are
    appended to in place; every method is proved against the draft it stands for, and the whole
    walk against the leaves it meets. */
module ParagraphWalk {
  import opened Prelude
  import opened Markup
  import opened Reading
  import opened ParagraphText
  import opened ParagraphDraft

  /** `_ParaBuilder`. */
  class ParaBuilder {
    var original: string
    var resulting: string
    var boundary: string
    var clusters: seq<Cluster>
    var current: Option<Cluster>
    var hasHidden: bool
    var hasComment: bool
    var fields: seq<FieldNote>

    constructor ()
      ensures Draft() == EMPTY
    {
      original, resulting, boundary := "", "", "";
      clusters, current, fields := [], None, [];
      hasHidden, hasComment := false, false;
    }

    /** The state as a value. */
    function Draft(): Draft
      reads this
    {
      ParagraphDraft.Draft(original, resulting, boundary, clusters, current, hasHidden, hasComment, fields)
    }

    method CloseCluster()
      modifies this`clusters, this`current
      ensures Draft() == Closed(old(Draft()))
    {
      if current.Some? {
        clusters, current := clusters + [current.value], None;
      }
    }

    method EnsureCluster(author: string, inField: bool)
      modifies this`clusters, this`current
      ensures Draft() == Ensured(old(Draft()), author, inField)
    {
      if current.Some? && author != "" && current.value.author != "" && current.value.author != author {
        CloseCluster();
      }
      if current.None? {
        current := Some(Cluster(author, inField, None));
      } else {
        if author != "" && current.value.author == "" {
          current := Some(current.value.(author := author));
        }
        if inField {
          current := Some(current.value.(inField := true));
        }
      }
    }

    method AddPlain(text: string, boundaryText: string)
      modifies this
      ensures Draft() == WithPlain(old(Draft()), text, boundaryText)
    {
      CloseCluster();
      original, resulting, boundary := original + text, resulting + text, boundary + boundaryText;
    }

    method AddIns(text: string, boundaryText: string, author: string, inField: bool)
      modifies this
      ensures Draft() == WithInserted(old(Draft()), text, boundaryText, author, inField)
    {
      EnsureCluster(author, inField);
      resulting, boundary := resulting + text, boundary + boundaryText;
    }

    method AddDel(text: string, author: string, inField: bool)
      modifies this
      ensures Draft() == WithDeleted(old(Draft()), text, author, inField)
    {
      EnsureCluster(author, inField);
      original := original + text;
    }

    method AddHidden()
      modifies this
      ensures Draft() == Closed(old(Draft())).(hidden := true)
    {
      CloseCluster();
      hasHidden := true;
    }
  }

  // ---------------------------------------------------------------------
  // Runs
  // ---------------------------------------------------------------------

  method StripSoftHyphens(s: string) returns (r: string)
    ensures r == WithoutSoftHyphens(s)
  {
    r := "";
    for i := 0 to |s|
      invariant r + WithoutSoftHyphens(s[i..]) == WithoutSoftHyphens(s)
    {
      assert s[i..][1..] == s[i + 1..];
      if s[i] != SOFT_HYPHEN { r := r + [s[i]]; }
    }
    assert s[|s|..] == "";
  }

  /** One child of a run: what it adds to the text and to the boundary text. */
  method ReadChild(child: Node, deleted: bool) returns (text: string, boundaryText: string)
    ensures text == Text(RunGlyphs(ItemsOf(child), deleted))
    ensures boundaryText == BoundaryText(RunGlyphs(ItemsOf(child), deleted))
  {
    text, boundaryText := "", "";
    if child.tag == (if deleted then DelText else T) {
      text := StripSoftHyphens(child.val);
      boundaryText := text;
    } else if child.tag == TabMark {
      text, boundaryText := "\t", "\t";
    } else if child.tag == Br || child.tag == Cr {
      text := "\n";
    } else if child.tag == NoBreakHyphen {
      text := [HARD_HYPHEN];
    } else if child.tag == Sym {
      text := child.val;
    }
    ChildSpells(child, deleted);
  }

  /** What a run's child spells, tag by tag. */
  lemma {:induction false} ChildSpells(child: Node, deleted: bool)
    ensures var text, letters := Text(RunGlyphs(ItemsOf(child), deleted)),
      BoundaryText(RunGlyphs(ItemsOf(child), deleted));
            if child.tag == (if deleted then DelText else T) then text == letters == WithoutSoftHyphens(child.val)
            else if child.tag == TabMark then text == letters == "\t"
            else if child.tag == Br || child.tag == Cr then text == "\n" && letters == ""
            else if child.tag == NoBreakHyphen then text == [HARD_HYPHEN] && letters == ""
            else if child.tag == Sym then text == child.val && letters == ""
            else text == letters == ""
  {
    hide WithoutSoftHyphens, BoundaryText, Text, GlyphsFor;
    var items := ItemsOf(child);
    EmptyText();
    if items != [] {
      OneItem(items, deleted);
      GlyphsSpell(WithoutSoftHyphens(child.val), true);
      GlyphsSpell(child.val, false);
      OneGlyph('\t', true);
      OneGlyph('\n', false);
      OneGlyph(HARD_HYPHEN, false);
    }
  }

  lemma {:induction false} OneItem(items: seq<Item>, deleted: bool)
    requires |items| == 1
    ensures RunGlyphs(items, deleted) == ItemGlyphs(items[0], deleted)
  {
    assert items[1..] == [];
    assert ItemGlyphs(items[0], deleted) + [] == ItemGlyphs(items[0], deleted);
  }

  lemma {:induction false} OneGlyph(letter: char, boundary: bool)
    ensures Text([Glyph(letter, boundary)]) == [letter]
    ensures BoundaryText([Glyph(letter, boundary)]) == if boundary then [letter] else ""
  {
    assert GlyphsFor([letter], boundary) == [Glyph(letter, boundary)];
    GlyphsSpell([letter], boundary);
  }

  lemma {:induction false} GlyphsSpell(s: string, boundary: bool)
    ensures Text(GlyphsFor(s, boundary)) == s
    ensures BoundaryText(GlyphsFor(s, boundary)) == if boundary then s else ""
  {
    if s != "" {
      GlyphsSpell(s[1..], boundary);
      assert GlyphsFor(s, boundary)[1..] == GlyphsFor(s[1..], boundary);
    }
  }

  /** `_process_run`. */
  method ProcessRun(run: Node, builder: ParaBuilder, c: Context)
    modifies builder
    ensures builder.Draft() == WithRun(old(builder.Draft()), run.hidden, Items(run.children), c)
  {
    hide RunGlyphs, Items, Closed, Ensured;
    var deleted := c.mode == Deleted;
    var text, boundaryText := ReadRun(run.children, deleted);
    if run.hidden {
      builder.AddHidden();
      return;
    }
    var comment := HasComment(run.children);
    if comment {
      builder.hasComment := true;
    }
    if text == "" {
      return;
    }
    match c.mode {
      case Plain => builder.AddPlain(text, boundaryText);
      case Inserted => builder.AddIns(text, boundaryText, c.author, c.inField);
      case Deleted => builder.AddDel(text, c.author, c.inField);
    }
  }

  method ReadRun(children: seq<Node>, deleted: bool) returns (text: string, boundaryText: string)
    ensures text == Text(RunGlyphs(Items(children), deleted))
    ensures boundaryText == BoundaryText(RunGlyphs(Items(children), deleted))
    ensures text == "" <==> RunGlyphs(Items(children), deleted) == []
  {
    text, boundaryText := "", "";
    ghost var seen: seq<Glyph> := [];
    assert children[0..] == children;
    for i := 0 to |children|
      invariant text == Text(seen) && boundaryText == BoundaryText(seen)
      invariant seen + RunGlyphs(Items(children[i..]), deleted) == RunGlyphs(Items(children), deleted)
    {
      var t, b := ReadChild(children[i], deleted);
      ghost var more := RunGlyphs(ItemsOf(children[i]), deleted);
      NextChild(children, i, deleted, seen);
      TextConcat(seen, more);
      BoundaryTextConcat(seen, more);
      text, boundaryText, seen := text + t, boundaryText + b, seen + more;
    }
    assert seen == RunGlyphs(Items(children), deleted);
  }

  lemma {:induction false} NextChild(children: seq<Node>, i: nat, deleted: bool, seen: seq<Glyph>)
    requires i < |children|
    ensures seen + RunGlyphs(Items(children[i..]), deleted)
         == (seen + RunGlyphs(ItemsOf(children[i]), deleted)) + RunGlyphs(Items(children[i + 1..]), deleted)
  {
    hide RunGlyphs, ItemsOf;
    assert children[i..][0] == children[i] && children[i..][1..] == children[i + 1..];
    RunGlyphsConcat(ItemsOf(children[i]), Items(children[i + 1..]), deleted);
  }

  /** `run_el.find(commentReference) is not None`. */
  method HasComment(children: seq<Node>) returns (found: bool)
    ensures found <==> CommentItem in Items(children)
  {
    found := false;
    assert children[0..] == children;
    for i := 0 to |children|
      invariant CommentItem in Items(children) <==> found || CommentItem in Items(children[i..])
    {
      assert children[i..][0] == children[i] && children[i..][1..] == children[i + 1..];
      assert CommentItem in ItemsOf(children[i]) <==> children[i].tag == CommentReference by {
        CommentChild(children[i]);
      }
      if children[i].tag == CommentReference { found := true; }
    }
  }

  lemma {:induction false} CommentChild(child: Node)
    ensures CommentItem in ItemsOf(child) <==> child.tag == CommentReference
  {
    if child.tag == CommentReference { assert ItemsOf(child)[0] == CommentItem; }
  }

  // ---------------------------------------------------------------------
  // The walk
  // ---------------------------------------------------------------------

  /** `_process_fld_simple`: the field's result is read by a builder of its own, and only then
      joined to the paragraph. */
  method ProcessFldSimple(field: Node, builder: ParaBuilder, c: Context)
    requires field.tag == FldSimple
    modifies builder
    ensures builder.Draft() == WithLeaf(old(builder.Draft()),
                                        FieldLeaf(field.val, Leaves(field.children, Inside(field, c)), c))
    decreases field, 0
  {
    hide WithField, WithLeaf, Drafted, Leaves, Closed, Strip;
    var instr := Strip(field.val);
    var inner := new ParaBuilder();
    WalkContent(field.children, inner, Context(Plain, c.struck, "", true));
    inner.CloseCluster();
    JoinField(field.val, instr, inner, builder);
    FieldReads(old(builder.Draft()), field, c);
  }

  lemma {:induction false} FieldReads(d: Draft, field: Node, c: Context)
    ensures WithLeaf(d, FieldLeaf(field.val, Leaves(field.children, Inside(field, c)), c))
         == WithField(d, field.val, Closed(Drafted(EMPTY, Leaves(field.children, Inside(field, c)))))
  {
  }

  /** Joins a field's own reading to the paragraph's. */
  method JoinField(ghost attribute: string, instr: string, inner: ParaBuilder, builder: ParaBuilder)
    requires inner != builder && instr == Strip(attribute)
    modifies builder
    ensures builder.Draft() == WithField(old(builder.Draft()), attribute, inner.Draft())
  {
    hide Strip, Closed;
    builder.hasHidden := builder.hasHidden || inner.hasHidden;
    builder.hasComment := builder.hasComment || inner.hasComment;
    if inner.clusters != [] {
      builder.clusters := builder.clusters + Stamped(inner.clusters, Strip(inner.resulting));
      builder.original := builder.original + inner.original;
      builder.resulting := builder.resulting + inner.resulting;
      builder.boundary := builder.boundary + inner.boundary;
      return;
    }
    if inner.original != "" {
      builder.AddPlain(inner.original, inner.boundary);
    }
    if instr != "" {
      builder.fields := builder.fields + [FieldNote(instr, inner.original)];
    }
  }

  /** One element of `_walk_content`'s loop. */
  method WalkElement(el: Node, builder: ParaBuilder, c: Context)
    modifies builder
    ensures builder.Draft() == Drafted(old(builder.Draft()), LeavesOf(el, c))
    decreases el, 1
  {
    ElementReads(builder.Draft(), el, c);
    if el.tag == R {
      ProcessRun(el, builder, c);
    } else if el.tag == Sdt {
      if !ShowsPlaceholder(el.children) && Find(el.children, SdtContent).Some? {
        WalkInside(el, builder, c);
      }
    } else if el.tag == Ins {
      WalkInside(el, builder, c.(mode := Inserted, author := Author(el, c)));
    } else if el.tag == Del {
      WalkInside(el, builder, c.(mode := Deleted, struck := true, author := Author(el, c)));
    } else if el.tag == FldSimple {
      ProcessFldSimple(el, builder, c);
    } else if Transparent(el.tag) {
      WalkInside(el, builder, c);
    }
  }

  /** Descends into what an element contributes. */
  method WalkInside(el: Node, builder: ParaBuilder, inner: Context)
    modifies builder
    ensures builder.Draft() == Drafted(old(builder.Draft()), Leaves(Content(el), inner))
    decreases el, 0
  {
    if Content(el) != [] {
      ContentBelow(el);
      WalkContent(Content(el), builder, inner);
    }
  }

  /** `_walk_content`: the builder ends up holding exactly what the leaves met add to it. */
  method WalkContent(elements: seq<Node>, builder: ParaBuilder, c: Context)
    modifies builder
    ensures builder.Draft() == Drafted(old(builder.Draft()), Leaves(elements, c))
    decreases elements, 2
  {
    assert elements[0..] == elements;
    for i := 0 to |elements|
      invariant Drafted(builder.Draft(), Leaves(elements[i..], c)) == Drafted(old(builder.Draft()), Leaves(elements, c))
    {
      NextElement(builder.Draft(), elements, i, c);
      WalkElement(elements[i], builder, c);
    }
  }

  lemma {:induction false} NextElement(d: Draft, elements: seq<Node>, i: nat, c: Context)
    requires i < |elements|
    ensures Drafted(d, Leaves(elements[i..], c))
      == Drafted(Drafted(d, LeavesOf(elements[i], c)), Leaves(elements[i + 1..], c))
  {
    hide Drafted, LeavesOf;
    assert elements[i..][0] == elements[i] && elements[i..][1..] == elements[i + 1..];
    DraftedConcat(d, LeavesOf(elements[i], c), Leaves(elements[i + 1..], c));
  }

  /** What an element's own leaves leave to do: a run is read, a field is read whole, a link
      anchor and a bookmark add nothing to the draft. */
  lemma {:induction false} ElementReads(d: Draft, el: Node, c: Context)
    ensures Drafted(d, LeavesOf(el, c)) ==
      if el.tag == R then WithRun(d, el.hidden, Items(el.children), c)
      else if el.tag == FldSimple then WithLeaf(d, FieldLeaf(el.val, Leaves(el.children, Inside(el, c)), c))
      else Drafted(d, Leaves(Content(el), Inside(el, c)))
  {
    hide Items, WithRun, WithField;
    if el.tag == FldSimple {
      OneLeafDrafted(d, LeavesOf(el, c)[0]);
    } else {
      OneNodeLeaves(el, c);
      DraftedConcat(d, OwnLeaves(el, c), BelowLeaves(el, c));
      if OwnLeaves(el, c) != [] { OneLeafDrafted(d, OwnLeaves(el, c)[0]); }
    }
  }

  lemma {:induction false} OneLeafDrafted(d: Draft, leaf: Leaf)
    ensures Drafted(d, [leaf]) == WithLeaf(d, leaf)
  {
    assert [leaf][1..] == [];
  }
}
