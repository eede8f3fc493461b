/** What a paragraph's leaves add up to while they are read in order: the three texts, the pending
    changes clustered by author, and the notes kept beside them (`_ParaBuilder`,
    `_process_run`, `_process_fld_simple`, `scripts/extraction_normalization_stage.py`). This is
    the builder as a value; what it holds at the end is said of the leaves alone, with no word of
    the order in which they came. */
module ParagraphDraft {
  import opened Prelude
  import opened Reading
  import opened ParagraphText

  /** A contiguous stretch of pending changes by one author; no author is the empty string. */
  datatype Cluster = Cluster(author: string, inField: bool, fieldText: Option<string>)

  /** A simple field read whole: its code and its displayed result. */
  datatype FieldNote = FieldNote(code: string, result: string)

  datatype Draft = Draft(original: string, resulting: string, boundary: string,
                         clusters: seq<Cluster>, open: Option<Cluster>,
                         hidden: bool, comment: bool, fields: seq<FieldNote>)

  const EMPTY: Draft := Draft("", "", "", [], None, false, false, [])

  /** `_close_cluster`. */
  function Closed(d: Draft): Draft {
    match d.open
    case None => d
    case Some(cluster) => d.(clusters := d.clusters + [cluster], open := None)
  }

  /** `_ensure_cluster`: another author closes the open cluster; the open cluster takes on an
      author it lacked and remembers ever having been inside a field. */
  function Ensured(d: Draft, author: string, inField: bool): Draft {
    var e := if d.open.Some? && author != "" && d.open.value.author != "" && d.open.value.author != author
             then Closed(d) else d;
    match e.open
    case None => e.(open := Some(Cluster(author, inField, None)))
    case Some(cluster) =>
      e.(open := Some(cluster.(author := if cluster.author == "" then author else cluster.author,
                               inField := cluster.inField || inField)))
  }

  function WithPlain(d: Draft, text: string, boundary: string): Draft {
    var e := Closed(d);
    e.(original := e.original + text, resulting := e.resulting + text, boundary := e.boundary + boundary)
  }

  function WithInserted(d: Draft, text: string, boundary: string, author: string, inField: bool): Draft {
    var e := Ensured(d, author, inField);
    e.(resulting := e.resulting + text, boundary := e.boundary + boundary)
  }

  function WithDeleted(d: Draft, text: string, author: string, inField: bool): Draft {
    var e := Ensured(d, author, inField);
    e.(original := e.original + text)
  }

  /** `_process_run`: hidden text only closes the open cluster and leaves a mark; an open comment
      is noted even on an empty run. */
  function WithRun(d: Draft, hidden: bool, items: seq<Item>, c: Context): Draft {
    if hidden then Closed(d).(hidden := true)
    else
      var glyphs := RunGlyphs(items, c.mode == Deleted);
      var e := d.(comment := d.comment || CommentItem in items);
      if glyphs == [] then e
      else
        match c.mode
        case Plain => WithPlain(e, Text(glyphs), BoundaryText(glyphs))
        case Inserted => WithInserted(e, Text(glyphs), BoundaryText(glyphs), c.author, c.inField)
        case Deleted => WithDeleted(e, Text(glyphs), c.author, c.inField)
  }

  /** Every cluster of a field's result carries that field's own accepted text. */
  function Stamped(clusters: seq<Cluster>, text: string): seq<Cluster> {
    seq(|clusters|, i requires 0 <= i < |clusters| => clusters[i].(fieldText := Some(text)))
  }

  /** `_process_fld_simple`, once the field's own result has been read into `f`. */
  function WithField(d: Draft, instr: string, f: Draft): Draft {
    var e := d.(hidden := d.hidden || f.hidden, comment := d.comment || f.comment);
    if f.clusters != [] then
      e.(clusters := e.clusters + Stamped(f.clusters, Strip(f.resulting)),
         original := e.original + f.original, resulting := e.resulting + f.resulting,
         boundary := e.boundary + f.boundary)
    else
      var r := if f.original != "" then WithPlain(e, f.original, f.boundary) else e;
      if Strip(instr) != "" then r.(fields := r.fields + [FieldNote(Strip(instr), f.original)]) else r
  }

  function WithLeaf(d: Draft, leaf: Leaf): Draft
    decreases leaf, 1
  {
    match leaf
    case RunLeaf(hidden, items, c) => WithRun(d, hidden, items, c)
    case FieldLeaf(instr, result, _) => WithField(d, instr, Closed(Drafted(EMPTY, result)))
    case _ => d
  }

  function Drafted(d: Draft, leaves: seq<Leaf>): Draft
    decreases leaves, 0
  {
    if leaves == [] then d else Drafted(WithLeaf(d, leaves[0]), leaves[1..])
  }

  lemma {:induction false} DraftedConcat(d: Draft, a: seq<Leaf>, b: seq<Leaf>)
    ensures Drafted(d, a + b) == Drafted(Drafted(d, a), b)
    decreases |a|
  {
    hide WithLeaf;
    if a == [] {
      assert a + b == b;
    } else {
      DraftedConcat(WithLeaf(d, a[0]), a[1..], b);
      assert (a + b)[1..] == a[1..] + b && (a + b)[0] == a[0];
    }
  }

  // ---------------------------------------------------------------------
  // What a draft holds
  // ---------------------------------------------------------------------

  predicate Pending(d: Draft) {
    d.clusters != [] || d.open.Some?
  }

  /** Some visible text is read as inserted or deleted. */
  predicate ShowsRevision(leaves: seq<Leaf>)
    decreases leaves, 0
  {
    leaves != [] && (LeafShowsRevision(leaves[0]) || ShowsRevision(leaves[1..]))
  }

  predicate LeafShowsRevision(leaf: Leaf)
    decreases leaf, 1
  {
    match leaf
    case RunLeaf(hidden, items, c) => !hidden && c.mode != Plain && RunGlyphs(items, c.mode == Deleted) != []
    case FieldLeaf(_, result, _) => ShowsRevision(result)
    case _ => false
  }

  /** The fields read whole: outermost, with a code, and no pending change in their result. */
  function FieldNotes(leaves: seq<Leaf>): seq<FieldNote> {
    if leaves == [] then [] else FieldNotesOf(leaves[0]) + FieldNotes(leaves[1..])
  }

  function FieldNotesOf(leaf: Leaf): seq<FieldNote> {
    if leaf.FieldLeaf? && !ShowsRevision(leaf.result) && Strip(leaf.instr) != ""
    then [FieldNote(Strip(leaf.instr), Text(OriginalGlyphs(leaf.result)))]
    else []
  }

  /** What reading `leaves` adds to a draft: the texts they spell, a pending change exactly when
      they show one, and a note for every field read whole. */
  predicate Adds(d: Draft, leaves: seq<Leaf>, r: Draft) {
    && r.original == d.original + Text(OriginalGlyphs(leaves))
    && r.resulting == d.resulting + Text(AcceptGlyphs(leaves))
    && r.boundary == d.boundary + BoundaryText(AcceptGlyphs(leaves))
    && (Pending(r) <==> Pending(d) || ShowsRevision(leaves))
    && r.fields == d.fields + FieldNotes(leaves)
  }

  lemma {:induction false} DraftHolds(d: Draft, leaves: seq<Leaf>)
    ensures Adds(d, leaves, Drafted(d, leaves))
    decreases leaves, 0
  {
    if leaves == [] {
    } else {
      hide Adds, WithLeaf;
      var leaf, rest := leaves[0], leaves[1..];
      LeafHolds(d, leaf);
      DraftHolds(WithLeaf(d, leaf), rest);
      AddsJoin(d, WithLeaf(d, leaf), Drafted(d, leaves), leaf, rest);
      assert leaves == [leaf] + rest;
    }
  }

  /** Reading one leaf and then the rest adds what reading them all does. */
  lemma {:induction false} AddsJoin(d: Draft, e: Draft, r: Draft, leaf: Leaf, rest: seq<Leaf>)
    requires Adds(d, [leaf], e) && Adds(e, rest, r)
    ensures Adds(d, [leaf] + rest, r)
  {
    hide AcceptGlyphsOf, OriginalGlyphsOf, LeafShowsRevision, FieldNotesOf, Text, BoundaryText;
    var all := [leaf] + rest;
    assert all[0] == leaf && all[1..] == rest && [leaf][0] == leaf && [leaf][1..] == [];
    TextConcat(OriginalGlyphs([leaf]), OriginalGlyphs(rest));
    TextConcat(AcceptGlyphs([leaf]), AcceptGlyphs(rest));
    BoundaryTextConcat(AcceptGlyphs([leaf]), AcceptGlyphs(rest));
    OneLeaf(leaf);
  }

  lemma {:induction false} OneLeaf(leaf: Leaf)
    ensures AcceptGlyphs([leaf]) == AcceptGlyphsOf(leaf) && OriginalGlyphs([leaf]) == OriginalGlyphsOf(leaf)
    ensures ShowsRevision([leaf]) <==> LeafShowsRevision(leaf)
    ensures FieldNotes([leaf]) == FieldNotesOf(leaf)
  {
    hide AcceptGlyphsOf, OriginalGlyphsOf, LeafShowsRevision, FieldNotesOf;
    assert [leaf][1..] == [];
  }

  lemma {:induction false} LeafHolds(d: Draft, leaf: Leaf)
    ensures Adds(d, [leaf], WithLeaf(d, leaf))
    decreases leaf, 1
  {
    OneLeaf(leaf);
    match leaf {
      case RunLeaf(hidden, items, c) => RunHolds(d, hidden, items, c);
      case FieldLeaf(instr, result, _) =>
        var f := Drafted(EMPTY, result);
        DraftHolds(EMPTY, result);
        FieldHolds(d, leaf, f);
      case _ =>
    }
  }

  /** The same texts and the same field notes. */
  predicate SameTexts(d: Draft, r: Draft) {
    r.original == d.original && r.resulting == d.resulting && r.boundary == d.boundary && r.fields == d.fields
  }

  lemma {:induction false} ClusteringKeepsTexts(d: Draft, author: string, inField: bool)
    ensures SameTexts(d, Closed(d)) && (Pending(Closed(d)) <==> Pending(d)) && Closed(d).open.None?
    ensures SameTexts(d, Ensured(d, author, inField)) && Pending(Ensured(d, author, inField))
  {
  }

  predicate Grown(d: Draft, r: Draft, original: string, resulting: string, boundary: string) {
    && r.original == d.original + original && r.resulting == d.resulting + resulting
    && r.boundary == d.boundary + boundary && r.fields == d.fields
  }

  lemma {:induction false} EachGrows(d: Draft, text: string, boundary: string, author: string, inField: bool)
    ensures Grown(d, WithPlain(d, text, boundary), text, text, boundary)
    ensures Pending(WithPlain(d, text, boundary)) <==> Pending(d)
    ensures Grown(d, WithInserted(d, text, boundary, author, inField), "", text, boundary)
    ensures Pending(WithInserted(d, text, boundary, author, inField))
    ensures Grown(d, WithDeleted(d, text, author, inField), text, "", "")
    ensures Pending(WithDeleted(d, text, author, inField))
  {
    hide Closed, Ensured;
    ClusteringKeepsTexts(d, author, inField);
  }

  lemma {:induction false} RunHolds(d: Draft, hidden: bool, items: seq<Item>, c: Context)
    ensures var r, leaf := WithRun(d, hidden, items, c), RunLeaf(hidden, items, c);
            && r.original == d.original + Text(OriginalGlyphsOf(leaf))
            && r.resulting == d.resulting + Text(AcceptGlyphsOf(leaf))
            && r.boundary == d.boundary + BoundaryText(AcceptGlyphsOf(leaf))
            && (Pending(r) <==> Pending(d) || LeafShowsRevision(leaf))
            && r.fields == d.fields + FieldNotesOf(leaf)
  {
    EmptyText();
    hide RunGlyphs, Text, BoundaryText, Closed, WithPlain, WithInserted, WithDeleted;
    var e, glyphs := d.(comment := d.comment || CommentItem in items), RunGlyphs(items, c.mode == Deleted);
    ClusteringKeepsTexts(d, c.author, c.inField);
    EachGrows(e, Text(glyphs), BoundaryText(glyphs), c.author, c.inField);
  }

  lemma {:induction false} EmptyText()
    ensures Text([]) == "" == BoundaryText([])
  {
  }

  /** Where nothing is pending the pre-edit and the accepted reading are one. */
  lemma {:induction false} UnrevisedReadsAlike(leaves: seq<Leaf>)
    requires !ShowsRevision(leaves)
    ensures OriginalGlyphs(leaves) == AcceptGlyphs(leaves)
    decreases leaves
  {
    hide RunGlyphs;
    if leaves != [] {
      UnrevisedReadsAlike(leaves[1..]);
      if leaves[0].FieldLeaf? { UnrevisedReadsAlike(leaves[0].result); }
      assert OriginalGlyphsOf(leaves[0]) == AcceptGlyphsOf(leaves[0]);
    }
  }

  lemma {:induction false} FieldHolds(d: Draft, leaf: Leaf, f: Draft)
    requires leaf.FieldLeaf? && Adds(EMPTY, leaf.result, f)
    ensures var r := WithField(d, leaf.instr, Closed(f));
            && r.original == d.original + Text(OriginalGlyphsOf(leaf))
            && r.resulting == d.resulting + Text(AcceptGlyphsOf(leaf))
            && r.boundary == d.boundary + BoundaryText(AcceptGlyphsOf(leaf))
            && (Pending(r) <==> Pending(d) || LeafShowsRevision(leaf))
            && r.fields == d.fields + FieldNotesOf(leaf)
  {
    FieldTexts(leaf.result, f);
    EmptyText();
    hide Closed, Strip, Text, BoundaryText, OriginalGlyphs, AcceptGlyphs, ShowsRevision, Adds, WithField;
    WithFieldGrows(d, leaf.instr, Closed(f));
  }

  lemma {:induction false} WithFieldGrows(d: Draft, instr: string, g: Draft)
    requires g.clusters == [] ==> g.resulting == g.original && (g.original == "" ==> g.boundary == "")
    ensures var r := WithField(d, instr, g);
            && r.original == d.original + g.original && r.resulting == d.resulting + g.resulting
            && r.boundary == d.boundary + g.boundary && (Pending(r) <==> Pending(d) || g.clusters != [])
            && r.fields == d.fields + (if g.clusters == []
              && Strip(instr) != "" then [FieldNote(Strip(instr), g.original)] else [])
  {
    hide Strip, WithPlain;
    var e := d.(hidden := d.hidden || g.hidden, comment := d.comment || g.comment);
    EachGrows(e, g.original, g.boundary, "", false);
  }

  /** A field's own reading, closed. */
  lemma {:induction false} FieldTexts(result: seq<Leaf>, f: Draft)
    requires Adds(EMPTY, result, f)
    ensures var g := Closed(f);
            && g.original == Text(OriginalGlyphs(result)) && g.resulting == Text(AcceptGlyphs(result))
            && g.boundary == BoundaryText(AcceptGlyphs(result))
            && (g.clusters != [] <==> ShowsRevision(result))
            && (!ShowsRevision(result) ==> OriginalGlyphs(result) == AcceptGlyphs(result))
            && (g.original == "" && !ShowsRevision(result) ==> AcceptGlyphs(result) == [])
  {
    hide OriginalGlyphs, AcceptGlyphs, ShowsRevision, BoundaryText;
    if !ShowsRevision(result) { UnrevisedReadsAlike(result); }
    assert Text(OriginalGlyphs(result)) == "" ==> OriginalGlyphs(result) == [];
    assert "" + Text(OriginalGlyphs(result)) == Text(OriginalGlyphs(result));
  }
}
