/** Who is reported as having edited a paragraph: exactly the named authors of its visible
    pending changes, however their edits interleave (`_ensure_cluster`,
    `scripts/extraction_normalization_stage.py`). Clusters open and close with every change of
    author, and an anonymous one takes on the author that comes next, so this is not plain from
    the builder. */
module DraftAuthors {
  import opened Prelude
  import opened Reading
  import opened ParagraphText
  import opened ParagraphDraft

  predicate AnyBy(clusters: seq<Cluster>, author: string) {
    clusters != [] && (clusters[0].author == author || AnyBy(clusters[1..], author))
  }

  /** Some cluster, closed or open, carries this author. */
  predicate Reports(d: Draft, author: string) {
    AnyBy(d.clusters, author) || (d.open.Some? && d.open.value.author == author)
  }

  /** Some visible text was inserted or deleted by this author. */
  predicate RevisedBy(leaves: seq<Leaf>, author: string)
    decreases leaves, 0
  {
    leaves != [] && (LeafRevisedBy(leaves[0], author) || RevisedBy(leaves[1..], author))
  }

  predicate LeafRevisedBy(leaf: Leaf, author: string)
    decreases leaf, 1
  {
    match leaf
    case RunLeaf(_, _, c) => LeafShowsRevision(leaf) && c.author == author
    case FieldLeaf(_, result, _) => RevisedBy(result, author)
    case _ => false
  }

  lemma {:induction false} AnyByConcat(a: seq<Cluster>, b: seq<Cluster>, author: string)
    ensures AnyBy(a + b, author) <==> AnyBy(a, author) || AnyBy(b, author)
  {
    if a == [] {
      assert a + b == b;
    } else {
      AnyByConcat(a[1..], b, author);
      assert (a + b)[1..] == a[1..] + b && (a + b)[0] == a[0];
    }
  }

  lemma {:induction false} AnyByStamped(clusters: seq<Cluster>, text: string, author: string)
    ensures AnyBy(Stamped(clusters, text), author) <==> AnyBy(clusters, author)
  {
    if clusters != [] {
      AnyByStamped(clusters[1..], text, author);
      assert Stamped(clusters, text)[1..] == Stamped(clusters[1..], text);
    }
  }

  lemma {:induction false} ClosedReports(d: Draft, author: string)
    ensures Reports(Closed(d), author) <==> Reports(d, author)
  {
    if d.open.Some? {
      AnyByConcat(d.clusters, [d.open.value], author);
      assert [d.open.value][1..] == [];
    }
  }

  /** Opening or extending a cluster for someone reports them, and forgets nobody. */
  lemma {:induction false} EnsuredReports(d: Draft, who: string, inField: bool, author: string)
    requires author != ""
    ensures Reports(Ensured(d, who, inField), author) <==> Reports(d, author) || who == author
  {
    ClosedReports(d, author);
  }

  lemma {:induction false} RunReports(d: Draft, hidden: bool, items: seq<Item>, c: Context, author: string)
    requires author != ""
    ensures Reports(WithRun(d, hidden, items, c), author)
      <==> Reports(d, author) || LeafRevisedBy(RunLeaf(hidden, items, c), author)
  {
    hide RunGlyphs, Text, BoundaryText, Closed, Ensured, AnyBy;
    var e := d.(comment := d.comment || CommentItem in items);
    ClosedReports(d, author);
    ClosedReports(e, author);
    EnsuredReports(e, c.author, c.inField, author);
    assert Reports(e, author) == Reports(d, author);
  }

  lemma {:induction false} FieldReports(d: Draft, instr: string, f: Draft, author: string)
    ensures Reports(WithField(d, instr, Closed(f)), author) <==> Reports(d, author) || Reports(f, author)
  {
    ClosedReports(f, author);
    var g := Closed(f);
    hide Closed, Strip, Stamped, AnyBy;
    var e := d.(hidden := d.hidden || g.hidden, comment := d.comment || g.comment);
    ClosedReports(e, author);
    AnyByConcat(e.clusters, Stamped(g.clusters, Strip(g.resulting)), author);
    AnyByStamped(g.clusters, Strip(g.resulting), author);
    ClusteringKeepsTexts(f, "", false);
    NobodyInNone(author);
  }

  lemma {:induction false} NobodyInNone(author: string)
    ensures !AnyBy([], author)
  {
  }

  /** A named author is reported exactly when some visible text of the paragraph is theirs. */
  lemma {:induction false} AuthorsReported(d: Draft, leaves: seq<Leaf>, author: string)
    requires author != ""
    ensures Reports(Drafted(d, leaves), author) <==> Reports(d, author) || RevisedBy(leaves, author)
    decreases leaves, 0
  {
    hide Reports, WithLeaf, LeafRevisedBy;
    if leaves != [] {
      LeafReports(d, leaves[0], author);
      AuthorsReported(WithLeaf(d, leaves[0]), leaves[1..], author);
    }
  }

  lemma {:induction false} LeafReports(d: Draft, leaf: Leaf, author: string)
    requires author != ""
    ensures Reports(WithLeaf(d, leaf), author) <==> Reports(d, author) || LeafRevisedBy(leaf, author)
    decreases leaf, 1
  {
    hide WithRun, WithField, Closed;
    match leaf {
      case RunLeaf(hidden, items, c) => RunReports(d, hidden, items, c, author);
      case FieldLeaf(instr, result, _) =>
        var f := Drafted(EMPTY, result);
        AuthorsReported(EMPTY, result, author);
        FieldReports(d, instr, f, author);
        NobodyInNone(author);
      case _ =>
    }
  }
}
