/** The paragraphs of a body less a generated listing's (`_iter_body_paragraphs`): both reads keep the same ones. */
module DocumentParagraphs {
  import opened Prelude
  import opened Markup
  import opened Splice
  import opened Reading
  import opened Boundaries
  import opened FieldEvents
  import opened FieldRegions
  import ParagraphAgreement

  /** What kind of child the iteration is looking for. */
  datatype Level = InBody | InTable | InRow

  /** An element this level descends into one level down, or steps through at the same level. */
  function Below(level: Level, node: Node): Option<(Level, seq<Node>)> {
    match (level, node.tag)
    case (InBody, Tbl) => Some((InTable, node.children))
    case (InTable, Tr) => Some((InRow, node.children))
    case (InRow, Tc) => Some((InBody, node.children))
    case (_, Sdt) => Some((level, ControlContent(node.children)))
    case (_, CustomXml) => Some((level, node.children))
    case (_, _) => None
  }

  lemma {:induction false} BelowIsBelow(level: Level, node: Node)
    requires Below(level, node).Some? && Below(level, node).value.1 != []
    ensures node decreases to Below(level, node).value.1
  {
    if node.tag == Sdt { FoundBelow(node.children, SdtContent); }
  }

  function Paragraphs(level: Level, elements: seq<Node>): seq<Node>
    decreases elements, 0
  {
    if elements == [] then [] else ParagraphsOf(level, elements[0]) + Paragraphs(level, elements[1..])
  }

  function ParagraphsOf(level: Level, node: Node): seq<Node>
    decreases node, 1
  {
    if level == InBody && node.tag == P then [node]
    else
      match Below(level, node)
      case None => []
      case Some((next, children)) =>
        if children == [] then []
        else
          BelowIsBelow(level, node);
          Paragraphs(next, children)
  }

  lemma {:induction false} ParagraphsConcat(level: Level, a: seq<Node>, b: seq<Node>)
    ensures Paragraphs(level, a + b) == Paragraphs(level, a) + Paragraphs(level, b)
    decreases |a|
  {
    hide ParagraphsOf;
    if a == [] {
      assert a + b == b;
    } else {
      ParagraphsConcat(level, a[1..], b);
      assert (a + b)[1..] == a[1..] + b && (a + b)[0] == a[0];
    }
  }

  // ---------------------------------------------------------------------
  // Paragraphs of the accepted tree
  // ---------------------------------------------------------------------

  /** Wherever the iteration goes, and only there: no revision wrapper in a content control holds a
      part of it. */
  predicate ControlsPlaced(level: Level, elements: seq<Node>)
    decreases elements, 0
  {
    elements == [] || (ControlsPlacedIn(level, elements[0]) && ControlsPlaced(level, elements[1..]))
  }

  predicate ControlsPlacedIn(level: Level, node: Node)
    decreases node, 1
  {
    || (level == InBody && node.tag == P)
    || (&& (node.tag == Sdt ==> ControlPlaced(node.children))
        && (Below(level, node).None? || Below(level, node).value.1 == [] ||
            (BelowIsBelow(level, node);
             ControlsPlaced(Below(level, node).value.0, Below(level, node).value.1))))
  }

  /** How many paragraphs come to light only once the insertions and move targets the iteration
      meets are unwrapped. What is inside a paragraph it does not meet. */
  function Unveiled(level: Level, elements: seq<Node>): nat
    decreases elements, 0
  {
    if elements == [] then 0 else UnveiledIn(level, elements[0]) + Unveiled(level, elements[1..])
  }

  function UnveiledIn(level: Level, node: Node): nat
    decreases node, 1
  {
    if level == InBody && node.tag == P then 0
    else if Unwrapped(node.tag) then |Paragraphs(level, Spliced(node.children))|
    else if Below(level, node).None? || Below(level, node).value.1 == [] then 0
    else
      BelowIsBelow(level, node);
      Unveiled(Below(level, node).value.0, Below(level, node).value.1)
  }

  function AcceptedAll(ps: seq<Node>): seq<Node> {
    seq(|ps|, i requires 0 <= i < |ps| => AcceptedNode(ps[i]))
  }

  /** The accepted element's part at the next level is the accepted part. */
  lemma {:induction false} BelowSpliced(level: Level, node: Node)
    requires Below(level, node).Some? && (node.tag == Sdt ==> ControlPlaced(node.children))
    ensures var (next, children) := Below(level, node).value;
            Below(level, AcceptedNode(node)) == Some((next, Spliced(children)))
  {
    hide Spliced, ControlPlaced, ControlContent;
    if node.tag == Sdt { ControlSpliced(node.children); }
  }

  /** The accepted tree's paragraphs are the raw tree's, accepted, in the same order, and those
      unveiled among them: exactly the raw tree's when nothing is unveiled. */
  lemma {:induction false} ParagraphsSpliced(level: Level, elements: seq<Node>)
    requires ControlsPlaced(level, elements)
    ensures |Paragraphs(level, Spliced(elements))| == |Paragraphs(level, elements)| + Unveiled(level, elements)
    ensures Paragraphs(level, Spliced(elements)) == AcceptedAll(Paragraphs(level, elements))
      <==> Unveiled(level, elements) == 0
    decreases elements, 0
  {
    hide ParagraphsOf, SplicedChild, UnveiledIn, ControlsPlacedIn;
    if elements != [] {
      var head := elements[0];
      ParagraphsSpliced(level, elements[1..]);
      ParagraphsSplicedOf(level, head);
      ParagraphsConcat(level, SplicedChild(head), Spliced(elements[1..]));
      AcceptedConcat(ParagraphsOf(level, head), Paragraphs(level, elements[1..]));
    }
  }

  lemma {:induction false} AcceptedConcat(a: seq<Node>, b: seq<Node>)
    ensures AcceptedAll(a + b) == AcceptedAll(a) + AcceptedAll(b)
  {
    hide AcceptedNode;
  }

  lemma {:induction false} ParagraphsSplicedOf(level: Level, node: Node)
    requires ControlsPlacedIn(level, node)
    ensures |Paragraphs(level, SplicedChild(node))| == |ParagraphsOf(level, node)| + UnveiledIn(level, node)
    ensures Paragraphs(level, SplicedChild(node)) == AcceptedAll(ParagraphsOf(level, node))
      <==> UnveiledIn(level, node) == 0
    decreases node, 1
  {
    hide Spliced, Paragraphs, ControlContent, ControlPlaced;
    NoElements(level);
    if !Removed(node.tag) && !Unwrapped(node.tag) {
      var accepted := AcceptedNode(node);
      OneElement(level, accepted);
      if node.tag == P && level == InBody {
        assert ParagraphsOf(level, accepted) == AcceptedAll([node]);
      } else if Below(level, node).Some? {
        BelowSpliced(level, node);
        var (next, children) := Below(level, node).value;
        NoElements(next);
        if children != [] {
          BelowIsBelow(level, node);
          ParagraphsSpliced(next, children);
        } else {
          EmptySpliced();
        }
      }
    }
  }

  lemma {:induction false} NoElements(level: Level)
    ensures Paragraphs(level, []) == []
  {
  }

  lemma {:induction false} OneElement(level: Level, node: Node)
    ensures Paragraphs(level, [node]) == ParagraphsOf(level, node)
  {
    hide ParagraphsOf;
    assert [node][1..] == [];
  }

  // ---------------------------------------------------------------------
  // Kept paragraphs
  // ---------------------------------------------------------------------

  /** `_paragraph_style_id`. */
  function StyleId(p: seq<Node>): string {
    Lower(Strip(StyleOf(p)))
  }

  /** What the partition reads off one paragraph. */
  function ParaOf(p: Node): Para {
    Para(ParagraphEvents(p.children),
         StartsWith(StyleId(p.children), "toc") || StartsWith(StyleId(p.children), "index"),
         StartsWith(StyleId(p.children), "heading") || HasOutline(SignalsOf(p.children)))
  }

  function ParasOf(ps: seq<Node>): seq<Para> {
    seq(|ps|, i requires 0 <= i < |ps| => ParaOf(ps[i]))
  }

  /** The paragraphs that are not a generated listing's, in document order. */
  function Kept(ps: seq<Node>): seq<Node> {
    var at := PositionsTo(ParasOf(ps), false, |ps|);
    PartitionSplits(ParasOf(ps), false, |ps|);
    seq(|at|, j requires 0 <= j < |at| => ps[At(at, j)])
  }

  /** A listed position, which is one of those listed. */
  function At(positions: seq<nat>, j: nat): (p: nat)
    requires j < |positions|
    ensures p in positions
  {
    positions[j]
  }

  lemma {:induction false} KeptIsOne(ps: seq<Node>, i: nat)
    requires i < |Kept(ps)|
    ensures exists j | 0 <= j < |ps| :: Kept(ps)[i] == ps[j]
  {
    var at := PositionsTo(ParasOf(ps), false, |ps|);
    PartitionSplits(ParasOf(ps), false, |ps|);
    assert Kept(ps)[i] == ps[At(at, i)];
  }

  /** Collects the body's paragraphs and drops the generated ones. */
  method BodyParagraphs(body: seq<Node>) returns (ps: seq<Node>)
    ensures ps == Kept(Paragraphs(InBody, body))
  {
    var all := Paragraphs(InBody, body);
    var paras := ParasOf(all);
    var kept, omitted := Partition(paras);
    PartitionSplits(paras, false, |all|);
    ps := AtPositions(all, kept);
  }

  method AtPositions(all: seq<Node>, positions: seq<nat>) returns (ps: seq<Node>)
    requires forall p | p in positions :: p < |all|
    ensures |ps| == |positions| && forall i | 0 <= i < |ps| :: ps[i] == all[At(positions, i)]
  {
    ps := [];
    for j := 0 to |positions|
      invariant |ps| == j && forall i | 0 <= i < j :: ps[i] == all[At(positions, i)]
    {
      ps := ps + [all[At(positions, j)]];
    }
  }

  /** The partition is told the same about a paragraph and its accepted form. */
  lemma {:induction false} ParaAgrees(p: Node)
    requires WellPlaced(p.children) && ParagraphAgreement.StylePlaced(p.children)
    ensures ParaOf(AcceptedNode(p)) == ParaOf(p)
  {
    hide Spliced, WellPlaced, ParagraphEvents, Lower, Strip, StyleOf, OutlineOf, WhollyBold;
    FieldEventsAgree(p.children);
    ParagraphAgreement.StyleAgrees(p.children);
  }

  /** Everything that is read of the paragraph is well placed. */
  predicate Placed(p: Node) {
    WellPlaced(p.children) && ParagraphAgreement.StylePlaced(p.children)
  }

  /** Both reads omit exactly the same positions; what they keep is the same, one accepted. */
  lemma {:induction false} KeptAgree(ps: seq<Node>)
    requires forall i | 0 <= i < |ps| :: Placed(ps[i])
    ensures ParasOf(AcceptedAll(ps)) == ParasOf(ps)
    ensures Kept(AcceptedAll(ps)) == AcceptedAll(Kept(ps))
  {
    hide WellPlaced, ParagraphAgreement.StylePlaced, ParaOf, AcceptedNode;
    forall i | 0 <= i < |ps| ensures ParaOf(AcceptedNode(ps[i])) == ParaOf(ps[i]) {
      ParaAgrees(ps[i]);
    }
    assert ParasOf(AcceptedAll(ps)) == ParasOf(ps);
    PartitionSplits(ParasOf(ps), false, |ps|);
  }
}
