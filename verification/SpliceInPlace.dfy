/** `_splice_accept_all` as it runs: over a mutable tree whose elements drop, unwrap and re-append
    their own children, with a tally counted up along the way. An element carries, for the proofs
    alone, the tree it stands for and the elements that make it up; the rewrite is proved to leave
    it standing for the accepted tree, with the tally the pure reading gives. */
module SpliceInPlace {
  import opened Markup
  import opened Splice

  /** The counts `materialize_accept_all_with_report` hands in. */
  class RevisionTally {
    var counts: multiset<Kind>

    constructor ()
      ensures counts == multiset{}
    {
      counts := multiset{};
    }

    /** `_count_accepted`. */
    method CountAccepted(tag: Tag, inMark: bool)
      modifies this
      ensures counts == old(counts) + multiset{KindOf(tag, inMark)}
    {
      var kind := if inMark && tag == Ins then ParagraphMarkIns
                  else if inMark && tag == Del then ParagraphMarkDel else Named(tag);
      counts := counts[kind := counts[kind] + 1];
    }
  }

  /** An element of the live tree. `shape` is the tree it stands for, `repr` it and all below. */
  class Element {
    const tag: Tag
    const val: string
    const hidden: bool
    var children: seq<Element>
    ghost var shape: Node
    ghost var repr: set<Element>

    ghost predicate Valid()
      reads this, repr
      decreases repr, 0
    {
      && this in repr
      && shape == Node(tag, val, hidden, shape.children)
      && Forest(children, shape.children, repr - {this})
    }

    /** An element over children already built on disjoint footprints. */
    constructor (tag: Tag, val: string, hidden: bool, children: seq<Element>,
                 ghost shapes: seq<Node>, ghost region: set<Element>)
      requires Forest(children, shapes, region)
      ensures Valid() && fresh(this) && repr == region + {this}
      ensures shape == Node(tag, val, hidden, shapes) && this.children == children
    {
      this.tag, this.val, this.hidden := tag, val, hidden;
      this.children := children;
      shape := Node(tag, val, hidden, shapes);
      repr := region + {this};
      new;
      assert repr - {this} == region;
    }
  }

  /** Elements with the given shapes, on disjoint footprints inside one region. */
  ghost predicate Forest(elements: seq<Element>, shapes: seq<Node>, region: set<Element>)
    reads region
    decreases region, 1
  {
    && |elements| == |shapes|
    && (forall i | 0 <= i < |elements| ::
          elements[i] in region && elements[i].repr <= region && elements[i].Valid() && elements[i].shape == shapes[i])
    && (forall i, j | 0 <= i < j < |elements| :: elements[i].repr !! elements[j].repr)
  }

  lemma {:induction false} ForestJoin(
    a: seq<Element>, sa: seq<Node>, ra: set<Element>, b: seq<Element>, sb: seq<Node>, rb: set<Element>)
    requires Forest(a, sa, ra) && Forest(b, sb, rb) && ra !! rb
    ensures Forest(a + b, sa + sb, ra + rb)
  {
  }

  lemma {:induction false} ForestGrows(elements: seq<Element>, shapes: seq<Node>, region: set<Element>,
      wider: set<Element>)
    requires Forest(elements, shapes, region) && region <= wider
    ensures Forest(elements, shapes, wider)
  {
  }

  lemma {:induction false} ForestHead(elements: seq<Element>, shapes: seq<Node>, region: set<Element>)
    requires Forest(elements, shapes, region) && elements != []
    ensures elements[0].Valid() && elements[0].repr <= region && elements[0].shape == shapes[0]
    ensures Forest(elements[1..], shapes[1..], region - elements[0].repr)
  {
  }

  lemma {:induction false} ForestOne(element: Element)
    requires element.Valid()
    ensures Forest([element], [element.shape], element.repr)
  {
  }

  /** One more child on either side of the specification. */
  lemma {:induction false} OneMoreChild(parent: Tag, inMark: bool, shapes: seq<Node>, i: nat)
    requires i < |shapes|
    ensures Spliced(shapes[..i + 1]) == Spliced(shapes[..i]) + SplicedChild(shapes[i])
    ensures Tally(parent, inMark, shapes[..i + 1]) == Tally(parent, inMark, shapes[..i])
      + TallyChild(parent, inMark, shapes[i])
  {
    assert shapes[..i + 1] == shapes[..i] + [shapes[i]];
    assert [shapes[i]][1..] == [];
    SplicedConcat(shapes[..i], [shapes[i]]);
    TallyConcat(parent, inMark, shapes[..i], [shapes[i]]);
  }

  lemma {:induction false} TallyConcat(parent: Tag, inMark: bool, a: seq<Node>, b: seq<Node>)
    ensures Tally(parent, inMark, a + b) == Tally(parent, inMark, a) + Tally(parent, inMark, b)
    decreases |a|
  {
    hide TallyChild;
    if a == [] {
      assert a + b == b;
    } else {
      var own, rest, other := TallyChild(parent, inMark, a[0]), Tally(parent, inMark, a[1..]), Tally(parent, inMark, b);
      TallyConcat(parent, inMark, a[1..], b);
      assert (a + b)[1..] == a[1..] + b && (a + b)[0] == a[0];
      assert Tally(parent, inMark, a) == own + rest && Tally(parent, inMark, a + b) == own + (rest + other);
      Associative(own, rest, other);
    }
  }

  lemma {:induction false} Associative<K>(a: multiset<K>, b: multiset<K>, c: multiset<K>)
    ensures a + (b + c) == (a + b) + c
  {
  }

  /** An unwrapped child: its own children, accepted first, go to its parent. */
  method UnwrapChild(child: Element, tally: RevisionTally, inMark: bool) returns (kept: seq<Element>)
    requires child.Valid() && Unwrapped(child.tag)
    modifies child.repr, tally
    ensures Forest(kept, Spliced(old(child.shape).children), old(child.repr))
    ensures tally.counts == old(tally.counts) + TallyChild(PPr, inMark, old(child.shape))
    decreases child.shape, 1
  {
    ghost var region, shape, counted := child.repr, child.shape, tally.counts;
    tally.CountAccepted(child.tag, inMark);
    SpliceAcceptAll(child, tally, false);
    kept := child.children;
    ForestGrows(kept, child.shape.children, child.repr - {child}, region);
    Associative(counted, OwnTally(inMark, shape), Tally(child.tag, false, shape.children));
  }

  /** What one child leaves for its parent to re-append: nothing, its own accepted children, or
      itself accepted. */
  method AcceptChild(child: Element, parent: Tag, tally: RevisionTally, inMark: bool) returns (kept: seq<Element>)
    requires child.Valid()
    modifies child.repr, tally
    ensures Forest(kept, SplicedChild(old(child.shape)), old(child.repr))
    ensures tally.counts == old(tally.counts) + TallyChild(parent, inMark, old(child.shape))
    decreases child.shape, 2
  {
    ghost var region := child.repr;
    if Removed(child.tag) {
      tally.CountAccepted(child.tag, inMark);
      kept := [];
    } else if Unwrapped(child.tag) {
      kept := UnwrapChild(child, tally, inMark);
    } else {
      SpliceAcceptAll(child, tally, parent == PPr && child.tag == RPr);
      kept := [child];
      ForestOne(child);
      ForestGrows(kept, [child.shape], child.repr, region);
    }
  }

  /** Accepts one child and appends what it leaves. */
  method AppendAccepted(el: Element, child: Element, tally: RevisionTally, inMark: bool,
                        ghost done: seq<Node>, ghost used: set<Element>)
    requires child.Valid() && el !in child.repr && el !in used && used !! child.repr
    requires Forest(el.children, done, used)
    modifies el`children, child.repr, tally
    ensures Forest(el.children, done + SplicedChild(old(child.shape)), used + old(child.repr))
    ensures tally.counts == old(tally.counts) + TallyChild(el.tag, inMark, old(child.shape))
    decreases child.shape, 3
  {
    ghost var taken, shape := child.repr, child.shape;
    var kept := AcceptChild(child, el.tag, tally, inMark);
    ForestJoin(el.children, done, used, kept, SplicedChild(shape), taken);
    el.children := el.children + kept;
  }

  /** Takes the next of the children set aside; `used` and `rest` are what the children re-appended so
      far, and those still set aside, are made up of. */
  method AppendNext(el: Element, original: seq<Element>, i: nat, tally: RevisionTally, inMark: bool,
                    ghost shapes: seq<Node>, ghost used: set<Element>, ghost rest: set<Element>)
    returns (ghost nowUsed: set<Element>, ghost nowRest: set<Element>)
    requires i < |original| == |shapes| && el !in used && el !in rest && used !! rest
    requires Forest(el.children, Spliced(shapes[..i]), used) && Forest(original[i..], shapes[i..], rest)
    modifies el`children, rest, tally
    ensures nowUsed + nowRest <= used + rest && nowUsed !! nowRest
    ensures Forest(el.children, Spliced(shapes[..i + 1]), nowUsed)
      && Forest(original[i + 1..], shapes[i + 1..], nowRest)
    ensures tally.counts == old(tally.counts) + TallyChild(el.tag, inMark, shapes[i])
    decreases shapes[i], 4
  {
    ForestHead(original[i..], shapes[i..], rest);
    OneMoreChild(el.tag, inMark, shapes, i);
    ghost var taken := original[i].repr;
    nowUsed, nowRest := used + taken, rest - taken;
    assert original[i..][1..] == original[i + 1..] && shapes[i..][1..] == shapes[i + 1..];
    AppendAccepted(el, original[i], tally, inMark, Spliced(shapes[..i]), used);
  }

  /** `_splice_accept_all`: afterwards the element stands for the accepted tree, and the tally
      has grown by exactly the revisions accepted. */
  method SpliceAcceptAll(el: Element, tally: RevisionTally, inMark: bool)
    requires el.Valid()
    modifies el.repr, tally
    ensures el.Valid() && el.repr <= old(el.repr)
    ensures el.shape == AcceptedNode(old(el.shape))
    ensures tally.counts == old(tally.counts) + Tally(el.tag, inMark, old(el.shape).children)
    decreases el.shape, 0
  {
    var original := el.children;
    ghost var shapes := el.shape.children;
    ghost var used: set<Element>, rest := {}, el.repr - {el};
    el.children := [];
    for i := 0 to |original|
      invariant |original| == |shapes|
      invariant el !in used && el !in rest && used !! rest && used + rest <= old(el.repr)
      invariant Forest(el.children, Spliced(shapes[..i]), used)
      invariant Forest(original[i..], shapes[i..], rest)
      invariant tally.counts == old(tally.counts) + Tally(el.tag, inMark, shapes[..i])
    {
      hide Forest, Spliced, Tally, TallyChild;
      OneMoreChild(el.tag, inMark, shapes, i);
      used, rest := AppendNext(el, original, i, tally, inMark, shapes, used, rest);
    }
    assert shapes[..|original|] == shapes;
    Complete(el, shapes, used);
  }

  /** The element's own record of what it now stands for. */
  ghost method Complete(el: Element, shapes: seq<Node>, used: set<Element>)
    requires el !in used && Forest(el.children, Spliced(shapes), used)
    modifies el`shape, el`repr
    ensures el.Valid() && el.repr == used + {el}
    ensures el.shape == Node(el.tag, el.val, el.hidden, Spliced(shapes))
  {
    el.shape := Node(el.tag, el.val, el.hidden, Spliced(shapes));
    el.repr := used + {el};
    assert el.repr - {el} == used;
  }
}
