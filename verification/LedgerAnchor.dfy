/** Where a missing clause's standard language goes (`_section_bounds`, `insertion_anchor`,
    `scripts/hard_ledger.py`): after the named block, beside the nearest section the playbook
    orders before or after the clause, or at the start of the document. The best-so-far loop over
    the playbook's order is proved to find the nearest sections on either side, and whatever
    comes out is a block of the document or its start. */
module LedgerAnchor {
  import opened Prelude
  import opened LedgerEvidence

  /** Tuple order, as the template's clause order is compared. */
  predicate Earlier(a: seq<int>, b: seq<int>) {
    b != [] && (a == [] || a[0] < b[0] || (a[0] == b[0] && Earlier(a[1..], b[1..])))
  }

  lemma {:induction false} EarlierTransitive(a: seq<int>, b: seq<int>, c: seq<int>)
    requires Earlier(a, b) && Earlier(b, c)
    ensures Earlier(a, c)
  {
    if a != [] && a[0] == b[0] == c[0] { EarlierTransitive(a[1..], b[1..], c[1..]); }
  }

  lemma {:induction false} EarlierIrreflexive(a: seq<int>)
    ensures !Earlier(a, a)
  {
    if a != [] { EarlierIrreflexive(a[1..]); }
  }

  lemma {:induction false} EarlierTotal(a: seq<int>, b: seq<int>)
    ensures Earlier(a, b) || a == b || Earlier(b, a)
  {
    if a != [] && b != [] && a[0] == b[0] {
      EarlierTotal(a[1..], b[1..]);
      assert a == [a[0]] + a[1..] && b == [b[0]] + b[1..];
    }
  }

  /** `first` and `last` are the outermost blocks under a heading matching the title. */
  predicate Bounds(blocks: seq<Block>, title: string, first: nat, last: nat) {
    && first <= last < |blocks|
    && HeadingMatches(blocks[first].heading, title) && HeadingMatches(blocks[last].heading, title)
    && forall i | 0 <= i < |blocks| :: HeadingMatches(blocks[i].heading, title) ==> first <= i <= last
  }

  predicate Absent(blocks: seq<Block>, title: string) {
    forall i | 0 <= i < |blocks| :: !HeadingMatches(blocks[i].heading, title)
  }

  /** `_section_bounds`. */
  method SectionBounds(blocks: seq<Block>, title: string) returns (bounds: Option<(nat, nat)>)
    ensures bounds.None? <==> Absent(blocks, title)
    ensures bounds.Some? ==> Bounds(blocks, title, bounds.value.0, bounds.value.1)
  {
    hide HeadingMatches;
    bounds := None;
    for i := 0 to |blocks|
      invariant bounds.None? <==> forall j | 0 <= j < i :: !HeadingMatches(blocks[j].heading, title)
      invariant bounds.Some? ==>
        && bounds.value.0 <= bounds.value.1 < i
        && HeadingMatches(blocks[bounds.value.0].heading, title)
          && HeadingMatches(blocks[bounds.value.1].heading, title)
        && forall j | 0 <= j < i :: HeadingMatches(blocks[j].heading, title) ==> bounds.value.0 <= j <= bounds.value.1
    {
      if HeadingMatches(blocks[i].heading, title) {
        bounds := Some((if bounds.None? then i else bounds.value.0, i));
      }
    }
  }

  /** Section `i` of the template is another clause than the rule's, and the document has it. */
  predicate Present(rule: Rule, blocks: seq<Block>, i: nat)
    requires i < |rule.sections|
  {
    rule.sections[i].clauseId != rule.clauseId && !Absent(blocks, rule.sections[i].title)
  }

  /** Section `i` is present and comes before (or after) the rule's clause in the template. */
  predicate OnSide(rule: Rule, blocks: seq<Block>, before: bool, i: nat)
    requires i < |rule.sections| && rule.order.Some?
  {
    Present(rule, blocks, i) &&
    if before then Earlier(rule.sections[i].order, rule.order.value)
    else Earlier(rule.order.value, rule.sections[i].order)
  }

  /** `a` is nearer to the rule's clause than `b` on the given side. */
  predicate Nearer(before: bool, a: seq<int>, b: seq<int>) {
    if before then Earlier(b, a) else Earlier(a, b)
  }

  /** Of the first `k` sections on that side, `i` is the nearest, and the first listed of those. */
  ghost predicate Nearest(rule: Rule, blocks: seq<Block>, before: bool, i: nat, k: nat)
    requires i < k <= |rule.sections| && rule.order.Some?
  {
    && OnSide(rule, blocks, before, i)
    && forall j | 0 <= j < k :: OnSide(rule, blocks, before, j) ==>
         !Nearer(before, rule.sections[j].order, rule.sections[i].order)
         && (j < i ==> Nearer(before, rule.sections[i].order, rule.sections[j].order))
  }

  ghost predicate NoneOn(rule: Rule, blocks: seq<Block>, before: bool, k: nat)
    requires k <= |rule.sections| && rule.order.Some?
  {
    forall j | 0 <= j < k :: !OnSide(rule, blocks, before, j)
  }

  /** The best section found so far on one side: its order and the block position it gives. */
  ghost predicate Best(rule: Rule, blocks: seq<Block>, before: bool, k: nat, best: Option<(seq<int>, nat)>)
    requires k <= |rule.sections| && rule.order.Some?
  {
    match best
    case None => NoneOn(rule, blocks, before, k)
    case Some((order, position)) =>
      exists i | 0 <= i < k :: Nearest(rule, blocks, before, i, k) && order == rule.sections[i].order
        && Outermost(blocks, rule.sections[i].title, before, position)
  }

  /** The section's last block when it comes before, its first block when it comes after. */
  ghost predicate Outermost(blocks: seq<Block>, title: string, before: bool, position: nat) {
    exists first, last | 0 <= first < |blocks| && 0 <= last < |blocks| ::
      Bounds(blocks, title, first, last) && position == if before then last else first
  }

  /** One section of the search: it replaces the best so far only when strictly nearer. */
  method Consider(rule: Rule, blocks: seq<Block>, before: bool, k: nat, bounds: (nat, nat),
      best: Option<(seq<int>, nat)>)
    returns (next: Option<(seq<int>, nat)>)
    requires rule.order.Some? && k < |rule.sections| && Present(rule, blocks, k)
    requires Bounds(blocks, rule.sections[k].title, bounds.0, bounds.1) && Best(rule, blocks, before, k, best)
    ensures Best(rule, blocks, before, k + 1, next)
  {
    hide Bounds, Absent;
    next := best;
    var order := rule.sections[k].order;
    var side := if before then Earlier(order, rule.order.value) else Earlier(rule.order.value, order);
    if side && (best.None? || Nearer(before, order, best.value.0)) {
      next := Some((order, if before then bounds.1 else bounds.0));
      OutermostIs(blocks, rule.sections[k].title, before, bounds);
      BecomesNearest(rule, blocks, before, k, best);
    } else {
      StaysBest(rule, blocks, before, k, best);
    }
  }

  lemma {:induction false} BecomesNearest(rule: Rule, blocks: seq<Block>, before: bool, k: nat,
      best: Option<(seq<int>, nat)>)
    requires rule.order.Some? && k < |rule.sections| && OnSide(rule, blocks, before, k)
      && Best(rule, blocks, before, k, best)
    requires best.Some? ==> Nearer(before, rule.sections[k].order, best.value.0)
    ensures Nearest(rule, blocks, before, k, k + 1)
  {
    hide OnSide, Outermost;
    var order := rule.sections[k].order;
    EarlierIrreflexive(order);
    forall j | 0 <= j < k && OnSide(rule, blocks, before, j)
      ensures Nearer(before, order, rule.sections[j].order) && !Nearer(before, rule.sections[j].order, order)
    {
      var i :| 0 <= i < k && Nearest(rule, blocks, before, i, k) && best.value.0 == rule.sections[i].order;
      NearerThanAll(before, order, rule.sections[i].order, rule.sections[j].order);
    }
  }

  /** Strictly nearer than one that nothing beats is strictly nearer than all. */
  lemma {:induction false} NearerThanAll(before: bool, a: seq<int>, i: seq<int>, j: seq<int>)
    requires Nearer(before, a, i) && !Nearer(before, j, i)
    ensures Nearer(before, a, j) && !Nearer(before, j, a)
  {
    EarlierTotal(i, j);
    if before {
      if Earlier(j, i) { EarlierTransitive(j, i, a); }
      if Earlier(a, j) { EarlierTransitive(i, a, j); }
    } else {
      if Earlier(i, j) { EarlierTransitive(a, i, j); }
      if Earlier(j, a) { EarlierTransitive(j, a, i); }
    }
  }

  lemma {:induction false} StaysBest(rule: Rule, blocks: seq<Block>, before: bool, k: nat,
      best: Option<(seq<int>, nat)>)
    requires rule.order.Some? && k < |rule.sections| && Best(rule, blocks, before, k, best)
    requires OnSide(rule, blocks, before, k) ==> best.Some? && !Nearer(before, rule.sections[k].order, best.value.0)
    ensures Best(rule, blocks, before, k + 1, best)
  {
    hide OnSide, Outermost;
    if best.Some? {
      var i :| 0 <= i < k && Nearest(rule, blocks, before, i, k) && best.value.0 == rule.sections[i].order
        && Outermost(blocks, rule.sections[i].title, before, best.value.1);
      assert Nearest(rule, blocks, before, i, k + 1);
    }
  }

  /** The nearest present section on either side of the rule's clause. */
  method NearestSections(rule: Rule, blocks: seq<Block>)
      returns (before: Option<(seq<int>, nat)>, after: Option<(seq<int>, nat)>)
    requires rule.order.Some?
    ensures Best(rule, blocks, true, |rule.sections|, before) && Best(rule, blocks, false, |rule.sections|, after)
  {
    hide Bounds, Absent, Best;
    before, after := None, None;
    NoneYet(rule, blocks);
    for k := 0 to |rule.sections|
      invariant Best(rule, blocks, true, k, before) && Best(rule, blocks, false, k, after)
    {
      var bounds := None;
      if rule.sections[k].clauseId != rule.clauseId {
        bounds := SectionBounds(blocks, rule.sections[k].title);
      }
      if bounds.Some? {
        before := Consider(rule, blocks, true, k, bounds.value, before);
        after := Consider(rule, blocks, false, k, bounds.value, after);
      } else {
        SkipAbsent(rule, blocks, k, before, after);
      }
    }
  }

  lemma {:induction false} NoneYet(rule: Rule, blocks: seq<Block>)
    requires rule.order.Some?
    ensures Best(rule, blocks, true, 0, None) && Best(rule, blocks, false, 0, None)
  {
  }

  lemma {:induction false} SkipAbsent(rule: Rule, blocks: seq<Block>, k: nat, before: Option<(seq<int>, nat)>,
      after: Option<(seq<int>, nat)>)
    requires rule.order.Some? && k < |rule.sections| && !Present(rule, blocks, k)
    requires Best(rule, blocks, true, k, before) && Best(rule, blocks, false, k, after)
    ensures Best(rule, blocks, true, k + 1, before) && Best(rule, blocks, false, k + 1, after)
  {
    hide Best;
    StaysBest(rule, blocks, true, k, before);
    StaysBest(rule, blocks, false, k, after);
  }

  // ---------------------------------------------------------------------
  // The anchor
  // ---------------------------------------------------------------------

  const DOCUMENT_START: string := "start"

  /** Where the language belongs when the clause is absent: at the end of the nearest section
      before it, else just ahead of the nearest one after it, else at the end. */
  ghost predicate PlacedByOrder(rule: Rule, blocks: seq<Block>, anchor: string)
    requires blocks != []
  {
    var n := |rule.sections|;
    if rule.order.None? || (NoneOn(rule, blocks, true, n) && NoneOn(rule, blocks, false, n))
    then anchor == blocks[|blocks| - 1].id
    else if !NoneOn(rule, blocks, true, n) then
      exists i, last | 0 <= i < n && 0 <= last < |blocks| ::
        Nearest(rule, blocks, true, i, n) && Outermost(blocks, rule.sections[i].title, true, last)
            && anchor == blocks[last].id
    else
      exists i, first | 0 <= i < n && 0 <= first < |blocks| ::
        Nearest(rule, blocks, false, i, n) && Outermost(blocks, rule.sections[i].title, false, first)
        && anchor == if first == 0 then DOCUMENT_START else blocks[first - 1].id
  }

  /** Where a rule's language goes, case by case. */
  ghost predicate Anchors(rule: Rule, named: Option<string>, blocks: seq<Block>, anchor: Option<string>) {
    if named.Some? && NamesClauseBlock(blocks, rule.title, named.value) then anchor == named
    else if blocks == [] then anchor == None
    else if rule.title != "" && !Absent(blocks, rule.title) then
      exists last | 0 <= last < |blocks| :: Outermost(blocks, rule.title, true, last) && anchor == Some(blocks[last].id)
    else anchor.Some? && PlacedByOrder(rule, blocks, anchor.value)
  }

  /** `insertion_anchor`. */
  method InsertionAnchor(rule: Rule, named: Option<string>, blocks: seq<Block>) returns (anchor: Option<string>)
    ensures Anchors(rule, named, blocks, anchor)
  {
    hide HeadingMatches, Bounds, Absent, PlacedByOrder, Outermost;
    if named.Some? && NamesClauseBlock(blocks, rule.title, named.value) {
      return named;
    }
    if blocks == [] {
      return None;
    }
    if rule.title != "" {
      var own := SectionBounds(blocks, rule.title);
      if own.Some? {
        OutermostIs(blocks, rule.title, true, own.value);
        return Some(blocks[own.value.1].id);
      }
    }
    var placed := PlaceByOrder(rule, blocks);
    return Some(placed);
  }

  lemma {:induction false} OutermostIs(blocks: seq<Block>, title: string, before: bool, bounds: (nat, nat))
    requires Bounds(blocks, title, bounds.0, bounds.1)
    ensures bounds.1 < |blocks| && Outermost(blocks, title, before, if before then bounds.1 else bounds.0)
  {
  }

  method PlaceByOrder(rule: Rule, blocks: seq<Block>) returns (anchor: string)
    requires blocks != []
    ensures PlacedByOrder(rule, blocks, anchor)
  {
    hide Bounds, Absent, Nearest, OnSide;
    anchor := blocks[|blocks| - 1].id;
    if rule.order.Some? {
      var before, after := NearestSections(rule, blocks);
      BestSettles(rule, blocks, true, before);
      BestSettles(rule, blocks, false, after);
      if before.Some? {
        anchor := blocks[before.value.1].id;
      } else if after.Some? {
        anchor := if after.value.1 == 0 then DOCUMENT_START else blocks[after.value.1 - 1].id;
      }
    }
  }

  lemma {:induction false} BestSettles(rule: Rule, blocks: seq<Block>, before: bool, best: Option<(seq<int>, nat)>)
    requires rule.order.Some? && Best(rule, blocks, before, |rule.sections|, best)
    ensures best.None? <==> NoneOn(rule, blocks, before, |rule.sections|)
    ensures best.Some? ==> best.value.1 < |blocks|
  {
    hide OnSide;
  }

  /** Every anchor is the start of the document or a real block; there is none only for a document
      with no blocks and no block named. */
  lemma {:induction false} AnchorIsReal(rule: Rule, named: Option<string>, blocks: seq<Block>, anchor: Option<string>)
    requires Anchors(rule, named, blocks, anchor)
    ensures anchor.None? <==> blocks == []
    ensures anchor.Some? ==> anchor.value == DOCUMENT_START || HasBlock(blocks, anchor.value)
  {
    hide HeadingMatches, Bounds, Absent, Nearest, OnSide, Outermost;
  }
}
