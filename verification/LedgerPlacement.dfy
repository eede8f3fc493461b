/** Where a rule's standard language goes, said of headings and of the template's order alone. */
module LedgerPlacement {
  import opened Prelude
  import opened LedgerEvidence
  import opened LedgerClauses
  import opened LedgerAnchor

  /** Block `p` stands under a heading that names the clause. */
  ghost predicate Under(blocks: seq<Block>, title: string, p: nat) {
    p < |blocks| && Names(blocks[p].heading, title)
  }

  ghost predicate LastUnder(blocks: seq<Block>, title: string, p: nat) {
    Under(blocks, title, p) && forall q: nat | q > p :: !Under(blocks, title, q)
  }

  ghost predicate FirstUnder(blocks: seq<Block>, title: string, p: nat) {
    Under(blocks, title, p) && forall q: nat | q < p :: !Under(blocks, title, q)
  }

  /** Section `i` of the template is another clause, before or after the rule's in the template's order, and
      the document has it. */
  ghost predicate Neighbour(rule: Rule, blocks: seq<Block>, before: bool, i: nat)
    requires rule.order.Some?
  {
    && i < |rule.sections| && rule.sections[i].clauseId != rule.clauseId
    && (if before then Earlier(rule.sections[i].order, rule.order.value)
        else Earlier(rule.order.value, rule.sections[i].order))
    && exists p :: Under(blocks, rule.sections[i].title, p)
  }

  /** No neighbour on that side is nearer. */
  ghost predicate NearestNeighbour(rule: Rule, blocks: seq<Block>, before: bool, i: nat)
    requires rule.order.Some?
  {
    && Neighbour(rule, blocks, before, i)
    && forall j: nat | Neighbour(rule, blocks, before, j) ::
      if before then !Earlier(rule.sections[i].order, rule.sections[j].order)
      else !Earlier(rule.sections[j].order, rule.sections[i].order)
  }

  ghost predicate HasNeighbour(rule: Rule, blocks: seq<Block>, before: bool) {
    rule.order.Some? && exists i: nat :: Neighbour(rule, blocks, before, i)
  }

  /** Behind the block the critic named, if it is one of the clause; else behind the clause's last block; else
      behind the last block of the nearest clause before it; else just ahead of the first block of the nearest
      clause after it; else at the end. */
  ghost predicate Placed(rule: Rule, named: Option<string>, blocks: seq<Block>, anchor: Option<string>) {
    if named.Some? && exists p: nat :: Under(blocks, rule.title, p) && blocks[p].id == named.value then anchor == named
    else if blocks == [] then anchor == None
    else if exists p: nat :: Under(blocks, rule.title, p) then
      exists p: nat :: LastUnder(blocks, rule.title, p) && anchor == Some(blocks[p].id)
    else if HasNeighbour(rule, blocks, true) then
      exists i: nat, p: nat ::
        NearestNeighbour(rule, blocks, true, i) && LastUnder(blocks, rule.sections[i].title, p)
        && anchor == Some(blocks[p].id)
    else if HasNeighbour(rule, blocks, false) then
      exists i: nat, p: nat ::
        NearestNeighbour(rule, blocks, false, i) && FirstUnder(blocks, rule.sections[i].title, p)
        && anchor == Some(if p == 0 then "start" else blocks[p - 1].id)
    else anchor == Some(blocks[|blocks| - 1].id)
  }

  lemma {:induction false} AbsentIs(blocks: seq<Block>, title: string)
    ensures Absent(blocks, title) <==> forall p: nat :: !Under(blocks, title, p)
  {
    hide HeadingMatches, Names;
    forall p: nat | p < |blocks| ensures HeadingMatches(blocks[p].heading, title) <==> Names(blocks[p].heading, title) {
      HeadingMatchesIs(blocks[p].heading, title);
    }
    if !Absent(blocks, title) {
      var p :| 0 <= p < |blocks| && HeadingMatches(blocks[p].heading, title);
      assert Under(blocks, title, p);
    }
  }

  lemma {:induction false} OutermostUnder(blocks: seq<Block>, title: string, before: bool, p: nat)
    requires Outermost(blocks, title, before, p)
    ensures if before then LastUnder(blocks, title, p) else FirstUnder(blocks, title, p)
  {
    hide HeadingMatches, Names;
    forall q: nat | q < |blocks| ensures HeadingMatches(blocks[q].heading, title) <==> Names(blocks[q].heading, title) {
      HeadingMatchesIs(blocks[q].heading, title);
    }
  }

  lemma {:induction false} OnSideIs(rule: Rule, blocks: seq<Block>, before: bool, i: nat)
    requires rule.order.Some? && i < |rule.sections|
    ensures OnSide(rule, blocks, before, i) <==> Neighbour(rule, blocks, before, i)
  {
    hide Absent, Under;
    AbsentIs(blocks, rule.sections[i].title);
  }

  lemma {:induction false} NearestIs(rule: Rule, blocks: seq<Block>, before: bool, i: nat)
    requires rule.order.Some? && i < |rule.sections| && Nearest(rule, blocks, before, i, |rule.sections|)
    ensures NearestNeighbour(rule, blocks, before, i)
  {
    hide OnSide;
    forall j | 0 <= j < |rule.sections| ensures OnSide(rule, blocks, before, j)
        <==> Neighbour(rule, blocks, before, j) {
      OnSideIs(rule, blocks, before, j);
    }
  }

  lemma {:induction false} NoneOnIs(rule: Rule, blocks: seq<Block>, before: bool)
    requires rule.order.Some?
    ensures NoneOn(rule, blocks, before, |rule.sections|) <==> !HasNeighbour(rule, blocks, before)
  {
    hide OnSide;
    forall j | 0 <= j < |rule.sections| ensures OnSide(rule, blocks, before, j)
        <==> Neighbour(rule, blocks, before, j) {
      OnSideIs(rule, blocks, before, j);
    }
  }

  lemma {:induction false} UntitledNamesNothing(heading: string)
    ensures !HeadingMatches(heading, "")
  {
  }

  lemma {:induction false} NamedIs(blocks: seq<Block>, title: string, id: string)
    ensures NamesClauseBlock(blocks, title, id) <==> exists p: nat :: Under(blocks, title, p) && blocks[p].id == id
  {
    hide HeadingMatches, Names;
    forall p: nat | p < |blocks| ensures HeadingMatches(blocks[p].heading, title) <==> Names(blocks[p].heading, title) {
      HeadingMatchesIs(blocks[p].heading, title);
    }
    if p: nat :| Under(blocks, title, p) && blocks[p].id == id { assert 0 <= p < |blocks|; }
    if p :| 0 <= p < |blocks| && blocks[p].id == id && HeadingMatches(blocks[p].heading, title) {
      assert Under(blocks, title, p);
    }
  }

  /** Every anchor is so placed. */
  lemma {:induction false} AnchorIsPlaced(rule: Rule, named: Option<string>, blocks: seq<Block>, anchor: Option<string>)
    requires Anchors(rule, named, blocks, anchor)
    ensures Placed(rule, named, blocks, anchor)
  {
    hide HeadingMatches, Absent, Outermost, PlacedByOrder, Under, LastUnder, NamesClauseBlock;
    if named.Some? { NamedIs(blocks, rule.title, named.value); }
    AbsentIs(blocks, rule.title);
    UntitledIsAbsent(blocks);
    if named.Some? && NamesClauseBlock(blocks, rule.title, named.value) {
    } else if blocks == [] {
    } else if !Absent(blocks, rule.title) {
      var last :| 0 <= last < |blocks| && Outermost(blocks, rule.title, true, last) && anchor == Some(blocks[last].id);
      OutermostUnder(blocks, rule.title, true, last);
    } else {
      OrderIsPlaced(rule, blocks, anchor.value);
    }
  }

  lemma {:induction false} UntitledIsAbsent(blocks: seq<Block>)
    ensures Absent(blocks, "")
  {
    hide HeadingMatches;
    forall i | 0 <= i < |blocks| ensures !HeadingMatches(blocks[i].heading, "") {
      UntitledNamesNothing(blocks[i].heading);
    }
  }

  lemma {:induction false} OrderIsPlaced(rule: Rule, blocks: seq<Block>, anchor: string)
    requires blocks != [] && PlacedByOrder(rule, blocks, anchor)
    ensures
      if HasNeighbour(rule, blocks, true) then
        exists i: nat, p: nat ::
          NearestNeighbour(rule, blocks, true, i) && LastUnder(blocks, rule.sections[i].title, p)
          && anchor == blocks[p].id
      else if HasNeighbour(rule, blocks, false) then
        exists i: nat, p: nat ::
          NearestNeighbour(rule, blocks, false, i) && FirstUnder(blocks, rule.sections[i].title, p)
          && anchor == if p == 0 then "start" else blocks[p - 1].id
      else anchor == blocks[|blocks| - 1].id
  {
    hide Nearest, Outermost, NoneOn, HasNeighbour, NearestNeighbour;
    var n := |rule.sections|;
    if rule.order.Some? {
      NoneOnIs(rule, blocks, true);
      NoneOnIs(rule, blocks, false);
      if !NoneOn(rule, blocks, true, n) {
        var i, last :| 0 <= i < n && 0 <= last < |blocks| && Nearest(rule, blocks, true, i, n)
          && Outermost(blocks, rule.sections[i].title, true, last) && anchor == blocks[last].id;
        NearestIs(rule, blocks, true, i);
        OutermostUnder(blocks, rule.sections[i].title, true, last);
      } else if !NoneOn(rule, blocks, false, n) {
        var i, first :| 0 <= i < n && 0 <= first < |blocks| && Nearest(rule, blocks, false, i, n)
          && Outermost(blocks, rule.sections[i].title, false, first)
          && anchor == if first == 0 then DOCUMENT_START else blocks[first - 1].id;
        NearestIs(rule, blocks, false, i);
        OutermostUnder(blocks, rule.sections[i].title, false, first);
      }
    } else {
      NoOrderNoNeighbour(rule, blocks);
    }
  }

  lemma {:induction false} NoOrderNoNeighbour(rule: Rule, blocks: seq<Block>)
    requires rule.order.None?
    ensures !HasNeighbour(rule, blocks, true) && !HasNeighbour(rule, blocks, false)
  {
  }
}
