/** What enforcing the hard-rejection ledger guarantees over any run (`scripts/hard_ledger.py`). */
module LedgerFacts {
  import opened Prelude
  import opened TextFold
  import opened LedgerEvidence
  import opened LedgerAnchor
  import opened LedgerEnforcement

  /** The start of the document, or one of its blocks. */
  predicate Real(blocks: seq<Block>, anchor: string) {
    anchor == DOCUMENT_START || HasBlock(blocks, anchor)
  }

  /** What rule `k` added to the plan. */
  predicate Grew(s: Setting, before: Plan, e: Evaluated, after: Plan) {
    && |after.entries| == |before.entries| + 1 && after.entries[..|before.entries|] == before.entries
    && before.issues <= after.issues && before.insertions <= after.insertions
    && (var entry := after.entries[|before.entries|];
        && entry.ruleId == e.rule.id && entry.asserted == e.Asserted() && entry.key.Some? == e.Asserted()
        && (!e.Asserted() ==> !entry.inserted && after == before.(entries := after.entries))
        && (e.Asserted() ==> GrewAsserted(s, before, e, entry, after)))
  }

  predicate GrewAsserted(s: Setting, before: Plan, e: Evaluated, entry: Entry, after: Plan)
    requires entry.key.Some?
  {
    var covered := e.rule.fallback != ""
        && (ClauseKey(e.rule) in before.insertedClauses || FoldText(e.rule.fallback) in s.covering);
    && |after.issues| == |before.issues| + 1
    && after.issues[|before.issues|] ==
         Issue(entry.key.value, e.rule.id, if entry.inserted then Inserted else if covered then Covered else FlagOnly)
    && entry.key.value !in before.taken && after.taken == before.taken + {entry.key.value}
    && (entry.inserted <==> e.rule.fallback != "" && s.blocks != [] && !covered)
    && entry.anchor.Some? == entry.inserted
    && (entry.inserted ==> Real(s.blocks, entry.anchor.value))
    && (entry.inserted
      ==> after.insertions == before.insertions + [Insertion(entry.anchor.value, e.rule.fallback, entry.key.value)])
    && (!entry.inserted ==> after.insertions == before.insertions)
    && after.insertedClauses == before.insertedClauses + (if entry.inserted then {ClauseKey(e.rule)} else {})
  }

  lemma {:induction false} EachRuleGrows(s: Setting, before: Plan, e: Evaluated, after: Plan)
    requires Enforces(s, before, e, after)
    ensures Grew(s, before, e, after)
  {
    if e.Asserted() {
      hide FirstFree, Anchors, FoldText, ClauseKey;
      hide Grew, Step;
      var key, anchor :| (exists n: nat :: FirstFree(before.taken, key, n))
          && Anchors(e.rule, e.blockId, s.blocks, anchor)
        && Step(s, before, e, after, key, anchor);
      AnchorIsReal(e.rule, e.blockId, s.blocks, anchor);
      StepAsserted(s, before, e, after, key, anchor);
    }
  }

  lemma {:induction false} StepAsserted(s: Setting, before: Plan, e: Evaluated, after: Plan, key: string,
      anchor: Option<string>)
    requires e.Asserted() && key !in before.taken && Step(s, before, e, after, key, anchor)
    requires (anchor.None? <==> s.blocks == []) && (anchor.Some? ==> Real(s.blocks, anchor.value))
    ensures Grew(s, before, e, after)
  {
    hide FoldText, Real, ClauseKey;
  }

  lemma {:induction false} StepGrows(s: Setting, evaluated: seq<Evaluated>, plans: seq<Plan>, k: nat)
    requires Run(s, evaluated, plans) && k < |evaluated|
    ensures Grew(s, plans[k], evaluated[k], plans[k + 1])
  {
    hide Grew;
    assert EnforcesAt(s, evaluated, plans, k);
    EachRuleGrows(s, plans[k], evaluated[k], plans[k + 1]);
  }

  /** What a rule put into the plan stays there. */
  lemma {:induction false} PlanKeeps(s: Setting, evaluated: seq<Evaluated>, plans: seq<Plan>, j: nat, k: nat)
    requires Run(s, evaluated, plans) && j <= k <= |evaluated|
    ensures |plans[k].entries| == k && |plans[j].entries| == j && plans[j].entries == plans[k].entries[..j]
    ensures plans[j].issues <= plans[k].issues && plans[j].insertions <= plans[k].insertions
    ensures plans[j].taken <= plans[k].taken && plans[j].insertedClauses <= plans[k].insertedClauses
    decreases k
  {
    hide EnforcesAt;
    if j < k {
      PlanKeeps(s, evaluated, plans, j, k - 1);
      StepGrows(s, evaluated, plans, k - 1);
    } else if k > 0 {
      PlanKeeps(s, evaluated, plans, k - 1, k - 1);
      StepGrows(s, evaluated, plans, k - 1);
    }
  }

  // ---------------------------------------------------------------------
  // Keys
  // ---------------------------------------------------------------------

  predicate FreshKeys(issues: seq<Issue>, reserved: set<string>, taken: set<string>) {
    && reserved <= taken
    && (forall i | 0 <= i < |issues| :: issues[i].key in taken && issues[i].key !in reserved)
    && (forall i, j | 0 <= i < j < |issues| :: issues[i].key != issues[j].key)
  }

  /** Issue keys are new, and no two issues share one. */
  lemma {:induction false} KeysAreFresh(s: Setting, evaluated: seq<Evaluated>, plans: seq<Plan>, k: nat)
    requires Run(s, evaluated, plans) && k <= |evaluated|
    ensures FreshKeys(plans[k].issues, s.reserved, plans[k].taken)
  {
    hide EnforcesAt;
    if k > 0 {
      KeysAreFresh(s, evaluated, plans, k - 1);
      StepGrows(s, evaluated, plans, k - 1);
      StillFresh(s, plans[k - 1], evaluated[k - 1], plans[k]);
    }
  }

  lemma {:induction false} StillFresh(s: Setting, before: Plan, e: Evaluated, after: Plan)
    requires Grew(s, before, e, after) && FreshKeys(before.issues, s.reserved, before.taken)
    ensures FreshKeys(after.issues, s.reserved, after.taken)
  {
    hide FoldText, Real, ClauseKey;
    forall i | 0 <= i < |before.issues| ensures after.issues[i] == before.issues[i] {
      assert after.issues[..|before.issues|][i] == before.issues[i];
    }
  }

  // ---------------------------------------------------------------------
  // Conservation
  // ---------------------------------------------------------------------

  function CountAsserted(entries: seq<Entry>): nat {
    if entries == [] then 0
    else CountAsserted(entries[..|entries| - 1]) + (if entries[|entries| - 1].asserted then 1 else 0)
  }

  function CountCleared(entries: seq<Entry>): nat {
    if entries == [] then 0
    else CountCleared(entries[..|entries| - 1]) + (if entries[|entries| - 1].asserted then 0 else 1)
  }

  function CountInserted(entries: seq<Entry>): nat {
    if entries == [] then 0
    else CountInserted(entries[..|entries| - 1]) + (if entries[|entries| - 1].inserted then 1 else 0)
  }

  /** Every rule is either cleared or asserted; each asserted one has one issue, and each inserted
      one an insertion. */
  lemma {:induction false} LedgerConserved(s: Setting, evaluated: seq<Evaluated>, plans: seq<Plan>, k: nat)
    requires Run(s, evaluated, plans) && k <= |evaluated|
    ensures CountCleared(plans[k].entries) + CountAsserted(plans[k].entries) == |plans[k].entries| == k
    ensures |plans[k].issues| == CountAsserted(plans[k].entries)
    ensures |plans[k].insertions| == CountInserted(plans[k].entries)
  {
    hide EnforcesAt;
    if k > 0 {
      LedgerConserved(s, evaluated, plans, k - 1);
      StepGrows(s, evaluated, plans, k - 1);
      assert plans[k].entries[..k - 1] == plans[k - 1].entries;
    }
  }

  // ---------------------------------------------------------------------
  // One rule at the end of the run
  // ---------------------------------------------------------------------

  /** Rule `i` of the finished plan: what its step added is where it was put, and its issue, the
      only one under its key, names the rule. */
  lemma {:induction false} RuleInPlan(s: Setting, evaluated: seq<Evaluated>, plans: seq<Plan>, i: nat)
    requires Run(s, evaluated, plans) && i < |evaluated|
    ensures var plan := plans[|evaluated|];
            && |plan.entries| == |evaluated| && plan.entries[i].ruleId == evaluated[i].rule.id
            && plan.entries[i].asserted == evaluated[i].Asserted() == plan.entries[i].key.Some?
            && (evaluated[i].Asserted() ==>
                  var at := |plans[i].issues|;
                  && at < |plan.issues| && plan.issues[at].ruleId == evaluated[i].rule.id
                  && plan.issues[at].key == plan.entries[i].key.value
                  && (plan.entries[i].inserted <==> plan.issues[at].outcome == Inserted))
  {
    hide EnforcesAt, FoldText, Real, ClauseKey;
    var n := |evaluated|;
    PlanKeeps(s, evaluated, plans, i + 1, n);
    PlanKeeps(s, evaluated, plans, i, i);
    StepGrows(s, evaluated, plans, i);
    assert plans[n].entries[i] == plans[n].entries[..i + 1][i];
    if evaluated[i].Asserted() {
      assert plans[n].issues[|plans[i].issues|] == plans[i + 1].issues[|plans[i].issues|];
    }
  }

  /** The clause of an inserted rule is on the list of inserted clauses from then on. */
  lemma {:induction false} ClauseListed(s: Setting, evaluated: seq<Evaluated>, plans: seq<Plan>, i: nat, k: nat)
    requires Run(s, evaluated, plans) && i < k <= |evaluated|
    requires |plans[i + 1].entries| == i + 1 && plans[i + 1].entries[i].inserted
    ensures ClauseKey(evaluated[i].rule) in plans[k].insertedClauses
  {
    hide EnforcesAt, FoldText, Real, ClauseKey;
    StepGrows(s, evaluated, plans, i);
    PlanKeeps(s, evaluated, plans, i + 1, k);
  }

  /** A clause's standard language is inserted once at most: two inserted rules name different
      clauses. */
  lemma {:induction false} OneInsertionPerClause(s: Setting, evaluated: seq<Evaluated>, plans: seq<Plan>, i: nat,
      j: nat)
    requires Run(s, evaluated, plans) && i < j < |evaluated|
    requires |plans[|evaluated|].entries| == |evaluated|
    requires plans[|evaluated|].entries[i].inserted && plans[|evaluated|].entries[j].inserted
    ensures ClauseKey(evaluated[i].rule) != ClauseKey(evaluated[j].rule)
    ensures evaluated[i].rule.clauseId == evaluated[j].rule.clauseId ==> evaluated[i].rule.clauseId == ""
    ensures evaluated[i].rule.clauseId == evaluated[j].rule.clauseId ==> evaluated[i].rule.id != evaluated[j].rule.id
  {
    hide EnforcesAt, FoldText, Real;
    var n := |evaluated|;
    PlanKeeps(s, evaluated, plans, i + 1, n);
    PlanKeeps(s, evaluated, plans, j + 1, n);
    PlanKeeps(s, evaluated, plans, j, j);
    assert plans[n].entries[..i + 1][i] == plans[n].entries[i] && plans[n].entries[..j + 1][j] == plans[n].entries[j];
    ClauseListed(s, evaluated, plans, i, j);
    StepGrows(s, evaluated, plans, j);
  }

  /** Every text the issue proposes is some asserted rule's standard language: the pen rules have
      nothing in it to refuse. */
  ghost predicate ProposesOnlyStandards(proposals: seq<Proposal>, evaluated: seq<Evaluated>, key: string) {
    forall p | p in proposals && p.issueKey == key :: IsStandard(evaluated, p.text)
  }

  ghost predicate IsStandard(evaluated: seq<Evaluated>, text: string) {
    exists e | e in evaluated :: e.Asserted() && !Blank(e.rule.fallback) && FoldText(e.rule.fallback) == FoldText(text)
  }

  /** The language is among the proposals of an issue that proposes standard language only. */
  ghost predicate SafelyProposed(proposals: seq<Proposal>, evaluated: seq<Evaluated>, language: string) {
    exists p | p in proposals :: FoldText(p.text) == FoldText(language)
        && ProposesOnlyStandards(proposals, evaluated, p.issueKey)
  }

  /** What covers a language is exactly a safe proposal of it. */
  lemma {:induction false} CoveringIsSafe(proposals: seq<Proposal>, evaluated: seq<Evaluated>, language: string)
    ensures FoldText(language) in Covering(proposals, Standards(evaluated))
      <==> SafelyProposed(proposals, evaluated, language)
  {
    hide FoldText, Blank;
    var standards := Standards(evaluated);
    forall p | p in proposals ensures FoldText(p.text) in standards <==> IsStandard(evaluated, p.text) {}
    forall p | p in proposals
      ensures OnlyStandards(proposals, p.issueKey, standards)
        <==> ProposesOnlyStandards(proposals, evaluated, p.issueKey) {}
  }

  /** An earlier rule of rule `i`'s clause has its language inserted. */
  ghost predicate ClauseServed(evaluated: seq<Evaluated>, entries: seq<Entry>, i: nat)
    requires i < |evaluated| == |entries|
  {
    exists h | 0 <= h < i :: entries[h].inserted && ClauseKey(evaluated[h].rule) == ClauseKey(evaluated[i].rule)
  }

  lemma {:induction false} ListedWasInserted(s: Setting, evaluated: seq<Evaluated>, plans: seq<Plan>, k: nat,
      clause: string)
    requires Run(s, evaluated, plans) && k <= |evaluated| && clause in plans[k].insertedClauses
    ensures exists h | 0 <= h < k ::
      && |plans[h + 1].entries| == h + 1 && plans[h + 1].entries[h].inserted
      && ClauseKey(evaluated[h].rule) == clause
  {
    hide EnforcesAt, FoldText, Real, ClauseKey;
    assert k > 0;
    StepGrows(s, evaluated, plans, k - 1);
    PlanKeeps(s, evaluated, plans, k - 1, k - 1);
    if clause in plans[k - 1].insertedClauses { ListedWasInserted(s, evaluated, plans, k - 1, clause); }
  }

  /** In a document with a block, every asserted rule with standard language is inserted, or an earlier
      rule of its clause is, or its language is covered; and it is inserted at a real anchor. */
  lemma {:induction false} InsertedUnlessCovered(s: Setting, evaluated: seq<Evaluated>, plans: seq<Plan>, i: nat)
    requires Run(s, evaluated, plans) && i < |evaluated| && s.blocks != []
    requires evaluated[i].Asserted() && evaluated[i].rule.fallback != ""
    ensures |plans[|evaluated|].entries| == |evaluated|
    ensures var entries := plans[|evaluated|].entries;
            && (entries[i].inserted
              <==> FoldText(evaluated[i].rule.fallback) !in s.covering && !ClauseServed(evaluated, entries, i))
            && (entries[i].inserted ==> entries[i].anchor.Some? && Real(s.blocks, entries[i].anchor.value))
  {
    hide EnforcesAt, FoldText, Real, ClauseKey;
    var n := |evaluated|;
    var entries := plans[n].entries;
    PlanKeeps(s, evaluated, plans, i + 1, n);
    PlanKeeps(s, evaluated, plans, i, i);
    StepGrows(s, evaluated, plans, i);
    assert entries[i] == entries[..i + 1][i];
    var clause := ClauseKey(evaluated[i].rule);
    if clause in plans[i].insertedClauses {
      ListedWasInserted(s, evaluated, plans, i, clause);
      var h :| 0 <= h < i && |plans[h + 1].entries| == h + 1 && plans[h + 1].entries[h].inserted
          && ClauseKey(evaluated[h].rule) == clause;
      PlanKeeps(s, evaluated, plans, h + 1, n);
      assert entries[h] == entries[..h + 1][h];
    }
    if h :| 0 <= h < i && entries[h].inserted && ClauseKey(evaluated[h].rule) == clause {
      PlanKeeps(s, evaluated, plans, h + 1, n);
      assert entries[h] == entries[..h + 1][h];
      ClauseListed(s, evaluated, plans, h, i);
    }
  }

  /** The language of an asserted rule is inserted into the review exactly when no earlier rule of its
      clause was, and no issue of the review that proposes standard language only proposes it. */
  lemma {:induction false} NothingLeftOut(blocks: seq<Block>, review: Review, evaluated: seq<Evaluated>,
      plans: seq<Plan>, i: nat)
    requires Run(SettingOf(blocks, review, evaluated), evaluated, plans) && i < |evaluated| && blocks != []
    requires evaluated[i].Asserted() && evaluated[i].rule.fallback != ""
    ensures |plans[|evaluated|].entries| == |evaluated|
    ensures var entries := plans[|evaluated|].entries;
            && (entries[i].inserted
                <==> (!ClauseServed(evaluated, entries, i)
                      && !SafelyProposed(Proposals(review), evaluated, evaluated[i].rule.fallback)))
            && (entries[i].inserted ==> entries[i].anchor.Some? && Real(blocks, entries[i].anchor.value))
  {
    hide Run, FoldText, SafelyProposed, ClauseServed, Covering, Standards, Proposals, ReservedKeys, Real;
    InsertedUnlessCovered(SettingOf(blocks, review, evaluated), evaluated, plans, i);
    CoveringIsSafe(Proposals(review), evaluated, evaluated[i].rule.fallback);
  }

  predicate NoneAsserted(evaluated: seq<Evaluated>) {
    forall i | 0 <= i < |evaluated| :: !evaluated[i].Asserted()
  }

  /** The review with a plan's issues and insertions behind its own. */
  function WithPlan(review: Review, plan: Plan): Review {
    review.(issues := review.issues + plan.issues, insertions := review.insertions + plan.insertions,
        requestsChange := true)
  }

  /** `enforce`'s result: untouched when nothing is asserted, a request for changes otherwise; the
      issues it adds have keys of their own. */
  method EnforceReview(review: Review, blocks: seq<Block>, evaluated: seq<Evaluated>)
      returns (result: Review, plan: Plan)
    ensures result == if NoneAsserted(evaluated) then review else WithPlan(review, plan)
    ensures EndsIn(SettingOf(blocks, review, evaluated), evaluated, plan)
    ensures forall i | 0 <= i < |plan.issues| :: plan.issues[i].key !in ReservedKeys(review)
  {
    hide EnforcesAt, ReservedKeys, Covering, Standards, Proposals;
    var covering := CoveringInsertTexts(Proposals(review), Standards(evaluated));
    var s := Setting(blocks, ReservedKeys(review), covering);
    plan := Enforce(s, evaluated);
    ghost var plans :| Run(s, evaluated, plans) && plan == plans[|evaluated|];
    SomeAsserted(s, evaluated, plans, |evaluated|);
    KeysAreFresh(s, evaluated, plans, |evaluated|);
    result := if plan.issues == [] then review else WithPlan(review, plan);
  }

  lemma {:induction false} SomeAsserted(s: Setting, evaluated: seq<Evaluated>, plans: seq<Plan>, k: nat)
    requires Run(s, evaluated, plans) && k <= |evaluated|
    ensures plans[k].issues == [] <==> forall i | 0 <= i < k :: !evaluated[i].Asserted()
  {
    hide EnforcesAt, FoldText, Real, ClauseKey;
    if k > 0 {
      SomeAsserted(s, evaluated, plans, k - 1);
      StepGrows(s, evaluated, plans, k - 1);
    }
  }

  // ---------------------------------------------------------------------
  // Settlement
  // ---------------------------------------------------------------------

  /** An entry as delivered. */
  function SettledEntry(entry: Entry, delivered: set<string>): Entry {
    if entry.inserted && (entry.key.None? || entry.key.value !in delivered)
    then entry.(inserted := false, anchor := None) else entry
  }

  function SettledEntries(entries: seq<Entry>, delivered: set<string>): seq<Entry> {
    seq(|entries|, i requires 0 <= i < |entries| => SettledEntry(entries[i], delivered))
  }

  /** `settle`: the entries as delivered, and how many insertions the document carries. */
  method Settle(entries: seq<Entry>, delivered: set<string>) returns (settled: seq<Entry>, inserted: nat)
    ensures settled == SettledEntries(entries, delivered) && inserted == CountInserted(settled)
  {
    settled, inserted := [], 0;
    for i := 0 to |entries|
      invariant settled == SettledEntries(entries[..i], delivered) && inserted == CountInserted(settled)
    {
      var entry := entries[i];
      if entry.inserted && (entry.key.None? || entry.key.value !in delivered) {
        entry := entry.(inserted := false, anchor := None);
      }
      ghost var before := settled;
      settled := settled + [entry];
      assert settled[..|settled| - 1] == before;
      if entry.inserted { inserted := inserted + 1; }
    }
    assert entries[..|entries|] == entries;
  }

  /** Settling twice keeps what both deliveries carried; so settling again changes nothing. */
  lemma {:induction false} SettleComposes(entries: seq<Entry>, a: set<string>, b: set<string>)
    ensures SettledEntries(SettledEntries(entries, a), b) == SettledEntries(entries, a * b)
    ensures SettledEntries(SettledEntries(entries, a), a) == SettledEntries(entries, a)
  {
    assert a * a == a;
  }

  /** An entry stands inserted exactly when it was planned and its issue was delivered; settling
      never adds one, and touches nothing else. */
  lemma {:induction false} SettleOnlyDelivered(entries: seq<Entry>, delivered: set<string>, i: nat)
    requires i < |entries|
    ensures var before, after := entries[i], SettledEntries(entries, delivered)[i];
            && (after.inserted <==> before.inserted && before.key.Some? && before.key.value in delivered)
            && after.ruleId == before.ruleId && after.asserted == before.asserted && after.key == before.key
            && (after.anchor == if before.inserted && !after.inserted then None else before.anchor)
    ensures CountInserted(SettledEntries(entries, delivered)) <= CountInserted(entries)
  {
    SettleCounts(entries, delivered);
  }

  lemma {:induction false} SettleCounts(entries: seq<Entry>, delivered: set<string>)
    ensures CountInserted(SettledEntries(entries, delivered)) <= CountInserted(entries)
  {
    if entries != [] {
      var most := entries[..|entries| - 1];
      SettleCounts(most, delivered);
      assert SettledEntries(entries, delivered)[..|entries| - 1] == SettledEntries(most, delivered);
    }
  }

  // ---------------------------------------------------------------------
  // Dispositions
  // ---------------------------------------------------------------------

  function Occurrences(s: seq<string>, x: string): nat {
    if s == [] then 0 else (if s[0] == x then 1 else 0) + Occurrences(s[1..], x)
  }

  /** That is how often `x` stands in `s`. */
  lemma {:induction false} OccurrencesAre(s: seq<string>, x: string)
    ensures Occurrences(s, x) == multiset(s)[x]
  {
    if s != [] {
      OccurrencesAre(s[1..], x);
      assert s == [s[0]] + s[1..];
    }
  }

  function Pick(ruleIds: seq<string>, disposed: seq<string>, repeated: bool): seq<string> {
    if ruleIds == [] then []
    else
      var n := Occurrences(disposed, ruleIds[0]);
      (if (if repeated then n > 1 else n == 0) then [ruleIds[0]] else []) + Pick(ruleIds[1..], disposed, repeated)
  }

  /** `disposition_problems`, over distinct rule ids: those without a disposition, and those with
      more than one. */
  function DispositionProblems(ruleIds: seq<string>, disposed: seq<string>): (seq<string>, seq<string>) {
    (Pick(ruleIds, disposed, false), Pick(ruleIds, disposed, true))
  }

  /** No problem is left exactly when every rule has one disposition. */
  lemma {:induction false} NoProblems(ruleIds: seq<string>, disposed: seq<string>)
    ensures DispositionProblems(ruleIds, disposed) == ([], [])
      <==> forall r | r in ruleIds :: Occurrences(disposed, r) == 1
  {
    if ruleIds != [] {
      NoProblems(ruleIds[1..], disposed);
      hide Occurrences;
      assert ruleIds == [ruleIds[0]] + ruleIds[1..];
      var n := Occurrences(disposed, ruleIds[0]);
      assert ruleIds[0] in ruleIds && forall r | r in ruleIds :: r == ruleIds[0] || r in ruleIds[1..];
      if n == 1 && (forall r | r in ruleIds[1..] :: Occurrences(disposed, r) == 1) {
        forall r | r in ruleIds ensures Occurrences(disposed, r) == 1 {}
      }
      assert forall r | r in ruleIds[1..] :: r in ruleIds;
      assert (Pick(ruleIds, disposed, false) == []) == (n != 0 && Pick(ruleIds[1..], disposed, false) == []);
      assert (Pick(ruleIds, disposed, true) == []) == (n <= 1 && Pick(ruleIds[1..], disposed, true) == []);
    }
  }
}
