/** The hard-rejection ledger from claimed evidence to what reaches the document (`scripts/hard_ledger.py`). */
module LedgerRun {
  import opened Prelude
  import opened LedgerConditions
  import opened LedgerEvidence
  import opened LedgerEnforcement
  import opened LedgerFacts

  /** The critic's first disposition of rule `i` proves it present. */
  predicate Cleared(rules: seq<Rule>, entries: seq<(string, Disposition)>, blocks: seq<Block>, bounds: Bounds, i: nat)
    requires i < |rules|
  {
    var disposition := FirstFor(entries, rules[i].id);
    disposition.Some? && Proven(rules[i], disposition.value, blocks, bounds)
  }

  predicate AllCleared(rules: seq<Rule>, entries: seq<(string, Disposition)>, blocks: seq<Block>, bounds: Bounds) {
    forall i | 0 <= i < |rules| :: Cleared(rules, entries, blocks, bounds, i)
  }

  /** `evaluate_ledger` and `enforce`, one after the other. */
  method RunLedger(review: Review, rules: seq<Rule>, entries: seq<(string, Disposition)>, blocks: seq<Block>,
      bounds: Bounds)
    returns (result: Review, plan: Plan, evaluated: seq<Evaluated>)
    ensures EvaluatesAll(rules, entries, blocks, bounds, evaluated)
    ensures EndsIn(SettingOf(blocks, review, evaluated), evaluated, plan)
    ensures result == if AllCleared(rules, entries, blocks, bounds) then review else WithPlan(review, plan)
  {
    hide Evaluates, Cleared, EndsIn, SettingOf, WithPlan, ReservedKeys;
    evaluated := EvaluateLedger(rules, entries, blocks, bounds);
    forall i | 0 <= i < |rules| ensures evaluated[i].Asserted() <==> !Cleared(rules, entries, blocks, bounds, i) {
      AssertedUnlessCleared(rules, entries, blocks, bounds, evaluated, i);
    }
    result, plan := EnforceReview(review, blocks, evaluated);
  }

  lemma {:induction false} AssertedUnlessCleared(
    rules: seq<Rule>, entries: seq<(string, Disposition)>, blocks: seq<Block>, bounds: Bounds,
        evaluated: seq<Evaluated>, i: nat)
    requires EvaluatesAll(rules, entries, blocks, bounds, evaluated) && i < |rules|
    ensures evaluated[i].rule == rules[i] && (evaluated[i].Asserted() <==> !Cleared(rules, entries, blocks, bounds, i))
  {
    hide Proven, FirstFor;
    assert Evaluates(rules[i], FirstFor(entries, rules[i].id), blocks, bounds, evaluated[i]);
  }

  /** What becomes of rule `i`: proven present, it has an entry and nothing else; otherwise an issue names
      it, and its standard language goes into a document that has a block, at a real place, exactly when
      no earlier rule of its clause went in and no issue of standard language only proposes it. */
  lemma {:induction false} EvidenceDecides(
    review: Review, rules: seq<Rule>, entries: seq<(string, Disposition)>, blocks: seq<Block>, bounds: Bounds,
    evaluated: seq<Evaluated>, plan: Plan, i: nat)
    requires EvaluatesAll(rules, entries, blocks, bounds, evaluated)
      && EndsIn(SettingOf(blocks, review, evaluated), evaluated, plan)
    requires i < |rules|
    ensures |plan.entries| == |rules| == |evaluated| && plan.entries[i].ruleId == rules[i].id
    ensures var entry := plan.entries[i];
            if Cleared(rules, entries, blocks, bounds, i) then !entry.asserted && entry.key.None? && !entry.inserted
            else
              && entry.asserted && entry.key.Some?
              && (exists at | 0 <= at < |plan.issues| ::
                    plan.issues[at].key == entry.key.value && plan.issues[at].ruleId == rules[i].id)
              && (rules[i].fallback != "" && blocks != [] ==>
                    (entry.inserted
                     <==> (!ClauseServed(evaluated, plan.entries, i)
                           && !SafelyProposed(Proposals(review), evaluated, rules[i].fallback)))
                    && (entry.inserted ==> entry.anchor.Some? && Real(blocks, entry.anchor.value)))
  {
    var s := SettingOf(blocks, review, evaluated);
    var plans: seq<Plan> :| Run(s, evaluated, plans) && plan == plans[|evaluated|];
    AssertedUnlessCleared(rules, entries, blocks, bounds, evaluated, i);
    RuleInPlan(s, evaluated, plans, i);
    PlanKeeps(s, evaluated, plans, i + 1, |evaluated|);
    StepGrows(s, evaluated, plans, i);
    hide Run, Cleared, EvaluatesAll, SettingOf, SafelyProposed, ClauseServed, Real, GrewAsserted, Proposals;
    if evaluated[i].Asserted() {
      var at := |plans[i].issues|;
      assert plan.issues[at].key == plan.entries[i].key.value && plan.issues[at].ruleId == rules[i].id;
      if rules[i].fallback != "" && blocks != [] { NothingLeftOut(blocks, review, evaluated, plans, i); }
    } else {
      assert plan.entries[..i + 1][i] == plan.entries[i];
    }
  }
}
