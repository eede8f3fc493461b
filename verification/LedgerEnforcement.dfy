/** Failing every asserted rule closed into the document (`_next_issue_key`,
    `_covering_insert_texts`, `standard_texts`, `enforce`, `scripts/hard_ledger.py`). */
module LedgerEnforcement {
  import opened Prelude
  import opened TextFold
  import opened LedgerEvidence
  import opened LedgerAnchor

  // ---------------------------------------------------------------------
  // Fresh issue keys
  // ---------------------------------------------------------------------

  function Key(n: nat): string {
    "I" + Decimal(n)
  }

  lemma {:induction false} KeyInjective(m: nat, n: nat)
    requires Key(m) == Key(n)
    ensures m == n
  {
    assert Key(m)[1..] == Decimal(m) && Key(n)[1..] == Decimal(n);
    DecimalValue(m);
    DecimalValue(n);
  }

  /** The keys below `n`. */
  function KeysBelow(n: nat): set<string> {
    if n <= 1 then {} else KeysBelow(n - 1) + {Key(n - 1)}
  }

  lemma {:induction false} KeysBelowAre(n: nat, m: nat)
    ensures Key(m) in KeysBelow(n) <==> 1 <= m < n
  {
    hide Key;
    if n > 1 {
      KeysBelowAre(n - 1, m);
      if Key(m) == Key(n - 1) { KeyInjective(m, n - 1); }
    }
  }

  lemma {:induction false} KeysBelowCount(n: nat)
    requires n > 0
    ensures |KeysBelow(n)| == n - 1
  {
    hide Key;
    if n > 1 {
      KeysBelowCount(n - 1);
      KeysBelowAre(n - 1, n - 1);
    }
  }

  /** Pigeonhole: a set that holds every key below `n` has at least that many members. */
  lemma {:induction false} Pigeonhole(taken: set<string>, n: nat)
    requires n > 0 && KeysBelow(n) <= taken
    ensures n <= |taken| + 1
  {
    KeysBelowCount(n);
    SubsetSize(KeysBelow(n), taken);
  }

  lemma {:induction false} SubsetSize(a: set<string>, b: set<string>)
    requires a <= b
    ensures |a| <= |b|
  {
    assert b == a + (b - a);
  }

  /** The key is new, and every smaller one is taken. */
  predicate FirstFree(taken: set<string>, key: string, n: nat) {
    n > 0 && key == Key(n) && key !in taken && KeysBelow(n) <= taken
  }

  /** `_next_issue_key`'s search. */
  method NextIssueKey(taken: set<string>) returns (key: string)
    ensures exists n: nat :: FirstFree(taken, key, n)
  {
    hide Key;
    var index := 1;
    while Key(index) in taken
      invariant index > 0 && KeysBelow(index) <= taken
      decreases |taken| + 1 - index
    {
      Pigeonhole(taken, index + 1);
      index := index + 1;
    }
    key := Key(index);
    assert FirstFree(taken, key, index);
  }

  /** There is one first free key. */
  lemma {:induction false} FirstFreeUnique(taken: set<string>, k: string, m: nat, l: string, n: nat)
    requires FirstFree(taken, k, m) && FirstFree(taken, l, n)
    ensures k == l && m == n
  {
    KeysBelowAre(m, n);
    KeysBelowAre(n, m);
  }

  // ---------------------------------------------------------------------
  // What the transcript already proposes
  // ---------------------------------------------------------------------

  /** An insertion the critic's transcript makes, whole block or segment, for one of its issues. */
  datatype Proposal = Proposal(issueKey: string, text: string)

  /** `standard_texts`: the standard language of every asserted rule, folded. */
  function Standards(evaluated: seq<Evaluated>): set<string> {
    set e | e in evaluated && e.Asserted() && !Blank(e.rule.fallback) :: FoldText(e.rule.fallback)
  }

  /** An issue that proposes nothing but standard language. */
  predicate OnlyStandards(proposals: seq<Proposal>, key: string, standards: set<string>) {
    forall p | p in proposals :: p.issueKey == key ==> FoldText(p.text) in standards
  }

  /** `_covering_insert_texts`: what stands in for the ledger's own insertion. */
  function Covering(proposals: seq<Proposal>, standards: set<string>): set<string> {
    set p | p in proposals && OnlyStandards(proposals, p.issueKey, standards) :: FoldText(p.text)
  }

  /** Every text proposed under a key, listed under it. */
  ghost predicate Grouped(texts: map<string, seq<string>>, proposals: seq<Proposal>) {
    && (forall key | key in texts :: texts[key] != [])
    && (forall p | p in proposals :: p.issueKey in texts && p.text in texts[p.issueKey])
    && (forall key, text | key in texts && text in texts[key] :: Proposal(key, text) in proposals)
  }

  /** `_insert_texts_by_issue`. */
  method InsertTextsByIssue(proposals: seq<Proposal>) returns (texts: map<string, seq<string>>)
    ensures Grouped(texts, proposals)
  {
    texts := map[];
    for i := 0 to |proposals|
      invariant Grouped(texts, proposals[..i])
    {
      var p := proposals[i];
      var before := if p.issueKey in texts then texts[p.issueKey] else [];
      assert proposals[..i + 1] == proposals[..i] + [p];
      texts := texts[p.issueKey := before + [p.text]];
    }
    assert proposals[..|proposals|] == proposals;
  }

  function AllFolded(texts: seq<string>): set<string> {
    set text | text in texts :: FoldText(text)
  }

  /** `_covering_insert_texts`: issue by issue, the texts of those that propose only standards. */
  method CoveringInsertTexts(proposals: seq<Proposal>, standards: set<string>) returns (covering: set<string>)
    ensures covering == Covering(proposals, standards)
  {
    hide FoldText;
    var texts := InsertTextsByIssue(proposals);
    covering := {};
    var rest := texts.Keys;
    while rest != {}
      invariant rest <= texts.Keys
      invariant covering == set key, text | key in texts && key !in rest && AllFolded(texts[key]) <= standards
        && text in texts[key] :: FoldText(text)
      decreases rest
    {
      var key :| key in rest;
      if AllFolded(texts[key]) <= standards { covering := covering + AllFolded(texts[key]); }
      rest := rest - {key};
    }
    GroupsCover(texts, proposals, standards);
  }

  lemma {:induction false} GroupsCover(texts: map<string, seq<string>>, proposals: seq<Proposal>,
      standards: set<string>)
    requires Grouped(texts, proposals)
    ensures (set key, text | key in texts && AllFolded(texts[key]) <= standards && text in texts[key] :: FoldText(text))
         == Covering(proposals, standards)
  {
    hide FoldText;
    forall key | key in texts ensures AllFolded(texts[key]) <= standards <==> OnlyStandards(proposals, key, standards) {
      if AllFolded(texts[key]) <= standards {
        forall p | p in proposals && p.issueKey == key ensures FoldText(p.text) in standards {
          assert FoldText(p.text) in AllFolded(texts[key]);
        }
      }
      if OnlyStandards(proposals, key, standards) {
        forall text | text in texts[key] ensures FoldText(text) in standards {
          assert Proposal(key, text) in proposals;
        }
      }
    }
    forall p | p in proposals ensures p.issueKey in texts && p.text in texts[p.issueKey] {}
    forall key, text | key in texts && text in texts[key] ensures Proposal(key, text) in proposals {}
  }

  // ---------------------------------------------------------------------
  // Enforcement
  // ---------------------------------------------------------------------

  datatype Outcome = Inserted | Covered | FlagOnly

  /** An issue the ledger adds for a rule. */
  datatype Issue = Issue(key: string, ruleId: string, outcome: Outcome)

  /** `insert_block_after`. */
  datatype Insertion = Insertion(anchor: string, text: string, key: string)

  /** The ledger's record of one rule; no key for a cleared one. */
  datatype Entry = Entry(ruleId: string, asserted: bool, inserted: bool, anchor: Option<string>, key: Option<string>)

  datatype Plan = Plan(issues: seq<Issue>, insertions: seq<Insertion>, entries: seq<Entry>,
                       taken: set<string>, insertedClauses: set<string>)

  function ClauseKey(rule: Rule): string {
    if rule.clauseId != "" then rule.clauseId else rule.id
  }

  /** The review the ledger is enforced into: its issues, what its block ops and its patches' segments
      insert, the keys its other edits and the critic's added issues carry, and its decision. */
  datatype Review = Review(issues: seq<Issue>, insertions: seq<Insertion>, segmentInserts: seq<Proposal>,
                           otherKeys: set<string>, requestsChange: bool)

  /** `_insert_texts_by_issue`, ungrouped: every text the review inserts, with its issue. */
  function Proposals(review: Review): seq<Proposal> {
    seq(|review.insertions|, i requires 0 <= i < |review.insertions| =>
      Proposal(review.insertions[i].key, review.insertions[i].text)) + review.segmentInserts
  }

  /** `_reserved_issue_keys`: every key in use. */
  function ReservedKeys(review: Review): set<string> {
    (set issue | issue in review.issues :: issue.key)
    + (set p | p in Proposals(review) :: p.issueKey) + review.otherKeys
  }

  /** What `enforce` works out before its loop. */
  function SettingOf(blocks: seq<Block>, review: Review, evaluated: seq<Evaluated>): Setting {
    Setting(blocks, ReservedKeys(review), Covering(Proposals(review), Standards(evaluated)))
  }

  /** What is fixed while the ledger is enforced. */
  datatype Setting = Setting(blocks: seq<Block>, reserved: set<string>, covering: set<string>)

  /** The step an asserted rule takes, its key and anchor given. */
  predicate Step(s: Setting, before: Plan, e: Evaluated, after: Plan, key: string, anchor: Option<string>) {
    var covered := e.rule.fallback != ""
        && (ClauseKey(e.rule) in before.insertedClauses || FoldText(e.rule.fallback) in s.covering);
    var inserts := e.rule.fallback != "" && anchor.Some? && !covered;
    after == Plan(
      before.issues + [Issue(key, e.rule.id, if inserts then Inserted else if covered then Covered else FlagOnly)],
      before.insertions + (if inserts then [Insertion(anchor.value, e.rule.fallback, key)] else []),
      before.entries + [Entry(e.rule.id, true, inserts, if inserts then anchor else None, Some(key))],
      before.taken + {key},
      before.insertedClauses + (if inserts then {ClauseKey(e.rule)} else {}))
  }

  /** What one rule does to the plan: nothing when cleared; else one issue under the first free key,
      and one insertion unless there is no language, no block, or the clause's language is already
      proposed. */
  ghost predicate Enforces(s: Setting, before: Plan, e: Evaluated, after: Plan) {
    if !e.Asserted() then
      after == before.(entries := before.entries + [Entry(e.rule.id, false, false, None, None)])
    else
      exists key, anchor ::
        (exists n: nat :: FirstFree(before.taken, key, n)) && Anchors(e.rule, e.blockId, s.blocks, anchor)
        && Step(s, before, e, after, key, anchor)
  }

  /** Plans, one rule after another. */
  ghost predicate Run(s: Setting, evaluated: seq<Evaluated>, plans: seq<Plan>) {
    && |plans| == |evaluated| + 1
    && plans[0] == Plan([], [], [], s.reserved, {})
    && forall k | 0 <= k < |evaluated| :: EnforcesAt(s, evaluated, plans, k)
  }

  ghost predicate EnforcesAt(s: Setting, evaluated: seq<Evaluated>, plans: seq<Plan>, k: nat)
    requires k < |evaluated| && k + 1 < |plans|
  {
    Enforces(s, plans[k], evaluated[k], plans[k + 1])
  }

  /** One rule of `enforce`'s loop. */
  method EnforceOne(s: Setting, before: Plan, e: Evaluated) returns (after: Plan)
    ensures Enforces(s, before, e, after)
  {
    hide FirstFree, Anchors, FoldText;
    if !e.Asserted() {
      return before.(entries := before.entries + [Entry(e.rule.id, false, false, None, None)]);
    }
    var key := NextIssueKey(before.taken);
    var anchor := InsertionAnchor(e.rule, e.blockId, s.blocks);
    var covered := e.rule.fallback != ""
        && (ClauseKey(e.rule) in before.insertedClauses || FoldText(e.rule.fallback) in s.covering);
    var inserts := e.rule.fallback != "" && anchor.Some? && !covered;
    var outcome := if inserts then Inserted else if covered then Covered else FlagOnly;
    var insertions, clauses := before.insertions, before.insertedClauses;
    if inserts {
      insertions := insertions + [Insertion(anchor.value, e.rule.fallback, key)];
      clauses := clauses + {ClauseKey(e.rule)};
    } else {
      insertions := insertions + [];
      clauses := clauses + {};
    }
    after := Plan(before.issues + [Issue(key, e.rule.id, outcome)], insertions,
                  before.entries + [Entry(e.rule.id, true, inserts, if inserts then anchor else None, Some(key))],
                  before.taken + {key}, clauses);
    assert Step(s, before, e, after, key, anchor);
  }

  /** `plan` is where some run over the ledger ends. */
  ghost predicate EndsIn(s: Setting, evaluated: seq<Evaluated>, plan: Plan) {
    exists plans :: Run(s, evaluated, plans) && plan == plans[|evaluated|]
  }

  /** `enforce`: the plan a run over the ledger ends in. */
  method Enforce(s: Setting, evaluated: seq<Evaluated>) returns (plan: Plan)
    ensures EndsIn(s, evaluated, plan)
  {
    hide Enforces;
    plan := Plan([], [], [], s.reserved, {});
    ghost var plans := [plan];
    for k := 0 to |evaluated|
      invariant |plans| == k + 1 && plan == plans[k] && plans[0] == Plan([], [], [], s.reserved, {})
      invariant forall j | 0 <= j < k :: EnforcesAt(s, evaluated, plans, j)
    {
      var next := EnforceOne(s, plan, evaluated[k]);
      ghost var grown := plans + [next];
      forall j | 0 <= j < k + 1 ensures EnforcesAt(s, evaluated, grown, j) {
        if j < k { assert EnforcesAt(s, evaluated, plans, j); }
        assert grown[j] == plans[j];
      }
      plan, plans := next, grown;
    }
  }
}
