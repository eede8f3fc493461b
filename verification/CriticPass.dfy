/** The critic's bounded-retry loop, and what makes an answer count (`scripts/critic_review_pass.py`). */
module CriticPass {
  import opened LedgerFacts

  const OUTPUT_BUDGET_FLOOR_TOKENS := 16000
  const OUTPUT_BUDGET_WIDEN_STEP_TOKENS := 16000

  function Min(a: int, b: int): int {
    if a <= b then a else b
  }

  /** `output_budget_for_document`: floor plus two and a half tokens a document token, up to the
      ceiling. */
  function OutputBudget(documentTokens: nat, ceiling: nat): nat {
    Min(OUTPUT_BUDGET_FLOOR_TOKENS + 5 * documentTokens / 2, ceiling)
  }

  /** `widen_output_budget`. */
  function Widened(budget: nat, ceiling: nat): nat {
    Min(budget + OUTPUT_BUDGET_WIDEN_STEP_TOKENS, ceiling)
  }

  // ---------------------------------------------------------------------
  // The cross-response check
  // ---------------------------------------------------------------------

  /** What the checks read in a critic answer the validator passed: the issue ids and rule ids it
      disposes of, whether an issue it stands behind is missing from its own list, whether its
      block transcript is refused, and how many of its texts break the pen rules. */
  datatype Response = Response(disposed: seq<string>, keptWithoutCounterpart: bool, ledgerDisposed: seq<string>,
                               transcriptRefused: bool, violations: nat)

  datatype Check = DispositionMissing | DispositionRepeated | KeptWithoutCounterpart | LedgerMissing | LedgerRepeated

  /** What the answer must account for. */
  datatype Brief = Brief(reviewerKeys: seq<string>, ruleIds: seq<string>, definesDispositions: bool)

  /** Every reviewer issue and every ledger rule is disposed of once, and every issue the critic
      stands behind is there. */
  predicate Accounts(brief: Brief, r: Response) {
    && (forall k | k in brief.reviewerKeys :: Occurrences(r.disposed, k) == 1)
    && !r.keptWithoutCounterpart
    && (forall k | k in brief.ruleIds :: Occurrences(r.ledgerDisposed, k) == 1)
  }

  predicate AnyPicked(ids: seq<string>, disposed: seq<string>, repeated: bool) {
    exists k | k in ids :: if repeated then Occurrences(disposed, k) > 1 else Occurrences(disposed, k) == 0
  }

  predicate Fires(brief: Brief, r: Response, check: Check) {
    match check
    case DispositionMissing => AnyPicked(brief.reviewerKeys, r.disposed, false)
    case DispositionRepeated => AnyPicked(brief.reviewerKeys, r.disposed, true)
    case KeptWithoutCounterpart => r.keptWithoutCounterpart
    case LedgerMissing => AnyPicked(brief.ruleIds, r.ledgerDisposed, false)
    case LedgerRepeated => AnyPicked(brief.ruleIds, r.ledgerDisposed, true)
  }

  /** `critic_delta_rejection`: every check that fires, and nothing when the schema defines no
      dispositions. */
  method CriticDeltaRejection(brief: Brief, r: Response) returns (checks: seq<Check>)
    ensures checks == [] <==> !brief.definesDispositions || Accounts(brief, r)
    ensures brief.definesDispositions ==> forall c :: c in checks <==> Fires(brief, r, c)
  {
    checks := [];
    if !brief.definesDispositions {
      return;
    }
    var (missing, repeated) := DispositionProblems(brief.reviewerKeys, r.disposed);
    var (ledgerMissing, ledgerRepeated) := DispositionProblems(brief.ruleIds, r.ledgerDisposed);
    PickedAre(brief.reviewerKeys, r.disposed, false);
    PickedAre(brief.reviewerKeys, r.disposed, true);
    PickedAre(brief.ruleIds, r.ledgerDisposed, false);
    PickedAre(brief.ruleIds, r.ledgerDisposed, true);
    AccountsMeans(brief, r);
    hide AnyPicked, Accounts, Pick;
    checks := Noted(checks, missing != [], DispositionMissing);
    checks := Noted(checks, repeated != [], DispositionRepeated);
    checks := Noted(checks, r.keptWithoutCounterpart, KeptWithoutCounterpart);
    checks := Noted(checks, ledgerMissing != [], LedgerMissing);
    checks := Noted(checks, ledgerRepeated != [], LedgerRepeated);
  }

  method Noted(checks: seq<Check>, fires: bool, check: Check) returns (r: seq<Check>)
    ensures forall c :: c in r <==> c in checks || (fires && c == check)
    ensures r == [] <==> checks == [] && !fires
  {
    r := if fires then checks + [check] else checks;
  }

  lemma {:induction false} AccountsMeans(brief: Brief, r: Response)
    ensures Accounts(brief, r) <==> forall c: Check :: !Fires(brief, r, c)
  {
    hide Occurrences;
    if forall c: Check :: !Fires(brief, r, c) {
      assert !Fires(brief, r, DispositionMissing) && !Fires(brief, r, DispositionRepeated)
        && !Fires(brief, r, KeptWithoutCounterpart)
        && !Fires(brief, r, LedgerMissing) && !Fires(brief, r, LedgerRepeated);
    }
  }

  lemma {:induction false} PickedAre(ids: seq<string>, disposed: seq<string>, repeated: bool)
    ensures Pick(ids, disposed, repeated) != [] <==> AnyPicked(ids, disposed, repeated)
  {
    if ids != [] {
      PickedAre(ids[1..], disposed, repeated);
      hide Occurrences;
      assert ids[0] in ids && (forall k | k in ids :: k == ids[0] || k in ids[1..])
        && (forall k | k in ids[1..] :: k in ids);
    }
  }

  // ---------------------------------------------------------------------
  // The attempts
  // ---------------------------------------------------------------------

  /** What one call to the model comes to. */
  datatype Answer = Truncated | Raised | Invalid | Valid(response: Response)

  datatype Setup = Setup(brief: Brief, maxRetries: nat, maxTruncationRetries: nat, documentTokens: nat, ceiling: nat)

  /** The answer would be returned, but for pen-rule violations an earlier attempt may still retry. */
  predicate Acceptable(setup: Setup, answer: Answer) {
    && answer.Valid? && !answer.response.transcriptRefused
    && (!setup.brief.definesDispositions || Accounts(setup.brief, answer.response))
  }

  /** Truncated answers among the first `n` attempts. */
  function Truncations(answers: nat -> Answer, n: nat): nat {
    if n == 0 then 0 else Truncations(answers, n - 1) + (if answers(n).Truncated? then 1 else 0)
  }

  /** The output budget attempt `n` asks for; attempts count from one. */
  function BudgetAt(setup: Setup, answers: nat -> Answer, n: nat): nat {
    if n <= 1 then OutputBudget(setup.documentTokens, setup.ceiling)
    else if answers(n - 1).Truncated? then Widened(BudgetAt(setup, answers, n - 1), setup.ceiling)
    else BudgetAt(setup, answers, n - 1)
  }

  /** Attempts allowed once `n` have been made: the retries, and one more for each truncation up to
      the truncation allowance. */
  function Allowed(setup: Setup, answers: nat -> Answer, n: nat): nat {
    1 + setup.maxRetries + Min(Truncations(answers, n), setup.maxTruncationRetries)
  }

  /** There is a wider budget to buy. */
  predicate RoomLeft(setup: Setup, answers: nat -> Answer, n: nat) {
    Widened(BudgetAt(setup, answers, n), setup.ceiling) > BudgetAt(setup, answers, n)
  }

  /** Attempt `n` is followed by another. */
  predicate Retries(setup: Setup, answers: nat -> Answer, n: nat)
    requires n > 0
  {
    match answers(n)
    case Truncated =>
      RoomLeft(setup, answers, n)
      && (Truncations(answers, n - 1) < setup.maxTruncationRetries || n < Allowed(setup, answers, n - 1))
    case Raised => false
    case Invalid => n < Allowed(setup, answers, n - 1)
    case Valid(response) =>
      (!Acceptable(setup, answers(n)) || response.violations > 0) && n < Allowed(setup, answers, n - 1)
  }

  datatype Result =
    | OK(response: Response, attempts: nat) | RetriesExhausted(attempts: nat)
    | TruncationRaised | OtherRaised

  /** How a run that stops after attempt `n` ends. */
  function Ending(setup: Setup, answers: nat -> Answer, n: nat): Result
    requires n > 0
  {
    match answers(n)
    case Truncated => TruncationRaised
    case Raised => OtherRaised
    case Invalid => RetriesExhausted(n)
    case Valid(response) => if Acceptable(setup, answers(n)) then OK(response, n) else RetriesExhausted(n)
  }

  datatype Outcome = Success | Retry | Failure

  /** One ledger record. */
  datatype Record = Record(attempt: nat, outcome: Outcome, budget: nat)

  /** The records of a run that stops after attempt `n`. */
  function RecordsOf(setup: Setup, answers: nat -> Answer, n: nat): seq<Record>
    requires n > 0
  {
    seq(n, i requires 0 <= i < n => RecordAt(setup, answers, i + 1, n))
  }

  function RecordAt(setup: Setup, answers: nat -> Answer, attempt: nat, n: nat): Record
    requires n > 0
  {
    Record(attempt, if attempt < n then Retry else if Ending(setup, answers, n).OK? then Success else Failure,
           BudgetAt(setup, answers, attempt))
  }

  /** The run stops after attempt `n`, and not before. */
  predicate Stops(setup: Setup, answers: nat -> Answer, n: nat) {
    && n > 0 && !Retries(setup, answers, n)
    && forall i | 0 < i < n :: Retries(setup, answers, i)
  }

  /** The state between attempts. */
  predicate Between(setup: Setup, answers: nat -> Answer, attempt: nat, allowed: nat, truncationsLeft: nat,
      budget: nat) {
    && budget == BudgetAt(setup, answers, attempt + 1)
    && allowed == Allowed(setup, answers, attempt)
    && truncationsLeft == setup.maxTruncationRetries - Min(Truncations(answers, attempt), setup.maxTruncationRetries)
    && forall i | 0 < i <= attempt :: Retries(setup, answers, i)
  }

  /** `run_critic_pass`'s loop. */
  method RunCriticPass(setup: Setup, answers: nat -> Answer) returns (result: Result, records: seq<Record>)
    ensures Stops(setup, answers, |records|)
    ensures result == Ending(setup, answers, |records|) && records == RecordsOf(setup, answers, |records|)
  {
    hide Accounts, Retries, Truncations, BudgetAt;
    var attemptsAllowed: nat, truncationRetriesLeft: nat := 1 + setup.maxRetries, setup.maxTruncationRetries;
    var budget: nat := OutputBudget(setup.documentTokens, setup.ceiling);
    var attempt: nat := 0;
    records := [];
    Start(setup, answers);
    while true
      invariant Between(setup, answers, attempt, attemptsAllowed, truncationRetriesLeft, budget)
      invariant attempt < attemptsAllowed
      invariant |records| == attempt
      invariant forall i | 0 <= i < attempt :: records[i] == Record(i + 1, Retry, BudgetAt(setup, answers, i + 1))
      decreases attemptsAllowed + truncationRetriesLeft - attempt
    {
      attempt := attempt + 1;
      var stop, outcome, widened, more :=
          JudgeAttempt(setup, answers, attempt, attemptsAllowed, truncationRetriesLeft, budget);
      records := records + [Record(attempt, outcome, budget)];
      if stop {
        result := EndOf(setup, answers, attempt);
        return;
      }
      budget := widened;
      if more { truncationRetriesLeft, attemptsAllowed := truncationRetriesLeft - 1, attemptsAllowed + 1; }
    }
  }

  lemma {:induction false} Start(setup: Setup, answers: nat -> Answer)
    ensures Between(setup, answers, 0, 1 + setup.maxRetries, setup.maxTruncationRetries,
      OutputBudget(setup.documentTokens, setup.ceiling))
  {
  }

  method EndOf(setup: Setup, answers: nat -> Answer, n: nat) returns (result: Result)
    requires n > 0
    ensures result == Ending(setup, answers, n)
  {
    match answers(n) {
      case Truncated => result := TruncationRaised;
      case Raised => result := OtherRaised;
      case Invalid => result := RetriesExhausted(n);
      case Valid(response) =>
        var refused := Refusal(setup, response);
        result := if refused then RetriesExhausted(n) else OK(response, n);
    }
  }

  /** The post-validation checks: dispositions first, then the block transcript. */
  method Refusal(setup: Setup, response: Response) returns (refused: bool)
    ensures refused <==> !Acceptable(setup, Valid(response))
  {
    var checks := CriticDeltaRejection(setup.brief, response);
    refused := checks != [] || response.transcriptRefused;
  }

  /** One attempt: whether it is the last, what is recorded, the next budget, and whether a
      truncation bought one more attempt. */
  method JudgeAttempt(setup: Setup, answers: nat -> Answer, attempt: nat, allowed: nat, truncationsLeft: nat,
      budget: nat)
    returns (stop: bool, outcome: Outcome, next: nat, more: bool)
    requires attempt > 0 && attempt <= allowed
    requires Between(setup, answers, attempt - 1, allowed, truncationsLeft, budget)
    ensures stop <==> !Retries(setup, answers, attempt)
    ensures outcome == if !stop then Retry else if Ending(setup, answers, attempt).OK? then Success else Failure
    ensures more ==> truncationsLeft > 0
    ensures !stop ==> Between(setup, answers, attempt, if more then allowed + 1 else allowed,
                              if more then truncationsLeft - 1 else truncationsLeft, next)
    ensures !stop ==> attempt < if more then allowed + 1 else allowed
  {
    hide Accounts;
    next, more := budget, false;
    match answers(attempt) {
      case Truncated =>
        var widened := Widened(budget, setup.ceiling);
        if truncationsLeft > 0 && widened > budget {
          stop, outcome, next, more := false, Retry, widened, true;
        } else if attempt >= allowed || widened <= budget {
          stop, outcome := true, Failure;
        } else {
          stop, outcome, next := false, Retry, widened;
        }
      case Raised => stop, outcome := true, Failure;
      case Invalid =>
        stop := attempt >= allowed;
        outcome := if stop then Failure else Retry;
      case Valid(response) =>
        var refused := Refusal(setup, response);
        if refused {
          stop := attempt >= allowed;
          outcome := if stop then Failure else Retry;
        } else if response.violations > 0 && attempt < allowed {
          stop, outcome := false, Retry;
        } else {
          stop, outcome := true, Success;
        }
    }
  }

  // ---------------------------------------------------------------------
  // What a run guarantees
  // ---------------------------------------------------------------------

  lemma {:induction false} BudgetsWithin(setup: Setup, answers: nat -> Answer, n: nat)
    requires n > 0
    ensures BudgetAt(setup, answers, n) <= setup.ceiling
    ensures BudgetAt(setup, answers, n) <= BudgetAt(setup, answers, n + 1)
  {
    if n > 1 { BudgetsWithin(setup, answers, n - 1); }
  }

  lemma {:induction false} BudgetsGrow(setup: Setup, answers: nat -> Answer, m: nat, n: nat)
    requires 0 < m <= n
    ensures BudgetAt(setup, answers, m) <= BudgetAt(setup, answers, n) <= setup.ceiling
    decreases n
  {
    BudgetsWithin(setup, answers, n);
    if m < n {
      BudgetsGrow(setup, answers, m, n - 1);
      BudgetsWithin(setup, answers, n - 1);
    }
  }

  /** The number of attempts is within the retries and the truncation retries. */
  lemma {:induction false} AttemptsBounded(setup: Setup, answers: nat -> Answer, n: nat)
    requires Stops(setup, answers, n)
    ensures n <= 1 + setup.maxRetries + setup.maxTruncationRetries
  {
    if n > 1 {
      assert Retries(setup, answers, n - 1);
      RetryIsAllowed(setup, answers, n - 1);
    }
  }

  /** An attempt that is retried is below what is allowed after it. */
  lemma {:induction false} RetryIsAllowed(setup: Setup, answers: nat -> Answer, n: nat)
    requires n > 0 && forall i | 0 < i <= n :: Retries(setup, answers, i)
    ensures n < Allowed(setup, answers, n)
  {
    if n > 1 { RetryIsAllowed(setup, answers, n - 1); }
    assert Retries(setup, answers, n);
  }

  /** Every run: one record for each attempt, in order; all but the last a retry; a success exactly
      when the run returns, and then with an answer that accounts for everything, where the schema
      defines dispositions; budgets never shrink and never pass the ceiling. */
  lemma {:induction false} RunIsLedgered(setup: Setup, answers: nat -> Answer, n: nat)
    requires Stops(setup, answers, n)
    ensures var records := RecordsOf(setup, answers, n);
            && |records| == n
            && (forall i | 0 <= i < n :: records[i].attempt == i + 1 && records[i].budget <= setup.ceiling)
            && (forall i | 0 <= i < n :: records[i].outcome == Retry <==> i < n - 1)
            && (records[n - 1].outcome == Success <==> Ending(setup, answers, n).OK?)
            && (records[n - 1].outcome == Success && setup.brief.definesDispositions ==>
                  answers(n).Valid? && Accounts(setup.brief, answers(n).response))
            && (forall i, j | 0 <= i < j < n :: records[i].budget <= records[j].budget)
  {
    if Ending(setup, answers, n).OK? { ReturnedIsAccounted(setup, answers, n); }
    hide Ending, BudgetAt, Retries, Accounts;
    var records := RecordsOf(setup, answers, n);
    forall i, j | 0 <= i < j < n ensures records[i].budget <= records[j].budget {
      BudgetsGrow(setup, answers, i + 1, j + 1);
    }
    forall i | 0 <= i < n ensures records[i].budget <= setup.ceiling {
      BudgetsGrow(setup, answers, i + 1, i + 1);
    }
  }

  /** An answer is returned only when it accounts for every reviewer issue and every ledger rule
      once, where the schema defines dispositions; and a violation of the pen rules is returned
      only when no attempt was left to retry it. */
  lemma {:induction false} ReturnedIsAccounted(setup: Setup, answers: nat -> Answer, n: nat)
    requires Stops(setup, answers, n) && Ending(setup, answers, n).OK?
    ensures var response := Ending(setup, answers, n).response;
            && answers(n) == Valid(response) && !response.transcriptRefused
            && (setup.brief.definesDispositions ==> Accounts(setup.brief, response))
            && (response.violations > 0 ==> n >= Allowed(setup, answers, n - 1))
  {
    hide Accounts;
  }

  /** Giving up means every attempt allowed was made. */
  lemma {:induction false} ExhaustedUsesAll(setup: Setup, answers: nat -> Answer, n: nat)
    requires Stops(setup, answers, n) && Ending(setup, answers, n).RetriesExhausted?
    ensures n == Allowed(setup, answers, n - 1)
  {
    hide Accounts;
    if n > 1 { RetryIsAllowed(setup, answers, n - 1); }
  }
}
