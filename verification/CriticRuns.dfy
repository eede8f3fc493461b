/** A critic run in closed form: what each attempt may spend, and which attempt is the last. */
module CriticRuns {
  import opened CriticPass

  /** The budget of attempt `n`: what the document asks for and sixteen thousand tokens for every answer cut
      off before, up to the ceiling. */
  lemma {:induction false} BudgetClosed(setup: Setup, answers: nat -> Answer, n: nat)
    requires n > 0
    ensures BudgetAt(setup, answers, n)
      == Min(16000 + 5 * setup.documentTokens / 2 + 16000 * Truncations(answers, n - 1), setup.ceiling)
  {
    if n > 1 { BudgetClosed(setup, answers, n - 1); }
  }

  /** How many answers have been cut off is how many positions there are at which one was. */
  lemma {:induction false} TruncationsAre(answers: nat -> Answer, n: nat)
    ensures Truncations(answers, n) == |set i: nat | 1 <= i <= n && answers(i).Truncated?|
  {
    if n == 0 {
      assert (set i: nat | 1 <= i <= 0 && answers(i).Truncated?) == {};
    } else {
      TruncationsAre(answers, n - 1);
      var before, now := set i: nat | 1 <= i <= n - 1 && answers(i).Truncated?, set i: nat | 1 <= i <= n
          && answers(i).Truncated?;
      assert now == if answers(n).Truncated? then before + {n} else before;
    }
  }

  /** Attempts that count against the retries: all but the truncated ones the truncation allowance pays for. */
  function Charged(setup: Setup, answers: nat -> Answer, n: nat): int {
    n - Min(Truncations(answers, n), setup.maxTruncationRetries)
  }

  /** The answer is kept: it passed the validator, its transcript is not refused, and it accounts for every
      issue and every rule, where the schema has it do so. */
  predicate Kept(setup: Setup, answer: Answer) {
    && answer.Valid? && !answer.response.transcriptRefused
    && (setup.brief.definesDispositions ==> Accounts(setup.brief, answer.response))
  }

  /** Attempt `n` ends the run: the model broke, or gave an answer with nothing against it, or was cut off with
      no wider budget to buy, or the retries are used up. */
  predicate Ends(setup: Setup, answers: nat -> Answer, n: nat)
    requires n > 0
  {
    || answers(n).Raised?
    || (Kept(setup, answers(n)) && answers(n).response.violations == 0)
    || (answers(n).Truncated? && BudgetAt(setup, answers, n) == setup.ceiling)
    || Charged(setup, answers, n) > setup.maxRetries
  }

  /** Up to the first attempt that ends the run, every attempt is retried; that one is not. */
  lemma {:induction false} RetriesExactly(setup: Setup, answers: nat -> Answer, n: nat)
    requires n > 0 && forall i | 0 < i < n :: !Ends(setup, answers, i)
    ensures Retries(setup, answers, n) <==> !Ends(setup, answers, n)
  {
    hide Accounts;
    BudgetsWithin(setup, answers, n);
    if n > 1 { assert !Ends(setup, answers, n - 1); }
  }

  /** A run is its attempts up to the first that ends it. */
  lemma {:induction false} StopsExactly(setup: Setup, answers: nat -> Answer, n: nat)
    requires n > 0
    ensures Stops(setup, answers, n) <==> Ends(setup, answers, n) && forall i | 0 < i < n :: !Ends(setup, answers, i)
  {
    hide Retries, Ends;
    NotEnded(setup, answers, n);
    if forall i | 0 < i < n :: !Ends(setup, answers, i) { RetriesExactly(setup, answers, n); }
  }

  lemma {:induction false} NotEnded(setup: Setup, answers: nat -> Answer, n: nat)
    requires n > 0
    ensures (forall i | 0 < i < n :: Retries(setup, answers, i)) <==> (forall i | 0 < i < n :: !Ends(setup, answers, i))
  {
    hide Retries, Ends;
    if n > 1 {
      NotEnded(setup, answers, n - 1);
      if forall i | 0 < i < n - 1 :: !Ends(setup, answers, i) { RetriesExactly(setup, answers, n - 1); }
    }
  }

  /** What a run returns is what its last answer is: kept, whatever pen rules it breaks; cut off; broken; or
      given up. */
  lemma {:induction false} EndingExactly(setup: Setup, answers: nat -> Answer, n: nat)
    requires n > 0
    ensures forall r, k :: Ending(setup, answers, n) == OK(r, k) <==>
      k == n && answers(n) == Valid(r) && Kept(setup, answers(n))
    ensures Ending(setup, answers, n) == TruncationRaised <==> answers(n).Truncated?
    ensures Ending(setup, answers, n) == OtherRaised <==> answers(n).Raised?
    ensures Ending(setup, answers, n).RetriesExhausted? ==> Ending(setup, answers, n).attempts == n
  {
    hide Accounts;
  }
}
