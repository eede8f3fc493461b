/** What judging the Floor comes to, said of the model's replies alone. */
module FloorReplies {
  import opened Prelude
  import opened FloorJudge

  // ---------------------------------------------------------------------
  // One reply
  // ---------------------------------------------------------------------

  /** The reply is the verdict: one object, about the invariant asked, that says whether it is violated and
      quotes no more than five hundred characters, or nothing. */
  predicate Gives(reply: Reply, id: string, v: Verdict) {
    && reply.Reply? && reply.raw.Parsed? && reply.raw.value.JObj?
    && reply.raw.value.Get("invariant_id") == JStr(id) && v.invariantId == id
    && reply.raw.value.Get("violated") == JBool(v.violated)
    && |v.quote| <= 500
    && if "evidence_quote" in reply.raw.value.fields then reply.raw.value.fields["evidence_quote"] == JStr(v.quote)
       else v.quote == ""
  }

  /** The first thing wrong with a response that is no verdict. */
  predicate Faulty(raw: Raw, id: string, fault: Fault) {
    var parsed := raw.Parsed? && raw.value.JObj?;
    var about := parsed && raw.value.Get("invariant_id") == JStr(id);
    var says := about && raw.value.Get("violated").JBool?;
    var quotes := says && "evidence_quote" in raw.value.fields;
    match fault
    case NotText => raw.NoText?
    case TextFollowed => raw.Trailing?
    case NotAnObject => raw.Parsed? && !parsed
    case WrongInvariantId => parsed && !about
    case InvalidViolated => about && !says
    case InvalidQuote => quotes && !raw.value.fields["evidence_quote"].JStr?
    case QuoteTooLong(n) =>
      quotes && raw.value.fields["evidence_quote"].JStr? && n == |raw.value.fields["evidence_quote"].text| > 500
  }

  /** A reply is taken for what it is: a verdict, a fault, a cut-off answer or a broken call. */
  lemma {:induction false} ReplyIsTaken(reply: Reply, id: string)
    ensures forall v :: AnswerTo(reply, id) == Judged(v) <==> Gives(reply, id, v)
    ensures forall fault :: AnswerTo(reply, id) == Rejected(fault) <==> reply.Reply? && Faulty(reply.raw, id, fault)
    ensures AnswerTo(reply, id) == Truncated <==> reply.OutOfRoom?
    ensures AnswerTo(reply, id) == Raised <==> reply.Broken?
  {
  }

  // ---------------------------------------------------------------------
  // The attempts on one invariant
  // ---------------------------------------------------------------------

  /** Attempt `k` settles the invariant: a verdict, or a broken call. */
  ghost predicate Settles(replies: Replies, i: nat, id: string, k: nat) {
    replies(i, k).Broken? || exists v :: Gives(replies(i, k), id, v)
  }

  /** `n` attempts are made: to the first that settles the invariant, or all that are allowed. */
  ghost predicate Makes(replies: Replies, i: nat, id: string, n: nat) {
    && 1 <= n <= 2
    && (forall k | 1 <= k < n :: !Settles(replies, i, id, k))
    && (n == 2 || Settles(replies, i, id, n))
  }

  lemma {:induction false} LastIsMade(invariants: seq<Invariant>, replies: Replies, i: nat, n: nat)
    requires i < |invariants|
    ensures Makes(replies, i, invariants[i].id, n) <==> n == LastAttempt(Answered(invariants, replies), i, 1)
  {
    hide CheckJudgeResponse, Gives;
    var answers := Answered(invariants, replies);
    forall k: nat ensures Stops(answers(i, k)) <==> Settles(replies, i, invariants[i].id, k) {
      ReplyIsTaken(replies(i, k), invariants[i].id);
    }
    hide Settles;
    assert LastAttempt(answers, i, 2) == 2;
  }

  lemma {:induction false} MadeAre(replies: Replies, i: nat, id: string, n: nat)
    requires Makes(replies, i, id, n)
    ensures n == 1 || n == 2
  {
  }

  lemma {:induction false} TwoAttempts(p: Pricing, inv: Invariant, answers: Answers, i: nat)
    ensures InputTo(p, inv, answers, i, 1) == p.estimate(inv.prompt)
    ensures InputTo(p, inv, answers, i, 2)
      == p.estimate(inv.prompt) + p.estimate(inv.prompt + CorrectionLength(p.wording, CorrectedFor(answers, i, 2)))
    ensures CorrectionLength(p.wording, None) == 0
    ensures RanOut(answers, i, 1) <==> answers(i, 1).Truncated?
    ensures RanOut(answers, i, 2) <==> answers(i, 1).Truncated? || answers(i, 2).Truncated?
  {
    assert InputTo(p, inv, answers, i, 1)
      == InputTo(p, inv, answers, i, 0) + p.estimate(inv.prompt + CorrectionLength(p.wording, None));
    assert RanOut(answers, i, 1) <==> answers(i, 1).Truncated? || RanOut(answers, i, 0);
  }

  /** What one invariant's attempts come to, by its replies: how many calls there are, whether it is judged
      and how, whether the run breaks on it, whether a call ran out of room, and the input sent, with the
      correction for what was wrong with the first reply. */
  lemma {:induction false} AttemptsExactly(p: Pricing, invariants: seq<Invariant>, replies: Replies, i: nat, n: nat)
    requires i < |invariants| && Makes(replies, i, invariants[i].id, n)
    ensures var inv, answers := invariants[i], Answered(invariants, replies);
            && LastAttempt(answers, i, 1) == n
            && (forall v :: Final(answers, i) == Judged(v) <==> Gives(replies(i, n), inv.id, v))
            && (Final(answers, i).Raised? <==> replies(i, n).Broken?)
            && (RanOut(answers, i, n) <==> exists k: nat | 1 <= k <= n :: replies(i, k).OutOfRoom?)
            && (n == 1 ==> InputTo(p, inv, answers, i, n) == p.estimate(inv.prompt))
            && (n == 2 && replies(i, 1).OutOfRoom? ==>
                  InputTo(p, inv, answers, i, n) == p.estimate(inv.prompt) + p.estimate(inv.prompt))
            && (forall fault | n == 2 && replies(i, 1).Reply? && Faulty(replies(i, 1).raw, inv.id, fault) ::
                  InputTo(p, inv, answers, i, n)
                    == p.estimate(inv.prompt) + p.estimate(inv.prompt + CorrectionLength(p.wording, Some(fault))))
  {
    hide AnswerTo, Gives, Faulty, CorrectionLength, InputTo, RanOut, LastAttempt, Makes;
    var inv, answers := invariants[i], Answered(invariants, replies);
    LastIsMade(invariants, replies, i, n);
    ReplyIsTaken(replies(i, 1), inv.id);
    ReplyIsTaken(replies(i, n), inv.id);
    MadeAre(replies, i, inv.id, n);
    TwoAttempts(p, inv, answers, i);
    assert (exists k: nat | 1 <= k <= n :: replies(i, k).OutOfRoom?)
      <==> replies(i, 1).OutOfRoom? || (n == 2 && replies(i, 2).OutOfRoom?);
    assert answers(i, 1) == AnswerTo(replies(i, 1), inv.id) && answers(i, n) == AnswerTo(replies(i, n), inv.id);
  }

  /** There is always such a number of attempts. */
  lemma {:induction false} SomeAreMade(replies: Replies, i: nat, id: string)
    ensures exists n :: Makes(replies, i, id, n)
  {
    assert Makes(replies, i, id, if Settles(replies, i, id, 1) then 1 else 2);
  }

  // ---------------------------------------------------------------------
  // A whole run
  // ---------------------------------------------------------------------

  /** The attempts made on every invariant; none on one that is relative to a party nobody named. */
  ghost predicate MakesAll(invariants: seq<Invariant>, replies: Replies, made: seq<nat>) {
    && |made| == |invariants|
    && forall i | 0 <= i < |invariants| ::
      if invariants[i].needsParty then made[i] == 0 else Makes(replies, i, invariants[i].id, made[i])
  }

  /** Invariant `i` is judged so: its last attempt gives the verdict. */
  predicate JudgedAs(invariants: seq<Invariant>, replies: Replies, made: seq<nat>, i: nat, v: Verdict)
    requires i < |invariants| == |made|
  {
    !invariants[i].needsParty && Gives(replies(i, made[i]), invariants[i].id, v)
  }

  /** Invariant `i` is not judged, and an attempt on it was cut off. */
  ghost predicate CutOff(invariants: seq<Invariant>, replies: Replies, made: seq<nat>, i: nat)
    requires i < |invariants| == |made|
  {
    && !invariants[i].needsParty && (forall v :: !JudgedAs(invariants, replies, made, i, v))
    && exists k: nat | 1 <= k <= made[i] :: replies(i, k).OutOfRoom?
  }

  function Sum(made: seq<nat>): nat {
    if made == [] then 0 else Sum(made[..|made| - 1]) + made[|made| - 1]
  }

  /** A run's verdicts are those its invariants' last replies give, its calls the attempts made, and its
      truncated ids those of the invariants cut off and not judged. */
  lemma {:induction false} RunIsOfReplies(p: Pricing, invariants: seq<Invariant>, replies: Replies, made: seq<nat>,
      k: nat)
    requires MakesAll(invariants, replies, made) && k <= |invariants| == |made|
    ensures var j := JudgeTo(p, invariants, Answered(invariants, replies), k);
            && (forall v :: v in j.verdicts <==> exists i | 0 <= i < k :: JudgedAs(invariants, replies, made, i, v))
            && (forall id :: id in j.truncated
                  <==> exists i | 0 <= i < k :: invariants[i].id == id && CutOff(invariants, replies, made, i))
            && j.calls == Sum(made[..k])
  {
    hide JudgeOne, JudgedAs, CutOff, MakesAll, Answered;
    if k > 0 {
      RunIsOfReplies(p, invariants, replies, made, k - 1);
      SumLast(made, k);
      OneOfReplies(p, JudgeTo(p, invariants, Answered(invariants, replies), k - 1), invariants, replies, made, k - 1);
    }
  }

  lemma {:induction false} SumLast(made: seq<nat>, k: nat)
    requires 0 < k <= |made|
    ensures Sum(made[..k]) == Sum(made[..k - 1]) + made[k - 1]
  {
    assert made[..k][..k - 1] == made[..k - 1];
  }

  lemma {:induction false} OneOfReplies(p: Pricing, j: Judgment, invariants: seq<Invariant>, replies: Replies,
      made: seq<nat>, i: nat)
    requires MakesAll(invariants, replies, made) && i < |invariants| == |made|
    ensures var r := JudgeOne(p, j, invariants[i], Answered(invariants, replies), i);
            && (forall v :: v in r.verdicts <==> v in j.verdicts || JudgedAs(invariants, replies, made, i, v))
            && (forall id :: id in r.truncated
                  <==> id in j.truncated || (invariants[i].id == id && CutOff(invariants, replies, made, i)))
            && r.calls == j.calls + made[i]
  {
    hide LastAttempt, InputTo, RanOut, Answered, Gives, Makes;
    if !invariants[i].needsParty {
      AttemptsExactly(p, invariants, replies, i, made[i]);
      var final := Final(Answered(invariants, replies), i);
      assert final.Judged? ==> final == Judged(final.verdict);
      assert forall v :: JudgedAs(invariants, replies, made, i, v) <==> final == Judged(v);
    }
  }

  /** A run comes to a judgment exactly when no last attempt on an invariant is a broken call. */
  lemma {:induction false} NeverBroken(invariants: seq<Invariant>, replies: Replies, made: seq<nat>)
    requires MakesAll(invariants, replies, made)
    ensures NeverRaises(invariants, Answered(invariants, replies), |invariants|)
      <==> (forall i | 0 <= i < |invariants| && !invariants[i].needsParty :: !replies(i, made[i]).Broken?)
  {
    hide Final, Makes, Answered;
    forall i | 0 <= i < |invariants| && !invariants[i].needsParty
      ensures Final(Answered(invariants, replies), i).Raised? <==> replies(i, made[i]).Broken?
    {
      AttemptsExactly(Pricing(Wording(0, 0), (n: nat) => n), invariants, replies, i, made[i]);
    }
  }

  // ---------------------------------------------------------------------
  // The reservation
  // ---------------------------------------------------------------------

  /** The prompts of the invariants a call can be made for. */
  function Prompts(invariants: seq<Invariant>, k: nat): seq<nat>
    requires k <= |invariants|
  {
    if k == 0 then []
    else Prompts(invariants, k - 1) + (if invariants[k - 1].needsParty then [] else [invariants[k - 1].prompt])
  }

  function Twice(p: Pricing, prompts: seq<nat>): nat {
    if prompts == [] then 0
    else
      Twice(p, prompts[..|prompts| - 1])
      + 2 * p.estimate(prompts[|prompts| - 1] + LongestCorrection(p.wording))
  }

  /** Reserved are two calls for each such invariant, each for its prompt with the longer of the two corrections
      around a detail of two hundred characters, and nothing for the others. */
  lemma {:induction false} ReservedExactly(p: Pricing, invariants: seq<Invariant>, k: nat)
    requires k <= |invariants|
    ensures WorstCalls(invariants, k) == 2 * |Prompts(invariants, k)|
    ensures WorstInput(p, invariants, k) == Twice(p, Prompts(invariants, k))
    ensures LongestCorrection(p.wording)
      == if p.wording.quoteRemedy + 25 >= p.wording.shapeRemedy + 18 then p.wording.quoteRemedy + 225
         else p.wording.shapeRemedy + 218
  {
    if k > 0 {
      ReservedExactly(p, invariants, k - 1);
      var before, now := Prompts(invariants, k - 1), Prompts(invariants, k);
      if invariants[k - 1].needsParty { assert now == before; } else { assert now[..|now| - 1] == before; }
    }
  }

  /** No call reserved is too many: where every answer is cut off, all of them are made. */
  lemma {:induction false} AllCallsAreMade(p: Pricing, invariants: seq<Invariant>, replies: Replies, k: nat)
    requires k <= |invariants| && forall i, n :: replies(i, n).OutOfRoom?
    ensures JudgeTo(p, invariants, Answered(invariants, replies), k).calls == WorstCalls(invariants, k)
  {
    hide LastAttempt, Answered, InputTo, RanOut, JudgeOne;
    if k > 0 {
      AllCallsAreMade(p, invariants, replies, k - 1);
      OneSpends(p, JudgeTo(p, invariants, Answered(invariants, replies), k - 1), invariants[k - 1],
        Answered(invariants, replies), k - 1);
      assert Makes(replies, k - 1, invariants[k - 1].id, 2);
      LastIsMade(invariants, replies, k - 1, 2);
    }
  }
}
