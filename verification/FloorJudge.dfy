/** Judging every Floor invariant with one bounded retry, on spend reserved in advance (`scripts/floor_judge.py`). */
module FloorJudge {
  import opened Prelude

  const MAX_RETRIES_PER_INVARIANT := 1
  const ATTEMPTS_ALLOWED: nat := 1 + MAX_RETRIES_PER_INVARIANT
  const EVIDENCE_QUOTE_MAX_CHARS := 500

  // ---------------------------------------------------------------------
  // One response
  // ---------------------------------------------------------------------

  datatype Fault =
    | NotText | TextFollowed | NotAnObject | WrongInvariantId | InvalidViolated | InvalidQuote
    | QuoteTooLong(length: nat)

  datatype Verdict = Verdict(invariantId: string, violated: bool, quote: string)

  /** A response after unwrapping: no text at all, text after the object, or a parsed value. */
  datatype Raw = NoText | Trailing | Parsed(value: Json)

  /** `_check_judge_response`. */
  function CheckJudgeResponse(raw: Raw, expectedId: string): Result<Verdict, Fault> {
    match raw
    case NoText => Err(NotText)
    case Trailing => Err(TextFollowed)
    case Parsed(value) =>
      if !value.JObj? then Err(NotAnObject)
      else if value.Get("invariant_id") != JStr(expectedId) then Err(WrongInvariantId)
      else if !value.Get("violated").JBool? then Err(InvalidViolated)
      else
        var quote := if "evidence_quote" in value.fields then value.fields["evidence_quote"] else JStr("");
        if !quote.JStr? then Err(InvalidQuote)
        else if |quote.text| > EVIDENCE_QUOTE_MAX_CHARS then Err(QuoteTooLong(|quote.text|))
        else Ok(Verdict(expectedId, value.Get("violated").flag, quote.text))
  }

  /** A verdict is about the invariant asked, says what the response said, and quotes no more than
      the limit; any other response is refused for the first thing wrong with it. */
  lemma {:induction false} VerdictIsTheResponse(raw: Raw, expectedId: string)
    ensures var r := CheckJudgeResponse(raw, expectedId);
            (r.Ok? ==> r.value.invariantId == expectedId && |r.value.quote| <= EVIDENCE_QUOTE_MAX_CHARS)
            && (r.Ok? ==> raw.Parsed? && raw.value.Get("violated") == JBool(r.value.violated))
    ensures CheckJudgeResponse(raw, expectedId).Err? && CheckJudgeResponse(raw, expectedId).error.QuoteTooLong? ==>
              CheckJudgeResponse(raw, expectedId).error.length > EVIDENCE_QUOTE_MAX_CHARS
  {
  }

  // ---------------------------------------------------------------------
  // The correction a retry carries
  // ---------------------------------------------------------------------

  /** The error as the correction spells it. */
  function Message(fault: Fault): string {
    match fault
    case NotText => "invalid_json: the response was not text"
    case TextFollowed => "invalid_json: text followed the JSON object"
    case NotAnObject => "invalid_json: the response was not a JSON object"
    case WrongInvariantId => "wrong_invariant_id: invariant_id must echo the one you were given"
    case InvalidViolated => "invalid_violated: violated must be true or false"
    case InvalidQuote => "invalid_evidence_quote: evidence_quote must be a string"
    case QuoteTooLong(n) =>
      "evidence_quote_too_long: evidence_quote is " + Decimal(n) + " characters; the maximum is "
      + Decimal(EVIDENCE_QUOTE_MAX_CHARS) + ", so it is "
      + Decimal(if n > EVIDENCE_QUOTE_MAX_CHARS then n - EVIDENCE_QUOTE_MAX_CHARS else 0) + " over"
  }

  /** The fixed text of the two corrections, as lengths: one for a quote too long, one for any
      other fault. */
  datatype Wording = Wording(quoteRemedy: nat, shapeRemedy: nat)

  /** The length of `_correction_block(error)`. */
  function CorrectionLength(w: Wording, fault: Option<Fault>): nat {
    match fault
    case None => 0
    case Some(f) => (if f.QuoteTooLong? then w.quoteRemedy else w.shapeRemedy) + |Message(f)|
  }

  /** What the reservation prices: each correction around a detail of two hundred characters. */
  function LongestCorrection(w: Wording): nat {
    var quote := w.quoteRemedy + |"evidence_quote_too_long: "| + 200;
    var shape := w.shapeRemedy + |"invalid_response: "| + 200;
    if quote >= shape then quote else shape
  }

  /** A number has at most so many digits exactly when it is below that power of ten. */
  lemma {:induction false} DecimalLength(n: nat, digits: nat)
    requires digits > 0
    ensures |Decimal(n)| <= digits <==> n < Power(digits)
  {
    if n >= 10 {
      assert |Decimal(n)| == |Decimal(n / 10)| + 1;
      if digits > 1 { DecimalLength(n / 10, digits - 1); } else { assert Power(0) == 1 && Power(1) == 10; }
    } else {
      PowerGrows(1, digits);
      assert Power(0) == 1 && Power(1) == 10;
    }
  }

  /** Ten to the `digits`. */
  function Power(digits: nat): nat {
    if digits == 0 then 1 else 10 * Power(digits - 1)
  }

  lemma {:induction false} PowerGrows(a: nat, b: nat)
    requires a <= b
    ensures Power(a) <= Power(b)
  {
    if a < b { PowerGrows(a, b - 1); }
  }

  lemma {:induction false} FixedMessages(fault: Fault)
    requires !fault.QuoteTooLong?
    ensures |Message(fault)| <= 200
  {
  }

  /** How many digits the priced detail has room for, of the number a quote is over by. */
  const PRICED_DIGITS: nat := 67

  lemma {:induction false} QuoteDigits(n: nat)
    requires n > EVIDENCE_QUOTE_MAX_CHARS
    ensures |Message(QuoteTooLong(n))| == 90 + |Decimal(n)| + |Decimal(n - EVIDENCE_QUOTE_MAX_CHARS)|
  {
    assert Power(2) == 100 && Power(3) == 1000;
    DecimalLength(EVIDENCE_QUOTE_MAX_CHARS, 2);
    DecimalLength(EVIDENCE_QUOTE_MAX_CHARS, 3);
    hide Decimal, Power;
  }

  /** The message about a quote too long fits the priced detail exactly when the number of characters
      it is over by has at most sixty-seven digits. */
  lemma {:induction false} QuoteMessage(n: nat, digits: nat)
    requires n > EVIDENCE_QUOTE_MAX_CHARS && digits == PRICED_DIGITS
    ensures |Message(QuoteTooLong(n))| <= |"evidence_quote_too_long: "| + 200
      <==> n - EVIDENCE_QUOTE_MAX_CHARS < Power(digits)
  {
    hide Message, Decimal;
    QuoteDigits(n);
    var over := n - EVIDENCE_QUOTE_MAX_CHARS;
    DecimalLength(n, digits);
    DecimalLength(n, digits + 1);
    DecimalLength(over, digits);
    PowerGrows(3, digits);
    assert Power(0) == 1 && Power(1) == 10 && Power(2) == 100 && Power(3) == 1000;
    assert Power(digits + 1) == 10 * Power(digits);
  }

  /** A fault with a length the priced detail has room for. */
  predicate Plausible(fault: Fault) {
    fault.QuoteTooLong? ==>
      fault.length > EVIDENCE_QUOTE_MAX_CHARS && fault.length - EVIDENCE_QUOTE_MAX_CHARS < Power(PRICED_DIGITS)
  }

  /** Every correction is within the priced one. */
  lemma {:induction false} CorrectionIsPriced(w: Wording, fault: Option<Fault>)
    requires fault.Some? ==> Plausible(fault.value)
    ensures CorrectionLength(w, fault) <= LongestCorrection(w)
  {
    hide Message, Power;
    if fault.Some? {
      if fault.value.QuoteTooLong? {
        QuoteMessage(fault.value.length, PRICED_DIGITS);
      } else {
        FixedMessages(fault.value);
      }
    }
  }

  // ---------------------------------------------------------------------
  // Judging
  // ---------------------------------------------------------------------

  /** `needsParty`: the statement is relative to a party, and none was given. `prompt` is the length
      of its prompt before any correction. */
  datatype Invariant = Invariant(id: string, needsParty: bool, prompt: nat)

  /** What a call to the model comes back with: a text, a cut-off one, or another error. */
  datatype Reply = Reply(raw: Raw) | OutOfRoom | Broken

  /** The reply to attempt `k` (from one) on invariant `i`: any reply at all. */
  type Replies = (nat, nat) -> Reply

  datatype Answer = Judged(verdict: Verdict) | Rejected(fault: Fault) | Truncated | Raised

  type Answers = (nat, nat) -> Answer

  /** What a reply is worth to the judge of one invariant. */
  function AnswerTo(reply: Reply, id: string): Answer {
    match reply
    case OutOfRoom => Truncated
    case Broken => Raised
    case Reply(raw) =>
      match CheckJudgeResponse(raw, id)
      case Ok(verdict) => Judged(verdict)
      case Err(fault) => Rejected(fault)
  }

  /** The replies as the judge takes them, each about its own invariant. */
  function Answered(invariants: seq<Invariant>, replies: Replies): Answers {
    (i: nat, k: nat) => if i < |invariants| then AnswerTo(replies(i, k), invariants[i].id) else Raised
  }

  datatype Pricing = Pricing(wording: Wording, estimate: nat -> nat)

  ghost predicate Monotone(estimate: nat -> nat) {
    forall a, b | a <= b :: estimate(a) <= estimate(b)
  }

  /** Whether an attempt is answered well enough to stop, or breaks the run. */
  predicate Stops(answer: Answer) {
    answer.Judged? || answer.Raised?
  }

  /** The last attempt made on invariant `i`, from attempt `k` on. */
  function LastAttempt(answers: Answers, i: nat, k: nat): nat
    requires 0 < k <= ATTEMPTS_ALLOWED
    decreases ATTEMPTS_ALLOWED - k
  {
    if Stops(answers(i, k)) || k == ATTEMPTS_ALLOWED then k else LastAttempt(answers, i, k + 1)
  }

  function Final(answers: Answers, i: nat): Answer {
    answers(i, LastAttempt(answers, i, 1))
  }

  /** Some attempt made on invariant `i` ran out of room. */
  predicate RanOut(answers: Answers, i: nat, k: nat) {
    k > 0 && (answers(i, k).Truncated? || RanOut(answers, i, k - 1))
  }

  /** The fault attempt `k` is corrected for: the one before it, if it had a shape to correct. */
  function CorrectedFor(answers: Answers, i: nat, k: nat): Option<Fault> {
    if k > 1 && answers(i, k - 1).Rejected? then Some(answers(i, k - 1).fault) else None
  }

  /** The input estimate of the first `k` attempts on an invariant. */
  function InputTo(p: Pricing, inv: Invariant, answers: Answers, i: nat, k: nat): nat {
    if k == 0 then 0
    else
      InputTo(p, inv, answers, i, k - 1)
      + p.estimate(inv.prompt + CorrectionLength(p.wording, CorrectedFor(answers, i, k)))
  }

  /** What the run comes to. */
  datatype Judgment = Judgment(verdicts: seq<Verdict>, unjudged: seq<string>, truncated: seq<string>, calls: nat,
      input: nat)

  const NOTHING: Judgment := Judgment([], [], [], 0, 0)

  function JudgeOne(p: Pricing, j: Judgment, inv: Invariant, answers: Answers, i: nat): Judgment {
    if inv.needsParty then j.(unjudged := j.unjudged + [inv.id])
    else
      var last := LastAttempt(answers, i, 1);
      var spent := j.(calls := j.calls + last, input := j.input + InputTo(p, inv, answers, i, last));
      if answers(i, last).Judged? then spent.(verdicts := spent.verdicts + [answers(i, last).verdict])
      else spent.(unjudged := spent.unjudged + [inv.id],
                  truncated := spent.truncated + if RanOut(answers, i, last) then [inv.id] else [])
  }

  function JudgeTo(p: Pricing, invariants: seq<Invariant>, answers: Answers, k: nat): Judgment
    requires k <= |invariants|
  {
    if k == 0 then NOTHING else JudgeOne(p, JudgeTo(p, invariants, answers, k - 1), invariants[k - 1], answers, k - 1)
  }

  /** No other model error breaks the run. */
  predicate NeverRaises(invariants: seq<Invariant>, answers: Answers, k: nat)
    requires k <= |invariants|
  {
    forall i | 0 <= i < k :: invariants[i].needsParty || !Final(answers, i).Raised?
  }

  /** The attempts on one invariant. */
  method Attempt(p: Pricing, invariants: seq<Invariant>, replies: Replies, i: nat)
    returns (verdict: Option<Verdict>, raised: bool, ranOut: bool, calls: nat, input: nat)
    requires i < |invariants|
    ensures var answers := Answered(invariants, replies);
            && calls == LastAttempt(answers, i, 1) && input == InputTo(p, invariants[i], answers, i, calls)
            && (raised <==> Final(answers, i).Raised?)
            && verdict == (if Final(answers, i).Judged? then Some(Final(answers, i).verdict) else None)
            && (ranOut <==> RanOut(answers, i, calls))
  {
    var inv := invariants[i];
    ghost var answers := Answered(invariants, replies);
    var lastError: Option<Fault> := None;
    verdict, raised, ranOut, calls, input := None, false, false, 0, 0;
    while calls < ATTEMPTS_ALLOWED
      invariant 0 <= calls < ATTEMPTS_ALLOWED && LastAttempt(answers, i, calls + 1) == LastAttempt(answers, i, 1)
      invariant lastError == CorrectedFor(answers, i, calls + 1)
      invariant input == InputTo(p, inv, answers, i, calls) && (ranOut <==> RanOut(answers, i, calls))
      decreases ATTEMPTS_ALLOWED - calls
    {
      hide CorrectionLength, CheckJudgeResponse;
      calls := calls + 1;
      input := input + p.estimate(inv.prompt + CorrectionLength(p.wording, lastError));
      lastError := None;
      match replies(i, calls) {
        case Broken => raised := true; return;
        case OutOfRoom => ranOut := true;
        case Reply(raw) =>
          match CheckJudgeResponse(raw, inv.id) {
            case Ok(v) => verdict := Some(v); return;
            case Err(fault) => lastError := Some(fault);
          }
      }
      if calls == ATTEMPTS_ALLOWED { return; }
    }
  }

  /** `judge_floor_invariants`: nothing when another model error propagates out of it. */
  method JudgeFloorInvariants(p: Pricing, invariants: seq<Invariant>, replies: Replies) returns (r: Option<Judgment>)
    ensures r.Some? <==> NeverRaises(invariants, Answered(invariants, replies), |invariants|)
    ensures r.Some? ==> r.value == JudgeTo(p, invariants, Answered(invariants, replies), |invariants|)
  {
    hide LastAttempt, InputTo, RanOut, Answered;
    ghost var answers := Answered(invariants, replies);
    var verdicts: seq<Verdict>, unjudged: seq<string>, truncated: seq<string> := [], [], [];
    var calls, input := 0, 0;
    for k := 0 to |invariants|
      invariant NeverRaises(invariants, answers, k)
      invariant Judgment(verdicts, unjudged, truncated, calls, input) == JudgeTo(p, invariants, answers, k)
    {
      var inv := invariants[k];
      if inv.needsParty {
        unjudged := unjudged + [inv.id];
      } else {
        var verdict, raised, ranOut, made, spent := Attempt(p, invariants, replies, k);
        if raised {
          return None;
        }
        calls, input := calls + made, input + spent;
        if verdict.Some? {
          verdicts := verdicts + [verdict.value];
        } else {
          unjudged := unjudged + [inv.id];
          truncated := truncated + if ranOut then [inv.id] else [];
        }
      }
    }
    r := Some(Judgment(verdicts, unjudged, truncated, calls, input));
  }

  // ---------------------------------------------------------------------
  // Coverage
  // ---------------------------------------------------------------------

  /** The ids of the first `k` invariants that ended judged, or that did not, in input order. */
  function IdsTo(invariants: seq<Invariant>, answers: Answers, judged: bool, k: nat): seq<string>
    requires k <= |invariants|
  {
    if k == 0 then []
    else IdsTo(invariants, answers, judged, k - 1)
         + (if EndsJudged(invariants[k - 1], answers, k - 1) == judged then [invariants[k - 1].id] else [])
  }

  predicate EndsJudged(inv: Invariant, answers: Answers, i: nat) {
    !inv.needsParty && Final(answers, i).Judged?
  }

  /** Every verdict is about its own invariant. */
  predicate Honest(invariants: seq<Invariant>, answers: Answers) {
    forall i, k | 0 <= i < |invariants| && 0 < k <= ATTEMPTS_ALLOWED ::
      answers(i, k).Judged? ==> answers(i, k).verdict.invariantId == invariants[i].id
  }

  function VerdictIds(verdicts: seq<Verdict>): seq<string> {
    seq(|verdicts|, v requires 0 <= v < |verdicts| => verdicts[v].invariantId)
  }

  lemma {:induction false} LastIsAttempt(answers: Answers, i: nat, k: nat)
    requires 0 < k <= ATTEMPTS_ALLOWED
    ensures k <= LastAttempt(answers, i, k) <= ATTEMPTS_ALLOWED
    decreases ATTEMPTS_ALLOWED - k
  {
    if !Stops(answers(i, k)) && k < ATTEMPTS_ALLOWED { LastIsAttempt(answers, i, k + 1); }
  }

  /** The check makes every verdict one about the invariant asked, whatever the replies say. */
  lemma {:induction false} RepliesAreHonest(invariants: seq<Invariant>, replies: Replies)
    ensures Honest(invariants, Answered(invariants, replies))
  {
    hide CheckJudgeResponse;
    var answers := Answered(invariants, replies);
    forall i, k | 0 <= i < |invariants| && 0 < k <= ATTEMPTS_ALLOWED && answers(i, k).Judged?
      ensures answers(i, k).verdict.invariantId == invariants[i].id
    {
      assert answers(i, k) == AnswerTo(replies(i, k), invariants[i].id);
      VerdictIsTheResponse(replies(i, k).raw, invariants[i].id);
    }
  }

  /** Whatever the model replies, each invariant lands exactly once, in verdicts or in unjudged, in
      input order. */
  lemma {:induction false} EveryInvariantLands(p: Pricing, invariants: seq<Invariant>, replies: Replies, k: nat)
    requires k <= |invariants|
    ensures var answers := Answered(invariants, replies);
            var j := JudgeTo(p, invariants, answers, k);
            && VerdictIds(j.verdicts) == IdsTo(invariants, answers, true, k)
            && j.unjudged == IdsTo(invariants, answers, false, k)
            && |j.verdicts| + |j.unjudged| == k
  {
    RepliesAreHonest(invariants, replies);
    HonestLand(p, invariants, Answered(invariants, replies), k);
  }

  lemma {:induction false} HonestLand(p: Pricing, invariants: seq<Invariant>, answers: Answers, k: nat)
    requires k <= |invariants| && Honest(invariants, answers)
    ensures var j := JudgeTo(p, invariants, answers, k);
            && VerdictIds(j.verdicts) == IdsTo(invariants, answers, true, k)
            && j.unjudged == IdsTo(invariants, answers, false, k)
            && |j.verdicts| + |j.unjudged| == k
  {
    if k > 0 {
      hide LastAttempt, InputTo, RanOut;
      HonestLand(p, invariants, answers, k - 1);
      LastIsAttempt(answers, k - 1, 1);
      var j := JudgeTo(p, invariants, answers, k - 1);
      if EndsJudged(invariants[k - 1], answers, k - 1) {
        var verdict := Final(answers, k - 1).verdict;
        assert VerdictIds(j.verdicts + [verdict]) == VerdictIds(j.verdicts) + [verdict.invariantId];
      }
    }
  }

  /** The truncated ones are unjudged ones. */
  lemma {:induction false} TruncatedAreUnjudged(p: Pricing, invariants: seq<Invariant>, answers: Answers, k: nat)
    requires k <= |invariants|
    ensures var j := JudgeTo(p, invariants, answers, k);
            multiset(j.truncated) <= multiset(j.unjudged)
  {
    if k > 0 {
      hide JudgeOne;
      TruncatedAreUnjudged(p, invariants, answers, k - 1);
      OneLists(p, JudgeTo(p, invariants, answers, k - 1), invariants[k - 1], answers, k - 1);
    }
  }

  lemma {:induction false} OneLists(p: Pricing, j: Judgment, inv: Invariant, answers: Answers, i: nat)
    ensures var r := JudgeOne(p, j, inv, answers, i);
            || (r.unjudged == j.unjudged && r.truncated == j.truncated)
            || (r.unjudged == j.unjudged + [inv.id]
              && (r.truncated == j.truncated || r.truncated == j.truncated + [inv.id]))
  {
    hide LastAttempt, InputTo, RanOut;
  }

  predicate Ascending(at: seq<nat>) {
    forall a, b | 0 <= a < b < |at| :: at[a] < at[b]
  }

  /** `fires` names the violated verdicts' invariants: each of those verdicts once, no other, and in
      the verdicts' order. */
  ghost predicate NamesViolated(verdicts: seq<Verdict>, fires: seq<string>) {
    exists at: seq<nat> :: FiresAt(verdicts, fires, at)
  }

  ghost predicate FiresAt(verdicts: seq<Verdict>, fires: seq<string>, at: seq<nat>) {
    && Ascending(at) && (forall v: nat :: v in at <==> v < |verdicts| && verdicts[v].violated)
    && |fires| == |at| && forall f | 0 <= f < |fires| :: at[f] < |verdicts| && fires[f] == verdicts[at[f]].invariantId
  }

  /** `floor_fires`, as the ids that fire. */
  method FloorFires(verdicts: seq<Verdict>) returns (fires: seq<string>)
    ensures NamesViolated(verdicts, fires)
  {
    fires := [];
    ghost var at: seq<nat> := [];
    for i := 0 to |verdicts|
      invariant FiresAt(verdicts[..i], fires, at)
    {
      assert verdicts[..i + 1][..i] == verdicts[..i];
      if verdicts[i].violated {
        assert forall f | 0 <= f < |at| :: at[f] in at;
        fires, at := fires + [verdicts[i].invariantId], at + [i];
      }
    }
    assert verdicts[..|verdicts|] == verdicts;
  }

  /** The id of a violated verdict, whichever it is, is named; and no other. */
  lemma {:induction false} NamedIsViolated(verdicts: seq<Verdict>, fires: seq<string>, id: string)
    requires NamesViolated(verdicts, fires)
    ensures id in fires <==> exists v | v in verdicts :: v.violated && v.invariantId == id
  {
    var at: seq<nat> :| FiresAt(verdicts, fires, at);
    if id in fires {
      var f :| 0 <= f < |fires| && fires[f] == id;
      assert at[f] in at && verdicts[at[f]] in verdicts;
    }
    if v :| v in verdicts && v.violated && v.invariantId == id {
      var k :| 0 <= k < |verdicts| && verdicts[k] == v;
      assert k in at;
      var f :| 0 <= f < |at| && at[f] == k;
      assert fires[f] == id;
    }
  }

  /** Over a whole run: an id fires exactly when some invariant of that id was judged violated. */
  lemma {:induction false} FiresExactly(p: Pricing, invariants: seq<Invariant>, replies: Replies, fires: seq<string>,
      id: string)
    requires NamesViolated(JudgeTo(p, invariants, Answered(invariants, replies), |invariants|).verdicts, fires)
    ensures id in fires
      <==> exists i | 0 <= i < |invariants| ::
        invariants[i].id == id && JudgedViolated(invariants[i], Answered(invariants, replies), i)
  {
    hide NamesViolated, JudgeTo, Answered, LastAttempt;
    var answers := Answered(invariants, replies);
    var verdicts := JudgeTo(p, invariants, answers, |invariants|).verdicts;
    RepliesAreHonest(invariants, replies);
    NamedIsViolated(verdicts, fires, id);
    if v :| v in verdicts && v.violated && v.invariantId == id {
      var i := FromInvariant(p, invariants, answers, |invariants|, v);
      LastIsAttempt(answers, i, 1);
    }
    if i :| 0 <= i < |invariants| && invariants[i].id == id && JudgedViolated(invariants[i], answers, i) {
      ItsVerdict(p, invariants, answers, |invariants|, i);
      LastIsAttempt(answers, i, 1);
    }
  }

  predicate JudgedViolated(inv: Invariant, answers: Answers, i: nat) {
    EndsJudged(inv, answers, i) && Final(answers, i).verdict.violated
  }

  /** Every verdict of a run is some invariant's final one. */
  lemma {:induction false} FromInvariant(p: Pricing, invariants: seq<Invariant>, answers: Answers, k: nat, v: Verdict)
      returns (i: nat)
    requires k <= |invariants| && v in JudgeTo(p, invariants, answers, k).verdicts
    ensures i < k && EndsJudged(invariants[i], answers, i) && Final(answers, i).verdict == v
  {
    hide LastAttempt, InputTo, RanOut;
    if v in JudgeTo(p, invariants, answers, k - 1).verdicts {
      i := FromInvariant(p, invariants, answers, k - 1, v);
    } else {
      i := k - 1;
    }
  }

  lemma {:induction false} ItsVerdict(p: Pricing, invariants: seq<Invariant>, answers: Answers, k: nat, i: nat)
    requires i < k <= |invariants| && EndsJudged(invariants[i], answers, i)
    ensures Final(answers, i).verdict in JudgeTo(p, invariants, answers, k).verdicts
  {
    hide LastAttempt, InputTo, RanOut;
    if i < k - 1 { ItsVerdict(p, invariants, answers, k - 1, i); }
  }

  // ---------------------------------------------------------------------
  // The reservation
  // ---------------------------------------------------------------------

  function WorstCalls(invariants: seq<Invariant>, k: nat): nat
    requires k <= |invariants|
  {
    if k == 0 then 0 else WorstCalls(invariants, k - 1) + (if invariants[k - 1].needsParty then 0 else ATTEMPTS_ALLOWED)
  }

  /** What one judged invariant's input is reserved at. */
  function Reserve(p: Pricing, inv: Invariant): nat {
    ATTEMPTS_ALLOWED * p.estimate(inv.prompt + LongestCorrection(p.wording))
  }

  function WorstInput(p: Pricing, invariants: seq<Invariant>, k: nat): nat
    requires k <= |invariants|
  {
    if k == 0 then 0
    else WorstInput(p, invariants, k - 1) + (if invariants[k - 1].needsParty then 0 else Reserve(p, invariants[k - 1]))
  }

  /** `worst_case_judge_usage`. */
  method WorstCaseJudgeUsage(p: Pricing, invariants: seq<Invariant>) returns (calls: nat, input: nat)
    ensures calls == WorstCalls(invariants, |invariants|) && input == WorstInput(p, invariants, |invariants|)
  {
    hide LongestCorrection;
    var longest := LongestCorrection(p.wording);
    calls, input := 0, 0;
    for k := 0 to |invariants|
      invariant calls == WorstCalls(invariants, k) && input == WorstInput(p, invariants, k)
    {
      if !invariants[k].needsParty {
        calls := calls + ATTEMPTS_ALLOWED;
        input := input + ATTEMPTS_ALLOWED * p.estimate(invariants[k].prompt + longest);
      }
    }
  }

  /** A reply of a size any reply can have: a number of sixty-seven digits counts the characters its
      quote is over by. */
  predicate Sized(reply: Reply) {
    reply.Reply? && reply.raw.Parsed? && reply.raw.value.JObj? && "evidence_quote" in reply.raw.value.fields
    && reply.raw.value.fields["evidence_quote"].JStr?
    ==> |reply.raw.value.fields["evidence_quote"].text| - EVIDENCE_QUOTE_MAX_CHARS < Power(PRICED_DIGITS)
  }

  predicate AllSized(replies: Replies, n: nat) {
    forall i, k | 0 <= i < n && 0 < k <= ATTEMPTS_ALLOWED :: Sized(replies(i, k))
  }

  lemma {:induction false} FaultIsPlausible(reply: Reply, id: string)
    requires Sized(reply)
    ensures AnswerTo(reply, id).Rejected? ==> Plausible(AnswerTo(reply, id).fault)
  {
    hide Power;
    assert AnswerTo(reply, id).Rejected? && AnswerTo(reply, id).fault.QuoteTooLong?
      ==> "evidence_quote" in reply.raw.value.fields;
  }

  lemma {:induction false} RepliesArePlausible(invariants: seq<Invariant>, replies: Replies)
    requires AllSized(replies, |invariants|)
    ensures AllPlausible(Answered(invariants, replies), |invariants|)
  {
    hide Sized, Plausible, AnswerTo;
    forall i, k | 0 <= i < |invariants| && 0 < k <= ATTEMPTS_ALLOWED
      ensures AnswerTo(replies(i, k), invariants[i].id).Rejected?
        ==> Plausible(AnswerTo(replies(i, k), invariants[i].id).fault)
    {
      FaultIsPlausible(replies(i, k), invariants[i].id);
    }
  }

  predicate AllPlausible(answers: Answers, n: nat) {
    forall i, k | 0 <= i < n && 0 < k <= ATTEMPTS_ALLOWED :: answers(i, k).Rejected? ==> Plausible(answers(i, k).fault)
  }

  lemma {:induction false} AttemptsPriced(p: Pricing, inv: Invariant, answers: Answers, i: nat, n: nat, k: nat)
    requires i < n && AllPlausible(answers, n) && Monotone(p.estimate) && k <= ATTEMPTS_ALLOWED
    ensures InputTo(p, inv, answers, i, k) <= k * p.estimate(inv.prompt + LongestCorrection(p.wording))
  {
    hide CorrectionLength, LongestCorrection, Plausible;
    if k > 0 {
      AttemptsPriced(p, inv, answers, i, n, k - 1);
      CorrectionIsPriced(p.wording, CorrectedFor(answers, i, k));
    }
  }

  lemma {:induction false} OneIsReserved(p: Pricing, inv: Invariant, answers: Answers, i: nat, n: nat)
    requires i < n && AllPlausible(answers, n) && Monotone(p.estimate)
    ensures var last := LastAttempt(answers, i, 1);
            last <= ATTEMPTS_ALLOWED && InputTo(p, inv, answers, i, last) <= Reserve(p, inv)
  {
    hide LongestCorrection, InputTo, LastAttempt, Monotone, AllPlausible;
    var last := LastAttempt(answers, i, 1);
    LastIsAttempt(answers, i, 1);
    AttemptsPriced(p, inv, answers, i, n, last);
    MoreOfTheSame(last, ATTEMPTS_ALLOWED, p.estimate(inv.prompt + LongestCorrection(p.wording)));
  }

  lemma {:induction false} MoreOfTheSame(a: nat, b: nat, each: nat)
    requires a <= b
    ensures a * each <= b * each
  {
  }

  lemma {:induction false} OneSpends(p: Pricing, j: Judgment, inv: Invariant, answers: Answers, i: nat)
    ensures var r, last := JudgeOne(p, j, inv, answers, i), LastAttempt(answers, i, 1);
            && r.calls == j.calls + (if inv.needsParty then 0 else last)
            && r.input == j.input + (if inv.needsParty then 0 else InputTo(p, inv, answers, i, last))
  {
    hide LastAttempt, InputTo, RanOut;
  }

  /** The run never makes more calls, or sends more input, than was reserved for it. */
  lemma {:induction false} SpendIsReserved(p: Pricing, invariants: seq<Invariant>, replies: Replies)
    requires AllSized(replies, |invariants|) && Monotone(p.estimate)
    ensures var j := JudgeTo(p, invariants, Answered(invariants, replies), |invariants|);
            j.calls <= WorstCalls(invariants, |invariants|) && j.input <= WorstInput(p, invariants, |invariants|)
  {
    hide Answered, Monotone, AllSized, JudgeTo, WorstCalls, WorstInput;
    RepliesArePlausible(invariants, replies);
    PlausibleIsReserved(p, invariants, Answered(invariants, replies), |invariants|);
  }

  lemma {:induction false} PlausibleIsReserved(p: Pricing, invariants: seq<Invariant>, answers: Answers, k: nat)
    requires k <= |invariants| && AllPlausible(answers, |invariants|) && Monotone(p.estimate)
    ensures JudgeTo(p, invariants, answers, k).calls <= WorstCalls(invariants, k)
    ensures JudgeTo(p, invariants, answers, k).input <= WorstInput(p, invariants, k)
  {
    hide JudgeOne, LongestCorrection, InputTo, LastAttempt;
    if k > 0 {
      hide Reserve, AllPlausible, Monotone;
      OneSpends(p, JudgeTo(p, invariants, answers, k - 1), invariants[k - 1], answers, k - 1);
      PlausibleIsReserved(p, invariants, answers, k - 1);
      OneIsReserved(p, invariants[k - 1], answers, k - 1, |invariants|);
    }
  }
}
