/** What a hard-rejection rule asks of its clause (`evaluate_predicate`, `scripts/hard_ledger.py`). */
module LedgerConditions {
  import opened Prelude
  import opened TextFold
  import opened Boundaries

  /** What a numeric bound's pattern comes to of a text: an arbitrary answer. */
  type Bounds = (string, string) -> Option<bool>

  /** A rule's condition; none means the clause's text need only be there. */
  datatype Condition =
    | Presence
    | RequiredPhrases(phrases: seq<string>, anyOf: bool)
    | CrossReference(title: Option<string>)
    | NumericBound(pattern: string)
    | Unknown

  /** `_predicate_form`. */
  function Form(text: string): string {
    Lower(FoldText(text))
  }

  /** The needle stands at `at` with no word character against either end. */
  predicate StandsAt(hay: string, needle: string, at: nat) {
    && StartsWithAt(hay, needle, at)
    && (at > 0 ==> !IsWord(hay[at - 1]))
    && (at + |needle| < |hay| ==> !IsWord(hay[at + |needle|]))
  }

  /** The phrases that say something. */
  function Forms(phrases: seq<string>): seq<string> {
    if phrases == [] then []
    else (if Form(phrases[0]) != "" then [Form(phrases[0])] else []) + Forms(phrases[1..])
  }

  /** The text is the words between these two, neither of which has a word character beside them. */
  predicate StandsBetween(text: string, before: string, words: string, after: string) {
    && text == before + words + after
    && (before == "" || !IsWord(before[|before| - 1])) && (after == "" || !IsWord(after[0]))
  }

  lemma {:induction false} StandsIs(text: string, words: string)
    ensures (exists at | 0 <= at <= |text| :: StandsAt(text, words, at))
      <==> exists before, after :: StandsBetween(text, before, words, after)
  {
    if at :| 0 <= at <= |text| && StandsAt(text, words, at) {
      var before, after := text[..at], text[at + |words|..];
      assert text == before + words + after;
      assert StandsBetween(text, before, words, after);
    }
    if before, after :| StandsBetween(text, before, words, after) {
      var at := |before|;
      assert text[at..at + |words|] == words;
      assert StandsAt(text, words, at);
    }
  }

  /** What the condition comes to of a clause: satisfied, not satisfied, or not evaluable. */
  ghost predicate Satisfies(condition: Condition, text: string, bounds: Bounds, answer: Option<bool>) {
    match condition
    case Presence => answer == Some(FoldText(text) != "")
    case RequiredPhrases(phrases, anyOf) =>
      if forall p | p in phrases :: Form(p) == "" then answer == None
      else answer == Some(
        if anyOf then exists p | p in phrases :: Form(p) != "" && Contains(Form(text), Form(p))
        else forall p | p in phrases :: Form(p) != "" ==> Contains(Form(text), Form(p)))
    case CrossReference(title) =>
      if title.None? || Form(title.value) == "" then answer == None
      else answer == Some(exists before, after :: StandsBetween(Form(text), before, Form(title.value), after))
    case NumericBound(pattern) => answer == bounds(pattern, text)
    case Unknown => answer == None
  }

  lemma {:induction false} FormsAre(phrases: seq<string>)
    ensures forall f :: f in Forms(phrases) <==> exists p | p in phrases :: Form(p) == f && f != ""
  {
    hide Form;
    if phrases != [] {
      FormsAre(phrases[1..]);
      assert forall p :: p in phrases <==> p == phrases[0] || p in phrases[1..];
    }
  }

  /** `evaluate_predicate`. */
  function Answer(condition: Condition, text: string, bounds: Bounds): Option<bool> {
    match condition
    case Presence => Some(FoldText(text) != "")
    case RequiredPhrases(phrases, anyOf) =>
      var forms := Forms(phrases);
      if forms == [] then None
      else if anyOf then Some(exists f | f in forms :: Contains(Form(text), f))
      else Some(forall f | f in forms :: Contains(Form(text), f))
    case CrossReference(title) =>
      if title.None? || Form(title.value) == "" then None
      else Some(exists at | 0 <= at <= |Form(text)| :: StandsAt(Form(text), Form(title.value), at))
    case NumericBound(pattern) => bounds(pattern, text)
    case Unknown => None
  }

  /** Blank phrases ask for nothing: the answer is that of the phrases that say something, and there is
      none when there are none. */
  lemma {:induction false} AnswerIsSatisfaction(condition: Condition, text: string, bounds: Bounds)
    ensures Satisfies(condition, text, bounds, Answer(condition, text, bounds))
  {
    hide Form, Contains;
    if condition.CrossReference? && condition.title.Some? { StandsIs(Form(text), Form(condition.title.value)); }
    if condition.RequiredPhrases? {
      var phrases := condition.phrases;
      FormsAre(phrases);
      var forms := Forms(phrases);
      if forms != [] { assert forms[0] in forms; }
      if p :| p in phrases && Form(p) != "" { assert Form(p) in forms; }
    }
  }
}
