/** What clears a hard-rejection rule: a span the critic quotes, found in a block of the rule's own
    clause (`_locate_span`, `_clause_text`, `_evaluate_entry`, `scripts/hard_ledger.py`). The span
    is looked for in the folded text of the block it names and led back to the document's own
    characters; the rule's condition is asked of the whole clause. Anything short of proof leaves
    the rule asserted, with the reason. */
module LedgerEvidence {
  import opened Prelude
  import opened TextFold
  import opened Boundaries
  import opened LedgerConditions

  const MAX_SPAN_CHARS := 8000

  /** A block of the block map, in document order; its position is its index. */
  datatype Block = Block(id: string, heading: string, text: string)

  /** A section of our template: its clause, title and place in the template's order. */
  datatype Section = Section(clauseId: string, title: string, order: seq<int>)

  /** One hard rule. No clause, no title and no fallback language are empty strings. */
  datatype Rule = Rule(id: string, clauseId: string, title: string, order: Option<seq<int>>,
                       sections: seq<Section>, fallback: string, condition: Condition)

  // ---------------------------------------------------------------------
  // Headings
  // ---------------------------------------------------------------------

  function TrimMarks(s: string): string {
    if s != "" && s[|s| - 1] in " .:;" then TrimMarks(s[..|s| - 1]) else s
  }

  /** `_heading_form`. */
  function HeadingForm(heading: string): string {
    TrimMarks(Form(heading))
  }

  /** `_heading_matches`: the clause's title, or the title and more words. */
  predicate HeadingMatches(heading: string, title: string) {
    var head, want := HeadingForm(heading), HeadingForm(title);
    head != "" && want != "" && (head == want || StartsWith(head, want + " "))
  }

  // ---------------------------------------------------------------------
  // Locating a span
  // ---------------------------------------------------------------------

  /** Drops a rendered block marker ("[p0012] ") at the head of a quoted span. */
  function WithoutMarker(span: string): string {
    var at := SpacesEnd(span, 0);
    if !StartsWithAt(span, "[p", at) then span
    else
      var end := DigitsEnd(span, at + 2);
      if end < at + 6 || end == |span| || span[end] != ']' then span else span[BlanksEnd(span, end + 1)..]
  }

  /** `hay.find(needle)` from `at` on. */
  function FindFrom(hay: string, needle: string, at: nat): Option<nat>
    requires at <= |hay|
    decreases |hay| - at
  {
    if StartsWithAt(hay, needle, at) then Some(at)
    else if at == |hay| then None
    else FindFrom(hay, needle, at + 1)
  }

  lemma {:induction false} FoundFirst(hay: string, needle: string, at: nat)
    requires at <= |hay|
    ensures var r := FindFrom(hay, needle, at);
            && (r.Some? ==> at <= r.value && StartsWithAt(hay, needle, r.value))
            && (r.None? ==> forall k | at <= k <= |hay| :: !StartsWithAt(hay, needle, k))
            && (r.Some? ==> forall k | at <= k < r.value :: !StartsWithAt(hay, needle, k))
    decreases |hay| - at
  {
    if !StartsWithAt(hay, needle, at) && at < |hay| { FoundFirst(hay, needle, at + 1); }
  }

  /** A stretch of the text that folds to exactly the quoted words. */
  predicate Quotes(text: string, quoted: string, start: nat, end: nat) {
    start < end <= |text| && Folded(text[start..end]) == quoted
  }

  /** The needle stands at `at`, and nowhere before. */
  predicate FirstAt(hay: string, needle: string, at: nat) {
    StartsWithAt(hay, needle, at) && forall k | 0 <= k < at :: !StartsWithAt(hay, needle, k)
  }

  /** `_locate_span`: the document's own characters for a quoted span. They are the stretch of the
      block that folds to the span's first occurrence in the folded block, and there are none only if
      the folded block lacks it. */
  method LocateSpan(span: string, text: string) returns (found: Option<string>)
    ensures var quoted := FoldText(WithoutMarker(span));
            && (found.Some? ==> exists start, end | 0 <= start < end <= |text| ::
                  Quotes(text, quoted, start, end) && found.value == text[start..end]
                  && FirstAt(Folded(text), quoted, |FoldTo(text, start)|))
            && (found.None? <==> quoted == "" || !Contains(Folded(text), quoted))
  {
    hide FoldText, WithoutMarker, Folded, Maps, FoldMapOf, StartsWithAt;
    var quoted := FoldText(WithoutMarker(span));
    if quoted == "" {
      return None;
    }
    var m := FoldTextWithMap(text);
    MapFolds(m, text);
    var index := FindFrom(m.folded, quoted, 0);
    FoundFirst(m.folded, quoted, 0);
    if index.None? {
      return None;
    }
    var a, b := index.value, index.value + |quoted|;
    OccurrenceQuotes(m, text, quoted, a);
    found := Some(text[m.starts[a]..m.ends[b - 1]]);
  }

  lemma {:induction false} MapFolds(m: FoldMap, text: string)
    requires Maps(m, text)
    ensures m.folded == Folded(text) && |m.starts| == |m.ends| == |m.folded|
  {
  }

  /** An occurrence in the fold leads back to a stretch that folds to it. */
  lemma {:induction false} OccurrenceQuotes(m: FoldMap, text: string, quoted: string, a: nat)
    requires Maps(m, text) && quoted != "" && StartsWithAt(m.folded, quoted, a)
    ensures a + |quoted| <= |m.starts| && |m.starts| == |m.ends|
    ensures Quotes(text, quoted, m.starts[a], m.ends[a + |quoted| - 1]) && |FoldTo(text, m.starts[a])| == a
  {
    var b := a + |quoted|;
    MapFolds(m, text);
    FoldedSlice(m, text, a, b);
    SourceCutFolds(m, text, b);
    assert SourceCut(m, text, a) == m.starts[a] && SourceCut(m, text, b) == m.ends[b - 1];
  }

  // ---------------------------------------------------------------------
  // Evaluating a rule
  // ---------------------------------------------------------------------

  /** What the critic says about a rule. An absent or non-string field is nothing. */
  datatype Disposition = Disposition(clears: bool, blockId: Option<string>, span: Option<string>)

  datatype Reason =
    | Cleared | CriticAsserted | SpanMissing | UnknownBlockId | SpanNotFound | SpanOutsideClause
    | PredicateNotEvaluable | PredicateUnsatisfied

  /** A rule after evaluation: cleared exactly when the reason says so; the block it names, if real. */
  datatype Evaluated = Evaluated(rule: Rule, reason: Reason, blockId: Option<string>)
  {
    predicate Asserted() { reason != Cleared }
  }

  predicate HasBlock(blocks: seq<Block>, id: string) {
    exists i | 0 <= i < |blocks| :: blocks[i].id == id
  }

  /** The block an id names; ids are distinct. */
  function TextOf(blocks: seq<Block>, id: string): string {
    if blocks == [] then "" else if blocks[0].id == id then blocks[0].text else TextOf(blocks[1..], id)
  }

  /** The texts of the clause's blocks, joined in document order. */
  function ClauseText(blocks: seq<Block>, title: string): string {
    if blocks == [] then ""
    else
      var rest := ClauseText(blocks[1..], title);
      if !HeadingMatches(blocks[0].heading, title) then rest
      else if InClause(blocks[1..], title) then blocks[0].text + "\n" + rest
      else blocks[0].text
  }

  predicate InClause(blocks: seq<Block>, title: string) {
    blocks != [] && (HeadingMatches(blocks[0].heading, title) || InClause(blocks[1..], title))
  }

  predicate NamesClauseBlock(blocks: seq<Block>, title: string, id: string) {
    exists i | 0 <= i < |blocks| :: blocks[i].id == id && HeadingMatches(blocks[i].heading, title)
  }

  function FirstChars(s: string, n: nat): string {
    if |s| <= n then s else s[..n]
  }

  /** The words quoted stand, folded, in the block named. */
  predicate Located(d: Disposition, blocks: seq<Block>) {
    && d.span.Some? && d.blockId.Some?
    && var quoted := FoldText(WithoutMarker(FirstChars(d.span.value, MAX_SPAN_CHARS)));
       quoted != "" && Contains(Folded(TextOf(blocks, d.blockId.value)), quoted)
  }

  /** The evidence that clears a rule: the critic claims it, quotes a span found in a block of the
      rule's own clause, and the rule's condition holds of the whole clause. */
  predicate Proven(rule: Rule, d: Disposition, blocks: seq<Block>, bounds: Bounds) {
    && d.clears && d.span.Some? && d.blockId.Some?
    && NamesClauseBlock(blocks, rule.title, d.blockId.value)
    && FoldText(d.span.value) != "" && Located(d, blocks)
    && Answer(rule.condition, ClauseText(blocks, rule.title), bounds) == Some(true)
  }

  /** Each reason, and what it says of the evidence: what is there, and the first thing that is missing. */
  predicate Because(rule: Rule, disposition: Option<Disposition>, blocks: seq<Block>, bounds: Bounds, reason: Reason) {
    if disposition.None? || !disposition.value.clears then reason == CriticAsserted
    else
      var d := disposition.value;
      var spans := d.span.Some? && FoldText(d.span.value) != "";
      var known := d.blockId.Some? && HasBlock(blocks, d.blockId.value);
      var own := d.blockId.Some? && NamesClauseBlock(blocks, rule.title, d.blockId.value);
      var answer := Answer(rule.condition, ClauseText(blocks, rule.title), bounds);
      match reason
      case CriticAsserted => false
      case SpanMissing => !spans
      case UnknownBlockId => spans && !known
      case SpanNotFound => spans && known && !Located(d, blocks)
      case SpanOutsideClause => spans && known && Located(d, blocks) && !own
      case PredicateNotEvaluable => spans && Located(d, blocks) && own && answer == None
      case PredicateUnsatisfied => spans && Located(d, blocks) && own && answer == Some(false)
      case Cleared => spans && Located(d, blocks) && own && answer == Some(true)
  }

  /** `result` is the rule, cleared exactly on proof, with the block the critic named when it is known and
      the reason it is asserted for otherwise. */
  predicate Evaluates(rule: Rule, disposition: Option<Disposition>, blocks: seq<Block>, bounds: Bounds,
      result: Evaluated) {
    && result.rule == rule
    && (!result.Asserted() <==> disposition.Some? && Proven(rule, disposition.value, blocks, bounds))
    && (!result.Asserted() ==> result.blockId == disposition.value.blockId)
    && Because(rule, disposition, blocks, bounds, result.reason)
    && (var named := if disposition.Some? then disposition.value.blockId else None;
        result.blockId == if named.Some? && HasBlock(blocks, named.value) then named else None)
  }

  /** `_evaluate_entry`: a rule is cleared exactly on proof; everything short of it asserts it. */
  method EvaluateEntry(rule: Rule, disposition: Option<Disposition>, blocks: seq<Block>, bounds: Bounds)
    returns (result: Evaluated)
    ensures Evaluates(rule, disposition, blocks, bounds, result)
  {
    hide FoldText, WithoutMarker, HeadingMatches, Folded, Contains, ClauseText, TextOf, Answer;
    result := Evaluated(rule, CriticAsserted, None);
    if disposition.None? {
      return;
    }
    var d := disposition.value;
    if d.blockId.Some? && HasBlock(blocks, d.blockId.value) {
      result := result.(blockId := d.blockId);
    }
    if !d.clears {
      return;
    }
    if d.span.None? || FoldText(d.span.value) == "" {
      return result.(reason := SpanMissing);
    }
    if result.blockId.None? {
      return result.(reason := UnknownBlockId);
    }
    var located := LocateSpan(FirstChars(d.span.value, MAX_SPAN_CHARS), TextOf(blocks, d.blockId.value));
    if located.None? {
      return result.(reason := SpanNotFound);
    }
    if !NamesClauseBlock(blocks, rule.title, d.blockId.value) {
      return result.(reason := SpanOutsideClause);
    }
    var satisfied := Answer(rule.condition, ClauseText(blocks, rule.title), bounds);
    if satisfied.None? {
      return result.(reason := PredicateNotEvaluable);
    }
    if !satisfied.value {
      return result.(reason := PredicateUnsatisfied);
    }
    return result.(reason := Cleared);
  }

  // ---------------------------------------------------------------------
  // The whole ledger
  // ---------------------------------------------------------------------

  /** The first disposition of a rule is the one read. */
  function FirstFor(entries: seq<(string, Disposition)>, id: string): Option<Disposition> {
    if entries == [] then None
    else if FirstFor(entries[..|entries| - 1], id).Some? then FirstFor(entries[..|entries| - 1], id)
    else if entries[|entries| - 1].0 == id then Some(entries[|entries| - 1].1)
    else None
  }

  method FirstDispositions(entries: seq<(string, Disposition)>) returns (first: map<string, Disposition>)
    ensures forall id :: FirstFor(entries, id) == if id in first then Some(first[id]) else None
  {
    first := map[];
    for k := 0 to |entries|
      invariant forall id :: FirstFor(entries[..k], id) == if id in first then Some(first[id]) else None
    {
      assert entries[..k + 1][..k] == entries[..k];
      var (id, disposition) := entries[k];
      if id !in first { first := first[id := disposition]; }
    }
    assert entries[..|entries|] == entries;
  }

  predicate EvaluatesAll(rules: seq<Rule>, entries: seq<(string, Disposition)>, blocks: seq<Block>, bounds: Bounds,
      evaluated: seq<Evaluated>) {
    && |evaluated| == |rules|
    && forall i | 0 <= i < |rules| :: Evaluates(rules[i], FirstFor(entries, rules[i].id), blocks, bounds, evaluated[i])
  }

  /** `evaluate_ledger`: every rule, cleared or asserted, in ledger order. */
  method EvaluateLedger(rules: seq<Rule>, entries: seq<(string, Disposition)>, blocks: seq<Block>, bounds: Bounds)
    returns (evaluated: seq<Evaluated>)
    ensures EvaluatesAll(rules, entries, blocks, bounds, evaluated)
  {
    hide Evaluates, FirstFor;
    var first := FirstDispositions(entries);
    evaluated := [];
    for k := 0 to |rules|
      invariant |evaluated| == k
      invariant forall i | 0 <= i < k ::
        Evaluates(rules[i], FirstFor(entries, rules[i].id), blocks, bounds, evaluated[i])
    {
      var disposition := if rules[k].id in first then Some(first[rules[k].id]) else None;
      var result := EvaluateEntry(rules[k], disposition, blocks, bounds);
      evaluated := evaluated + [result];
    }
  }
}
