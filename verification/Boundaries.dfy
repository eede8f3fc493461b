/** Which paragraph starts a clause, and under what label (`scripts/clause_boundaries.py`, and
    `_boundary_decision_text` in `scripts/extraction_normalization_stage.py`). */
module Boundaries {
  import opened Prelude
  import opened Markup

  const MAX_FALLBACK_HEADING_CHARS := 80
  const BODY_TEXT_OUTLINE_LEVEL := 9

  // ---------------------------------------------------------------------
  // Characters and words
  // ---------------------------------------------------------------------

  predicate IsDigit(c: char) {
    '0' <= c <= '9'
  }

  /** `\w`, as far as ASCII goes. */
  predicate IsWord(c: char) {
    'a' <= c <= 'z' || 'A' <= c <= 'Z' || '0' <= c <= '9' || c == '_'
  }

  function LowerChar(c: char): char {
    if 'A' <= c <= 'Z' then ('a' as int + (c as int - 'A' as int)) as char else c
  }

  function Lower(s: string): string {
    seq(|s|, i requires 0 <= i < |s| => LowerChar(s[i]))
  }

  predicate StartsWith(s: string, prefix: string) {
    StartsWithAt(s, prefix, 0)
  }

  /** `str.isupper`: a cased letter, and none of them lower case. */
  predicate IsUpper(s: string) {
    && (exists i | 0 <= i < |s| :: 'A' <= s[i] <= 'Z')
    && (forall i | 0 <= i < |s| :: !('a' <= s[i] <= 'z'))
  }

  /** Where the run of digits from `i` ends. */
  function DigitsEnd(s: string, i: nat): (r: nat)
    requires i <= |s|
    ensures i <= r <= |s|
    decreases |s| - i
  {
    if i < |s| && IsDigit(s[i]) then DigitsEnd(s, i + 1) else i
  }

  /** Where the run of whitespace from `i` ends. */
  function SpacesEnd(s: string, i: nat): (r: nat)
    requires i <= |s|
    ensures i <= r <= |s|
    decreases |s| - i
  {
    if i < |s| && IsSpace(s[i]) then SpacesEnd(s, i + 1) else i
  }

  lemma {:induction false} SpacesEndAt(s: string, i: nat)
    requires i <= |s|
    ensures var r := SpacesEnd(s, i);
            (forall k | i <= k < r :: IsSpace(s[k])) && (r < |s| ==> !IsSpace(s[r]))
    decreases |s| - i
  {
    hide IsSpace;
    if i < |s| && IsSpace(s[i]) { SpacesEndAt(s, i + 1); }
  }

  lemma {:induction false} DigitsEndAt(s: string, i: nat)
    requires i <= |s|
    ensures var r := DigitsEnd(s, i);
            (forall k | i <= k < r :: IsDigit(s[k])) && (r < |s| ==> !IsDigit(s[r]))
    decreases |s| - i
  {
    hide IsDigit;
    if i < |s| && IsDigit(s[i]) { DigitsEndAt(s, i + 1); }
  }

  /** Where the dotted groups from `i` end: any number of a dot and digits. */
  function GroupsEnd(s: string, i: nat): (r: nat)
    requires i <= |s|
    ensures i <= r <= |s|
    decreases |s| - i
  {
    if i < |s| && s[i] == '.' && DigitsEnd(s, i + 1) > i + 1 then GroupsEnd(s, DigitsEnd(s, i + 1)) else i
  }

  // ---------------------------------------------------------------------
  // Lead-ins
  // ---------------------------------------------------------------------

  /** Where a numbered lead-in ends ("1. ", "1.2) ", "10 "), if the text starts with one. */
  function NumberedEnd(s: string): (r: Option<nat>)
    ensures r.Some? ==> r.value <= |s|
  {
    var digits := DigitsEnd(s, 0);
    if digits == 0 then None
    else
      var groups := GroupsEnd(s, digits);
      var mark := if groups < |s| && s[groups] in ".)" then groups + 1 else groups;
      var end := SpacesEnd(s, mark);
      if end > mark then Some(end) else None
  }

  /** The text starts with a lettered marker: "(a)". */
  predicate Lettered(s: string) {
    |s| >= 3 && s[0] == '(' && 'a' <= s[1] <= 'z' && s[2] == ')'
  }

  /** Where a lettered lead-in ends ("(a) "), if the text starts with one. */
  function LetteredEnd(s: string): (r: Option<nat>)
    ensures r.Some? ==> r.value <= |s|
  {
    if Lettered(s) && SpacesEnd(s, 3) > 3 then Some(SpacesEnd(s, 3)) else None
  }

  // ---------------------------------------------------------------------
  // The boundary rule
  // ---------------------------------------------------------------------

  /** What Word markup says about a paragraph beside its text; no style is the empty string. */
  datatype Signals = Signals(style: string, bold: bool, outline: Option<int>)

  predicate HasOutline(signals: Signals) {
    signals.outline.Some? && 0 <= signals.outline.value < BODY_TEXT_OUTLINE_LEVEL
  }

  predicate HeadingStyle(style: string) {
    StartsWith(Lower(Strip(style)), "heading")
  }

  /** `is_boundary_paragraph`. */
  predicate IsBoundary(text: string, signals: Signals) {
    var stripped := Strip(text);
    HeadingStyle(signals.style) ||
    (stripped != "" &&
      (HasOutline(signals) ||
        (|stripped| <= MAX_FALLBACK_HEADING_CHARS &&
          (NumberedEnd(stripped).Some? || LetteredEnd(stripped).Some?
           || (signals.bold && '\n' !in stripped) || IsUpper(stripped)))))
  }

  /** `clean_heading_text`: the label, without a typed lead-in. */
  function CleanHeading(text: string): string {
    var stripped := Strip(text);
    match NumberedEnd(stripped)
    case Some(end) => Strip(stripped[end..])
    case None =>
      match LetteredEnd(stripped)
      case Some(end) => Strip(stripped[end..])
      case None => stripped
  }

  // ---------------------------------------------------------------------
  // Signals from the markup
  // ---------------------------------------------------------------------

  /** `int(val)` over an optional sign and ASCII digits. */
  function ParseInt(val: string): Option<int> {
    var s := Strip(val);
    var digits := if s != "" && s[0] in "+-" then s[1..] else s;
    if digits == "" || DigitsEnd(digits, 0) < |digits| then None
    else Some(if s[0] == '-' then -Value(digits) else Value(digits))
  }

  /** `_run_is_bold`. */
  predicate RunIsBold(run: seq<Node>) {
    match Find(FindChildren(run, RPr), Bold)
    case None => false
    case Some(bold) => Lower(Strip(bold.val)) !in ["0", "false", "none"]
  }

  predicate IsTextRun(node: Node) {
    node.tag == R && Find(node.children, T).Some?
  }

  /** A direct run with text, and every one of them bold. */
  predicate WhollyBold(p: seq<Node>) {
    && (exists i | 0 <= i < |p| :: IsTextRun(p[i]))
    && (forall i | 0 <= i < |p| :: IsTextRun(p[i]) ==> RunIsBold(p[i].children))
  }

  function StyleOf(p: seq<Node>): string {
    match Find(FindChildren(p, PPr), PStyle)
    case None => ""
    case Some(style) => style.val
  }

  function OutlineOf(p: seq<Node>): Option<int> {
    match Find(FindChildren(p, PPr), OutlineLvl)
    case None => None
    case Some(level) => ParseInt(level.val)
  }

  /** `ooxml_paragraph_signals`, over the paragraph's children. */
  function SignalsOf(p: seq<Node>): Signals {
    Signals(StyleOf(p), WhollyBold(p), OutlineOf(p))
  }

  // ---------------------------------------------------------------------
  // The decision text
  // ---------------------------------------------------------------------

  predicate IsBlankChar(c: char) {
    c == ' ' || c == '\t'
  }

  /** Where the run of spaces and tabs from `i` ends. */
  function BlanksEnd(s: string, i: nat): (r: nat)
    requires i <= |s|
    ensures i <= r <= |s| && (forall j | i <= j < r :: IsBlankChar(s[j]))
    ensures r < |s| ==> !IsBlankChar(s[r])
    decreases |s| - i
  {
    if i < |s| && IsBlankChar(s[i]) then BlanksEnd(s, i + 1) else i
  }

  /** A lettered marker separated from what follows by blanks with a tab among them. */
  predicate LetteredTab(s: string) {
    Lettered(s) && '\t' in s[3..BlanksEnd(s, 3)]
  }

  /** `_boundary_decision_text`. */
  function DecisionText(s: string): string {
    if LetteredTab(s) then s[..3] + s[BlanksEnd(s, 3)..] else s
  }

  /** When a tab follows a lettered marker, the paragraph reads as a lead-in only if what the
      blanks lead to is itself whitespace (a no-break space, say); otherwise the marker is a
      sub-clause, whatever run the tab sat in. */
  lemma {:induction false} TabbedMarkerLeadsIn(text: string)
    requires LetteredTab(Strip(text))
    ensures var s := Strip(text);
            BlanksEnd(s, 3) < |s| &&
            (LetteredEnd(Strip(DecisionText(s))).Some? <==> IsSpace(s[BlanksEnd(s, 3)]))
  {
    var s := Strip(text);
    var end := BlanksEnd(s, 3);
    StrippedEnds(text);
    assert end > 3 && IsBlankChar(s[end - 1]);
    var d := DecisionText(s);
    assert d[0] == s[0] && d[1] == s[1] && d[2] == s[2] && d[3] == s[end] && d[|d| - 1] == s[|s| - 1];
    StripKeepsInkedEnds(d);
  }

  const UNMARKED: Signals := Signals("", false, None)

  /** Carried through to the boundary rule: a tabbed lettered marker in a paragraph without style,
      boldness or outline level opens a clause exactly when the blanks lead to further whitespace,
      in a text that is short enough. */
  lemma {:induction false} TabbedMarkerOpensClause(text: string)
    requires LetteredTab(Strip(text))
    ensures var s := Strip(text);
            BlanksEnd(s, 3) < |s| &&
            (IsBoundary(DecisionText(s), UNMARKED)
             <==> IsSpace(s[BlanksEnd(s, 3)]) && |DecisionText(s)| <= MAX_FALLBACK_HEADING_CHARS)
  {
    var s := Strip(text);
    TabbedMarkerLeadsIn(text);
    StrippedEnds(text);
    var d := DecisionText(s);
    assert d[0] == s[0] && d[1] == s[1] && d[|d| - 1] == s[|s| - 1];
    StripKeepsInkedEnds(d);
    assert DigitsEnd(d, 0) == 0;
    assert !IsUpper(d) by { assert 'a' <= d[1] <= 'z'; }
    assert !HeadingStyle("") by { assert Strip("") == ""; }
  }

  /** An input that fails: behind the tab stands a no-break space, and the sub-clause is taken for
      the start of a clause. Without that space it is body text. */
  lemma {:induction false} NoBreakSpaceOpensClause(words: string)
    requires 0 < |words| <= 70 && !IsSpace(words[0]) && !IsSpace(words[|words| - 1])
    ensures var text := "(a)\t" + [0xA0 as char] + words;
            LetteredTab(Strip(text)) && IsBoundary(DecisionText(Strip(text)), UNMARKED)
    ensures var text := "(a)\t" + words;
            LetteredTab(Strip(text)) && !IsBoundary(DecisionText(Strip(text)), UNMARKED)
  {
    var marked, plain := "(a)\t" + [0xA0 as char] + words, "(a)\t" + words;
    MarkedText(marked, 0xA0 as char);
    MarkedText(plain, words[0]);
    TabbedMarkerOpensClause(marked);
    TabbedMarkerOpensClause(plain);
  }

  lemma {:induction false} MarkedText(s: string, next: char)
    requires |s| >= 5 && s[..4] == "(a)\t" && s[4] == next && !IsBlankChar(next) && !IsSpace(s[|s| - 1])
    ensures Strip(s) == s && LetteredTab(s) && BlanksEnd(s, 3) == 4
  {
    assert s[0] == s[..4][0] && s[1] == s[..4][1] && s[2] == s[..4][2] && s[3] == s[..4][3];
    StripKeepsInkedEnds(s);
    assert BlanksEnd(s, 4) == 4 && BlanksEnd(s, 3) == 4;
    assert s[3..4][0] == '\t';
  }
}
