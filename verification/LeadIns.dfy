/** Typed lead-ins as the source's patterns spell them, and the clause-boundary decision they feed. */
module LeadIns {
  import opened Prelude
  import opened Markup
  import opened Boundaries
  import Blocks

  // ---------------------------------------------------------------------
  // Numbered and lettered lead-ins
  // ---------------------------------------------------------------------

  /** `s[..d]` is numbers joined by single dots. */
  predicate DottedNumber(s: string, d: nat) {
    && 0 < d <= |s| && IsDigit(s[0]) && IsDigit(s[d - 1])
    && (forall i | 0 <= i < d :: IsDigit(s[i]) || s[i] == '.')
    && (forall i | 0 < i < d :: !(s[i - 1] == '.' && s[i] == '.'))
  }

  /** A dotted number, a dot or a bracket perhaps, and all the whitespace that follows, of which there is
      some. */
  predicate NumberedLeadIn(s: string, d: nat, end: nat) {
    && DottedNumber(s, d) && d < end <= |s|
    && (IsSpace(s[d]) || (s[d] in ".)" && d + 1 < end))
    && (forall i | d < i < end :: IsSpace(s[i])) && (end < |s| ==> !IsSpace(s[end]))
  }

  /** The dotted number goes on no further. */
  predicate Terminal(s: string, d: nat) {
    && DottedNumber(s, d)
    && (d < |s| ==> !IsDigit(s[d]) && !(s[d] == '.' && d + 1 < |s| && IsDigit(s[d + 1])))
  }

  lemma {:induction false} TerminalIsOne(s: string, c: nat, d: nat)
    requires Terminal(s, c) && Terminal(s, d)
    ensures c == d
  {
    GoesOn(s, c, d);
    GoesOn(s, d, c);
  }

  lemma {:induction false} GoesOn(s: string, c: nat, d: nat)
    requires DottedNumber(s, c) && DottedNumber(s, d)
    ensures c < d ==> IsDigit(s[c]) || (s[c] == '.' && c + 1 < |s| && IsDigit(s[c + 1]))
  {
    hide IsDigit;
    if c < d {
      assert IsDigit(s[c]) || s[c] == '.';
      if c + 1 < d {
        assert IsDigit(s[c + 1]) || s[c + 1] == '.';
        assert !(s[c + 1 - 1] == '.' && s[c + 1] == '.');
      }
    }
  }

  lemma {:induction false} GroupsAreTerminal(s: string, i: nat)
    requires i <= |s| && DottedNumber(s, i) && (i < |s| ==> !IsDigit(s[i]))
    ensures Terminal(s, GroupsEnd(s, i))
    decreases |s| - i
  {
    hide IsDigit;
    if i < |s| && s[i] == '.' {
      var next := DigitsEnd(s, i + 1);
      DigitsEndAt(s, i + 1);
      if next > i + 1 {
        assert DottedNumber(s, next);
        GroupsAreTerminal(s, next);
      }
    }
  }

  lemma {:induction false} NumberEnds(s: string)
    ensures DigitsEnd(s, 0) > 0 ==> Terminal(s, GroupsEnd(s, DigitsEnd(s, 0)))
    ensures DigitsEnd(s, 0) == 0 ==> forall d :: !DottedNumber(s, d)
  {
    DigitsEndAt(s, 0);
    var digits := DigitsEnd(s, 0);
    if digits > 0 {
      assert DottedNumber(s, digits);
      GroupsAreTerminal(s, digits);
    }
  }

  /** `NUMBERED_LEAD_IN_RE` matches, up to there. */
  lemma {:induction false} NumberedExactly(s: string, end: nat)
    ensures NumberedEnd(s) == Some(end) <==> exists d :: NumberedLeadIn(s, d, end)
  {
    NumberEnds(s);
    if NumberedEnd(s).Some? { NumberedIsLeadIn(s); }
    if d :| NumberedLeadIn(s, d, end) { LeadInIsNumbered(s, d, end); }
  }

  lemma {:induction false} NumberedIsLeadIn(s: string)
    requires NumberedEnd(s).Some?
    ensures NumberedLeadIn(s, GroupsEnd(s, DigitsEnd(s, 0)), NumberedEnd(s).value)
  {
    hide IsSpace;
    NumberEnds(s);
    var d := GroupsEnd(s, DigitsEnd(s, 0));
    SpacesEndAt(s, if d < |s| && s[d] in ".)" then d + 1 else d);
    hide GroupsEnd, DigitsEnd;
  }

  lemma {:induction false} LeadInIsNumbered(s: string, d: nat, end: nat)
    requires NumberedLeadIn(s, d, end)
    ensures NumberedEnd(s) == Some(end)
  {
    MarkIsTerminal(s, d, end);
    NumberEnds(s);
    var digits := DigitsEnd(s, 0);
    TerminalIsOne(s, d, GroupsEnd(s, digits));
    var mark := if s[d] in ".)" then d + 1 else d;
    SpacesEndAt(s, mark);
    hide GroupsEnd, DigitsEnd, IsDigit;
  }

  lemma {:induction false} MarkIsTerminal(s: string, d: nat, end: nat)
    requires NumberedLeadIn(s, d, end)
    ensures Terminal(s, d)
  {
    assert d + 1 < end ==> IsSpace(s[d + 1]);
  }

  /** `LETTERED_LEAD_IN_RE` matches, up to there: a small letter in brackets and all the whitespace that
      follows, of which there is some. */
  predicate LetteredLeadIn(s: string, end: nat) {
    && 3 < end <= |s| && s[0] == '(' && 'a' <= s[1] <= 'z' && s[2] == ')'
    && (forall i | 3 <= i < end :: IsSpace(s[i])) && (end < |s| ==> !IsSpace(s[end]))
  }

  lemma {:induction false} LetteredExactly(s: string, end: nat)
    ensures LetteredEnd(s) == Some(end) <==> LetteredLeadIn(s, end)
  {
    hide IsSpace;
    if |s| >= 3 { SpacesEndAt(s, 3); }
  }

  // ---------------------------------------------------------------------
  // The label
  // ---------------------------------------------------------------------

  ghost predicate LeadsIn(s: string, end: nat) {
    (exists d :: NumberedLeadIn(s, d, end)) || LetteredLeadIn(s, end)
  }

  /** A heading's label is its text past the lead-in, or all of it when it has none; and there is never more
      than one lead-in to drop. */
  lemma {:induction false} LabelFollowsLeadIn(text: string)
    ensures forall end: nat | LeadsIn(Strip(text), end) ::
      end < |Strip(text)| && CleanHeading(text) == Strip(text)[end..]
    ensures (forall end: nat :: !LeadsIn(Strip(text), end)) ==> CleanHeading(text) == Strip(text)
  {
    hide IsSpace, Strip, NumberedEnd, LetteredEnd, LeadsIn;
    var s := Strip(text);
    NotBoth(s);
    forall end: nat ensures LeadsIn(s, end) <==> NumberedEnd(s) == Some(end) || LetteredEnd(s) == Some(end) {
      LeadsInIs(s, end);
    }
    forall end: nat | LeadsIn(s, end) ensures end < |s| && Strip(s[end..]) == s[end..] {
      LeadsInIs(s, end);
      StrippedEnds(text);
      LeadInInside(s, end);
      RestIsStripped(s, end);
    }
    assert NumberedEnd(s).Some? ==> LeadsIn(s, NumberedEnd(s).value);
    assert LetteredEnd(s).Some? ==> LeadsIn(s, LetteredEnd(s).value);
  }

  /** A clause is headed by that label, and called untitled only when there is no text at all. */
  lemma {:induction false} HeadedByLabel(text: string)
    ensures Blocks.Label(text) == if Strip(text) == "" then "<untitled>" else CleanHeading(text)
    ensures CleanHeading(text) == "" <==> Strip(text) == ""
  {
    hide IsSpace, Strip, LeadsIn, CleanHeading;
    LabelFollowsLeadIn(text);
    if end: nat :| LeadsIn(Strip(text), end) {
      assert Strip(text)[end..] != "";
      LeadInInside(Strip(text), end);
    }
  }

  lemma {:induction false} LeadsInIs(s: string, end: nat)
    ensures LeadsIn(s, end) <==> NumberedEnd(s) == Some(end) || LetteredEnd(s) == Some(end)
  {
    NumberedExactly(s, end);
    LetteredExactly(s, end);
  }

  lemma {:induction false} LeadInInside(s: string, end: nat)
    requires LeadsIn(s, end)
    ensures s != ""
  {
  }

  lemma {:induction false} NotBoth(s: string)
    ensures NumberedEnd(s).None? || LetteredEnd(s).None?
  {
    NumberEnds(s);
    if NumberedEnd(s).Some? { NumberedIsLeadIn(s); }
  }

  lemma {:induction false} RestIsStripped(s: string, end: nat)
    requires LeadsIn(s, end) && s != "" && !IsSpace(s[|s| - 1])
    ensures end < |s| && Strip(s[end..]) == s[end..]
  {
    assert IsSpace(s[end - 1]);
    if end < |s| { StripKeepsInkedEnds(s[end..]); }
  }

  // ---------------------------------------------------------------------
  // The decision
  // ---------------------------------------------------------------------

  /** The style's name, stripped, begins with "heading", whatever the case. */
  predicate HeadingStyled(style: string) {
    var s := Strip(style);
    |s| >= 7 && forall i | 0 <= i < 7 :: s[i] == "heading"[i] || s[i] == "HEADING"[i]
  }

  lemma {:induction false} HeadingStyleIs(style: string)
    ensures HeadingStyle(style) <==> HeadingStyled(style)
  {
    hide Strip;
    var s := Strip(style);
    if |s| >= 7 {
      assert Lower(s)[0..7] == Lower(s[..7]);
      forall i | 0 <= i < 7 ensures Lower(s[..7])[i] == "heading"[i] <==> s[i] == "heading"[i] || s[i] == "HEADING"[i] {
        LowerIs(s[i], "heading"[i], "HEADING"[i]);
      }
    }
  }

  lemma {:induction false} LowerIs(c: char, small: char, capital: char)
    requires 'a' <= small <= 'z' && capital as int == small as int - 32
    ensures LowerChar(c) == small <==> c == small || c == capital
  {
  }

  /** A text in capitals has a letter to put in lower case, and none that is. */
  lemma {:induction false} UpperIs(s: string)
    ensures IsUpper(s) <==> Lower(s) != s && forall i | 0 <= i < |s| :: !('a' <= s[i] <= 'z')
  {
    if IsUpper(s) {
      var i :| 0 <= i < |s| && 'A' <= s[i] <= 'Z';
      assert Lower(s)[i] != s[i];
    }
  }

  /** A paragraph opens a clause exactly when it is styled as a heading; or has text and an outline level from
      nought to eight; or has text of eighty characters at most, and a lead-in, or boldness throughout and no
      line break, or capitals throughout. */
  lemma {:induction false} OpensClauseExactly(text: string, signals: Signals)
    ensures var s := Strip(text);
            IsBoundary(text, signals)
            <==> (HeadingStyled(signals.style)
                  || (s != "" && signals.outline.Some? && 0 <= signals.outline.value <= 8)
                  || (0 < |s| <= 80
                      && ((exists end :: LeadsIn(s, end)) || (signals.bold && '\n' !in s) || IsUpper(s))))
  {
    hide Strip, NumberedEnd, LetteredEnd, LeadsIn, IsUpper, HeadingStyle, HeadingStyled;
    var s := Strip(text);
    HeadingStyleIs(signals.style);
    forall end: nat ensures LeadsIn(s, end) <==> NumberedEnd(s) == Some(end) || LetteredEnd(s) == Some(end) {
      LeadsInIs(s, end);
    }
    assert NumberedEnd(s).Some? ==> LeadsIn(s, NumberedEnd(s).value);
    assert LetteredEnd(s).Some? ==> LeadsIn(s, LetteredEnd(s).value);
  }

  // ---------------------------------------------------------------------
  // The outline level
  // ---------------------------------------------------------------------

  predicate AllDigits(s: string) {
    s != "" && forall i | 0 <= i < |s| :: IsDigit(s[i])
  }

  /** The text, stripped, is digits with or without a sign, and `n` is the number they spell. */
  predicate SpellsInt(val: string, n: int) {
    var s := Strip(val);
    || (AllDigits(s) && n == Value(s))
    || (s != "" && s[0] in "+-" && AllDigits(s[1..]) && n == if s[0] == '-' then -Value(s[1..]) else Value(s[1..]))
  }

  lemma {:induction false} ParseIntExactly(val: string)
    ensures forall n :: ParseInt(val) == Some(n) <==> SpellsInt(val, n)
  {
    hide Strip, Value;
    var s := Strip(val);
    var digits := if s != "" && s[0] in "+-" then s[1..] else s;
    DigitsEndAt(digits, 0);
    assert AllDigits(s) ==> IsDigit(s[0]);
    assert AllDigits(digits) <==> digits != "" && DigitsEnd(digits, 0) == |digits|;
  }
}
