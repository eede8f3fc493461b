/** Literal trigger phrases with exempt phrases, matched span by span (`find_spans`,
    `check_on_insert_rule_fires`, `scripts/detector_common.py`): an exemption covers only the
    match it surrounds. */
module Detector {
  import opened Prelude
  import opened Boundaries

  datatype Mode = Substring | WordBoundary

  datatype Span = Span(start: nat, end: nat)

  /** `\b` at position `i`. */
  predicate Boundary(t: string, i: nat)
    requires i <= |t|
  {
    (i > 0 && IsWord(t[i - 1])) != (i < |t| && IsWord(t[i]))
  }

  /** The phrase matches at `i`. */
  predicate Hit(t: string, phrase: string, mode: Mode, i: nat) {
    StartsWithAt(t, phrase, i) && (mode == Substring || (Boundary(t, i) && Boundary(t, i + |phrase|)))
  }

  /** Where the search goes on after a match at `i`: past it, or one further past an empty one. */
  function Past(phrase: string, i: nat): nat {
    if phrase == "" then i + 1 else i + |phrase|
  }

  /** Leftmost non-overlapping matches from `i` on. */
  function SpansFrom(t: string, phrase: string, mode: Mode, i: nat): seq<Span>
    decreases |t| + 1 - i
  {
    if i > |t| then []
    else if Hit(t, phrase, mode, i) then [Span(i, i + |phrase|)] + SpansFrom(t, phrase, mode, Past(phrase, i))
    else SpansFrom(t, phrase, mode, i + 1)
  }

  lemma {:induction false} RegroupFront(one: Span, middle: seq<Span>, rest: seq<Span>)
    ensures [one] + (middle + rest) == ([one] + middle) + rest
  {
  }

  /** `find_spans`, on lower-cased text. */
  method FindSpans(text: string, phrase: string, mode: Mode) returns (spans: seq<Span>)
    ensures spans == SpansFrom(Lower(text), Lower(phrase), mode, 0)
  {
    hide Hit, Lower;
    var t, p := Lower(text), Lower(phrase);
    spans := [];
    var i: nat := 0;
    while i <= |t|
      invariant spans + SpansFrom(t, p, mode, i) == SpansFrom(t, p, mode, 0)
      decreases |t| + 1 - i
    {
      if Hit(t, p, mode, i) {
        spans := spans + [Span(i, i + |p|)];
        i := Past(p, i);
      } else {
        i := i + 1;
      }
    }
  }

  /** `_span_inside`. */
  predicate Inside(inner: Span, outer: Span) {
    outer.start <= inner.start && inner.end <= outer.end
  }

  /** The matches of every exempt phrase. */
  function ExemptSpans(t: string, exempts: seq<string>, mode: Mode): seq<Span> {
    if exempts == [] then [] else SpansFrom(t, exempts[0], mode, 0) + ExemptSpans(t, exempts[1..], mode)
  }

  predicate Exempted(span: Span, outers: seq<Span>) {
    exists o | o in outers :: Inside(span, o)
  }

  /** Some match of the term lies in no exempt match. */
  predicate Fires(t: string, term: string, exempts: seq<string>, mode: Mode) {
    exists s | s in SpansFrom(t, term, mode, 0) :: !Exempted(s, ExemptSpans(t, exempts, mode))
  }

  /** An on-insert rule of literal phrases. */
  datatype Rule = Rule(topics: seq<string>, insertedOnly: bool, triggers: seq<string>, exempts: seq<string>, mode: Mode)

  function Lowered(phrases: seq<string>): seq<string> {
    seq(|phrases|, i requires 0 <= i < |phrases| => Lower(phrases[i]))
  }

  /** The terms of `triggers[..k]` that fire on one surface, in order. */
  function FiredTo(t: string, rule: Rule, k: nat): seq<string>
    requires k <= |rule.triggers|
  {
    if k == 0 then []
    else
      FiredTo(t, rule, k - 1) +
      (if Fires(t, Lower(rule.triggers[k - 1]), Lowered(rule.exempts), rule.mode) then [rule.triggers[k - 1]] else [])
  }

  /** One surface of `check_on_insert_rule_fires`. */
  method FireSurface(text: string, rule: Rule) returns (fired: seq<string>)
    ensures fired == FiredTo(Lower(text), rule, |rule.triggers|)
  {
    var exempt := CollectExempt(text, rule);
    fired := [];
    for k := 0 to |rule.triggers|
      invariant fired == FiredTo(Lower(text), rule, k)
    {
      hide SpansFrom, ExemptSpans;
      var spans := FindSpans(text, rule.triggers[k], rule.mode);
      var unexempted := exists s | s in spans :: !Exempted(s, exempt);
      if unexempted { fired := fired + [rule.triggers[k]]; }
    }
  }

  method CollectExempt(text: string, rule: Rule) returns (spans: seq<Span>)
    ensures spans == ExemptSpans(Lower(text), Lowered(rule.exempts), rule.mode)
  {
    var phrases := Lowered(rule.exempts);
    spans := [];
    assert phrases[0..] == phrases;
    for k := 0 to |rule.exempts|
      invariant spans + ExemptSpans(Lower(text), phrases[k..], rule.mode)
        == ExemptSpans(Lower(text), phrases, rule.mode)
    {
      hide SpansFrom;
      assert phrases[k..][0] == phrases[k] && phrases[k..][1..] == phrases[k + 1..];
      var more := FindSpans(text, rule.exempts[k], rule.mode);
      spans := spans + more;
    }
  }

  /** `check_on_insert_rule_fires`: nothing off its topics; the modified surface only when the rule
      reads it. */
  method CheckOnInsert(rule: Rule, variation: string, topic: string, modified: string) returns (fired: seq<string>)
    ensures rule.topics != [] && topic !in rule.topics ==> fired == []
    ensures rule.topics == [] || topic in rule.topics ==>
      fired == FiredTo(Lower(variation), rule, |rule.triggers|)
               + (if !rule.insertedOnly && modified != "" then FiredTo(Lower(modified), rule, |rule.triggers|) else [])
  {
    fired := [];
    if rule.topics != [] && topic !in rule.topics {
      return;
    }
    fired := FireSurface(variation, rule);
    if !rule.insertedOnly && modified != "" {
      var more := FireSurface(modified, rule);
      fired := fired + more;
    }
  }

  // ---------------------------------------------------------------------
  // Locality
  // ---------------------------------------------------------------------

  /** Two texts with a separating character between them. */
  function Beside(a: string, sep: char, b: string): string {
    a + [sep] + b
  }

  predicate Separates(sep: char, phrase: string) {
    !IsWord(sep) && sep !in phrase && phrase != ""
  }

  /** A match in the left text is a match of the whole there, and the other way round. */
  lemma {:induction false} HitsLeft(a: string, sep: char, b: string, phrase: string, mode: Mode, i: nat)
    requires Separates(sep, phrase) && i <= |a|
    ensures Hit(Beside(a, sep, b), phrase, mode, i) <==> Hit(a, phrase, mode, i)
  {
    var t, n := Beside(a, sep, b), |phrase|;
    if i + n <= |a| {
      assert t[i..i + n] == a[i..i + n];
    } else if i + n <= |t| {
      assert t[i..i + n][|a| - i] == sep;
    }
  }

  lemma {:induction false} HitsRight(a: string, sep: char, b: string, phrase: string, mode: Mode, j: nat)
    requires Separates(sep, phrase) && j <= |b|
    ensures Hit(Beside(a, sep, b), phrase, mode, |a| + 1 + j) <==> Hit(b, phrase, mode, j)
  {
    var t, n := Beside(a, sep, b), |phrase|;
    if j + n <= |b| { assert t[|a| + 1 + j..|a| + 1 + j + n] == b[j..j + n]; }
  }

  function Shifted(spans: seq<Span>, n: nat): seq<Span> {
    seq(|spans|, i requires 0 <= i < |spans| => Span(spans[i].start + n, spans[i].end + n))
  }

  lemma {:induction false} SpansRight(a: string, sep: char, b: string, phrase: string, mode: Mode, j: nat)
    requires Separates(sep, phrase)
    ensures SpansFrom(Beside(a, sep, b), phrase, mode, |a| + 1 + j) == Shifted(SpansFrom(b, phrase, mode, j), |a| + 1)
    decreases |b| + 1 - j
  {
    hide Hit;
    if j <= |b| {
      HitsRight(a, sep, b, phrase, mode, j);
      if Hit(b, phrase, mode, j) {
        SpansRight(a, sep, b, phrase, mode, j + |phrase|);
        var rest := SpansFrom(b, phrase, mode, j + |phrase|);
        assert Shifted([Span(j, j + |phrase|)] + rest, |a| + 1) == [Span(|a| + 1 + j, |a| + 1 + j + |phrase|)]
          + Shifted(rest, |a| + 1);
      } else {
        SpansRight(a, sep, b, phrase, mode, j + 1);
      }
    }
  }

  /** Scanning the whole finds the left text's matches, then the right text's. */
  lemma {:induction false} SpansSplit(a: string, sep: char, b: string, phrase: string, mode: Mode, i: nat)
    requires Separates(sep, phrase) && i <= |a|
    ensures SpansFrom(Beside(a, sep, b), phrase, mode, i) == SpansFrom(a, phrase, mode, i)
      + Shifted(SpansFrom(b, phrase, mode, 0), |a| + 1)
    decreases |a| - i
  {
    var t, right := Beside(a, sep, b), Shifted(SpansFrom(b, phrase, mode, 0), |a| + 1);
    HitsLeft(a, sep, b, phrase, mode, i);
    if i == |a| {
      hide Hit;
      SpansRight(a, sep, b, phrase, mode, 0);
      assert [] + right == right && SpansFrom(a, phrase, mode, i) == [];
    } else if Hit(a, phrase, mode, i) {
      assert i + |phrase| <= |a|;
      hide Hit, Shifted, Beside;
      SpansSplit(a, sep, b, phrase, mode, i + |phrase|);
      RegroupFront(Span(i, i + |phrase|), SpansFrom(a, phrase, mode, i + |phrase|), right);
    } else {
      hide Hit;
      SpansSplit(a, sep, b, phrase, mode, i + 1);
    }
  }

  /** Every match lies in its text. */
  lemma {:induction false} SpansBounded(t: string, phrase: string, mode: Mode, i: nat)
    requires phrase != ""
    ensures forall s | s in SpansFrom(t, phrase, mode, i) :: s.start < s.end <= |t|
    decreases |t| + 1 - i
  {
    if i <= |t| { SpansBounded(t, phrase, mode, if Hit(t, phrase, mode, i) then i + |phrase| else i + 1); }
  }

  lemma {:induction false} ShiftedIn(spans: seq<Span>, n: nat, s: Span)
    ensures s in Shifted(spans, n) <==> s.start >= n && s.end >= n && Span(s.start - n, s.end - n) in spans
  {
    if s in Shifted(spans, n) {
      var k :| 0 <= k < |spans| && Shifted(spans, n)[k] == s;
      assert spans[k] in spans;
    }
    if s.start >= n && s.end >= n && Span(s.start - n, s.end - n) in spans {
      var k :| 0 <= k < |spans| && spans[k] == Span(s.start - n, s.end - n);
      assert Shifted(spans, n)[k] == s;
    }
  }

  predicate AllSeparated(sep: char, phrases: seq<string>) {
    forall p | p in phrases :: Separates(sep, p)
  }

  /** The exempt matches of the whole are those of the two texts, each in its place. */
  lemma {:induction false} ExemptSplit(a: string, sep: char, b: string, exempts: seq<string>, mode: Mode, o: Span)
    requires AllSeparated(sep, exempts)
    ensures o in ExemptSpans(Beside(a, sep, b), exempts, mode)
      <==> o in ExemptSpans(a, exempts, mode) || o in Shifted(ExemptSpans(b, exempts, mode), |a| + 1)
    ensures o in ExemptSpans(a, exempts, mode) ==> o.start < o.end <= |a|
  {
    assert exempts != [] ==> exempts[0] in exempts && Separates(sep, exempts[0]) && exempts[0] != "";
    hide SpansFrom, Separates;
    ShiftedIn(ExemptSpans(b, exempts, mode), |a| + 1, o);
    if exempts != [] {
      ExemptSplit(a, sep, b, exempts[1..], mode, o);
      SpansSplit(a, sep, b, exempts[0], mode, 0);
      SpansBounded(a, exempts[0], mode, 0);
      ShiftedIn(SpansFrom(b, exempts[0], mode, 0), |a| + 1, o);
      ShiftedIn(ExemptSpans(b, exempts[1..], mode), |a| + 1, o);
    }
  }

  lemma {:induction false} ExemptedLeft(a: string, sep: char, b: string, exempts: seq<string>, mode: Mode, s: Span)
    requires AllSeparated(sep, exempts) && s.start < s.end <= |a|
    ensures Exempted(s, ExemptSpans(Beside(a, sep, b), exempts, mode)) <==> Exempted(s, ExemptSpans(a, exempts, mode))
  {
    hide ExemptSpans, AllSeparated, Shifted;
    var whole, left, right := ExemptSpans(Beside(a, sep, b), exempts, mode), ExemptSpans(a, exempts, mode),
        ExemptSpans(b, exempts, mode);
    if o :| o in whole && Inside(s, o) {
      ExemptSplit(a, sep, b, exempts, mode, o);
      ShiftedIn(right, |a| + 1, o);
    }
    if o :| o in left && Inside(s, o) {
      ExemptSplit(a, sep, b, exempts, mode, o);
    }
  }

  lemma {:induction false} ExemptedRight(a: string, sep: char, b: string, exempts: seq<string>, mode: Mode, s: Span)
    requires AllSeparated(sep, exempts) && s.start < s.end
    ensures Exempted(Span(s.start + |a| + 1, s.end + |a| + 1), ExemptSpans(Beside(a, sep, b), exempts, mode))
      <==> Exempted(s, ExemptSpans(b, exempts, mode))
  {
    hide ExemptSpans, AllSeparated, Shifted;
    var n, whole, right := |a| + 1, ExemptSpans(Beside(a, sep, b), exempts, mode), ExemptSpans(b, exempts, mode);
    var moved := Span(s.start + n, s.end + n);
    if o :| o in whole && Inside(moved, o) {
      ExemptSplit(a, sep, b, exempts, mode, o);
      ShiftedIn(right, n, o);
      assert o !in ExemptSpans(a, exempts, mode);
      assert Inside(s, Span(o.start - n, o.end - n));
    }
    if o :| o in right && Inside(s, o) {
      var at := Span(o.start + n, o.end + n);
      ExemptSplit(a, sep, b, exempts, mode, at);
      ShiftedIn(right, n, at);
      assert Span(at.start - n, at.end - n) == o && Inside(moved, at);
    }
  }

  /** A term fires on two texts side by side exactly when it fires on one of them: an exempt phrase
      in one never suppresses a match in the other. */
  lemma {:induction false} ExemptionIsLocal(a: string, sep: char, b: string, term: string, exempts: seq<string>,
      mode: Mode)
    requires Separates(sep, term) && AllSeparated(sep, exempts)
    ensures Fires(Beside(a, sep, b), term, exempts, mode)
      <==> Fires(a, term, exempts, mode) || Fires(b, term, exempts, mode)
  {
    hide SpansFrom, ExemptSpans, AllSeparated, Exempted, Shifted, Beside;
    var t, n := Beside(a, sep, b), |a| + 1;
    var left, right := SpansFrom(a, term, mode, 0), SpansFrom(b, term, mode, 0);
    SpansSplit(a, sep, b, term, mode, 0);
    SpansBounded(a, term, mode, 0);
    SpansBounded(b, term, mode, 0);
    if s :| s in SpansFrom(t, term, mode, 0) && !Exempted(s, ExemptSpans(t, exempts, mode)) {
      ShiftedIn(right, n, s);
      if s in left { ExemptedLeft(a, sep, b, exempts, mode, s); }
      else { ExemptedRight(a, sep, b, exempts, mode, Span(s.start - n, s.end - n)); }
    }
    if s :| s in left && !Exempted(s, ExemptSpans(a, exempts, mode)) {
      ExemptedLeft(a, sep, b, exempts, mode, s);
    }
    if s :| s in right && !Exempted(s, ExemptSpans(b, exempts, mode)) {
      var moved := Span(s.start + n, s.end + n);
      ShiftedIn(right, n, moved);
      assert Span(moved.start - n, moved.end - n) == s;
      ExemptedRight(a, sep, b, exempts, mode, s);
      assert moved in SpansFrom(t, term, mode, 0);
    }
  }
}
