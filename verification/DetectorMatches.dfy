/** What a detector match is, and which matches a scan finds (`find_spans` and the patterns it
    compiles, `scripts/detector_common.py`), in terms of where phrases stand in a text and what
    stands beside them; and which terms fire, in terms of matches alone, with no word of the
    scan that finds them. */
module DetectorMatches {
  import opened Prelude
  import opened Boundaries
  import opened Detector

  /** There is a word character at `i`. */
  predicate WordAt(t: string, i: int) {
    0 <= i < |t| && IsWord(t[i])
  }

  /** The phrase stands at `i`; as a whole word, each of its ends is one of a word: of the characters at
      either side of it, one is a word character and one is not. */
  ghost predicate Stands(t: string, phrase: string, mode: Mode, i: nat) {
    && i + |phrase| <= |t| && t[i..i + |phrase|] == phrase
    && (mode == WordBoundary ==>
          && WordAt(t, i - 1) != WordAt(t, i)
          && WordAt(t, i + |phrase| - 1) != WordAt(t, i + |phrase|))
  }

  lemma {:induction false} HitStands(t: string, phrase: string, mode: Mode, i: nat)
    ensures Hit(t, phrase, mode, i) <==> Stands(t, phrase, mode, i)
  {
    hide IsWord;
  }

  /** A phrase that begins and ends in a word character is matched as a whole word exactly where it stands with
      no word character beside it. */
  lemma {:induction false} WholeWordHit(t: string, phrase: string, i: nat)
    requires phrase != "" && WordAt(phrase, 0) && WordAt(phrase, |phrase| - 1)
    ensures Hit(t, phrase, WordBoundary, i)
      <==> (i + |phrase| <= |t| && t[i..i + |phrase|] == phrase
            && !WordAt(t, i - 1) && !WordAt(t, i + |phrase|))
  {
    HitStands(t, phrase, WordBoundary, i);
    if i + |phrase| <= |t| && t[i..i + |phrase|] == phrase {
      assert t[i] == phrase[0] && t[i + |phrase| - 1] == phrase[|phrase| - 1];
    }
  }

  /** Where the search goes on after the first `k` matches. */
  function Resume(spans: seq<Span>, phrase: string, k: nat): nat
    requires k <= |spans|
  {
    if k == 0 then 0 else if phrase == "" then spans[k - 1].start + 1 else spans[k - 1].end
  }

  /** The matches are what a search from left to right finds, each the first from where it goes on. */
  ghost predicate Scans(t: string, phrase: string, mode: Mode, spans: seq<Span>) {
    && (forall k | 0 <= k < |spans| :: Next(t, phrase, mode, Resume(spans, phrase, k), spans[k]))
    && forall i | Resume(spans, phrase, |spans|) <= i <= |t| :: !Stands(t, phrase, mode, i)
  }

  ghost predicate Next(t: string, phrase: string, mode: Mode, from: nat, span: Span) {
    && from <= span.start && span.end == span.start + |phrase| && Stands(t, phrase, mode, span.start)
    && forall i | from <= i < span.start :: !Stands(t, phrase, mode, i)
  }

  lemma {:induction false} SpansScan(t: string, phrase: string, mode: Mode)
    ensures Scans(t, phrase, mode, SpansFrom(t, phrase, mode, 0))
  {
    ScanFrom(t, phrase, mode, [], 0, 0);
    assert [] + SpansFrom(t, phrase, mode, 0) == SpansFrom(t, phrase, mode, 0);
  }

  ghost predicate Found(t: string, phrase: string, mode: Mode, found: seq<Span>) {
    forall k | 0 <= k < |found| :: Next(t, phrase, mode, Resume(found, phrase, k), found[k])
  }

  lemma {:induction false} ScanFrom(t: string, phrase: string, mode: Mode, found: seq<Span>, from: nat, i: nat)
    requires Found(t, phrase, mode, found)
    requires from == Resume(found, phrase, |found|) <= i && forall j | from <= j < i :: !Stands(t, phrase, mode, j)
    ensures Scans(t, phrase, mode, found + SpansFrom(t, phrase, mode, i))
    decreases |t| + 1 - i
  {
    hide Hit, Stands, Found, Next, Resume, Scans;
    HitStands(t, phrase, mode, i);
    if i > |t| {
      assert found + [] == found;
      ScanEnds(t, phrase, mode, found, i);
    } else if Hit(t, phrase, mode, i) {
      var more := found + [Span(i, i + |phrase|)];
      FoundNext(t, phrase, mode, found, i);
      ScanFrom(t, phrase, mode, more, Past(phrase, i), Past(phrase, i));
      assert more + SpansFrom(t, phrase, mode, Past(phrase, i)) == found + SpansFrom(t, phrase, mode, i);
    } else {
      ScanFrom(t, phrase, mode, found, from, i + 1);
    }
  }

  lemma {:induction false} ScanEnds(t: string, phrase: string, mode: Mode, found: seq<Span>, i: nat)
    requires Found(t, phrase, mode, found) && i > |t|
    requires forall j | Resume(found, phrase, |found|) <= j < i :: !Stands(t, phrase, mode, j)
    ensures Scans(t, phrase, mode, found)
  {
    hide Stands, Next;
  }

  lemma {:induction false} FoundNext(t: string, phrase: string, mode: Mode, found: seq<Span>, i: nat)
    requires Found(t, phrase, mode, found) && Stands(t, phrase, mode, i) && Resume(found, phrase, |found|) <= i
    requires forall j | Resume(found, phrase, |found|) <= j < i :: !Stands(t, phrase, mode, j)
    ensures var more := found + [Span(i, i + |phrase|)];
            Found(t, phrase, mode, more) && Resume(more, phrase, |more|) == Past(phrase, i)
  {
    hide Next, Resume;
    var more := found + [Span(i, i + |phrase|)];
    IsNext(t, phrase, mode, Resume(found, phrase, |found|), i);
    ResumeLast(found, phrase, i);
    forall k | 0 <= k < |more| ensures Next(t, phrase, mode, Resume(more, phrase, k), more[k]) {
      ResumeSame(found, Span(i, i + |phrase|), phrase, k);
    }
  }

  lemma {:induction false} IsNext(t: string, phrase: string, mode: Mode, from: nat, i: nat)
    requires from <= i && Stands(t, phrase, mode, i) && forall j | from <= j < i :: !Stands(t, phrase, mode, j)
    ensures Next(t, phrase, mode, from, Span(i, i + |phrase|))
  {
    hide Stands;
  }

  lemma {:induction false} ResumeLast(found: seq<Span>, phrase: string, i: nat)
    ensures Resume(found + [Span(i, i + |phrase|)], phrase, |found| + 1) == Past(phrase, i)
  {
  }

  lemma {:induction false} ResumeSame(found: seq<Span>, span: Span, phrase: string, k: nat)
    requires k <= |found|
    ensures Resume(found + [span], phrase, k) == Resume(found, phrase, k)
  {
  }

  /** The matches a term is not excused for: some match of it lies within no match of an exempt phrase. */
  ghost predicate Unexcused(t: string, term: string, exempts: seq<string>, mode: Mode) {
    exists s | s in SpansFrom(t, term, mode, 0) :: forall e, o | e in exempts && o in SpansFrom(t, e, mode, 0) ::
      s.start < o.start || s.end > o.end
  }

  lemma {:induction false} ExemptsAre(t: string, exempts: seq<string>, mode: Mode, o: Span)
    ensures o in ExemptSpans(t, exempts, mode) <==> exists e | e in exempts :: o in SpansFrom(t, e, mode, 0)
  {
    hide SpansFrom;
    if exempts != [] {
      ExemptsAre(t, exempts[1..], mode, o);
      if o in ExemptSpans(t, exempts[1..], mode) {
        var e :| e in exempts[1..] && o in SpansFrom(t, e, mode, 0);
        assert e in exempts;
      }
      if e :| e in exempts && o in SpansFrom(t, e, mode, 0) { assert e == exempts[0] || e in exempts[1..]; }
    }
  }

  lemma {:induction false} ExcusedBy(t: string, exempts: seq<string>, mode: Mode, s: Span)
    ensures Exempted(s, ExemptSpans(t, exempts, mode))
      <==> !forall e, o | e in exempts && o in SpansFrom(t, e, mode, 0) :: s.start < o.start || s.end > o.end
  {
    hide SpansFrom, ExemptSpans;
    if o :| o in ExemptSpans(t, exempts, mode) && Inside(s, o) {
      ExemptsAre(t, exempts, mode, o);
    }
    if e, o :| e in exempts && o in SpansFrom(t, e, mode, 0) && !(s.start < o.start || s.end > o.end) {
      ExemptsAre(t, exempts, mode, o);
      assert Inside(s, o);
    }
  }

  /** A term fires exactly when a match of it is excused by no exempt phrase. */
  lemma {:induction false} FiresUnexcused(t: string, term: string, exempts: seq<string>, mode: Mode)
    ensures Fires(t, term, exempts, mode) <==> Unexcused(t, term, exempts, mode)
  {
    hide SpansFrom, ExemptSpans, Exempted;
    forall s | s in SpansFrom(t, term, mode, 0)
      ensures Exempted(s, ExemptSpans(t, exempts, mode))
        <==> !forall e, o | e in exempts && o in SpansFrom(t, e, mode, 0) :: s.start < o.start || s.end > o.end
    {
      ExcusedBy(t, exempts, mode, s);
    }
  }

  /** The triggers that fire on a surface are those with such a match, in the rule's order. */
  lemma {:induction false} FiredAre(t: string, rule: Rule, k: nat) returns (at: seq<nat>)
    requires k <= |rule.triggers|
    ensures forall a, b | 0 <= a < b < |at| :: at[a] < at[b]
    ensures forall i: nat :: i in at <==>
      i < k && Unexcused(t, Lower(rule.triggers[i]), Lowered(rule.exempts), rule.mode)
    ensures |FiredTo(t, rule, k)| == |at| && forall a | 0 <= a < |at| ::
      at[a] < k && FiredTo(t, rule, k)[a] == rule.triggers[at[a]]
  {
    hide Fires, Unexcused, Lower, Lowered;
    at := [];
    if k > 0 {
      at := FiredAre(t, rule, k - 1);
      assert forall a | 0 <= a < |at| :: at[a] in at;
      FiresUnexcused(t, Lower(rule.triggers[k - 1]), Lowered(rule.exempts), rule.mode);
      if Fires(t, Lower(rule.triggers[k - 1]), Lowered(rule.exempts), rule.mode) { at := at + [k - 1]; }
    }
  }
}
