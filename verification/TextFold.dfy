/** The comparison-only fold of `scripts/text_fold.py`: every maximal whitespace run becomes
    one space, typographic punctuation becomes ASCII, and an index map leads back to the
    original characters. The map is described by what it promises, built one character at a
    time, and found by the loop that takes a run of whitespace at a time: all three are one
    map. */
module TextFold {
  import opened Prelude

  /** `fold_char`: the typographic table, every entry one character long. */
  function FoldChar(c: char): char {
    var n := c as int;
    if 0x2018 <= n <= 0x201B || n == 0x2032 || n == 0x02BC || n == 0x00B4 then '\''
    else if 0x201C <= n <= 0x201F || n == 0x2033 then '\"'
    else if 0x2010 <= n <= 0x2015 || n == 0x2212 then '-'
    else c
  }

  /** What one more character `t[i]` adds to the folded form of `t[..i]`. */
  function FoldStep(t: string, i: nat): string
    requires i < |t|
  {
    if !IsSpace(t[i]) then [FoldChar(t[i])]
    else if i > 0 && IsSpace(t[i - 1]) then ""
    else " "
  }

  /** The folded form of the first `p` characters. */
  function FoldTo(t: string, p: nat): string
    requires p <= |t|
  {
    if p == 0 then "" else FoldTo(t, p - 1) + FoldStep(t, p - 1)
  }

  function Folded(t: string): string {
    FoldTo(t, |t|)
  }

  /** `fold_text`: the folded form stripped at both ends. */
  function FoldText(t: string): string {
    Strip(Folded(t))
  }

  /** The folded text with the `[start, end)` source range of each folded character. */
  datatype FoldMap = FoldMap(folded: string, starts: seq<nat>, ends: seq<nat>)

  /** Position `p` of `t` does not cut a whitespace run in two. */
  predicate CleanCut(t: string, p: nat) {
    p <= |t| && (0 < p < |t| ==> !(IsSpace(t[p - 1]) && IsSpace(t[p])))
  }

  /** Folded character `k` starts at clean cut `s`, and what precedes it folds to the folded
      characters before `k`. */
  predicate StartsFold(t: string, folded: string, k: nat, s: nat) {
    k <= |folded| && CleanCut(t, s) && FoldTo(t, s) == folded[..k]
  }

  /** What the map promises about the first `p` characters: the ranges tile them in order, and
      each begins where the folded characters before it end. */
  ghost predicate MapsTo(m: FoldMap, t: string, p: nat) {
    && p <= |t|
    && |m.folded| == |m.starts| == |m.ends|
    && m.folded == FoldTo(t, p)
    && (|m.folded| == 0 ==> p == 0)
    && (|m.folded| > 0 ==> m.starts[0] == 0)
    && (forall k | 0 <= k < |m.ends| :: m.ends[k] == if k + 1 < |m.starts| then m.starts[k + 1] else p)
    && (forall k | 0 <= k < |m.starts| :: m.starts[k] < p && StartsFold(t, m.folded, k, m.starts[k]))
  }

  ghost predicate Maps(m: FoldMap, t: string) {
    MapsTo(m, t, |t|)
  }

  /** The map of the first `p` characters, one character at a time. */
  function MapTo(t: string, p: nat): FoldMap
    requires p <= |t|
    ensures p > 0 ==> MapTo(t, p).ends != []
  {
    if p == 0 then FoldMap("", [], [])
    else
      var m := MapTo(t, p - 1);
      if p > 1 && IsSpace(t[p - 1]) && IsSpace(t[p - 2]) then m.(ends := m.ends[|m.ends| - 1 := p])
      else FoldMap(m.folded + FoldStep(t, p - 1), m.starts + [p - 1], m.ends + [p])
  }

  function FoldMapOf(t: string): FoldMap {
    MapTo(t, |t|)
  }

  /** Folding one character at a time builds the map the predicate describes. */
  lemma {:induction false} MapToMaps(t: string, p: nat)
    requires p <= |t|
    ensures MapsTo(MapTo(t, p), t, p)
  {
    hide IsSpace, FoldChar;
    if p > 0 {
      MapToMaps(t, p - 1);
      var m := MapTo(t, p - 1);
      if p > 1 && IsSpace(t[p - 1]) && IsSpace(t[p - 2]) {
        assert FoldTo(t, p) == FoldTo(t, p - 1) + "" == FoldTo(t, p - 1);
        FoldedEnds(t, p - 1);
      } else {
        MapGrows(m, t, p - 1, p, FoldStep(t, p - 1)[0]);
      }
    }
  }

  /** `fold_text_with_map`: the run-at-a-time loop builds the same map. */
  method FoldTextWithMap(text: string) returns (m: FoldMap)
    ensures m == FoldMapOf(text) && Maps(m, text)
  {
    hide IsSpace, FoldChar, StartsFold;
    m := FoldMap("", [], []);
    var i := 0;
    while i < |text|
      invariant 0 <= i <= |text| && CleanCut(text, i)
      invariant MapsTo(m, text, i)
    {
      var start := i;
      if IsSpace(text[i]) {
        while i < |text| && IsSpace(text[i])
          invariant start <= i <= |text|
          invariant start < i ==> IsSpace(text[i - 1])
          invariant FoldTo(text, i) == if i > start then m.folded + " " else m.folded
        {
          i := i + 1;
        }
        MapGrows(m, text, start, i, ' ');
        m := FoldMap(m.folded + " ", m.starts + [start], m.ends + [i]);
      } else {
        MapGrows(m, text, i, i + 1, FoldChar(text[i]));
        m := FoldMap(m.folded + [FoldChar(text[i])], m.starts + [i], m.ends + [i + 1]);
        i := i + 1;
      }
    }
    MapToMaps(text, |text|);
    MapUnique(m, FoldMapOf(text), text);
  }

  lemma {:induction false} MapGrows(m: FoldMap, t: string, start: nat, end: nat, c: char)
    requires start < end <= |t| && CleanCut(t, start)
    requires MapsTo(m, t, start)
    requires FoldTo(t, end) == m.folded + [c]
    ensures MapsTo(FoldMap(m.folded + [c], m.starts + [start], m.ends + [end]), t, end)
  {
    hide IsSpace, FoldChar;
    var g := FoldMap(m.folded + [c], m.starts + [start], m.ends + [end]);
    forall k | 0 <= k < |g.starts|
      ensures g.starts[k] < end && StartsFold(t, g.folded, k, g.starts[k])
    {
      if k < |m.starts| {
        assert StartsFold(t, m.folded, k, m.starts[k]);
        assert g.folded[..k] == m.folded[..k];
      } else {
        assert g.folded[..k] == m.folded;
      }
    }
  }

  /** There is only one map of a text. */
  lemma {:induction false} MapUnique(a: FoldMap, b: FoldMap, t: string)
    requires Maps(a, t) && Maps(b, t)
    ensures a == b
  {
    forall k | 0 <= k < |a.starts|
      ensures a.starts[k] == b.starts[k]
    {
      assert StartsFold(t, a.folded, k, a.starts[k]);
      assert StartsFold(t, b.folded, k, b.starts[k]);
      CutIsDetermined(t, a.starts[k], b.starts[k]);
    }
    assert a.starts == b.starts;
    assert a.ends == b.ends;
  }

  /** Two clean cuts with the same folded prefix are the same cut. */
  lemma {:induction false} CutIsDetermined(t: string, p: nat, q: nat)
    requires CleanCut(t, p) && CleanCut(t, q) && FoldTo(t, p) == FoldTo(t, q)
    ensures p == q
  {
    if p < q { FoldGrows(t, p, q); }
    if q < p { FoldGrows(t, q, p); }
  }

  lemma {:induction false} FoldGrows(t: string, p: nat, q: nat)
    requires p < q <= |t| && CleanCut(t, p)
    ensures |FoldTo(t, q)| > |FoldTo(t, p)|
    decreases q
  {
    hide IsSpace, FoldChar;
    if q > p + 1 { FoldGrows(t, p, q - 1); }
  }

  /** The converse of growth: fewer folded characters, earlier cut. */
  lemma {:induction false} FoldMonotone(t: string, p: nat, q: nat)
    requires p <= q <= |t|
    ensures |FoldTo(t, p)| <= |FoldTo(t, q)| && FoldTo(t, q)[..|FoldTo(t, p)|] == FoldTo(t, p)
    decreases q
  {
    hide IsSpace, FoldChar;
    if p < q { FoldMonotone(t, p, q - 1); }
  }

  // ---------------------------------------------------------------------
  // Folding a concatenation
  // ---------------------------------------------------------------------

  /** `a` ends and `b` begins inside one whitespace run. */
  predicate JoinsRun(a: string, b: string) {
    a != "" && b != "" && IsSpace(a[|a| - 1]) && IsSpace(b[0])
  }

  /** Drops the one space a whitespace run shared with the text before would count twice. */
  function Continued(folded: string, joins: bool): string {
    if joins && folded != "" then folded[1..] else folded
  }

  /** Folding on past a cut: the rest folds as it would alone, less a shared run's space. */
  lemma {:induction false} FoldPast(t: string, cut: nat, rest: string, k: nat)
    requires cut <= |t| && rest == t[cut..] && k <= |rest|
    ensures FoldTo(t, cut + k) == FoldTo(t, cut) + Continued(FoldTo(rest, k), !CleanCut(t, cut))
    ensures k > 0 ==> FoldTo(rest, k) != ""
  {
    hide IsSpace, FoldChar, FoldStep, CleanCut;
    if k > 0 {
      hide Continued;
      var before, part, step := FoldTo(t, cut), FoldTo(rest, k - 1), FoldStep(rest, k - 1);
      FoldPast(t, cut, rest, k - 1);
      FoldStepShift(t, cut, rest, k - 1);
      assert FoldTo(t, cut + k) == FoldTo(t, cut + (k - 1)) + FoldStep(t, cut + (k - 1));
      assert FoldTo(rest, k) == part + step;
      ContinuedAppend(before, part, step, !CleanCut(t, cut));
    }
  }

  lemma {:induction false} FoldStepShift(t: string, cut: nat, rest: string, k: nat)
    requires cut <= |t| && rest == t[cut..] && k < |rest|
    ensures k > 0 ==> FoldStep(t, cut + k) == FoldStep(rest, k)
    ensures k == 0 ==> FoldStep(t, cut) == Continued(FoldStep(rest, 0), !CleanCut(t, cut)) && |FoldStep(rest, 0)| == 1
  {
    hide IsSpace, FoldChar;
    assert rest[k] == t[cut + k];
    if k > 0 { assert rest[k - 1] == t[cut + (k - 1)]; }
  }

  lemma {:induction false} ContinuedAppend(before: string, part: string, step: string, joins: bool)
    ensures part != "" ==>
      (before + Continued(part, joins)) + step == before + Continued(part + step, joins)
    ensures part == "" ==> before + Continued(part, joins) == before && part + step == step
  {
  }

  lemma {:induction false} FoldPrefix(a: string, b: string, k: nat)
    requires k <= |a|
    ensures FoldTo(a + b, k) == FoldTo(a, k)
  {
    if k > 0 { FoldPrefix(a, b, k - 1); }
  }

  /** Folding a concatenation that does not cut a whitespace run is concatenating the folds. */
  lemma {:induction false} FoldedConcat(a: string, b: string)
    ensures Folded(a + b) == Folded(a) + Continued(Folded(b), JoinsRun(a, b))
  {
    FoldPrefix(a, b, |a|);
    FoldPast(a + b, |a|, b, |b|);
  }

  /** The ends of the folded text show whether the ends of the text are whitespace. */
  lemma {:induction false} FoldedEnds(t: string, p: nat)
    requires 0 < p <= |t|
    ensures FoldTo(t, p) != "" && (FoldTo(t, p)[0] == ' ' <==> IsSpace(t[0]))
    ensures FoldTo(t, p)[|FoldTo(t, p)| - 1] == ' ' <==> IsSpace(t[p - 1])
  {
    hide IsSpace, FoldChar;
    FoldCharInk(t[p - 1]);
    if p > 1 { FoldedEnds(t, p - 1); }
  }

  /** Only whitespace folds to a space. */
  lemma {:induction false} FoldCharInk(c: char)
    ensures !IsSpace(c) ==> FoldChar(c) != ' ' && !IsSpace(FoldChar(c))
  {
  }

  /** A folded text holds a space only for a whitespace run, and never two in a row. */
  lemma {:induction false} FoldedSpaces(t: string, p: nat)
    requires p <= |t|
    ensures forall k | 0 <= k < |FoldTo(t, p)| :: IsSpace(FoldTo(t, p)[k]) <==> FoldTo(t, p)[k] == ' '
    ensures forall k | 0 <= k < |FoldTo(t, p)| - 1 :: !(FoldTo(t, p)[k] == ' ' && FoldTo(t, p)[k + 1] == ' ')
  {
    if p > 0 {
      FoldedSpaces(t, p - 1);
      FoldCharInk(t[p - 1]);
      if p > 1 { FoldedEnds(t, p - 1); }
    }
  }

  /** Where folded position `k` sits in the source: the start of its character, or the end. */
  function SourceCut(m: FoldMap, t: string, k: nat): nat
    requires |m.folded| == |m.starts| && k <= |m.folded|
  {
    if k < |m.starts| then m.starts[k] else |t|
  }

  /** Folded positions and clean cuts of the source are in one-to-one order. */
  lemma {:induction false} SourceCutFolds(m: FoldMap, t: string, k: nat)
    requires Maps(m, t) && k <= |m.folded|
    ensures CleanCut(t, SourceCut(m, t, k)) && FoldTo(t, SourceCut(m, t, k)) == m.folded[..k]
    ensures k == 0 ==> SourceCut(m, t, k) == 0
    ensures k > 0 ==> m.ends[k - 1] == SourceCut(m, t, k)
  {
    if k < |m.starts| {
      assert StartsFold(t, m.folded, k, m.starts[k]);
    } else {
      assert m.folded[..k] == m.folded;
    }
  }

  lemma {:induction false} SourceCutOrdered(m: FoldMap, t: string, a: nat, b: nat)
    requires Maps(m, t) && a < b <= |m.folded|
    ensures SourceCut(m, t, a) < SourceCut(m, t, b)
  {
    SourceCutFolds(m, t, a);
    SourceCutFolds(m, t, b);
    var s, e := SourceCut(m, t, a), SourceCut(m, t, b);
    assert |m.folded[..a]| < |m.folded[..b]|;
    if e <= s { FoldMonotone(t, e, s); }
  }

  /** From a clean cut on, the fold continues with the fold of what follows. */
  lemma {:induction false} FoldBetween(t: string, s: nat, e: nat)
    requires s <= e <= |t| && CleanCut(t, s)
    ensures FoldTo(t, e) == FoldTo(t, s) + Folded(t[s..e])
  {
    hide IsSpace, FoldChar, FoldTo, FoldStep;
    FoldPast(t, s, t[s..], e - s);
    assert t[s..] == t[s..e] + t[e..];
    FoldPrefix(t[s..e], t[e..], e - s);
  }

  /** Source text that whole folded characters come from folds to exactly those characters. */
  lemma {:induction false} FoldedSlice(m: FoldMap, t: string, a: nat, b: nat)
    requires Maps(m, t) && a < b <= |m.folded|
    ensures SourceCut(m, t, a) < SourceCut(m, t, b) <= |t|
    ensures Folded(t[SourceCut(m, t, a)..SourceCut(m, t, b)]) == m.folded[a..b]
  {
    SourceCutOrdered(m, t, a, b);
    SourceCutFolds(m, t, a);
    SourceCutFolds(m, t, b);
    FoldBetween(t, SourceCut(m, t, a), SourceCut(m, t, b));
    Cancel(m.folded, a, b, Folded(t[SourceCut(m, t, a)..SourceCut(m, t, b)]));
  }

  lemma {:induction false} Cancel(s: string, a: nat, b: nat, x: string)
    requires a <= b <= |s| && s[..b] == s[..a] + x
    ensures x == s[a..b]
  {
    assert s[..b][a..] == s[a..b];
    assert (s[..a] + x)[a..] == x;
  }

  /** Where a clean cut of the source lands in the fold. */
  lemma {:induction false} CutInFold(m: FoldMap, t: string, p: nat)
    requires Maps(m, t) && CleanCut(t, p)
    ensures |FoldTo(t, p)| <= |m.folded| && m.folded[..|FoldTo(t, p)|] == FoldTo(t, p)
    ensures SourceCut(m, t, |FoldTo(t, p)|) == p
  {
    FoldMonotone(t, p, |t|);
    SourceCutFolds(m, t, |FoldTo(t, p)|);
    CutIsDetermined(t, p, SourceCut(m, t, |FoldTo(t, p)|));
  }
}
