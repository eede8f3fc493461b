/** Dropping a generated listing: field frames on a stack (`scripts/extraction_normalization_stage.py`). */
module FieldRegions {
  import opened Prelude
  import opened Boundaries
  import opened FieldEvents

  // ---------------------------------------------------------------------
  // Field codes and listing lines
  // ---------------------------------------------------------------------

  /** Upper case as far as the field codes need it: ASCII letters, and the dotless i. */
  function UpperChar(c: char): char {
    if 'a' <= c <= 'z' then ('A' as int + (c as int - 'a' as int)) as char
    else if c as int == 0x131 then 'I' else c
  }

  function Upper(s: string): string {
    seq(|s|, i requires 0 <= i < |s| => UpperChar(s[i]))
  }

  /** Where the word starting at `i` ends. */
  function WordEnd(s: string, i: nat): (r: nat)
    requires i <= |s|
    ensures i <= r <= |s|
    decreases |s| - i
  {
    if i < |s| && !IsSpace(s[i]) then WordEnd(s, i + 1) else i
  }

  /** `s.split()`'s words from position `i` on. */
  function WordsFrom(s: string, i: nat): seq<string>
    requires i <= |s|
    decreases |s| - i
  {
    var start := SpacesEnd(s, i);
    var end := WordEnd(s, start);
    if end == start || end <= i then [] else [s[start..end]] + WordsFrom(s, end)
  }

  /** `_field_code_name`. */
  function CodeName(instr: string): string {
    var words := WordsFrom(instr, 0);
    if words == [] then "" else Upper(words[0])
  }

  /** `_field_code_target`. */
  function CodeTarget(instr: string): string {
    var words := WordsFrom(instr, 0);
    if |words| > 1 then words[1] else ""
  }

  /** `OMITTED_FIELD_RESULT_CODES`. */
  predicate Generated(instr: string) {
    CodeName(instr) == "TOC" || CodeName(instr) == "INDEX"
  }

  predicate TailChar(c: char) {
    IsDigit(c) || c == ' ' || c == '\t' || c == ',' || c == '-' || c as int == 0x2013
  }

  /** Where the page-number tail that ends at `end` begins. */
  function TailStart(s: string, end: nat): (r: nat)
    requires end <= |s|
    ensures r <= end
  {
    if end > 0 && TailChar(s[end - 1]) then TailStart(s, end - 1) else end
  }

  /** `_PAGE_NUMBER_TAIL_RE`: the text ends in page numbers set off by a tab or a comma. */
  predicate PageNumberTail(text: string) {
    var s := StripRight(text);
    s != "" && IsDigit(s[|s| - 1]) &&
    exists k | TailStart(s, |s|) <= k < |s| :: s[k] == '\t' || s[k] == ','
  }

  // ---------------------------------------------------------------------
  // The frame machine
  // ---------------------------------------------------------------------

  /** What the partition needs to know of a paragraph. */
  datatype Para = Para(events: seq<Event>, listingStyle: bool, realHeading: bool)

  datatype Frame = Frame(instr: string, inResult: bool)

  /** Every frame ever begun, by key; the open ones, innermost last; and those an end closed. */
  datatype Machine = Machine(frames: seq<Frame>, open: seq<nat>, closed: set<nat>)

  const START: Machine := Machine([], [], {})

  predicate Sound(m: Machine) {
    && (forall i | 0 <= i < |m.open| :: m.open[i] < |m.frames|)
    && (forall key | key in m.closed :: key < |m.frames|)
  }

  function Step(m: Machine, event: Event): (r: Machine)
    requires Sound(m)
    ensures Sound(r) && |m.frames| <= |r.frames|
  {
    var depth := |m.open|;
    match event
    case Begin => Machine(m.frames + [Frame("", false)], m.open + [|m.frames|], m.closed)
    case Instr(code) =>
      if depth == 0 then m
      else
        var key := m.open[depth - 1];
        m.(frames := m.frames[key := m.frames[key].(instr := m.frames[key].instr + code)])
    case Separate =>
      if depth == 0 then m
      else
        var key := m.open[depth - 1];
        m.(frames := m.frames[key := m.frames[key].(inResult := true)])
    case End => if depth == 0 then m else m.(open := m.open[..depth - 1], closed := m.closed + {m.open[depth - 1]})
    case _ => m
  }

  /** The innermost of the first `depth` open frames that is a generated listing's result. */
  function OpenOmitted(m: Machine, depth: nat): Option<nat>
    requires Sound(m) && depth <= |m.open|
  {
    if depth == 0 then None
    else
      var key := m.open[depth - 1];
      if m.frames[key].inResult && Generated(m.frames[key].instr) then Some(key) else OpenOmitted(m, depth - 1)
  }

  /** What has been seen of a paragraph so far: the frame its first inside text lies in, whether
      some text lies outside, the text itself, its link anchors and its bookmarks. */
  datatype Sight = Sight(inside: Option<nat>, outside: bool, shown: string, anchors: set<string>,
      bookmarks: set<string>)

  const NOTHING_SEEN: Sight := Sight(None, false, "", {}, {})

  function See(s: Sight, m: Machine, event: Event): Sight
    requires Sound(m)
  {
    match event
    case Shown(text) =>
      var frame := OpenOmitted(m, |m.open|);
      s.(shown := s.shown + text, outside := s.outside || frame.None?,
         inside := if s.inside.None? then frame else s.inside)
    case Anchor(name) => s.(anchors := s.anchors + {name})
    case Bookmark(name) => s.(bookmarks := s.bookmarks + {name})
    case _ => s
  }

  /** The machine after the first `k` events of a paragraph. */
  function After(m: Machine, events: seq<Event>, k: nat): (r: Machine)
    requires Sound(m) && k <= |events|
    ensures Sound(r) && |m.frames| <= |r.frames|
  {
    if k == 0 then m else Step(After(m, events, k - 1), events[k - 1])
  }

  function SeenAfter(m: Machine, events: seq<Event>, k: nat): Sight
    requires Sound(m) && k <= |events|
  {
    if k == 0 then NOTHING_SEEN else See(SeenAfter(m, events, k - 1), After(m, events, k - 1), events[k - 1])
  }

  /** The machine after the first `k` paragraphs. */
  function MachineAt(paras: seq<Para>, k: nat): (r: Machine)
    requires k <= |paras|
    ensures Sound(r)
  {
    if k == 0 then START else After(MachineAt(paras, k - 1), paras[k - 1].events, |paras[k - 1].events|)
  }

  // ---------------------------------------------------------------------
  // The ruling on one paragraph
  // ---------------------------------------------------------------------

  /** Targets of the page references begun at or after `from`. */
  function PageRefTargets(frames: seq<Frame>, from: nat): set<string>
    requires from <= |frames|
    decreases |frames| - from
  {
    if from == |frames| then {}
    else
      (if CodeName(frames[from].instr) == "PAGEREF" && CodeTarget(frames[from].instr) != ""
       then {CodeTarget(frames[from].instr)} else {}) + PageRefTargets(frames, from + 1)
  }

  predicate HasPageRef(frames: seq<Frame>, from: nat)
    requires from <= |frames|
    decreases |frames| - from
  {
    from < |frames| && (CodeName(frames[from].instr) == "PAGEREF" || HasPageRef(frames, from + 1))
  }

  /** The frame a paragraph's text lies in, if it lies nowhere else, and what the guard is told. */
  datatype Ruling = Ruling(frame: Option<nat>, shaped: bool, heading: bool, anchors: set<string>,
      bookmarks: set<string>)

  function Rule(before: Machine, para: Para): Ruling
    requires Sound(before)
  {
    var m := After(before, para.events, |para.events|);
    var s := SeenAfter(before, para.events, |para.events|);
    var anchors := s.anchors + PageRefTargets(m.frames, |before.frames|);
    Ruling(if s.outside then None else s.inside,
           para.listingStyle || anchors != {} || HasPageRef(m.frames, |before.frames|) || PageNumberTail(s.shown),
           para.realHeading, anchors, s.bookmarks)
  }

  function RulingAt(paras: seq<Para>, i: nat): Ruling
    requires i < |paras|
  {
    Rule(MachineAt(paras, i), paras[i])
  }

  /** What a frame's region has gathered. */
  datatype Region = Region(shaped: bool, heading: bool, anchors: set<string>, bookmarks: set<string>)

  function Gather(region: Option<Region>, r: Ruling): Region {
    match region
    case None => Region(r.shaped, r.heading, r.anchors, r.bookmarks)
    case Some(g) =>
      Region(g.shaped && r.shaped, g.heading || r.heading, g.anchors + r.anchors, g.bookmarks + r.bookmarks)
  }

  /** The region of frame `key` after the first `k` paragraphs, if one of them lies in it. */
  function RegionTo(paras: seq<Para>, key: nat, k: nat): Option<Region>
    requires k <= |paras|
  {
    if k == 0 then None
    else if RulingAt(paras, k - 1).frame == Some(key)
      then Some(Gather(RegionTo(paras, key, k - 1), RulingAt(paras, k - 1)))
    else RegionTo(paras, key, k - 1)
  }

  predicate Guarded(region: Region) {
    region.shaped && !region.heading && region.anchors !! region.bookmarks
  }

  predicate Committed(paras: seq<Para>, key: nat) {
    && key in MachineAt(paras, |paras|).closed
    && RegionTo(paras, key, |paras|).Some? && Guarded(RegionTo(paras, key, |paras|).value)
  }

  predicate Omitted(paras: seq<Para>, i: nat)
    requires i < |paras|
  {
    RulingAt(paras, i).frame.Some? && Committed(paras, RulingAt(paras, i).frame.value)
  }

  /** The positions below `k` that are omitted, or that are not, in order. */
  function PositionsTo(paras: seq<Para>, omitted: bool, k: nat): seq<nat>
    requires k <= |paras|
  {
    if k == 0 then []
    else PositionsTo(paras, omitted, k - 1) + (if Omitted(paras, k - 1) == omitted then [k - 1] else [])
  }

  // ---------------------------------------------------------------------
  // The partition as it runs
  // ---------------------------------------------------------------------

  /** One paragraph's events, through the machine. */
  method RuleParagraph(before: Machine, para: Para) returns (m: Machine, r: Ruling)
    requires Sound(before)
    ensures m == After(before, para.events, |para.events|) && r == Rule(before, para)
  {
    hide PageNumberTail, Step, See, CodeName, CodeTarget;
    m := before;
    var s := NOTHING_SEEN;
    for k := 0 to |para.events|
      invariant m == After(before, para.events, k) && s == SeenAfter(before, para.events, k)
    {
      s := See(s, m, para.events[k]);
      m := Step(m, para.events[k]);
    }
    var anchors, hasPageRef := s.anchors, false;
    for key := |before.frames| to |m.frames|
      invariant anchors + PageRefTargets(m.frames, key) == s.anchors + PageRefTargets(m.frames, |before.frames|)
      invariant hasPageRef || HasPageRef(m.frames, key) <==> HasPageRef(m.frames, |before.frames|)
    {
      if CodeName(m.frames[key].instr) == "PAGEREF" {
        hasPageRef := true;
        var target := CodeTarget(m.frames[key].instr);
        if target != "" { anchors := anchors + {target}; }
      }
    }
    assert PageRefTargets(m.frames, |m.frames|) == {};
    var shaped := para.listingStyle || anchors != {} || hasPageRef || PageNumberTail(s.shown);
    r := Ruling(if s.outside then None else s.inside, shaped, para.realHeading, anchors, s.bookmarks);
  }

  /** The buffered regions are the specification's. */
  ghost predicate Buffered(paras: seq<Para>, k: nat, regions: map<nat, Region>)
    requires k <= |paras|
  {
    forall key :: RegionTo(paras, key, k) == if key in regions then Some(regions[key]) else None
  }

  method Buffer(ghost paras: seq<Para>, ghost k: nat, regions: map<nat, Region>, r: Ruling)
      returns (next: map<nat, Region>)
    requires k < |paras| && r == RulingAt(paras, k) && Buffered(paras, k, regions)
    ensures Buffered(paras, k + 1, next)
  {
    hide RulingAt, Gather;
    next := regions;
    if r.frame.Some? {
      var key := r.frame.value;
      next := regions[key := Gather(if key in regions then Some(regions[key]) else None, r)];
    }
  }

  lemma {:induction false} NothingBuffered(paras: seq<Para>)
    ensures Buffered(paras, 0, map[])
  {
  }

  /** The whole stream is ruled on before anything is dropped. */
  method RuleAll(paras: seq<Para>) returns (m: Machine, rulings: seq<Ruling>, regions: map<nat, Region>)
    ensures m == MachineAt(paras, |paras|) && Buffered(paras, |paras|, regions)
    ensures |rulings| == |paras| && forall i | 0 <= i < |paras| :: rulings[i] == RulingAt(paras, i)
  {
    hide Rule, After, RegionTo, RulingAt;
    m, rulings, regions := START, [], map[];
    NothingBuffered(paras);
    for k := 0 to |paras|
      invariant m == MachineAt(paras, k) && Buffered(paras, k, regions)
      invariant |rulings| == k && forall i | 0 <= i < k :: rulings[i] == RulingAt(paras, i)
    {
      hide Buffered;
      var r;
      m, r := RuleParagraph(m, paras[k]);
      RulingIs(paras, k);
      regions := Buffer(paras, k, regions, r);
      rulings := rulings + [r];
    }
  }

  /** `_partition_field_result_paragraphs`: kept and omitted positions, each in document order. */
  method Partition(paras: seq<Para>) returns (kept: seq<nat>, omitted: seq<nat>)
    ensures kept == PositionsTo(paras, false, |paras|) && omitted == PositionsTo(paras, true, |paras|)
  {
    hide RulingAt, Guarded, RegionTo, MachineAt;
    var m, rulings, regions := RuleAll(paras);
    kept, omitted := [], [];
    for k := 0 to |paras|
      invariant kept == PositionsTo(paras, false, k) && omitted == PositionsTo(paras, true, k)
    {
      var frame := rulings[k].frame;
      if frame.Some? && frame.value in m.closed && frame.value in regions && Guarded(regions[frame.value]) {
        omitted := omitted + [k];
      } else {
        kept := kept + [k];
      }
    }
  }

  lemma {:induction false} RulingIs(paras: seq<Para>, k: nat)
    requires k < |paras|
    ensures RulingAt(paras, k) == Rule(MachineAt(paras, k), paras[k])
  {
  }

  // ---------------------------------------------------------------------
  // What the partition guarantees
  // ---------------------------------------------------------------------

  /** Kept and omitted positions are, each in document order, exactly the positions there are. */
  lemma {:induction false} PartitionSplits(paras: seq<Para>, omitted: bool, k: nat)
    requires k <= |paras|
    ensures forall p: nat :: p in PositionsTo(paras, omitted, k) <==> p < k && Omitted(paras, p) == omitted
    ensures Increasing(PositionsTo(paras, omitted, k))
  {
    hide Omitted;
    if k > 0 {
      var before, now := PositionsTo(paras, omitted, k - 1), PositionsTo(paras, omitted, k);
      PartitionSplits(paras, omitted, k - 1);
      if Omitted(paras, k - 1) == omitted {
        assert now == before + [k - 1];
        IncreasingGrows(before, k - 1);
        assert forall p: nat :: p in now <==> p in before || p == k - 1;
      } else {
        assert now == before;
      }
    }
  }

  predicate Increasing(s: seq<nat>) {
    forall a, b | 0 <= a < b < |s| :: s[a] < s[b]
  }

  lemma {:induction false} IncreasingGrows(s: seq<nat>, p: nat)
    requires Increasing(s) && forall q | q in s :: q < p
    ensures Increasing(s + [p])
  {
    forall a, b | 0 <= a < b < |s| + 1 ensures (s + [p])[a] < (s + [p])[b] {
      if b == |s| { assert s[a] in s; }
    }
  }

  /** The frame the innermost generated result is open in at event `e`. */
  function FrameAt(before: Machine, events: seq<Event>, e: nat): Option<nat>
    requires Sound(before) && e < |events|
  {
    var m := After(before, events, e);
    OpenOmitted(m, |m.open|)
  }

  /** The first text before event `k` lies in `frame`, and every text does lie in some frame. */
  predicate AllInside(before: Machine, events: seq<Event>, k: nat, frame: nat)
    requires Sound(before) && k <= |events|
  {
    && (forall e | 0 <= e < k :: events[e].Shown? ==> FrameAt(before, events, e).Some?)
    && (exists e | 0 <= e < k :: FirstShown(events, e) && FrameAt(before, events, e) == Some(frame))
  }

  predicate FirstShown(events: seq<Event>, e: nat)
    requires e < |events|
  {
    events[e].Shown? && forall d | 0 <= d < e :: !events[d].Shown?
  }

  lemma {:induction false} SightMeans(before: Machine, events: seq<Event>, k: nat)
    requires Sound(before) && k <= |events|
    ensures var s := SeenAfter(before, events, k);
            && (s.outside <==> exists e | 0 <= e < k :: events[e].Shown? && FrameAt(before, events, e).None?)
            && (!s.outside && s.inside.None? ==> forall e | 0 <= e < k :: !events[e].Shown?)
            && (!s.outside && s.inside.Some? ==> AllInside(before, events, k, s.inside.value))
  {
    hide OpenOmitted, Step;
    if k > 0 {
      SightMeans(before, events, k - 1);
      var p, s := SeenAfter(before, events, k - 1), SeenAfter(before, events, k);
      if events[k - 1].Shown? {
        assert s.outside <==> p.outside || FrameAt(before, events, k - 1).None?;
        if !s.outside && p.inside.None? { assert FirstShown(events, k - 1); }
      }
    }
  }

  /** A paragraph is omitted only for text, all of it shown while a generated listing's result was
      open, the first of it in the frame the ruling names. */
  lemma {:induction false} OmittedTextIsInside(paras: seq<Para>, i: nat)
    requires i < |paras| && Omitted(paras, i)
    ensures AllInside(MachineAt(paras, i), paras[i].events, |paras[i].events|, RulingAt(paras, i).frame.value)
  {
    RulingIs(paras, i);
    hide MachineAt, PageNumberTail, HasPageRef, PageRefTargets, AllInside;
    SightMeans(MachineAt(paras, i), paras[i].events, |paras[i].events|);
  }

  /** A paragraph is omitted exactly when all of its text is shown while some generated listing's
      result is open, and the result its first text lies in is one that was committed. What became
      of the results the other texts lie in does not matter. */
  lemma {:induction false} OmittedExactly(paras: seq<Para>, i: nat)
    requires i < |paras|
    ensures Omitted(paras, i)
      <==> exists key: nat ::
        Committed(paras, key) && AllInside(MachineAt(paras, i), paras[i].events, |paras[i].events|, key)
  {
    var before, events := MachineAt(paras, i), paras[i].events;
    if Omitted(paras, i) {
      OmittedTextIsInside(paras, i);
    }
    if key: nat :| Committed(paras, key) && AllInside(before, events, |events|, key) {
      RulingIs(paras, i);
      SightMeans(before, events, |events|);
      hide MachineAt, PageNumberTail, HasPageRef, PageRefTargets, FrameAt, RegionTo, Committed, SeenAfter;
      var first :| 0 <= first < |events| && FirstShown(events, first) && FrameAt(before, events, first) == Some(key);
      var s := SeenAfter(before, events, |events|);
      assert !s.outside && s.inside.Some?;
      var other :| 0 <= other < |events| && FirstShown(events, other)
          && FrameAt(before, events, other) == Some(s.inside.value);
      assert first == other;
    }
  }

  /** A paragraph with text outside every generated result, or with none at all, is kept whole. */
  lemma {:induction false} OutsideTextIsKept(paras: seq<Para>, i: nat)
    requires i < |paras|
    requires (forall e | 0 <= e < |paras[i].events| :: !paras[i].events[e].Shown?)
      || exists e | 0 <= e < |paras[i].events| ::
        paras[i].events[e].Shown? && FrameAt(MachineAt(paras, i), paras[i].events, e).None?
    ensures !Omitted(paras, i)
  {
    if Omitted(paras, i) {
      OmittedTextIsInside(paras, i);
    }
  }

  // ---------------------------------------------------------------------
  // One region or several
  // ---------------------------------------------------------------------

  predicate LiesIn(before: Machine, events: seq<Event>, key: nat)
    requires Sound(before)
  {
    forall e | 0 <= e < |events| :: events[e].Shown? ==> FrameAt(before, events, e) == Some(key)
  }

  /** The event ends the innermost generated result, begins one further in, or rewrites the code of
      the innermost field's result. */
  predicate Moves(m: Machine, event: Event)
    requires Sound(m)
  {
    m.open != [] &&
    var top := m.frames[m.open[|m.open| - 1]];
    match event
    case End => top.inResult && Generated(top.instr)
    case Separate => !top.inResult && Generated(top.instr)
    case Instr(code) => top.inResult && (Generated(top.instr) != Generated(top.instr + code))
    case _ => false
  }

  lemma {:induction false} SameBelow(m: Machine, r: Machine, depth: nat)
    requires Sound(m) && Sound(r) && depth <= |m.open| && depth <= |r.open| && |m.frames| <= |r.frames|
    requires forall j | 0 <= j < depth :: r.open[j] == m.open[j] && r.frames[m.open[j]] == m.frames[m.open[j]]
    ensures OpenOmitted(r, depth) == OpenOmitted(m, depth)
    ensures OpenOmitted(m, depth).Some? ==> OpenOmitted(m, depth).value in m.open[..depth]
  {
    hide Generated;
    if depth > 0 { SameBelow(m, r, depth - 1); }
  }

  /** Exactly such events change which generated result is innermost. */
  lemma {:induction false} MovesExactly(m: Machine, event: Event)
    requires Sound(m) && Increasing(m.open)
    ensures OpenOmitted(Step(m, event), |Step(m, event).open|) != OpenOmitted(m, |m.open|) <==> Moves(m, event)
  {
    hide Generated;
    var r, n := Step(m, event), |m.open|;
    if event.Begin? || n == 0 {
      SameBelow(m, r, n);
    } else {
      TopIsAlone(m);
      SameBelow(m, r, n - 1);
    }
  }

  lemma {:induction false} TopIsAlone(m: Machine)
    requires Sound(m) && Increasing(m.open) && m.open != []
    ensures forall j | 0 <= j < |m.open| - 1 :: m.open[j] != m.open[|m.open| - 1]
    ensures OpenOmitted(m, |m.open| - 1) != Some(m.open[|m.open| - 1])
  {
    hide OpenOmitted;
    SameBelow(m, m, |m.open| - 1);
  }

  lemma {:induction false} OpenStaysIncreasing(before: Machine, events: seq<Event>, k: nat)
    requires Sound(before) && Increasing(before.open) && k <= |events|
    ensures Increasing(After(before, events, k).open)
  {
    if k > 0 { OpenStaysIncreasing(before, events, k - 1); }
  }

  lemma {:induction false} OpenIncreases(paras: seq<Para>, k: nat)
    requires k <= |paras|
    ensures Increasing(MachineAt(paras, k).open)
  {
    hide After;
    if k > 0 {
      OpenIncreases(paras, k - 1);
      OpenStaysIncreasing(MachineAt(paras, k - 1), paras[k - 1].events, |paras[k - 1].events|);
    }
  }

  /** Between two events the innermost generated result stays the same throughout exactly when no
      event on the way moves it. */
  lemma {:induction false} StaysWithoutMoves(before: Machine, events: seq<Event>, a: nat, b: nat)
    requires Sound(before) && Increasing(before.open) && a <= b < |events|
    ensures (forall e | a <= e <= b :: FrameAt(before, events, e) == FrameAt(before, events, a))
      <==> (forall d | a <= d < b :: !Moves(After(before, events, d), events[d]))
    decreases b
  {
    hide Moves, FrameAt, After;
    if a < b {
      StaysWithoutMoves(before, events, a, b - 1);
      OneEventMoves(before, events, b - 1);
      if forall d | a <= d < b :: !Moves(After(before, events, d), events[d]) {
        assert FrameAt(before, events, b) == FrameAt(before, events, b - 1) == FrameAt(before, events, a);
      }
      if forall e | a <= e <= b :: FrameAt(before, events, e) == FrameAt(before, events, a) {
        assert FrameAt(before, events, b) == FrameAt(before, events, a) == FrameAt(before, events, b - 1);
      }
    }
  }

  lemma {:induction false} OneEventMoves(before: Machine, events: seq<Event>, d: nat)
    requires Sound(before) && Increasing(before.open) && d + 1 < |events|
    ensures FrameAt(before, events, d + 1) != FrameAt(before, events, d) <==> Moves(After(before, events, d), events[d])
  {
    OpenStaysIncreasing(before, events, d);
    MovesExactly(After(before, events, d), events[d]);
    OneMoreEvent(before, events, d);
    hide Moves, OpenOmitted, After, Step;
  }

  predicate LastShown(events: seq<Event>, e: nat)
    requires e < |events|
  {
    events[e].Shown? && forall d | e < d < |events| :: !events[d].Shown?
  }

  /** Every later text is shown in the result the text at `first` was. */
  predicate ShownWithFirst(before: Machine, events: seq<Event>, first: nat)
    requires Sound(before) && first < |events|
  {
    forall e | first < e < |events| && events[e].Shown? ::
      FrameAt(before, events, e) == FrameAt(before, events, first)
  }

  /** An omitted paragraph's text lies within one committed region exactly when every text is shown in the
      result the first one was. */
  lemma {:induction false} OmittedLiesInOneRegion(paras: seq<Para>, i: nat, first: nat)
    requires i < |paras| && Omitted(paras, i) && first < |paras[i].events| && FirstShown(paras[i].events, first)
    ensures var before, events := MachineAt(paras, i), paras[i].events;
            (exists key: nat :: Committed(paras, key) && LiesIn(before, events, key))
            <==> ShownWithFirst(before, events, first)
  {
    var before, events, frame := MachineAt(paras, i), paras[i].events, RulingAt(paras, i).frame.value;
    OmittedTextIsInside(paras, i);
    hide MachineAt, RulingAt, RegionTo, FrameAt;
    assert Committed(paras, frame);
    var f :| 0 <= f < |events| && FirstShown(events, f) && FrameAt(before, events, f) == Some(frame);
    assert f == first;
    hide Committed, AllInside, Omitted, LiesIn, ShownWithFirst;
    FirstNamesRegion(before, events, first, frame);
  }

  lemma {:induction false} FirstNamesRegion(before: Machine, events: seq<Event>, first: nat, frame: nat)
    requires Sound(before) && first < |events| && FirstShown(events, first)
    requires FrameAt(before, events, first) == Some(frame)
    ensures LiesIn(before, events, frame) <==> ShownWithFirst(before, events, first)
    ensures forall key: nat :: LiesIn(before, events, key) ==> key == frame
  {
    hide FrameAt;
    if ShownWithFirst(before, events, first) {
      forall e | 0 <= e < |events| && events[e].Shown? ensures FrameAt(before, events, e) == Some(frame) {
        assert e >= first;
      }
    }
  }

  /** One committed region is never left, from an omitted paragraph's first text to its last, exactly
      when no event between them ends the innermost generated result, begins another or rewrites its
      code. */
  lemma {:induction false} OmittedNeverLeaves(paras: seq<Para>, i: nat, first: nat, last: nat)
    requires i < |paras| && Omitted(paras, i) && first < |paras[i].events| && last < |paras[i].events|
    requires FirstShown(paras[i].events, first) && LastShown(paras[i].events, last)
    ensures first <= last
    ensures var before, events := MachineAt(paras, i), paras[i].events;
            (exists key: nat :: Committed(paras, key) && LiesIn(before, events, key)
              && forall e | first <= e <= last :: FrameAt(before, events, e) == Some(key))
            <==> (forall d | first <= d < last :: !Moves(After(before, events, d), events[d]))
  {
    var before, events, frame := MachineAt(paras, i), paras[i].events, RulingAt(paras, i).frame.value;
    OmittedTextIsInside(paras, i);
    OpenIncreases(paras, i);
    StaysWithoutMoves(before, events, first, last);
    hide MachineAt, RulingAt, RegionTo, FrameAt, Moves;
    assert Committed(paras, frame);
    var f :| 0 <= f < |events| && FirstShown(events, f) && FrameAt(before, events, f) == Some(frame);
    assert f == first;
    if forall e | first <= e <= last :: FrameAt(before, events, e) == FrameAt(before, events, first) {
      assert LiesIn(before, events, frame);
    }
  }

  lemma {:induction false} TocCode()
    ensures Generated("TOC")
  {
    var s := "TOC";
    assert WordEnd(s, 0) == 3 && SpacesEnd(s, 0) == 0;
    assert s[0..3] == s;
    assert WordsFrom(s, 0)[0] == s;
    assert Upper(s) == s;
  }

  /** A paragraph that ends one table of contents and shows text of a second: it is dropped on the
      first one's account although the second is never closed. */
  lemma {:induction false} SecondListingIsDropped(para: Para)
    requires para.listingStyle && !para.realHeading && |para.events| == 9
    requires para.events[0..4] == [Begin, Instr("TOC"), Separate, Shown("A")]
    requires para.events[4] == End
    requires para.events[5..9] == [Begin, Instr("TOC"), Separate, Shown("B")]
    ensures Omitted([para], 0)
    ensures FrameAt(START, para.events, 8) == Some(1) && 1 !in MachineAt([para], 1).closed
  {
    var events := para.events;
    hide After, SeenAfter, Omitted, MachineAt, FrameAt, HasPageRef, PageRefTargets, PageNumberTail;
    assert After(START, events, 0) == START && SeenAfter(START, events, 0) == NOTHING_SEEN by { NoEventYet(events); }
    OpenListing(START, events, 0, "A");
    OneMoreEvent(START, events, 4);
    OpenListing(START, events, 5, "B");
    LoneParagraph(para);
  }

  lemma {:induction false} NoEventYet(events: seq<Event>)
    ensures After(START, events, 0) == START && SeenAfter(START, events, 0) == NOTHING_SEEN
  {
  }

  /** A document of one paragraph without links or bookmarks, styled as a listing line. */
  lemma {:induction false} LoneParagraph(para: Para)
    requires para.listingStyle && !para.realHeading
    requires var s := SeenAfter(START, para.events, |para.events|);
             && !s.outside && s.inside.Some? && s.bookmarks == {}
             && s.inside.value in After(START, para.events, |para.events|).closed
    ensures Omitted([para], 0)
    ensures MachineAt([para], 1) == After(START, para.events, |para.events|)
  {
    hide After, SeenAfter, PageRefTargets, HasPageRef, PageNumberTail;
    var paras := [para];
    assert MachineAt(paras, 0) == START;
    RulingIs(paras, 0);
    var r := RulingAt(paras, 0);
    assert RegionTo(paras, r.frame.value, 0) == None;
  }

  lemma {:induction false} OneMoreEvent(before: Machine, events: seq<Event>, k: nat)
    requires Sound(before) && k < |events|
    ensures After(before, events, k + 1) == Step(After(before, events, k), events[k])
    ensures SeenAfter(before, events, k + 1) == See(SeenAfter(before, events, k), After(before, events, k), events[k])
  {
  }

  /** A table of contents opened and shown, event by event. */
  lemma {:induction false} OpenListing(before: Machine, events: seq<Event>, k: nat, text: string)
    requires Sound(before) && k + 4 <= |events| && events[k..k + 4] == [Begin, Instr("TOC"), Separate, Shown(text)]
    requires After(before, events, k).open == []
    ensures var m, s := After(before, events, k), SeenAfter(before, events, k);
            && After(before, events, k + 4) == Machine(m.frames + [Frame("TOC", true)], [|m.frames|], m.closed)
            && FrameAt(before, events, k + 3) == Some(|m.frames|)
            && SeenAfter(before, events, k + 4)
              == s.(shown := s.shown + text, inside := if s.inside.None? then Some(|m.frames|) else s.inside)
  {
    TocCode();
    hide Generated, After, SeenAfter;
    var m, part := After(before, events, k), events[k..k + 4];
    assert events[k] == part[0] && events[k + 1] == part[1] && events[k + 2] == part[2] && events[k + 3] == part[3];
    OneMoreEvent(before, events, k);
    OneMoreEvent(before, events, k + 1);
    OneMoreEvent(before, events, k + 2);
    OneMoreEvent(before, events, k + 3);
    assert "" + "TOC" == "TOC";
    var shownIn := Machine(m.frames + [Frame("TOC", true)], [|m.frames|], m.closed);
    assert After(before, events, k + 2) == shownIn.(frames := m.frames + [Frame("TOC", false)]);
    assert After(before, events, k + 3) == shownIn;
  }

  // ---------------------------------------------------------------------
  // Nesting
  // ---------------------------------------------------------------------

  /** How much deeper the first `k` events leave the stack. */
  function Depth(events: seq<Event>, k: nat): int
    requires k <= |events|
  {
    if k == 0 then 0
    else Depth(events, k - 1) + (if events[k - 1].Begin? then 1 else if events[k - 1].End? then -1 else 0)
  }

  /** While nested fields come and go, the frames already open stay open, and none of them is
      closed: an end closes the innermost frame only. */
  lemma {:induction false} NestedFieldsKeepOuter(before: Machine, events: seq<Event>, k: nat)
    requires Sound(before) && k <= |events|
    requires forall e | 0 <= e <= k :: Depth(events, e) >= 0
    ensures var m := After(before, events, k);
            && |m.open| == |before.open| + Depth(events, k) && m.open[..|before.open|] == before.open
            && (forall j | |before.open| <= j < |m.open| :: m.open[j] >= |before.frames|)
            && (forall key | key < |before.frames| && key in m.closed :: key in before.closed)
  {
    if k > 0 {
      NestedFieldsKeepOuter(before, events, k - 1);
      assert Depth(events, k) >= 0 && Depth(events, k - 1) >= 0;
      var p, m := After(before, events, k - 1), After(before, events, k);
      var n := |before.open|;
      if events[k - 1].End? {
        assert p.open[|p.open| - 1] >= |before.frames|;
        assert m.open[..n] == p.open[..n];
      } else if events[k - 1].Begin? {
        assert m.open[..n] == p.open[..n];
      } else {
        assert m.open == p.open && m.closed == p.closed;
      }
    }
  }
}
