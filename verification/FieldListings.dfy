/** What a listing is, of text and events, and that nothing else is dropped. */
module FieldListings {
  import opened Prelude
  import opened Boundaries
  import opened FieldEvents
  import opened FieldRegions

  // ---------------------------------------------------------------------
  // The words of a field code
  // ---------------------------------------------------------------------

  /** `instr[a..b]` is the next word from `from` on: whitespace before it, none in it, and an end. */
  predicate NextWord(instr: string, from: nat, a: nat, b: nat) {
    && from <= a < b <= |instr|
    && (forall i | from <= i < a :: IsSpace(instr[i]))
    && (forall i | a <= i < b :: !IsSpace(instr[i]))
    && (b < |instr| ==> IsSpace(instr[b]))
  }

  lemma {:induction false} WordEndAt(s: string, i: nat)
    requires i <= |s|
    ensures var r := WordEnd(s, i);
            (forall k | i <= k < r :: !IsSpace(s[k])) && (r < |s| ==> IsSpace(s[r]))
    decreases |s| - i
  {
    hide IsSpace;
    if i < |s| && !IsSpace(s[i]) { WordEndAt(s, i + 1); }
  }

  /** The words from `from` on are the next word and the words after it. */
  lemma {:induction false} WordsAre(s: string, from: nat)
    requires from <= |s|
    ensures var words := WordsFrom(s, from);
            if words == [] then forall i | from <= i < |s| :: IsSpace(s[i])
            else exists a: nat, b: nat :: NextWord(s, from, a, b) && words == [s[a..b]] + WordsFrom(s, b)
  {
    hide IsSpace;
    var a := SpacesEnd(s, from);
    var b := WordEnd(s, a);
    SpacesEndAt(s, from);
    WordEndAt(s, a);
    if b > a { assert NextWord(s, from, a, b); }
  }

  lemma {:induction false} NextWordIsOne(s: string, from: nat, a: nat, b: nat, c: nat, d: nat)
    requires NextWord(s, from, a, b) && NextWord(s, from, c, d)
    ensures a == c && b == d
  {
    hide IsSpace;
    assert !IsSpace(s[a]) && !IsSpace(s[c]);
    assert b < |s| ==> IsSpace(s[b]);
    assert d < |s| ==> IsSpace(s[d]);
  }

  lemma {:induction false} NoWord(s: string, from: nat)
    requires forall i | from <= i < |s| :: IsSpace(s[i])
    ensures forall a: nat, b: nat :: !NextWord(s, from, a, b)
  {
    hide IsSpace;
    forall a: nat, b: nat ensures !NextWord(s, from, a, b) {
      assert from <= a < |s| ==> IsSpace(s[a]);
    }
  }

  /** `c` in upper case is the capital `capital`. */
  predicate CaseOf(c: char, capital: char) {
    c == capital || c as int == capital as int + 32 || (capital == 'I' && c as int == 0x131)
  }

  /** The code's first word is `name`, whatever its case. */
  ghost predicate Named(instr: string, name: string) {
    exists a: nat, b: nat :: NextWord(instr, 0, a, b) && b - a == |name| && forall i | 0 <= i < |name| ::
        CaseOf(instr[a + i], name[i])
  }

  predicate Capitals(name: string) {
    name != "" && forall i | 0 <= i < |name| :: 'A' <= name[i] <= 'Z'
  }

  lemma {:induction false} UpperIs(word: string, name: string)
    requires Capitals(name)
    ensures Upper(word) == name <==> |word| == |name| && forall i | 0 <= i < |name| :: CaseOf(word[i], name[i])
  {
    if |word| == |name| {
      forall i | 0 <= i < |name| ensures CaseOf(word[i], name[i]) <==> Upper(word)[i] == name[i] {}
    }
  }

  lemma {:induction false} FirstWord(s: string, from: nat) returns (a: nat, b: nat)
    requires from <= |s| && WordsFrom(s, from) != []
    ensures NextWord(s, from, a, b) && WordsFrom(s, from) == [s[a..b]] + WordsFrom(s, b)
    ensures forall c: nat, d: nat :: NextWord(s, from, c, d) <==> c == a && d == b
  {
    WordsAre(s, from);
    a, b :| NextWord(s, from, a, b) && WordsFrom(s, from) == [s[a..b]] + WordsFrom(s, b);
    forall c: nat, d: nat | NextWord(s, from, c, d) ensures c == a && d == b { NextWordIsOne(s, from, a, b, c, d); }
  }

  predicate Spells(word: string, name: string) {
    |word| == |name| && forall i | 0 <= i < |name| :: CaseOf(word[i], name[i])
  }

  lemma {:induction false} FirstIsNamed(instr: string, name: string, a: nat, b: nat)
    requires NextWord(instr, 0, a, b) && forall c: nat, d: nat :: NextWord(instr, 0, c, d) <==> c == a && d == b
    ensures Named(instr, name) <==> Spells(instr[a..b], name)
  {
    hide NextWord, CaseOf;
    Bounds(instr, a, b);
    assert forall i | 0 <= i < b - a :: instr[a..b][i] == instr[a + i];
  }

  lemma {:induction false} Bounds(instr: string, a: nat, b: nat)
    requires NextWord(instr, 0, a, b)
    ensures a < b <= |instr|
  {
  }

  /** A code's name is its first word in capitals. */
  lemma {:induction false} CodeNameIs(instr: string, name: string)
    requires Capitals(name)
    ensures CodeName(instr) == name <==> Named(instr, name)
  {
    hide IsSpace, Upper, CaseOf, WordsFrom, Named, NextWord;
    if WordsFrom(instr, 0) != [] {
      var a, b := FirstWord(instr, 0);
      Bounds(instr, a, b);
      FirstIsNamed(instr, name, a, b);
      UpperIs(instr[a..b], name);
    } else {
      NoName(instr, name);
    }
  }

  lemma {:induction false} NoName(instr: string, name: string)
    requires WordsFrom(instr, 0) == []
    ensures !Named(instr, name)
  {
    WordsAre(instr, 0);
    NoWord(instr, 0);
  }

  /** A listing is generated by a code named TOC or INDEX. */
  lemma {:induction false} GeneratedIs(instr: string)
    ensures Generated(instr) <==> Named(instr, "TOC") || Named(instr, "INDEX")
  {
    CodeNameIs(instr, "TOC");
    CodeNameIs(instr, "INDEX");
  }

  /** The code's second word is `target`. */
  ghost predicate Targets(instr: string, target: string) {
    exists a: nat, b: nat, c: nat, d: nat :: NextWord(instr, 0, a, b) && NextWord(instr, b, c, d)
        && instr[c..d] == target
  }

  lemma {:induction false} CodeTargetIs(instr: string, target: string)
    requires target != ""
    ensures CodeTarget(instr) == target <==> Targets(instr, target)
  {
    WordsAre(instr, 0);
    hide IsSpace, WordsFrom;
    if WordsFrom(instr, 0) != [] {
      var a, b := FirstWord(instr, 0);
      WordsAre(instr, b);
      if WordsFrom(instr, b) != [] {
        var c, d := FirstWord(instr, b);
      } else {
        NoWord(instr, b);
      }
    } else {
      NoWord(instr, 0);
    }
  }

  // ---------------------------------------------------------------------
  // A listing line
  // ---------------------------------------------------------------------

  /** The text ends, but for whitespace, in a digit, and a tab or a comma stands before that digit with
      only digits, blanks, commas and dashes between. */
  predicate EndsInPageNumbers(text: string) {
    exists k, d | 0 <= k < d < |text| :: PageNumbers(text, k, d)
  }

  predicate PageNumbers(text: string, k: nat, d: nat)
    requires k < d < |text|
  {
    && (text[k] == '\t' || text[k] == ',')
    && (forall i | k < i < d :: text[i] in "0123456789 \t,-\U{2013}")
    && text[d] in "0123456789"
    && Blank(text[d + 1..])
  }

  lemma {:induction false} TailCharIs(c: char)
    ensures TailChar(c) <==> c in "0123456789 \t,-\U{2013}"
    ensures IsDigit(c) <==> c in "0123456789"
  {
  }

  lemma {:induction false} TailStartIs(s: string, end: nat)
    requires end <= |s|
    ensures var r := TailStart(s, end);
            (forall i | r <= i < end :: TailChar(s[i])) && (r > 0 ==> !TailChar(s[r - 1]))
  {
    hide TailChar;
    if end > 0 && TailChar(s[end - 1]) { TailStartIs(s, end - 1); }
  }

  lemma {:induction false} StripRightTo(s: string, d: nat)
    requires d < |s| && !IsSpace(s[d]) && Blank(s[d + 1..])
    ensures StripRight(s) == s[..d + 1]
  {
    assert s == s[..d + 1] + s[d + 1..];
    StripRightBlank(s[..d + 1], s[d + 1..]);
  }

  lemma {:induction false} StripRightRest(s: string)
    ensures StripRight(s) <= s && Blank(s[|StripRight(s)|..])
  {
    hide IsSpace;
    StripRightPrefix(s);
    if s != "" && IsSpace(s[|s| - 1]) {
      var c := s[..|s| - 1];
      StripRightRest(c);
      assert s[|StripRight(c)|..] == c[|StripRight(c)|..] + [s[|s| - 1]];
    }
  }

  /** The page-number test is that of the text. */
  lemma {:induction false} PageNumberTailIs(text: string)
    ensures PageNumberTail(text) <==> EndsInPageNumbers(text)
  {
    hide PageNumbers;
    if PageNumberTail(text) { TailIsNumbers(text); }
    if k, d :| 0 <= k < d < |text| && PageNumbers(text, k, d) { NumbersAreTail(text, k, d); }
  }

  lemma {:induction false} TailIsNumbers(text: string)
    requires PageNumberTail(text)
    ensures EndsInPageNumbers(text)
  {
    var s := StripRight(text);
    StripRightRest(text);
    TailStartIs(s, |s|);
    var k :| TailStart(s, |s|) <= k < |s| && (s[k] == '\t' || s[k] == ',');
    hide TailStart, StripRight, Blank;
    assert PageNumbers(text, k, |s| - 1);
  }

  lemma {:induction false} NumbersAreTail(text: string, k: nat, d: nat)
    requires k < d < |text| && PageNumbers(text, k, d)
    ensures PageNumberTail(text)
  {
    StripRightTo(text, d);
    var s := StripRight(text);
    TailStartIs(s, |s|);
    hide TailStart, StripRight, Blank;
    forall i | k <= i <= d ensures TailChar(s[i]) {}
    assert s[k] == text[k];
  }

  /** All the text the first `k` events show. */
  function ShownTo(events: seq<Event>, k: nat): string
    requires k <= |events|
  {
    if k == 0 then "" else ShownTo(events, k - 1) + (if events[k - 1].Shown? then events[k - 1].text else "")
  }

  /** Field `key` begins in the paragraph, and is a page reference once the paragraph is read. */
  ghost predicate PageReference(before: Machine, para: Para, key: nat)
    requires Sound(before)
  {
    var frames := After(before, para.events, |para.events|).frames;
    |before.frames| <= key < |frames| && Named(frames[key].instr, "PAGEREF")
  }

  /** A listing line: its style says so, it links somewhere, it refers to a page, or it ends in page
      numbers. */
  ghost predicate ListingLine(before: Machine, para: Para)
    requires Sound(before)
  {
    || para.listingStyle
    || (exists name :: Anchor(name) in para.events)
    || (exists key: nat :: PageReference(before, para, key))
    || EndsInPageNumbers(ShownTo(para.events, |para.events|))
  }

  /** The paragraph links to the bookmark `name`, or refers to its page. */
  ghost predicate LinksTo(before: Machine, para: Para, name: string)
    requires Sound(before)
  {
    Anchor(name) in para.events
    || exists key: nat :: PageReference(before, para, key)
         && Targets(After(before, para.events, |para.events|).frames[key].instr, name)
  }

  lemma {:induction false} SeenIs(before: Machine, events: seq<Event>, k: nat)
    requires Sound(before) && k <= |events|
    ensures var s := SeenAfter(before, events, k);
            && s.shown == ShownTo(events, k)
            && (forall name :: name in s.anchors <==> Anchor(name) in events[..k])
            && (forall name :: name in s.bookmarks <==> Bookmark(name) in events[..k])
  {
    hide OpenOmitted, After;
    if k > 0 {
      SeenIs(before, events, k - 1);
      assert events[..k] == events[..k - 1] + [events[k - 1]];
    }
  }

  lemma {:induction false} PageRefsAre(frames: seq<Frame>, from: nat)
    requires from <= |frames|
    ensures HasPageRef(frames, from) <==> exists key | from <= key < |frames| :: Named(frames[key].instr, "PAGEREF")
    ensures forall name :: name in PageRefTargets(frames, from) <==> exists key | from <= key < |frames| ::
      Named(frames[key].instr, "PAGEREF") && Targets(frames[key].instr, name)
    decreases |frames| - from
  {
    hide CodeName, CodeTarget, Named, Targets;
    if from < |frames| {
      PageRefsAre(frames, from + 1);
      CodeNameIs(frames[from].instr, "PAGEREF");
      forall name: string ensures Targets(frames[from].instr, name)
          <==> name != "" && CodeTarget(frames[from].instr) == name {
        TargetIs(frames[from].instr, name);
      }
    }
  }

  lemma {:induction false} TargetIs(instr: string, name: string)
    ensures Targets(instr, name) <==> name != "" && CodeTarget(instr) == name
  {
    if name != "" { CodeTargetIs(instr, name); }
  }

  lemma {:induction false} PageReferencesAre(before: Machine, para: Para)
    requires Sound(before)
    ensures var m := After(before, para.events, |para.events|);
            && (HasPageRef(m.frames, |before.frames|) <==> exists key: nat :: PageReference(before, para, key))
            && (forall name :: name in PageRefTargets(m.frames, |before.frames|)
                 <==> (exists key: nat :: PageReference(before, para, key) && Targets(m.frames[key].instr, name)))
  {
    var m := After(before, para.events, |para.events|);
    PageRefsAre(m.frames, |before.frames|);
    hide After, Named, Targets, HasPageRef, PageRefTargets;
    forall key: nat
      ensures PageReference(before, para, key)
        <==> |before.frames| <= key < |m.frames| && Named(m.frames[key].instr, "PAGEREF") {}
  }

  /** What the guard is told of a paragraph. */
  lemma {:induction false} RulingIsOfEvents(before: Machine, para: Para)
    requires Sound(before)
    ensures var r := Rule(before, para);
            && (r.shaped <==> ListingLine(before, para))
            && (r.heading <==> para.realHeading)
            && (forall name :: name in r.anchors <==> LinksTo(before, para, name))
            && (forall name :: name in r.bookmarks <==> Bookmark(name) in para.events)
  {
    SeenIs(before, para.events, |para.events|);
    assert para.events[..|para.events|] == para.events;
    PageReferencesAre(before, para);
    PageNumberTailIs(ShownTo(para.events, |para.events|));
    hide After, SeenAfter, PageNumberTail, EndsInPageNumbers, PageReference, Targets, HasPageRef, PageRefTargets;
    var r := Rule(before, para);
    assert forall name :: name in r.anchors <==> LinksTo(before, para, name);
    if r.anchors != {} {
      var name :| name in r.anchors;
      assert LinksTo(before, para, name);
    }
    if name :| Anchor(name) in para.events { assert name in r.anchors; }
  }

  // ---------------------------------------------------------------------
  // What is dropped
  // ---------------------------------------------------------------------

  /** Paragraph `i` shows text, all of it in generated results, the first of it in that of field `key`. */
  predicate InRegion(paras: seq<Para>, key: nat, i: nat)
    requires i < |paras|
  {
    AllInside(MachineAt(paras, i), paras[i].events, |paras[i].events|, key)
  }

  lemma {:induction false} FrameIs(paras: seq<Para>, i: nat, key: nat)
    requires i < |paras|
    ensures RulingAt(paras, i).frame == Some(key) <==> InRegion(paras, key, i)
  {
    var before, events := MachineAt(paras, i), paras[i].events;
    RulingIs(paras, i);
    SightMeans(before, events, |events|);
    hide MachineAt, PageNumberTail, HasPageRef, PageRefTargets, FrameAt, SeenAfter;
    var s := SeenAfter(before, events, |events|);
    if InRegion(paras, key, i) {
      var first :| 0 <= first < |events| && FirstShown(events, first) && FrameAt(before, events, first) == Some(key);
      assert !s.outside && s.inside.Some?;
      var other :| 0 <= other < |events| && FirstShown(events, other)
          && FrameAt(before, events, other) == Some(s.inside.value);
      assert first == other;
    }
  }

  lemma {:induction false} FramedIs(paras: seq<Para>, i: nat, key: nat)
    requires i < |paras|
    ensures Framed(paras, key, i) <==> InRegion(paras, key, i)
  {
    FrameIs(paras, i, key);
  }

  predicate Framed(paras: seq<Para>, key: nat, i: nat)
    requires i < |paras|
  {
    RulingAt(paras, i).frame == Some(key)
  }

  lemma {:induction false} RegionStep(paras: seq<Para>, key: nat, k: nat)
    requires k < |paras|
    ensures RegionTo(paras, key, k + 1)
      == if Framed(paras, key, k) then Some(Gather(RegionTo(paras, key, k), RulingAt(paras, k)))
         else RegionTo(paras, key, k)
  {
    hide RulingAt;
  }

  lemma {:induction false} NoRegionYet(paras: seq<Para>, key: nat)
    ensures RegionTo(paras, key, 0) == None
  {
  }

  /** There is a region when a paragraph lies in it. */
  lemma {:induction false} RegionExists(paras: seq<Para>, key: nat, k: nat)
    requires k <= |paras|
    ensures RegionTo(paras, key, k).Some? <==> exists i | 0 <= i < k :: Framed(paras, key, i)
  {
    hide RulingAt, RegionTo, Framed;
    NoRegionYet(paras, key);
    if k > 0 {
      RegionExists(paras, key, k - 1);
      RegionStep(paras, key, k - 1);
    }
  }

  predicate Fits(paras: seq<Para>, key: nat, i: nat)
    requires i < |paras|
  {
    Framed(paras, key, i) ==> RulingAt(paras, i).shaped && !RulingAt(paras, i).heading
  }

  /** A region is shaped and without heading when every paragraph in it is. */
  lemma {:induction false} RegionHolds(paras: seq<Para>, key: nat, k: nat)
    requires k <= |paras| && RegionTo(paras, key, k).Some?
    ensures var g := RegionTo(paras, key, k).value;
            g.shaped && !g.heading <==> forall i | 0 <= i < k :: Fits(paras, key, i)
  {
    hide RulingAt, RegionTo, Framed;
    NoRegionYet(paras, key);
    RegionStep(paras, key, k - 1);
    RegionExists(paras, key, k - 1);
    if RegionTo(paras, key, k - 1).Some? { RegionHolds(paras, key, k - 1); }
    var last := RulingAt(paras, k - 1);
    assert Fits(paras, key, k - 1) <==> (Framed(paras, key, k - 1) ==> last.shaped && !last.heading);
  }

  lemma {:induction false} RegionLinks(paras: seq<Para>, key: nat, k: nat, name: string)
    requires k <= |paras| && RegionTo(paras, key, k).Some?
    ensures name in RegionTo(paras, key, k).value.anchors
      <==> exists i | 0 <= i < k :: Framed(paras, key, i) && name in RulingAt(paras, i).anchors
    ensures name in RegionTo(paras, key, k).value.bookmarks
      <==> exists i | 0 <= i < k :: Framed(paras, key, i) && name in RulingAt(paras, i).bookmarks
  {
    hide RulingAt;
    RegionExists(paras, key, k - 1);
    assert Framed(paras, key, k - 1) <==> RulingAt(paras, k - 1).frame == Some(key);
    if RegionTo(paras, key, k - 1).Some? {
      RegionLinks(paras, key, k - 1, name);
    } else {
      assert forall i | 0 <= i < k - 1 :: !Framed(paras, key, i);
    }
  }

  lemma {:induction false} RegionDisjoint(paras: seq<Para>, key: nat)
    requires RegionTo(paras, key, |paras|).Some?
    ensures var g := RegionTo(paras, key, |paras|).value;
            g.anchors !! g.bookmarks
            <==> (forall i, j | 0 <= i < |paras| && 0 <= j < |paras| && Framed(paras, key, i)
              && Framed(paras, key, j) ::
                    RulingAt(paras, i).anchors !! RulingAt(paras, j).bookmarks)
  {
    hide RulingAt, RegionTo, Framed;
    var g := RegionTo(paras, key, |paras|).value;
    forall name
      ensures name in g.anchors
        <==> exists i | 0 <= i < |paras| :: Framed(paras, key, i) && name in RulingAt(paras, i).anchors
      ensures name in g.bookmarks
        <==> exists i | 0 <= i < |paras| :: Framed(paras, key, i) && name in RulingAt(paras, i).bookmarks
    {
      RegionLinks(paras, key, |paras|, name);
    }
    if !(g.anchors !! g.bookmarks) {
      var name :| name in g.anchors && name in g.bookmarks;
      var i :| 0 <= i < |paras| && Framed(paras, key, i) && name in RulingAt(paras, i).anchors;
      var j :| 0 <= j < |paras| && Framed(paras, key, j) && name in RulingAt(paras, j).bookmarks;
      assert !(RulingAt(paras, i).anchors !! RulingAt(paras, j).bookmarks);
    } else {
      forall i, j | 0 <= i < |paras| && 0 <= j < |paras| && Framed(paras, key, i) && Framed(paras, key, j)
        ensures RulingAt(paras, i).anchors !! RulingAt(paras, j).bookmarks
      {
        forall name | name in RulingAt(paras, i).anchors ensures name !in RulingAt(paras, j).bookmarks {
          assert name in g.anchors;
        }
      }
    }
  }

  /** Paragraph `i` links to a bookmark in paragraph `j`. */
  ghost predicate Crosses(paras: seq<Para>, i: nat, j: nat)
    requires i < |paras| && j < |paras|
  {
    exists name :: LinksTo(MachineAt(paras, i), paras[i], name) && Bookmark(name) in paras[j].events
  }

  ghost predicate EntryLine(paras: seq<Para>, i: nat)
    requires i < |paras|
  {
    ListingLine(MachineAt(paras, i), paras[i]) && !paras[i].realHeading
  }

  lemma {:induction false} RulingReads(paras: seq<Para>, i: nat, j: nat)
    requires i < |paras| && j < |paras|
    ensures RulingAt(paras, i).shaped && !RulingAt(paras, i).heading <==> EntryLine(paras, i)
    ensures RulingAt(paras, i).anchors !! RulingAt(paras, j).bookmarks <==> !Crosses(paras, i, j)
  {
    RulingIs(paras, i);
    RulingIs(paras, j);
    RulingIsOfEvents(MachineAt(paras, i), paras[i]);
    RulingIsOfEvents(MachineAt(paras, j), paras[j]);
    hide Rule, RulingAt, MachineAt, ListingLine, LinksTo;
    var a, b := RulingAt(paras, i).anchors, RulingAt(paras, j).bookmarks;
    if !(a !! b) {
      var name :| name in a && name in b;
      assert Crosses(paras, i, j);
    }
  }

  /** A generated result is dropped exactly when its field was closed by an end and shows a paragraph, and
      every paragraph in it is a listing line, is no heading, and links to no bookmark of any of them. */
  lemma {:induction false} CommittedExactly(paras: seq<Para>, key: nat)
    ensures Committed(paras, key)
      <==> (key in MachineAt(paras, |paras|).closed
            && (exists i | 0 <= i < |paras| :: InRegion(paras, key, i))
            && (forall i | 0 <= i < |paras| && InRegion(paras, key, i) :: EntryLine(paras, i))
            && (forall i, j | 0 <= i < |paras| && 0 <= j < |paras| && InRegion(paras, key, i)
              && InRegion(paras, key, j) ::
                  !Crosses(paras, i, j)))
  {
    hide RulingAt, MachineAt, EntryLine, Crosses, InRegion, RegionTo, Framed;
    RegionExists(paras, key, |paras|);
    if RegionTo(paras, key, |paras|).Some? {
      RegionHolds(paras, key, |paras|);
      RegionDisjoint(paras, key);
    }
    forall i | 0 <= i < |paras| ensures Framed(paras, key, i) <==> InRegion(paras, key, i) { FramedIs(paras, i, key); }
    forall i, j | 0 <= i < |paras| && 0 <= j < |paras|
      ensures RulingAt(paras, i).shaped && !RulingAt(paras, i).heading <==> EntryLine(paras, i)
      ensures RulingAt(paras, i).anchors !! RulingAt(paras, j).bookmarks <==> !Crosses(paras, i, j)
    {
      RulingReads(paras, i, j);
    }
    forall i | 0 <= i < |paras|
      ensures Fits(paras, key, i) <==> (InRegion(paras, key, i) ==> EntryLine(paras, i)) { RulingReads(paras, i, i); }
  }

  /** An omitted paragraph lies in a field's result that an end closed, all of which is listing lines, and
      all of which is omitted. */
  lemma {:induction false} OmittedRegionIsAListing(paras: seq<Para>, i: nat)
    requires i < |paras| && Omitted(paras, i)
    ensures exists key: nat ::
              && InRegion(paras, key, i) && key in MachineAt(paras, |paras|).closed
              && forall j | 0 <= j < |paras| && InRegion(paras, key, j) ::
                Omitted(paras, j) && EntryLine(paras, j) && !Crosses(paras, i, j) && !Crosses(paras, j, i)
  {
    var key := RulingAt(paras, i).frame.value;
    FrameIs(paras, i, key);
    CommittedExactly(paras, key);
    hide RulingAt, MachineAt, EntryLine, Crosses, Committed;
    forall j | 0 <= j < |paras| && InRegion(paras, key, j) ensures Omitted(paras, j) { FrameIs(paras, j, key); }
    assert InRegion(paras, key, i);
  }

  /** A paragraph that shows other text keeps its whole region: one with no listing style, no link and no
      page reference, whose text does not end in page numbers. */
  lemma {:induction false} BodyTextKeepsRegion(paras: seq<Para>, key: nat, i: nat, j: nat)
    requires i < |paras| && j < |paras| && InRegion(paras, key, i) && InRegion(paras, key, j)
    requires !paras[j].listingStyle && !EndsInPageNumbers(ShownTo(paras[j].events, |paras[j].events|))
    requires forall e | 0 <= e < |paras[j].events| :: !paras[j].events[e].Anchor?
    requires forall ref: nat :: !PageReference(MachineAt(paras, j), paras[j], ref)
    ensures !Omitted(paras, i)
  {
    FrameIs(paras, i, key);
    CommittedExactly(paras, key);
    hide RulingAt, MachineAt, PageReference, EndsInPageNumbers, Crosses, Committed;
    assert !ListingLine(MachineAt(paras, j), paras[j]);
  }
}
