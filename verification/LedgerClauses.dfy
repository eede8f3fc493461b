/** Which text a rule's condition is asked of: its own clause's, and no other's. */
module LedgerClauses {
  import opened Prelude
  import opened TextFold
  import opened Boundaries
  import opened LedgerConditions
  import opened LedgerEvidence
  import Blocks

  // ---------------------------------------------------------------------
  // Headings
  // ---------------------------------------------------------------------

  /** `trimmed` is `s` without the marks it ends in. */
  predicate Trims(s: string, trimmed: string) {
    && trimmed <= s && (forall i | |trimmed| <= i < |s| :: s[i] in " .:;")
    && (trimmed != "" ==> trimmed[|trimmed| - 1] !in " .:;")
  }

  lemma {:induction false} TrimMarksTrims(s: string)
    ensures Trims(s, TrimMarks(s))
  {
    if s != "" && s[|s| - 1] in " .:;" { TrimMarksTrims(s[..|s| - 1]); }
  }

  lemma {:induction false} TrimsOnce(s: string, a: string, b: string)
    requires Trims(s, a) && Trims(s, b)
    ensures a == b
  {
    assert a == s[..|a|] && b == s[..|b|];
    assert b != "" ==> b[|b| - 1] == s[|b| - 1];
    assert a != "" ==> a[|a| - 1] == s[|a| - 1];
  }

  /** A heading names a clause: but for the marks they end in, it is the title, or goes on past it with a
      space. */
  ghost predicate Names(heading: string, title: string) {
    exists head, want ::
      Trims(Form(heading), head) && Trims(Form(title), want) && want != "" && (head == want || want + " " <= head)
  }

  lemma {:induction false} HeadingMatchesIs(heading: string, title: string)
    ensures HeadingMatches(heading, title) <==> Names(heading, title)
  {
    hide Form, Trims;
    TrimMarksTrims(Form(heading));
    TrimMarksTrims(Form(title));
    if Names(heading, title) {
      var head, want :| Trims(Form(heading), head) && Trims(Form(title), want) && want != ""
        && (head == want || want + " " <= head);
      TrimsOnce(Form(heading), head, HeadingForm(heading));
      TrimsOnce(Form(title), want, HeadingForm(title));
    }
  }

  // ---------------------------------------------------------------------
  // The clause's text
  // ---------------------------------------------------------------------

  /** The positions of the clause's blocks, in document order. */
  ghost predicate Picks(blocks: seq<Block>, title: string, at: seq<nat>) {
    && (forall a, b | 0 <= a < b < |at| :: at[a] < at[b])
    && (forall i: nat :: i in at <==> i < |blocks| && Names(blocks[i].heading, title))
  }

  function TextsAt(blocks: seq<Block>, at: seq<nat>): seq<string>
    requires forall k | 0 <= k < |at| :: at[k] < |blocks|
  {
    seq(|at|, k requires 0 <= k < |at| => blocks[at[k]].text)
  }

  lemma {:induction false} JoinedFront(first: string, rest: seq<string>)
    ensures Blocks.Joined([first] + rest) == if rest == [] then first else first + "\n" + Blocks.Joined(rest)
  {
    JoinedFrontTo(first, rest, |rest|);
  }

  lemma {:induction false} JoinedFrontTo(first: string, rest: seq<string>, k: nat)
    requires k <= |rest|
    ensures Blocks.JoinedTo([first] + rest, k + 1) == if k == 0 then first else first + "\n" + Blocks.JoinedTo(rest, k)
  {
    if k > 0 { JoinedFrontTo(first, rest, k - 1); }
  }

  /** The positions in `blocks` that `rest` picks of all but the first. */
  function Shifted(rest: seq<nat>): seq<nat> {
    seq(|rest|, k requires 0 <= k < |rest| => rest[k] + 1)
  }

  function WithFirst(named: bool, rest: seq<nat>): seq<nat> {
    if named then [0] + Shifted(rest) else Shifted(rest)
  }

  lemma {:induction false} PicksStep(blocks: seq<Block>, title: string, rest: seq<nat>)
    requires blocks != [] && Picks(blocks[1..], title, rest)
    ensures Picks(blocks, title, WithFirst(Names(blocks[0].heading, title), rest))
  {
    hide Names;
    var later, at := Shifted(rest), WithFirst(Names(blocks[0].heading, title), rest);
    forall i: nat ensures i in later <==> 0 < i < |blocks| && Names(blocks[i].heading, title) {
      if i > 0 {
        var j: nat := i - 1;
        assert j in rest <==> j < |blocks[1..]| && Names(blocks[1..][j].heading, title);
        if j in rest {
          var k :| 0 <= k < |rest| && rest[k] == j;
          assert later[k] == i;
        }
      }
    }
    assert forall i: nat :: i in at <==> i in later || (i == 0 && Names(blocks[0].heading, title));
  }

  lemma {:induction false} TextsStep(blocks: seq<Block>, named: bool, rest: seq<nat>)
    requires blocks != [] && forall k | 0 <= k < |rest| :: rest[k] < |blocks[1..]|
    ensures forall k | 0 <= k < |WithFirst(named, rest)| :: WithFirst(named, rest)[k] < |blocks|
    ensures TextsAt(blocks, WithFirst(named, rest))
      == if named then [blocks[0].text] + TextsAt(blocks[1..], rest) else TextsAt(blocks[1..], rest)
  {
  }

  /** The clause's text is the texts under its heading, in document order, a line each. */
  lemma {:induction false} ClauseIsJoined(blocks: seq<Block>, title: string) returns (at: seq<nat>)
    ensures Picks(blocks, title, at) && (forall k | 0 <= k < |at| :: at[k] < |blocks|)
    ensures ClauseText(blocks, title) == Blocks.Joined(TextsAt(blocks, at))
    ensures InClause(blocks, title) <==> at != []
  {
    hide HeadingMatches, Names, Blocks.Joined, Picks, TextsAt;
    if blocks == [] {
      at := [];
      NothingPicked(title);
    } else {
      var rest := ClauseIsJoined(blocks[1..], title);
      HeadingMatchesIs(blocks[0].heading, title);
      PicksStep(blocks, title, rest);
      at := WithFirst(Names(blocks[0].heading, title), rest);
      TextsStep(blocks, Names(blocks[0].heading, title), rest);
      JoinedFront(blocks[0].text, TextsAt(blocks[1..], rest));
      LengthAt(blocks[1..], rest);
    }
  }

  lemma {:induction false} LengthAt(blocks: seq<Block>, at: seq<nat>)
    requires forall k | 0 <= k < |at| :: at[k] < |blocks|
    ensures |TextsAt(blocks, at)| == |at|
  {
  }

  lemma {:induction false} NothingPicked(title: string)
    ensures Picks([], title, []) && TextsAt([], []) == [] && Blocks.Joined([]) == ""
  {
  }

  // ---------------------------------------------------------------------
  // The evidence
  // ---------------------------------------------------------------------

  predicate DistinctBlocks(blocks: seq<Block>) {
    forall i, j | 0 <= i < j < |blocks| :: blocks[i].id != blocks[j].id
  }

  lemma {:induction false} TextOfIs(blocks: seq<Block>, i: nat)
    requires DistinctBlocks(blocks) && i < |blocks|
    ensures TextOf(blocks, blocks[i].id) == blocks[i].text
  {
    if i > 0 {
      assert blocks[0].id != blocks[i].id;
      TextOfIs(blocks[1..], i - 1);
    }
  }

  /** The rendered block marker at the head of a span: whitespace, "[p", four digits or more, "]", and the
      blanks behind it. */
  predicate MarkedTo(span: string, a: nat, b: nat, c: nat) {
    && a + 6 <= b < c <= |span|
    && (forall i | 0 <= i < a :: IsSpace(span[i])) && span[a] == '[' && span[a + 1] == 'p'
    && (forall i | a + 2 <= i < b :: IsDigit(span[i])) && span[b] == ']'
    && (forall i | b < i < c :: span[i] in " \t") && (c < |span| ==> span[c] !in " \t")
  }

  lemma {:induction false} MarkerEnds(span: string, a: nat, b: nat, c: nat)
    requires MarkedTo(span, a, b, c)
    ensures SpacesEnd(span, 0) == a && DigitsEnd(span, a + 2) == b && BlanksEnd(span, b + 1) == c
  {
    SpacesEndAt(span, 0);
    DigitsEndAt(span, a + 2);
    var d, e, f := SpacesEnd(span, 0), DigitsEnd(span, a + 2), BlanksEnd(span, b + 1);
    assert d < |span| ==> !IsSpace(span[d]);
    assert e < |span| ==> !IsDigit(span[e]);
    assert f < |span| ==> !IsBlankChar(span[f]);
    assert c < |span| ==> !IsBlankChar(span[c]);
    hide SpacesEnd, DigitsEnd, BlanksEnd, IsBlankChar;
  }

  /** A span is looked for without such a marker... */
  lemma {:induction false} MarkerIsDropped(span: string, a: nat, b: nat, c: nat)
    requires MarkedTo(span, a, b, c)
    ensures WithoutMarker(span) == span[c..]
  {
    MarkerEnds(span, a, b, c);
    hide SpacesEnd, DigitsEnd, BlanksEnd, IsSpace, IsDigit;
    assert span[a..a + 2] == "[p";
  }

  /** ...and as it is when it has none. */
  lemma {:induction false} NothingElseDropped(span: string)
    requires WithoutMarker(span) != span
    ensures exists a: nat, b: nat, c: nat :: MarkedTo(span, a, b, c)
  {
    var at := SpacesEnd(span, 0);
    SpacesEndAt(span, 0);
    assert span[at..at + 2] == "[p";
    var end := DigitsEnd(span, at + 2);
    DigitsEndAt(span, at + 2);
    hide SpacesEnd, DigitsEnd, IsSpace;
    assert span[at] == span[at..at + 2][0] && span[at + 1] == span[at..at + 2][1];
    assert MarkedTo(span, at, end, BlanksEnd(span, end + 1));
  }

  // ---------------------------------------------------------------------
  // Other clauses
  // ---------------------------------------------------------------------

  function Without(a: seq<Block>, c: seq<Block>): seq<Block> {
    a + c
  }

  function With(a: seq<Block>, b: Block, c: seq<Block>): seq<Block> {
    a + [b] + c
  }

  lemma {:induction false} ForeignText(title: string, a: seq<Block>, b: Block, c: seq<Block>)
    requires !HeadingMatches(b.heading, title)
    ensures ClauseText(With(a, b, c), title) == ClauseText(Without(a, c), title)
    ensures InClause(With(a, b, c), title) == InClause(Without(a, c), title)
  {
    hide HeadingMatches;
    if a == [] {
      assert With(a, b, c)[1..] == c && Without(a, c) == c;
    } else {
      ForeignText(title, a[1..], b, c);
      assert With(a, b, c)[1..] == With(a[1..], b, c) && Without(a, c)[1..] == Without(a[1..], c);
    }
  }

  lemma {:induction false} ForeignBlockText(id: string, a: seq<Block>, b: Block, c: seq<Block>)
    requires id != b.id
    ensures TextOf(With(a, b, c), id) == TextOf(Without(a, c), id)
  {
    if a == [] {
      assert With(a, b, c)[1..] == c && Without(a, c) == c;
    } else {
      ForeignBlockText(id, a[1..], b, c);
      assert With(a, b, c)[1..] == With(a[1..], b, c) && Without(a, c)[1..] == Without(a[1..], c);
    }
  }

  lemma {:induction false} ForeignNaming(title: string, id: string, a: seq<Block>, b: Block, c: seq<Block>)
    requires !HeadingMatches(b.heading, title)
    ensures NamesClauseBlock(With(a, b, c), title, id) == NamesClauseBlock(Without(a, c), title, id)
  {
    hide HeadingMatches;
    var long, short := With(a, b, c), Without(a, c);
    if i :| 0 <= i < |long| && long[i].id == id && HeadingMatches(long[i].heading, title) {
      assert i != |a|;
      assert short[if i < |a| then i else i - 1] == long[i];
    }
    if i :| 0 <= i < |short| && short[i].id == id && HeadingMatches(short[i].heading, title) {
      assert long[if i < |a| then i else i + 1] == short[i];
    }
  }

  /** What stands under other headings neither clears a rule nor keeps it from being cleared: with the
      block or without it, or with another such block in its place, the evidence comes to the same. */
  lemma {:induction false} OtherClausesDecideNothing(rule: Rule, d: Disposition, a: seq<Block>, b: Block, c: seq<Block>,
      bounds: Bounds)
    requires DistinctBlocks(With(a, b, c)) && !Names(b.heading, rule.title)
    ensures LedgerEvidence.Proven(rule, d, With(a, b, c), bounds)
      <==> LedgerEvidence.Proven(rule, d, Without(a, c), bounds)
  {
    hide Names, HeadingMatches, FoldText, WithoutMarker, Folded, Contains, ClauseText, TextOf, Answer, With, Without,
      NamesClauseBlock;
    HeadingMatchesIs(b.heading, rule.title);
    ForeignText(rule.title, a, b, c);
    if d.blockId.Some? {
      ForeignNaming(rule.title, d.blockId.value, a, b, c);
      if d.blockId.value == b.id { NotTheClause(rule.title, a, b, c); }
      else { ForeignBlockText(d.blockId.value, a, b, c); }
    }
  }

  lemma {:induction false} NotTheClause(title: string, a: seq<Block>, b: Block, c: seq<Block>)
    requires DistinctBlocks(With(a, b, c)) && !HeadingMatches(b.heading, title)
    ensures !NamesClauseBlock(With(a, b, c), title, b.id)
  {
    hide HeadingMatches;
    assert With(a, b, c)[|a|] == b;
  }

  /** The block is the one the critic names, under a heading that names the rule's clause, and the words
      quoted, less a rendered marker, stand in it folded. */
  ghost predicate QuotedIn(rule: Rule, d: Disposition, block: Block) {
    && d.span.Some? && d.blockId == Some(block.id) && Names(block.heading, rule.title)
    && var quoted := FoldText(WithoutMarker(FirstChars(d.span.value, MAX_SPAN_CHARS)));
       quoted != "" && Contains(Folded(block.text), quoted)
  }

  /** What clears a rule: the critic says so and quotes words that stand in the block it names, one of the
      rule's own clause, and all the clause's text meets the condition. */
  lemma {:induction false} ProvenByClause(rule: Rule, d: Disposition, blocks: seq<Block>, bounds: Bounds)
    requires DistinctBlocks(blocks)
    ensures LedgerEvidence.Proven(rule, d, blocks, bounds)
      <==> (d.clears && d.span.Some? && FoldText(d.span.value) != ""
            && (exists i | 0 <= i < |blocks| :: QuotedIn(rule, d, blocks[i]))
            && Answer(rule.condition, ClauseText(blocks, rule.title), bounds) == Some(true))
  {
    hide Names, HeadingMatches, FoldText, WithoutMarker, Folded, Contains, ClauseText, TextOf, Answer;
    forall i | 0 <= i < |blocks|
      ensures TextOf(blocks, blocks[i].id) == blocks[i].text
      ensures HeadingMatches(blocks[i].heading, rule.title) <==> Names(blocks[i].heading, rule.title)
    {
      TextOfIs(blocks, i);
      HeadingMatchesIs(blocks[i].heading, rule.title);
    }
    if LedgerEvidence.Proven(rule, d, blocks, bounds) {
      var i :| 0 <= i < |blocks| && blocks[i].id == d.blockId.value && HeadingMatches(blocks[i].heading, rule.title);
      assert QuotedIn(rule, d, blocks[i]);
    }
  }
}
