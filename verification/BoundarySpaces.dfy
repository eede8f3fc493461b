/** Trimming the spaces an insert doubles at its boundaries (`scripts/block_transcript.py`,
    `collapse_boundary_spaces` and `delivered_final_text`). Only the ASCII space counts here. The
    loop settles one boundary of the accepted view after another, on a copy of the ops, and
    rewrites the texts of inserts alone; what it comes to is said as one pass over the texts of
    that view. */
module BoundarySpaces {
  import opened ProvenPatch

  // ---------------------------------------------------------------------
  // Spaces at the ends of a text
  // ---------------------------------------------------------------------

  predicate Spaces(s: string) {
    forall i | 0 <= i < |s| :: s[i] == ' '
  }

  predicate EndsSpaced(s: string) {
    s != "" && s[|s| - 1] == ' '
  }

  predicate StartsSpaced(s: string) {
    s != "" && s[0] == ' '
  }

  /** `s.lstrip(" ")`. */
  function DropLeft(s: string): string {
    if StartsSpaced(s) then DropLeft(s[1..]) else s
  }

  /** `s.rstrip(" ")`. */
  function DropRight(s: string): string {
    if EndsSpaced(s) then DropRight(s[..|s| - 1]) else s
  }

  // ---------------------------------------------------------------------
  // The accepted view and one trimming step
  // ---------------------------------------------------------------------

  /** One stretch of accepted text: kept source, or an insert. */
  datatype Piece = Piece(isInsert: bool, text: string)

  /** A text less its leading spaces, when the text before it already ends in one. */
  function TrimStart(previous: string, text: string): string {
    if EndsSpaced(previous) && StartsSpaced(text) then DropLeft(text) else text
  }

  /** A text less its trailing spaces, when the text after it already starts with one. */
  function TrimEnd(text: string, following: string): string {
    if StartsSpaced(following) && EndsSpaced(text) then DropRight(text) else text
  }

  /** An insert's text once its boundaries are settled, between its two neighbours. */
  function TrimText(previous: string, text: string, following: string): string {
    if Spaces(text) then text else TrimEnd(TrimStart(previous, text), following)
  }

  function TextAt(pieces: seq<Piece>, i: int): string {
    if 0 <= i < |pieces| then pieces[i].text else ""
  }

  function TrimmedText(pieces: seq<Piece>, i: nat): string
    requires i < |pieces|
  {
    if pieces[i].isInsert then TrimText(TextAt(pieces, i - 1), pieces[i].text, TextAt(pieces, i + 1))
    else pieces[i].text
  }

  function Trim(pieces: seq<Piece>, i: nat): seq<Piece>
    requires i < |pieces|
  {
    pieces[i := Piece(pieces[i].isInsert, TrimmedText(pieces, i))]
  }

  /** The pieces after the first `k` have been settled, left to right. */
  function CollapsedTo(pieces: seq<Piece>, k: nat): (r: seq<Piece>)
    requires k <= |pieces|
    ensures |r| == |pieces|
  {
    if k == 0 then pieces else Trim(CollapsedTo(pieces, k - 1), k - 1)
  }

  function Collapsed(pieces: seq<Piece>): seq<Piece> {
    CollapsedTo(pieces, |pieces|)
  }

  function JoinedFrom(pieces: seq<Piece>, i: nat): string
    requires i <= |pieces|
    decreases |pieces| - i
  {
    if i == |pieces| then "" else pieces[i].text + JoinedFrom(pieces, i + 1)
  }

  // ---------------------------------------------------------------------
  // On ops
  // ---------------------------------------------------------------------

  /** Positions of the accepted ops among the first `k`. */
  function AcceptedTo(ops: seq<ProvenOp>, k: nat): (r: seq<nat>)
    requires k <= |ops|
    ensures forall p | 0 <= p < |r| :: r[p] < k && !ops[r[p]].DeleteOp?
  {
    if k == 0 then []
    else AcceptedTo(ops, k - 1) + (if ops[k - 1].DeleteOp? then [] else [k - 1])
  }

  /** The accepted view of a block's ops: keeps and inserts in order. */
  function Pieces(ops: seq<ProvenOp>): seq<Piece> {
    var at := AcceptedTo(ops, |ops|);
    seq(|at|, p requires 0 <= p < |at| => Piece(ops[at[p]].InsertOp?, ops[at[p]].text))
  }

  /** `r` is `ops` with nothing changed but the texts of inserts. */
  predicate SameButInsertTexts(ops: seq<ProvenOp>, r: seq<ProvenOp>) {
    |r| == |ops| && forall i | 0 <= i < |ops| ::
      if ops[i].InsertOp? then r[i].InsertOp? && r[i].at == ops[i].at && r[i].issueKey == ops[i].issueKey
      else r[i] == ops[i]
  }

  lemma {:induction false} SameAccepted(ops: seq<ProvenOp>, r: seq<ProvenOp>, k: nat)
    requires SameButInsertTexts(ops, r) && k <= |ops|
    ensures AcceptedTo(r, k) == AcceptedTo(ops, k)
  {
    if k > 0 { SameAccepted(ops, r, k - 1); }
  }

  lemma {:induction false} AcceptedIncreases(ops: seq<ProvenOp>, k: nat)
    requires k <= |ops|
    ensures forall p, q | 0 <= p < q < |AcceptedTo(ops, k)| :: AcceptedTo(ops, k)[p] < AcceptedTo(ops, k)[q]
  {
    if k > 0 { AcceptedIncreases(ops, k - 1); }
  }

  /** Rewriting one insert rewrites its piece. */
  lemma {:induction false} RewriteInsert(ops: seq<ProvenOp>, p: nat, text: string)
    requires p < |AcceptedTo(ops, |ops|)| && ops[AcceptedTo(ops, |ops|)[p]].InsertOp?
    ensures var i := AcceptedTo(ops, |ops|)[p];
            var r := ops[i := InsertOp(ops[i].at, text, ops[i].issueKey)];
            SameButInsertTexts(ops, r) && Pieces(r) == Pieces(ops)[p := Piece(true, text)]
  {
    var i := AcceptedTo(ops, |ops|)[p];
    var r := ops[i := InsertOp(ops[i].at, text, ops[i].issueKey)];
    SameAccepted(ops, r, |ops|);
    AcceptedIncreases(ops, |ops|);
  }

  /** What `collapse_boundary_spaces` does to one insert. */
  method TrimInsert(previous: string, insert: string, following: string) returns (text: string)
    ensures text == TrimText(previous, insert, following)
  {
    text := insert;
    if !Spaces(text) {
      if EndsSpaced(previous) && StartsSpaced(text) {
        text := DropLeft(text);
      }
      if StartsSpaced(following) && EndsSpaced(text) {
        text := DropRight(text);
      }
    }
  }

  /** One iteration of the trimming loop, over the already trimmed ops to its left. */
  method Settle(ops: seq<ProvenOp>, accepted: seq<nat>, position: nat) returns (next: seq<ProvenOp>)
    requires accepted == AcceptedTo(ops, |ops|) && position < |accepted|
    ensures SameButInsertTexts(ops, next) && Pieces(next) == Trim(Pieces(ops), position)
  {
    next := ops;
    var op := ops[accepted[position]];
    if op.InsertOp? {
      var previous := if position > 0 then ops[accepted[position - 1]].text else "";
      var following := if position + 1 < |accepted| then ops[accepted[position + 1]].text else "";
      var text := TrimInsert(previous, op.text, following);
      assert previous == TextAt(Pieces(ops), position - 1);
      assert following == TextAt(Pieces(ops), position + 1);
      RewriteInsert(ops, position, text);
      next := ops[accepted[position] := InsertOp(op.at, text, op.issueKey)];
    }
  }

  /** `collapse_boundary_spaces`: a trimmed copy, rewritten left to right; the accepted view of
      the copy is the collapsed accepted view, and everything but insert texts is untouched. */
  method CollapseBoundarySpaces(ops: seq<ProvenOp>) returns (trimmed: seq<ProvenOp>)
    ensures SameButInsertTexts(ops, trimmed)
    ensures Pieces(trimmed) == Collapsed(Pieces(ops))
  {
    trimmed := ops;
    var accepted := AcceptedTo(ops, |ops|);
    for position := 0 to |accepted|
      invariant SameButInsertTexts(ops, trimmed)
      invariant AcceptedTo(trimmed, |trimmed|) == accepted
      invariant Pieces(trimmed) == CollapsedTo(Pieces(ops), position)
    {
      ghost var before := trimmed;
      trimmed := Settle(trimmed, accepted, position);
      SameAccepted(ops, trimmed, |ops|);
    }
  }

  /** `delivered_final_text`: the join `final_text` records, over the trimmed ops. */
  method DeliveredFinalText(ops: seq<ProvenOp>) returns (text: string)
    ensures text == JoinedFrom(Collapsed(Pieces(ops)), 0)
  {
    var trimmed := CollapseBoundarySpaces(ops);
    FinalIsJoined(trimmed, 0);
    text := JoinAccepted(trimmed);
  }

  /** A block's `final_text` is its accepted view, joined. */
  lemma {:induction false} FinalIsJoined(ops: seq<ProvenOp>, i: nat)
    requires i <= |ops|
    ensures |AcceptedTo(ops, i)| <= |Pieces(ops)|
    ensures FinalFrom(ops, i) == JoinedFrom(Pieces(ops), |AcceptedTo(ops, i)|)
    decreases |ops| - i
  {
    hide Pieces, AcceptedTo;
    AcceptedPrefix(ops, i, |ops|);
    PieceCount(ops);
    if i < |ops| {
      FinalIsJoined(ops, i + 1);
      PieceAt(ops, i);
    }
  }

  lemma {:induction false} PieceCount(ops: seq<ProvenOp>)
    ensures |Pieces(ops)| == |AcceptedTo(ops, |ops|)|
  {
  }

  /** Op `i` is the next piece of the accepted view, unless it is a delete. */
  lemma {:induction false} PieceAt(ops: seq<ProvenOp>, i: nat)
    requires i < |ops|
    ensures var p := |AcceptedTo(ops, i)|;
            if ops[i].DeleteOp? then |AcceptedTo(ops, i + 1)| == p
            else p < |Pieces(ops)| && |AcceptedTo(ops, i + 1)| == p + 1 && Pieces(ops)[p].text == ops[i].text
  {
    AcceptedPrefix(ops, i + 1, |ops|);
    assert AcceptedTo(ops, i + 1) == AcceptedTo(ops, i) + (if ops[i].DeleteOp? then [] else [i]);
  }

  lemma {:induction false} AcceptedPrefix(ops: seq<ProvenOp>, i: nat, k: nat)
    requires i <= k <= |ops|
    ensures AcceptedTo(ops, i) <= AcceptedTo(ops, k)
    decreases k
  {
    if i < k { AcceptedPrefix(ops, i, k - 1); }
  }
}
