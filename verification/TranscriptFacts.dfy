/** What an accepted transcript guarantees of what `validate_block_patches` returns. */
module TranscriptFacts {
  import opened Prelude
  import opened SegmentShape
  import opened ProvenPatch
  import opened AppliedEdits
  import opened TranscriptValidation
  import opened TranscriptAcceptance

  predicate DistinctIds(blocks: seq<ProvenBlock>) {
    forall i, j | 0 <= i < j < |blocks| :: blocks[i].blockId != blocks[j].blockId
  }

  /** The block is the document's own, and its ops, applied to its text at their offsets, give its
      final text; the offsets never go back and stay inside the text. */
  ghost predicate ProvenOf(block: ProvenBlock, blocks: map<string, Block>) {
    && block.blockId in blocks && block.sourceText == blocks[block.blockId].text
    && block.index == blocks[block.blockId].index && block.heading == blocks[block.blockId].heading
    && Applied(block.sourceText, block.ops, 0, 0) == block.finalText
    && forall j, k | 0 <= j < k < |block.ops| :: Position(block.ops[j]) <= Position(block.ops[k]) <= |block.sourceText|
  }

  // ---------------------------------------------------------------------
  // Permutations keep ids distinct
  // ---------------------------------------------------------------------

  lemma {:induction false} OnceEach(blocks: seq<ProvenBlock>, block: ProvenBlock)
    requires DistinctIds(blocks)
    ensures multiset(blocks)[block] <= 1
  {
    if blocks != [] {
      var n := |blocks| - 1;
      OnceEach(blocks[..n], block);
      assert blocks == blocks[..n] + [blocks[n]];
      assert block == blocks[n] ==> block !in blocks[..n];
    }
  }

  lemma {:induction false} TwiceIsTwo(blocks: seq<ProvenBlock>, i: nat, j: nat)
    requires i < j < |blocks| && blocks[i] == blocks[j]
    ensures multiset(blocks)[blocks[i]] >= 2
  {
    assert blocks == blocks[..j] + [blocks[j]] + blocks[j + 1..];
    assert blocks[..j][i] == blocks[i];
    assert multiset(blocks) == multiset(blocks[..j]) + multiset{blocks[j]} + multiset(blocks[j + 1..]);
  }

  lemma {:induction false} PermutedIds(a: seq<ProvenBlock>, b: seq<ProvenBlock>)
    requires DistinctIds(a) && multiset(a) == multiset(b)
    ensures DistinctIds(b)
  {
    forall i, j | 0 <= i < j < |b| ensures b[i].blockId != b[j].blockId {
      assert b[i] in multiset(a) && b[j] in multiset(a);
      var p :| 0 <= p < |a| && a[p] == b[i];
      var q :| 0 <= q < |a| && a[q] == b[j];
      if p == q {
        TwiceIsTwo(b, i, j);
        OnceEach(a, b[i]);
      }
    }
  }

  // ---------------------------------------------------------------------
  // The returned blocks
  // ---------------------------------------------------------------------

  lemma {:induction false} OneProven(raw: Json, text: string)
    requires ProveRaw(raw, text).Proven?
    ensures var proof := ProveRaw(raw, text);
            && Applied(text, proof.ops, 0, 0) == proof.finalText
            && forall j, k | 0 <= j < k < |proof.ops| :: Position(proof.ops[j]) <= Position(proof.ops[k]) <= |text|
  {
    ShapeFacts(raw);
    var segments := SegmentsOf(raw);
    assert ProveRaw(raw, text) == Prove(segments, text);
    hide ProveRaw, Prove, Applied, Position, Follows;
    ProvenOpsApply(segments, text);
    ProvenFollows(segments, text, 0);
    var ops := Prove(segments, text).ops;
    forall j, k | 0 <= j < k < |ops| ensures Position(ops[j]) <= Position(ops[k]) <= |text| {
      ProvenOffsetsOrdered(segments, text, j, k);
    }
  }

  /** Whatever blocks the transcript returns, they are distinct blocks of the document, in document
      order, each with ops that make its final text of its own text. */
  lemma {:induction false} ReturnedBlocks(patches: seq<Json>, ops: seq<Json>, blocks: map<string, Block>, t: Transcript)
    requires Validated(patches, ops, blocks, t) && t.ProvenTranscript?
    ensures |t.blocks| == |patches| && DistinctIds(t.blocks) && InIndexOrder(t.blocks)
    ensures forall i | 0 <= i < |t.blocks| :: ProvenOf(t.blocks[i], blocks)
    ensures forall id ::
      (exists i | 0 <= i < |t.blocks| :: t.blocks[i].blockId == id)
      <==> id in Patched(patches, |patches|, blocks)
  {
    var values := ValuesTo(PatchVerdicts(patches, blocks), |patches|);
    ValuesProven(patches, blocks);
    SortedIsOrdered(values);
    PermutedIds(values, t.blocks);
    hide ProvenOf, PatchVerdicts, SortedByIndex, Patched, Validated;
    assert multiset(t.blocks) == multiset(values);
    assert |t.blocks| == |multiset(t.blocks)| == |values|;
    forall i | 0 <= i < |t.blocks| ensures ProvenOf(t.blocks[i], blocks) {
      assert t.blocks[i] in multiset(values);
    }
    forall id
      ensures (exists i | 0 <= i < |t.blocks| :: t.blocks[i].blockId == id)
        <==> id in Patched(patches, |patches|, blocks)
    {
      if i :| 0 <= i < |t.blocks| && t.blocks[i].blockId == id { assert t.blocks[i] in multiset(values); }
      if i :| 0 <= i < |values| && values[i].blockId == id { assert values[i] in multiset(t.blocks); }
    }
  }

  lemma {:induction false} ValuesProven(patches: seq<Json>, blocks: map<string, Block>)
    requires AllOk(PatchVerdicts(patches, blocks), |patches|)
    ensures var values := ValuesTo(PatchVerdicts(patches, blocks), |patches|);
            && |values| == |patches| && DistinctIds(values)
            && (forall v | v in values :: ProvenOf(v, blocks))
            && (forall id ::
                  (exists i | 0 <= i < |values| :: values[i].blockId == id)
                  <==> id in Patched(patches, |patches|, blocks))
  {
    var values := ValuesTo(PatchVerdicts(patches, blocks), |patches|);
    NoErrors(PatchVerdicts(patches, blocks), |patches|);
    hide PatchVerdict, ProveRaw, Applied, Position, Addressed;
    forall i | 0 <= i < |values|
        ensures ProvenOf(values[i], blocks) && Addressed(patches[i], blocks) == Some(values[i].blockId) {
      ReturnedBlock(patches, blocks, i);
    }
    forall i, j | 0 <= i < j < |values| ensures values[i].blockId != values[j].blockId {
      NoBlockPatchedTwice(patches, blocks, i, j);
    }
    forall id
      ensures (exists i | 0 <= i < |values| :: values[i].blockId == id) <==> id in Patched(patches, |patches|, blocks)
    {
      if i :| 0 <= i < |values| && values[i].blockId == id { assert Addressed(patches[i], blocks) == Some(id); }
      if id in Patched(patches, |patches|, blocks) {
        var j :| 0 <= j < |patches| && Addressed(patches[j], blocks).Some? && Addressed(patches[j], blocks).value == id;
        assert values[j].blockId == id;
      }
    }
  }

  lemma {:induction false} ReturnedBlock(patches: seq<Json>, blocks: map<string, Block>, i: nat)
    requires i < |patches| && AllOk(PatchVerdicts(patches, blocks), |patches|)
    ensures |ValuesTo(PatchVerdicts(patches, blocks), |patches|)| == |patches|
    ensures var v := ValuesTo(PatchVerdicts(patches, blocks), |patches|)[i];
            ProvenOf(v, blocks) && Addressed(patches[i], blocks) == Some(v.blockId)
  {
    hide ProveRaw, Applied, Position, Addressed;
    AcceptedPatch(patches, blocks, i);
    var v := ValuesTo(PatchVerdicts(patches, blocks), |patches|)[i];
    OneProven(patches[i].Get("segments"), v.sourceText);
  }

  // ---------------------------------------------------------------------
  // The returned block ops
  // ---------------------------------------------------------------------

  /** No delete removes a block the transcript patches, and no two remove one block; every op is what
      its JSON says, and names a block of the document, or the start. */
  lemma {:induction false} ReturnedBlockOps(patches: seq<Json>, ops: seq<Json>, blocks: map<string, Block>,
      t: Transcript)
    requires Validated(patches, ops, blocks, t) && t.ProvenTranscript?
    ensures |t.blockOps| == |ops|
    ensures forall i, j | 0 <= i < |t.blocks| && 0 <= j < |t.blockOps| && t.blockOps[j].DeleteBlock? ::
              t.blocks[i].blockId != t.blockOps[j].blockId
    ensures forall i, j | 0 <= i < j < |t.blockOps| && t.blockOps[i].DeleteBlock? && t.blockOps[j].DeleteBlock? ::
              t.blockOps[i].blockId != t.blockOps[j].blockId
    ensures forall j | 0 <= j < |t.blockOps| :: Stands(ops[j], t.blockOps[j], blocks)
  {
    var patched := Patched(patches, |patches|, blocks);
    ReturnedBlocks(patches, ops, blocks, t);
    hide OpVerdicts, Patched, Normalized, Stands, PatchVerdicts, ProvenOf, DistinctIds, InIndexOrder;
    NoErrors(OpVerdicts(ops, patched, blocks), |ops|);
    forall j | 0 <= j < |t.blockOps|
      ensures Ok(t.blockOps[j]) == Normalized(ops[j], blocks) && Stands(ops[j], t.blockOps[j], blocks)
      ensures t.blockOps[j].DeleteBlock?
        ==> t.blockOps[j].blockId !in patched && !Deleted(ops, j, blocks, t.blockOps[j].blockId)
    {
      OneBlockOp(ops, patched, blocks, j);
      NormalizedExactly(ops[j], blocks);
    }
    forall i, j | 0 <= i < j < |t.blockOps| && t.blockOps[i].DeleteBlock? && t.blockOps[j].DeleteBlock?
      ensures t.blockOps[i].blockId != t.blockOps[j].blockId
    {
      assert DeletesAt(ops, i, blocks, t.blockOps[i].blockId);
    }
  }

  lemma {:induction false} OneBlockOp(ops: seq<Json>, patched: set<string>, blocks: map<string, Block>, j: nat)
    requires AllOk(OpVerdicts(ops, patched, blocks), |ops|) && j < |ops|
    ensures |ValuesTo(OpVerdicts(ops, patched, blocks), |ops|)| == |ops|
    ensures var op := ValuesTo(OpVerdicts(ops, patched, blocks), |ops|)[j];
            && Ok(op) == Normalized(ops[j], blocks)
            && (op.DeleteBlock? ==> op.blockId !in patched && !Deleted(ops, j, blocks, op.blockId))
  {
    hide Normalized, Deleted;
    NoErrors(OpVerdicts(ops, patched, blocks), |ops|);
    assert OpVerdicts(ops, patched, blocks)[j].Ok?;
  }

  // ---------------------------------------------------------------------
  // By issue
  // ---------------------------------------------------------------------

  function EditsIn(byIssue: map<string, IssueEdits>, key: string): seq<SegmentEdit> {
    if key in byIssue then byIssue[key].segmentEdits else []
  }

  function OpsIn(byIssue: map<string, IssueEdits>, key: string): seq<BlockOp> {
    if key in byIssue then byIssue[key].blockOps else []
  }

  lemma {:induction false} OpEditsCount(op: ProvenOp, blockId: string, edit: SegmentEdit)
    ensures multiset(OpEdits(op, blockId))[edit] == if !op.KeepOp? && edit == SegmentEdit(op, blockId) then 1 else 0
  {
  }

  lemma {:induction false} EditsOfCount(block: ProvenBlock, k: nat, edit: SegmentEdit)
    requires k <= |block.ops|
    ensures multiset(EditsOf(block, k))[edit]
      == if !edit.op.KeepOp? && edit.blockId == block.blockId then multiset(block.ops[..k])[edit.op] else 0
  {
    hide OpEdits;
    if k > 0 {
      EditsOfCount(block, k - 1, edit);
      OpEditsCount(block.ops[k - 1], block.blockId, edit);
      assert block.ops[..k] == block.ops[..k - 1] + [block.ops[k - 1]];
      assert multiset(EditsOf(block, k)) == multiset(EditsOf(block, k - 1))
        + multiset(OpEdits(block.ops[k - 1], block.blockId));
    }
  }

  /** Among all edits, one counts as often as its op stands in its block. */
  lemma {:induction false} AllEditsCount(blocks: seq<ProvenBlock>, k: nat, i: nat, edit: SegmentEdit)
    requires k <= |blocks| && i < |blocks| && DistinctIds(blocks) && edit.blockId == blocks[i].blockId
      && !edit.op.KeepOp?
    ensures multiset(AllEdits(blocks, k))[edit] == if i < k then multiset(blocks[i].ops)[edit.op] else 0
  {
    hide EditsOf;
    if k > 0 {
      var block := blocks[k - 1];
      AllEditsCount(blocks, k - 1, i, edit);
      EditsOfCount(block, |block.ops|, edit);
      assert block.ops[..|block.ops|] == block.ops;
      assert i != k - 1 ==> block.blockId != blocks[i].blockId;
      assert multiset(AllEdits(blocks, k)) == multiset(AllEdits(blocks, k - 1)) + multiset(EditsOf(block, |block.ops|));
    }
  }

  /** By issue, under any key: an edit of a returned block is listed as often as its op stands in that
      block when the key is its own, and never under another; and the same holds of the block ops. */
  lemma {:induction false} ReturnedByIssue(patches: seq<Json>, ops: seq<Json>, blocks: map<string, Block>,
      t: Transcript, key: string)
    requires Validated(patches, ops, blocks, t) && t.ProvenTranscript?
    ensures forall i, op | 0 <= i < |t.blocks| && op in t.blocks[i].ops && !op.KeepOp? ::
              multiset(EditsIn(t.byIssue, key))[SegmentEdit(op, t.blocks[i].blockId)]
                == if op.issueKey == key then multiset(t.blocks[i].ops)[op] else 0
    ensures forall op | op in t.blockOps ::
              multiset(OpsIn(t.byIssue, key))[op] == if op.issueKey == key then multiset(t.blockOps)[op] else 0
  {
    ReturnedBlocks(patches, ops, blocks, t);
    assert Groups(t.byIssue, t.blocks, t.blockOps);
    hide Validated, ProvenOf, InIndexOrder, DistinctIds, Patched;
    var edits := AllEdits(t.blocks, |t.blocks|);
    hide AllEdits;
    assert EditsIn(t.byIssue, key) == EditsUnder(edits, key) && OpsIn(t.byIssue, key) == OpsUnder(t.blockOps, key);
    forall i, op | 0 <= i < |t.blocks| && op in t.blocks[i].ops && !op.KeepOp?
      ensures multiset(EditsIn(t.byIssue, key))[SegmentEdit(op, t.blocks[i].blockId)]
        == if op.issueKey == key then multiset(t.blocks[i].ops)[op] else 0
    {
      var edit := SegmentEdit(op, t.blocks[i].blockId);
      AllEditsCount(t.blocks, |t.blocks|, i, edit);
      EveryEditUnderItsKey(edits, edit, key);
    }
    forall op | op in t.blockOps
      ensures multiset(OpsIn(t.byIssue, key))[op] == if op.issueKey == key then multiset(t.blockOps)[op] else 0
    {
      EveryOpUnderItsKey(t.blockOps, op, key);
    }
  }
}
