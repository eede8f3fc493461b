/** Proving a whole transcript (`scripts/block_transcript.py`, `validate_block_patches` and
    `_group_by_issue`): one rejected patch or block op rejects it all. */
module TranscriptValidation {
  import opened Prelude
  import opened Alignment
  import opened ProvenPatch

  datatype Block = Block(text: string, heading: string, index: nat)

  datatype ProvenBlock = ProvenBlock(
    blockId: string, index: nat, heading: string, sourceText: string, ops: seq<ProvenOp>, finalText: string)

  datatype BlockOp =
    | DeleteBlock(blockId: string, issueKey: string, index: nat, text: string)
    | InsertBlockAfter(anchor: string, newText: string, issueKey: string, anchorIndex: int)

  datatype Rejection = Rejection(reason: Reason, blockId: Json)

  // ---------------------------------------------------------------------
  // One patch, one block op
  // ---------------------------------------------------------------------

  const PATCH_KEYS: set<string> := {"block_id", "segments"}
  const DELETE_BLOCK_KEYS: set<string> := {"op", "block_id", "issue_key"}
  const INSERT_BLOCK_KEYS: set<string> := {"op", "anchor_block_id", "new_text", "issue_key"}
  const ANCHOR_START: string := "start"

  /** The block a patch addresses, when it is well formed and the block exists. */
  function Addressed(patch: Json, blocks: map<string, Block>): Option<string> {
    var id := patch.Get("block_id");
    if patch.JObj? && patch.fields.Keys <= PATCH_KEYS && id.JStr? && id.text in blocks then Some(id.text) else None
  }

  function AddressFailure(patch: Json, blocks: map<string, Block>): Rejection {
    if !patch.JObj? then Rejection(MalformedSegments, JNull)
    else if !(patch.fields.Keys <= PATCH_KEYS) then Rejection(MalformedSegments, patch.Get("block_id"))
    else Rejection(UnknownBlockId, patch.Get("block_id"))
  }

  function Nameable(key: Json): bool {
    key.JStr? && !Blank(key.text)
  }

  /** `_validate_block_op`. */
  function Normalized(op: Json, blocks: map<string, Block>): Result<BlockOp, Rejection> {
    if !op.JObj? then Err(Rejection(MalformedBlockOp, JNull))
    else if op.Get("op") == JStr("delete_block") then
      if !(op.fields.Keys <= DELETE_BLOCK_KEYS) || !Nameable(op.Get("issue_key")) then
        Err(Rejection(MalformedBlockOp, JNull))
      else
        var id := op.Get("block_id");
        if !id.JStr? || id.text !in blocks then Err(Rejection(UnknownBlockId, id))
        else Ok(DeleteBlock(id.text, op.Get("issue_key").text, blocks[id.text].index, blocks[id.text].text))
    else if op.Get("op") == JStr("insert_block_after") then
      var newText, anchor := op.Get("new_text"), op.Get("anchor_block_id");
      if !(op.fields.Keys <= INSERT_BLOCK_KEYS) || !Nameable(op.Get("issue_key")) || !newText.JStr?
        || newText.text == "" then
        Err(Rejection(MalformedBlockOp, JNull))
      else if anchor == JStr(ANCHOR_START) then
        Ok(InsertBlockAfter(ANCHOR_START, newText.text, op.Get("issue_key").text, -1))
      else if !anchor.JStr? || anchor.text !in blocks then Err(Rejection(UnknownBlockId, anchor))
      else Ok(InsertBlockAfter(anchor.text, newText.text, op.Get("issue_key").text, blocks[anchor.text].index))
    else Err(Rejection(MalformedBlockOp, JNull))
  }

  // ---------------------------------------------------------------------
  // What an acceptable transcript is
  // ---------------------------------------------------------------------

  /** An earlier patch addresses the block patch `i` does. */
  predicate AddressedBefore(patches: seq<Json>, i: nat, blocks: map<string, Block>)
    requires i < |patches|
  {
    exists j | 0 <= j < i :: Addressed(patches[j], blocks) == Addressed(patches[i], blocks)
  }

  /** What comes of patch `i`: its proven block, or why it is refused. */
  function PatchVerdict(patches: seq<Json>, i: nat, blocks: map<string, Block>): Result<ProvenBlock, Rejection>
    requires i < |patches|
  {
    var address := Addressed(patches[i], blocks);
    if address.None? then Err(AddressFailure(patches[i], blocks))
    else if AddressedBefore(patches, i, blocks) then Err(Rejection(DuplicateBlockId, JStr(address.value)))
    else
      var id, block := address.value, blocks[address.value];
      match ProveRaw(patches[i].Get("segments"), block.text)
      case Refused(failure) => Err(Rejection(failure.reason, JStr(id)))
      case Proven(ops, finalText) => Ok(ProvenBlock(id, block.index, block.heading, block.text, ops, finalText))
  }

  function PatchVerdicts(patches: seq<Json>, blocks: map<string, Block>): seq<Result<ProvenBlock, Rejection>> {
    seq(|patches|, i requires 0 <= i < |patches| => PatchVerdict(patches, i, blocks))
  }

  function Patched(patches: seq<Json>, k: nat, blocks: map<string, Block>): set<string>
    requires k <= |patches|
  {
    set j | 0 <= j < k && Addressed(patches[j], blocks).Some? :: Addressed(patches[j], blocks).value
  }

  predicate DeletesAt(blockOps: seq<Json>, j: nat, blocks: map<string, Block>, id: string)
    requires j < |blockOps|
  {
    var n := Normalized(blockOps[j], blocks);
    n.Ok? && n.value.DeleteBlock? && n.value.blockId == id
  }

  /** The blocks the first `k` ops delete. */
  predicate Deleted(blockOps: seq<Json>, k: nat, blocks: map<string, Block>, id: string)
    requires k <= |blockOps|
  {
    exists j | 0 <= j < k :: DeletesAt(blockOps, j, blocks, id)
  }

  /** What comes of block op `i`: malformed, its block already claimed, or as normalized. */
  function OpVerdict(blockOps: seq<Json>, i: nat, patched: set<string>, blocks: map<string, Block>)
    : Result<BlockOp, Rejection>
    requires i < |blockOps|
  {
    var n := Normalized(blockOps[i], blocks);
    if n.Ok? && n.value.DeleteBlock?
      && (n.value.blockId in patched || Deleted(blockOps, i, blocks, n.value.blockId)) then
      Err(Rejection(ConflictingBlockOp, JStr(n.value.blockId)))
    else n
  }

  function OpVerdicts(blockOps: seq<Json>, patched: set<string>, blocks: map<string, Block>)
    : seq<Result<BlockOp, Rejection>>
  {
    seq(|blockOps|, i requires 0 <= i < |blockOps| => OpVerdict(blockOps, i, patched, blocks))
  }

  // ---------------------------------------------------------------------
  // The patch loop and the block-op loop
  // ---------------------------------------------------------------------

  /** One patch: its address, whether that block was already patched, and its proof. */
  method ProveOne(patches: seq<Json>, k: nat, blocks: map<string, Block>, seen: set<string>)
    returns (r: Result<ProvenBlock, Rejection>)
    requires k < |patches| && seen == Patched(patches, k, blocks)
    ensures r == PatchVerdict(patches, k, blocks)
  {
    var patch := patches[k];
    var address := Addressed(patch, blocks);
    if address.None? {
      return Err(AddressFailure(patch, blocks));
    }
    var id := address.value;
    assert id in seen <==> AddressedBefore(patches, k, blocks);
    if id in seen {
      return Err(Rejection(DuplicateBlockId, JStr(id)));
    }
    var proof := ProvePatch(patch.Get("segments"), blocks[id].text);
    if proof.Refused? {
      return Err(Rejection(proof.failure.reason, JStr(id)));
    }
    return Ok(ProvenBlock(id, blocks[id].index, blocks[id].heading, blocks[id].text, proof.ops, proof.finalText));
  }

  /** Every patch in turn: the proven blocks, the blocks addressed, and the failures. */
  method ProvePatches(patches: seq<Json>, blocks: map<string, Block>)
    returns (proven: seq<ProvenBlock>, seen: set<string>, failures: seq<Rejection>)
    ensures seen == Patched(patches, |patches|, blocks)
    ensures failures == ErrorsTo(PatchVerdicts(patches, blocks), |patches|)
    ensures proven == ValuesTo(PatchVerdicts(patches, blocks), |patches|)
  {
    ghost var verdicts := PatchVerdicts(patches, blocks);
    proven, seen, failures := [], {}, [];
    for k := 0 to |patches|
      invariant seen == Patched(patches, k, blocks)
      invariant failures == ErrorsTo(verdicts, k) && proven == ValuesTo(verdicts, k)
    {
      var r := ProveOne(patches, k, blocks, seen);
      assert r == verdicts[k];
      seen := NoteAddress(patches, k, blocks, seen);
      match r {
        case Ok(block) => proven := proven + [block];
        case Err(rejection) => failures := failures + [rejection];
      }
    }
  }

  method NoteAddress(patches: seq<Json>, k: nat, blocks: map<string, Block>, seen: set<string>) returns (r: set<string>)
    requires k < |patches| && seen == Patched(patches, k, blocks)
    ensures r == Patched(patches, k + 1, blocks)
  {
    var address := Addressed(patches[k], blocks);
    r := if address.Some? then seen + {address.value} else seen;
  }

  /** Every block op in turn, against the blocks the patches claimed. `deleted` holds the
      accepted deletes; a delete refused for a patched block does not enter it. */
  method ValidateBlockOps(blockOps: seq<Json>, patched: set<string>, blocks: map<string, Block>)
    returns (normalized: seq<BlockOp>, failures: seq<Rejection>)
    ensures failures == ErrorsTo(OpVerdicts(blockOps, patched, blocks), |blockOps|)
    ensures normalized == ValuesTo(OpVerdicts(blockOps, patched, blocks), |blockOps|)
  {
    ghost var verdicts := OpVerdicts(blockOps, patched, blocks);
    normalized, failures := [], [];
    var deleted: set<string> := {};
    assert DeletesTracked(blockOps, 0, patched, blocks, deleted);
    hide DeletesTracked, OpVerdict;
    for k := 0 to |blockOps|
      invariant failures == ErrorsTo(verdicts, k) && normalized == ValuesTo(verdicts, k)
      invariant DeletesTracked(blockOps, k, patched, blocks, deleted)
    {
      var r;
      r, deleted := JudgeBlockOp(blockOps, k, patched, blocks, deleted);
      assert r == verdicts[k];
      match r {
        case Ok(op) => normalized := normalized + [op];
        case Err(rejection) => failures := failures + [rejection];
      }
    }
  }

  ghost predicate DeletesTracked(
    blockOps: seq<Json>, k: nat, patched: set<string>, blocks: map<string, Block>, deleted: set<string>)
    requires k <= |blockOps|
  {
    forall id :: id in deleted <==> Deleted(blockOps, k, blocks, id) && id !in patched
  }

  /** One block op: normalized, then checked against the blocks already claimed. */
  method JudgeBlockOp(
    blockOps: seq<Json>, k: nat, patched: set<string>, blocks: map<string, Block>, deleted: set<string>)
    returns (r: Result<BlockOp, Rejection>, nowDeleted: set<string>)
    requires k < |blockOps| && DeletesTracked(blockOps, k, patched, blocks, deleted)
    ensures r == OpVerdict(blockOps, k, patched, blocks)
    ensures DeletesTracked(blockOps, k + 1, patched, blocks, nowDeleted)
  {
    r, nowDeleted := Normalized(blockOps[k], blocks), deleted;
    DeletedStep(blockOps, k, blocks);
    if r.Ok? && r.value.DeleteBlock? {
      var target := r.value.blockId;
      if target in deleted || target in patched {
        r := Err(Rejection(ConflictingBlockOp, JStr(target)));
      } else {
        nowDeleted := deleted + {target};
      }
    }
  }

  lemma {:induction false} DeletedStep(blockOps: seq<Json>, k: nat, blocks: map<string, Block>)
    requires k < |blockOps|
    ensures forall id :: Deleted(blockOps, k + 1, blocks, id) <==>
      Deleted(blockOps, k, blocks, id) || DeletesAt(blockOps, k, blocks, id)
  {
    forall id
      ensures Deleted(blockOps, k + 1, blocks, id) <==>
        Deleted(blockOps, k, blocks, id) || DeletesAt(blockOps, k, blocks, id)
    {
      if Deleted(blockOps, k, blocks, id) {
        var j :| 0 <= j < k && DeletesAt(blockOps, j, blocks, id);
        assert 0 <= j < k + 1 && DeletesAt(blockOps, j, blocks, id);
      }
    }
  }

  // ---------------------------------------------------------------------
  // Grouping by issue
  // ---------------------------------------------------------------------

  /** A segment edit as `by_issue` lists it: the op and the block it edits. */
  datatype SegmentEdit = SegmentEdit(op: ProvenOp, blockId: string)

  datatype IssueEdits = IssueEdits(segmentEdits: seq<SegmentEdit>, blockOps: seq<BlockOp>)

  /** An op as an edit of its block; a keep is not an edit and has no author. */
  function OpEdits(op: ProvenOp, blockId: string): seq<SegmentEdit> {
    if op.KeepOp? then [] else [SegmentEdit(op, blockId)]
  }

  /** The edits among a block's first `k` ops. */
  function EditsOf(block: ProvenBlock, k: nat): seq<SegmentEdit>
    requires k <= |block.ops|
  {
    if k == 0 then [] else EditsOf(block, k - 1) + OpEdits(block.ops[k - 1], block.blockId)
  }

  /** Every segment edit of the first `k` blocks, in order. */
  function AllEdits(blocks: seq<ProvenBlock>, k: nat): seq<SegmentEdit>
    requires k <= |blocks|
  {
    if k == 0 then [] else AllEdits(blocks, k - 1) + EditsOf(blocks[k - 1], |blocks[k - 1].ops|)
  }

  function EditKey(edit: SegmentEdit): string {
    if edit.op.KeepOp? then "" else edit.op.issueKey
  }

  /** The edits authored under one key, in order. */
  function EditsUnder(edits: seq<SegmentEdit>, key: string): seq<SegmentEdit> {
    if edits == [] then []
    else
      var last := edits[|edits| - 1];
      EditsUnder(edits[..|edits| - 1], key) + (if EditKey(last) == key then [last] else [])
  }

  function OpsUnder(ops: seq<BlockOp>, key: string): seq<BlockOp> {
    if ops == [] then []
    else
      var last := ops[|ops| - 1];
      OpsUnder(ops[..|ops| - 1], key) + (if last.issueKey == key then [last] else [])
  }

  /** `grouped` lists, under each key, exactly the edits and block ops that key authored; a key
      with neither is not listed. */
  ghost predicate GroupsExactly(grouped: map<string, IssueEdits>, edits: seq<SegmentEdit>, ops: seq<BlockOp>) {
    forall key ::
      && (key in grouped <==> EditsUnder(edits, key) != [] || OpsUnder(ops, key) != [])
      && (key in grouped ==> grouped[key] == IssueEdits(EditsUnder(edits, key), OpsUnder(ops, key)))
  }

  /** `bucket(issue_key)["segment_edits"].append(entry)`, for an op that is an edit. */
  method FileEdit(grouped: map<string, IssueEdits>, op: ProvenOp, blockId: string, ghost edits: seq<SegmentEdit>)
    returns (r: map<string, IssueEdits>)
    requires GroupsExactly(grouped, edits, [])
    ensures GroupsExactly(r, edits + OpEdits(op, blockId), [])
  {
    if op.KeepOp? {
      r := grouped;
      assert edits + [] == edits;
    } else {
      var edit := SegmentEdit(op, blockId);
      var key := op.issueKey;
      var bucket := if key in grouped then grouped[key] else IssueEdits([], []);
      r := grouped[key := bucket.(segmentEdits := bucket.segmentEdits + [edit])];
      assert (edits + [edit])[..|edits|] == edits;
    }
  }

  /** `bucket(issue_key)["block_ops"].append(op)`. */
  method FileOp(grouped: map<string, IssueEdits>, op: BlockOp, ghost edits: seq<SegmentEdit>, ghost ops: seq<BlockOp>)
    returns (r: map<string, IssueEdits>)
    requires GroupsExactly(grouped, edits, ops)
    ensures GroupsExactly(r, edits, ops + [op])
  {
    var bucket := if op.issueKey in grouped then grouped[op.issueKey] else IssueEdits([], []);
    r := grouped[op.issueKey := bucket.(blockOps := bucket.blockOps + [op])];
    assert (ops + [op])[..|ops|] == ops;
  }

  /** Files one block's edits behind those already filed. */
  method FileEdits(grouped: map<string, IssueEdits>, block: ProvenBlock, ghost before: seq<SegmentEdit>)
    returns (r: map<string, IssueEdits>)
    requires GroupsExactly(grouped, before, [])
    ensures GroupsExactly(r, before + EditsOf(block, |block.ops|), [])
  {
    r := grouped;
    ghost var edits := before;
    for k := 0 to |block.ops|
      invariant edits == before + EditsOf(block, k)
      invariant GroupsExactly(r, edits, [])
    {
      r := FileEdit(r, block.ops[k], block.blockId, edits);
      edits := edits + OpEdits(block.ops[k], block.blockId);
    }
  }

  method FileOps(grouped: map<string, IssueEdits>, ops: seq<BlockOp>, ghost edits: seq<SegmentEdit>)
    returns (r: map<string, IssueEdits>)
    requires GroupsExactly(grouped, edits, [])
    ensures GroupsExactly(r, edits, ops)
  {
    r := grouped;
    for k := 0 to |ops|
      invariant GroupsExactly(r, edits, ops[..k])
    {
      r := FileOp(r, ops[k], edits, ops[..k]);
      assert ops[..k] + [ops[k]] == ops[..k + 1];
    }
    assert ops[..|ops|] == ops;
  }

  /** `grouped` lists exactly what the blocks' ops and the block ops come to, key by key. */
  ghost predicate Groups(grouped: map<string, IssueEdits>, blocks: seq<ProvenBlock>, ops: seq<BlockOp>) {
    GroupsExactly(grouped, AllEdits(blocks, |blocks|), ops)
  }

  /** `_group_by_issue`. */
  method GroupByIssue(blocks: seq<ProvenBlock>, ops: seq<BlockOp>) returns (grouped: map<string, IssueEdits>)
    ensures Groups(grouped, blocks, ops)
  {
    grouped := map[];
    for b := 0 to |blocks|
      invariant GroupsExactly(grouped, AllEdits(blocks, b), [])
    {
      grouped := FileEdits(grouped, blocks[b], AllEdits(blocks, b));
    }
    grouped := FileOps(grouped, ops, AllEdits(blocks, |blocks|));
  }

  /** No edit is lost, duplicated or filed under someone else's key. */
  lemma {:induction false} EveryEditUnderItsKey(edits: seq<SegmentEdit>, edit: SegmentEdit, key: string)
    ensures multiset(EditsUnder(edits, key))[edit] == if EditKey(edit) == key then multiset(edits)[edit] else 0
  {
    if edits != [] {
      EveryEditUnderItsKey(edits[..|edits| - 1], edit, key);
      assert edits == edits[..|edits| - 1] + [edits[|edits| - 1]];
    }
  }

  lemma {:induction false} EveryOpUnderItsKey(ops: seq<BlockOp>, op: BlockOp, key: string)
    ensures multiset(OpsUnder(ops, key))[op] == if op.issueKey == key then multiset(ops)[op] else 0
  {
    if ops != [] {
      EveryOpUnderItsKey(ops[..|ops| - 1], op, key);
      assert ops == ops[..|ops| - 1] + [ops[|ops| - 1]];
    }
  }

  // ---------------------------------------------------------------------
  // The whole transcript
  // ---------------------------------------------------------------------

  /** Inserts a block after every block whose index is not greater. */
  function InsertByIndex(block: ProvenBlock, sorted: seq<ProvenBlock>): seq<ProvenBlock> {
    if sorted != [] && sorted[|sorted| - 1].index > block.index then
      InsertByIndex(block, sorted[..|sorted| - 1]) + [sorted[|sorted| - 1]]
    else sorted + [block]
  }

  /** `proven_blocks.sort(key=index)`. */
  function SortedByIndex(blocks: seq<ProvenBlock>): seq<ProvenBlock> {
    if blocks == [] then [] else InsertByIndex(blocks[|blocks| - 1], SortedByIndex(blocks[..|blocks| - 1]))
  }

  predicate InIndexOrder(blocks: seq<ProvenBlock>) {
    forall i, j | 0 <= i < j < |blocks| :: blocks[i].index <= blocks[j].index
  }

  predicate AllUpTo(blocks: seq<ProvenBlock>, bound: nat) {
    forall i | 0 <= i < |blocks| :: blocks[i].index <= bound
  }

  lemma {:induction false} InsertBounded(block: ProvenBlock, sorted: seq<ProvenBlock>, bound: nat)
    requires AllUpTo(sorted, bound) && block.index <= bound
    ensures AllUpTo(InsertByIndex(block, sorted), bound)
  {
    if sorted != [] && sorted[|sorted| - 1].index > block.index { InsertBounded(block, sorted[..|sorted| - 1], bound); }
  }

  lemma {:induction false} InsertKeepsOrder(block: ProvenBlock, sorted: seq<ProvenBlock>)
    requires InIndexOrder(sorted)
    ensures InIndexOrder(InsertByIndex(block, sorted))
  {
    if sorted != [] && sorted[|sorted| - 1].index > block.index {
      InsertKeepsOrder(block, sorted[..|sorted| - 1]);
      InsertBounded(block, sorted[..|sorted| - 1], sorted[|sorted| - 1].index);
    }
  }

  lemma {:induction false} InsertAddsOne(block: ProvenBlock, sorted: seq<ProvenBlock>)
    ensures multiset(InsertByIndex(block, sorted)) == multiset(sorted) + multiset{block}
  {
    if sorted != [] && sorted[|sorted| - 1].index > block.index {
      InsertAddsOne(block, sorted[..|sorted| - 1]);
      assert sorted == sorted[..|sorted| - 1] + [sorted[|sorted| - 1]];
    }
  }

  /** Sorting permutes the blocks into index order. */
  lemma {:induction false} SortedIsOrdered(blocks: seq<ProvenBlock>)
    ensures InIndexOrder(SortedByIndex(blocks)) && multiset(SortedByIndex(blocks)) == multiset(blocks)
  {
    if blocks != [] {
      SortedIsOrdered(blocks[..|blocks| - 1]);
      InsertKeepsOrder(blocks[|blocks| - 1], SortedByIndex(blocks[..|blocks| - 1]));
      InsertAddsOne(blocks[|blocks| - 1], SortedByIndex(blocks[..|blocks| - 1]));
      assert blocks == blocks[..|blocks| - 1] + [blocks[|blocks| - 1]];
    }
  }

  /** Every patch proves, and every block op stands beside them. */
  predicate Acceptable(patches: seq<Json>, blockOps: seq<Json>, blocks: map<string, Block>) {
    AllOk(PatchVerdicts(patches, blocks), |patches|)
    && AllOk(OpVerdicts(blockOps, Patched(patches, |patches|, blocks), blocks), |blockOps|)
  }

  datatype Transcript =
    | Rejected(failures: seq<Rejection>)
    | ProvenTranscript(blocks: seq<ProvenBlock>, blockOps: seq<BlockOp>, byIssue: map<string, IssueEdits>)

  /** An absent list reads as empty; anything else that is not a list is refused. */
  function ListOf(value: Json): Option<seq<Json>> {
    if value == JNull then Some([]) else if value.JList? then Some(value.items) else None
  }

  /** What `validate_block_patches` may return for two lists: every failure in order when there is one,
      and otherwise everything, proven. */
  ghost predicate Validated(patches: seq<Json>, ops: seq<Json>, blocks: map<string, Block>, transcript: Transcript) {
    var patchVerdicts := PatchVerdicts(patches, blocks);
    var opVerdicts := OpVerdicts(ops, Patched(patches, |patches|, blocks), blocks);
    match transcript
    case Rejected(failures) =>
      !Acceptable(patches, ops, blocks)
      && failures == ErrorsTo(patchVerdicts, |patches|) + ErrorsTo(opVerdicts, |ops|)
    case ProvenTranscript(proven, normalized, byIssue) =>
      && Acceptable(patches, ops, blocks)
      && proven == SortedByIndex(ValuesTo(patchVerdicts, |patches|))
      && normalized == ValuesTo(opVerdicts, |ops|)
      && Groups(byIssue, proven, normalized)
  }

  /** `validate_block_patches`: never partial. Any refused patch or block op rejects the whole
      transcript with every failure in order; otherwise it returns the proven blocks in document
      order, the block ops as written, and both again under the issue that authored them. */
  method ValidateBlockPatches(blockPatches: Json, blockOps: Json, blocks: map<string, Block>)
    returns (transcript: Transcript)
    ensures ListOf(blockPatches).None? ==> transcript == Rejected([Rejection(MalformedSegments, JNull)])
    ensures ListOf(blockPatches).Some? && ListOf(blockOps).None? ==>
      transcript == Rejected([Rejection(MalformedBlockOp, JNull)])
    ensures ListOf(blockPatches).Some? && ListOf(blockOps).Some? ==>
      Validated(ListOf(blockPatches).value, ListOf(blockOps).value, blocks, transcript)
  {
    var patches, ops := ListOf(blockPatches), ListOf(blockOps);
    if patches.None? {
      return Rejected([Rejection(MalformedSegments, JNull)]);
    }
    if ops.None? {
      return Rejected([Rejection(MalformedBlockOp, JNull)]);
    }
    var proven, seen, patchFailures := ProvePatches(patches.value, blocks);
    var normalized, opFailures := ValidateBlockOps(ops.value, seen, blocks);
    NoErrors(PatchVerdicts(patches.value, blocks), |patches.value|);
    NoErrors(OpVerdicts(ops.value, seen, blocks), |ops.value|);
    var failures := patchFailures + opFailures;
    if failures != [] {
      return Rejected(failures);
    }
    var sorted := SortedByIndex(proven);
    var grouped := GroupByIssue(sorted, normalized);
    return ProvenTranscript(sorted, normalized, grouped);
  }

  /** What an acceptable transcript returns for patch `i`: the block it addressed, its ops and
      the final text proven against that block's own text. */
  lemma {:induction false} AcceptedPatch(patches: seq<Json>, blocks: map<string, Block>, i: nat)
    requires i < |patches| && AllOk(PatchVerdicts(patches, blocks), |patches|)
    ensures |ValuesTo(PatchVerdicts(patches, blocks), |patches|)| == |patches|
    ensures var block := ValuesTo(PatchVerdicts(patches, blocks), |patches|)[i];
            && Addressed(patches[i], blocks) == Some(block.blockId) && block.blockId in blocks
            && block.sourceText == blocks[block.blockId].text && block.index == blocks[block.blockId].index
            && block.heading == blocks[block.blockId].heading
            && ProveRaw(patches[i].Get("segments"), block.sourceText) == Proven(block.ops, block.finalText)
  {
    NoErrors(PatchVerdicts(patches, blocks), |patches|);
    assert PatchVerdicts(patches, blocks)[i].Ok?;
  }

  /** In an acceptable transcript no block is patched twice. */
  lemma {:induction false} NoBlockPatchedTwice(patches: seq<Json>, blocks: map<string, Block>, i: nat, j: nat)
    requires AllOk(PatchVerdicts(patches, blocks), |patches|) && i < j < |patches|
    ensures Addressed(patches[i], blocks) != Addressed(patches[j], blocks)
  {
    assert PatchVerdicts(patches, blocks)[j].Ok?;
    assert !AddressedBefore(patches, j, blocks);
  }
}
