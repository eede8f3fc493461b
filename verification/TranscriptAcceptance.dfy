/** Which transcripts are accepted, said of the JSON a model writes. */
module TranscriptAcceptance {
  import opened Prelude
  import opened Alignment
  import opened ProvenPatch
  import opened TranscriptValidation

  // ---------------------------------------------------------------------
  // Block ops
  // ---------------------------------------------------------------------

  /** The object names an issue, in a text that is not blank. */
  predicate NamesIssue(op: Json, key: string) {
    op.JObj? && "issue_key" in op.fields && op.fields["issue_key"] == JStr(key) && !Blank(key)
  }

  /** `op` asks for a block to be deleted, or for a new one, in the fields such an op may have. */
  ghost predicate AsksDelete(op: Json) {
    && (exists key :: NamesIssue(op, key))
    && op.Get("op") == JStr("delete_block")
    && forall field | field in op.fields :: field in ["op", "block_id", "issue_key"]
  }

  ghost predicate AsksInsert(op: Json) {
    && (exists key :: NamesIssue(op, key))
    && op.Get("op") == JStr("insert_block_after")
    && op.Get("new_text").JStr? && op.Get("new_text").text != ""
    && forall field | field in op.fields :: field in ["op", "anchor_block_id", "new_text", "issue_key"]
  }

  /** What the JSON says is what the block op is, and the block it names is one of the document's: to be
      deleted, with its own index and text; or to stand before the new one, unless that goes first. */
  ghost predicate Stands(op: Json, b: BlockOp, blocks: map<string, Block>) {
    && NamesIssue(op, b.issueKey)
    && match b
       case DeleteBlock(id, _, index, text) =>
         && AsksDelete(op) && op.Get("block_id") == JStr(id)
         && id in blocks && index == blocks[id].index && text == blocks[id].text
       case InsertBlockAfter(anchor, newText, _, anchorIndex) =>
         && AsksInsert(op) && op.Get("anchor_block_id") == JStr(anchor) && op.Get("new_text") == JStr(newText)
         && if anchor == "start" then anchorIndex == -1 else anchor in blocks && anchorIndex == blocks[anchor].index
  }

  ghost predicate CanStand(op: Json, blocks: map<string, Block>) {
    exists b :: Stands(op, b, blocks)
  }

  /** A block op is accepted exactly as what it says, when it stands; and one that asks for something is
      refused for the block it names, any other for its form. */
  lemma {:induction false} NormalizedExactly(op: Json, blocks: map<string, Block>)
    ensures forall b :: Normalized(op, blocks) == Ok(b) <==> Stands(op, b, blocks)
    ensures Normalized(op, blocks).Err? ==>
      Normalized(op, blocks).error
        == if AsksDelete(op) then Rejection(UnknownBlockId, op.Get("block_id"))
           else if AsksInsert(op) then Rejection(UnknownBlockId, op.Get("anchor_block_id"))
           else Rejection(MalformedBlockOp, JNull)
  {
    hide Normalized, Stands, AsksDelete, AsksInsert;
    forall b ensures Normalized(op, blocks) == Ok(b) <==> Stands(op, b, blocks) {
      OkStands(op, b, blocks);
    }
    ErrIsWhy(op, blocks);
  }

  lemma {:induction false} FieldsAre(op: Json)
    requires op.JObj?
    ensures op.fields.Keys <= DELETE_BLOCK_KEYS
      <==> forall field | field in op.fields :: field in ["op", "block_id", "issue_key"]
    ensures op.fields.Keys <= INSERT_BLOCK_KEYS
      <==> forall field | field in op.fields :: field in ["op", "anchor_block_id", "new_text", "issue_key"]
  {
  }

  lemma {:induction false} OkStands(op: Json, b: BlockOp, blocks: map<string, Block>)
    ensures Normalized(op, blocks) == Ok(b) <==> Stands(op, b, blocks)
  {
    hide Blank;
    IssueNamed(op);
    if op.JObj? { FieldsAre(op); }
  }

  lemma {:induction false} ErrIsWhy(op: Json, blocks: map<string, Block>)
    ensures Normalized(op, blocks).Err? ==>
      Normalized(op, blocks).error
        == if AsksDelete(op) then Rejection(UnknownBlockId, op.Get("block_id"))
           else if AsksInsert(op) then Rejection(UnknownBlockId, op.Get("anchor_block_id"))
           else Rejection(MalformedBlockOp, JNull)
  {
    hide Blank;
    IssueNamed(op);
    if op.JObj? { FieldsAre(op); }
  }

  lemma {:induction false} IssueNamed(op: Json)
    ensures Nameable(op.Get("issue_key")) <==> exists key :: NamesIssue(op, key)
    ensures forall key :: NamesIssue(op, key) <==> Nameable(op.Get("issue_key")) && op.Get("issue_key").text == key
  {
    hide Blank;
    if Nameable(op.Get("issue_key")) { assert NamesIssue(op, op.Get("issue_key").text); }
  }

  // ---------------------------------------------------------------------
  // Patches
  // ---------------------------------------------------------------------

  /** The patch addresses a block of the document, in the fields a patch may have. */
  predicate Addresses(patch: Json, id: string, blocks: map<string, Block>) {
    && patch.JObj? && (forall field | field in patch.fields :: field in ["block_id", "segments"])
    && patch.Get("block_id") == JStr(id) && id in blocks
  }

  lemma {:induction false} AddressedIs(patch: Json, blocks: map<string, Block>)
    ensures forall id :: Addressed(patch, blocks) == Some(id) <==> Addresses(patch, id, blocks)
  {
    if patch.JObj? {
      assert patch.fields.Keys <= PATCH_KEYS <==>
        forall field | field in patch.fields :: field in ["block_id", "segments"];
    }
  }

  /** The patch's segments prove against the text of the block it addresses. */
  predicate Proves(patch: Json, blocks: map<string, Block>) {
    var id := patch.Get("block_id");
    id.JStr? && Addresses(patch, id.text, blocks) && ProveRaw(patch.Get("segments"), blocks[id.text].text).Proven?
  }

  predicate AddressedAlready(patches: seq<Json>, i: nat, blocks: map<string, Block>)
    requires i < |patches|
  {
    exists j, id | 0 <= j < i && id in blocks :: Addresses(patches[j], id, blocks) && Addresses(patches[i], id, blocks)
  }

  /** A patch stands exactly when it proves and no earlier patch addresses its block; a refused one is
      reported under the block it names. */
  lemma {:induction false} PatchExactly(patches: seq<Json>, i: nat, blocks: map<string, Block>)
    requires i < |patches|
    ensures PatchVerdict(patches, i, blocks).Ok?
      <==> Proves(patches[i], blocks) && !AddressedAlready(patches, i, blocks)
    ensures PatchVerdict(patches, i, blocks).Err? ==>
      PatchVerdict(patches, i, blocks).error.blockId == patches[i].Get("block_id")
  {
    AddressesAre(patches, i, blocks);
    hide ProveRaw, Addressed;
  }

  lemma {:induction false} AddressesAre(patches: seq<Json>, i: nat, blocks: map<string, Block>)
    requires i < |patches|
    ensures forall j, id | 0 <= j < |patches| ::
      Addressed(patches[j], blocks) == Some(id) <==> Addresses(patches[j], id, blocks)
    ensures Addressed(patches[i], blocks).Some? ==>
      (AddressedBefore(patches, i, blocks) <==> AddressedAlready(patches, i, blocks))
  {
    forall j | 0 <= j < |patches|
      ensures forall id :: Addressed(patches[j], blocks) == Some(id) <==> Addresses(patches[j], id, blocks)
    {
      AddressedIs(patches[j], blocks);
    }
    hide Addressed;
    var address := Addressed(patches[i], blocks);
    if address.Some? { assert Addresses(patches[i], address.value, blocks); }
  }

  predicate PatchShaped(patch: Json) {
    patch.JObj? && forall field | field in patch.fields :: field in ["block_id", "segments"]
  }

  /** Why a patch is refused: for its form, for a block there is not, for a block another patch has, or
      for what its own proof says, in this order. */
  lemma {:induction false} PatchRefused(patches: seq<Json>, i: nat, blocks: map<string, Block>)
    requires i < |patches| && PatchVerdict(patches, i, blocks).Err?
    ensures var reason, patch, id := PatchVerdict(patches, i, blocks).error.reason, patches[i],
      patches[i].Get("block_id");
            if !PatchShaped(patch) then reason == MalformedSegments
            else if !id.JStr? || id.text !in blocks then reason == UnknownBlockId
            else if AddressedAlready(patches, i, blocks) then reason == DuplicateBlockId
            else
              var proof := ProveRaw(patch.Get("segments"), blocks[id.text].text);
              proof.Refused? && reason == proof.failure.reason
  {
    hide ProveRaw, AddressedAlready, AddressedBefore, Addressed;
    AddressesAre(patches, i, blocks);
    AddressFails(patches[i], blocks);
  }

  lemma {:induction false} AddressFails(patch: Json, blocks: map<string, Block>)
    ensures var id := patch.Get("block_id");
            Addressed(patch, blocks)
              == if PatchShaped(patch) && id.JStr? && id.text in blocks then Some(id.text) else None
    ensures AddressFailure(patch, blocks).reason == if PatchShaped(patch) then UnknownBlockId else MalformedSegments
  {
    if patch.JObj? {
      assert patch.fields.Keys <= PATCH_KEYS <==>
        forall field | field in patch.fields :: field in ["block_id", "segments"];
    }
  }

  // ---------------------------------------------------------------------
  // The whole transcript
  // ---------------------------------------------------------------------

  predicate DistinctTargets(patches: seq<Json>) {
    forall i, j | 0 <= i < j < |patches| :: patches[i].Get("block_id") != patches[j].Get("block_id")
  }

  lemma {:induction false} AlreadyIsShared(patches: seq<Json>, j: nat, blocks: map<string, Block>)
    requires j < |patches| && forall i | 0 <= i <= j :: Proves(patches[i], blocks)
    ensures AddressedAlready(patches, j, blocks)
      <==> exists i | 0 <= i < j :: patches[i].Get("block_id") == patches[j].Get("block_id")
  {
    hide ProveRaw;
    if i :| 0 <= i < j && patches[i].Get("block_id") == patches[j].Get("block_id") {
      var id := patches[j].Get("block_id").text;
      assert Proves(patches[i], blocks) && Proves(patches[j], blocks);
      assert Addresses(patches[i], id, blocks) && Addresses(patches[j], id, blocks);
    }
  }

  lemma {:induction false} PatchesProven(patches: seq<Json>, blocks: map<string, Block>)
    ensures AllOk(PatchVerdicts(patches, blocks), |patches|)
      <==> ((forall i | 0 <= i < |patches| :: Proves(patches[i], blocks)) && DistinctTargets(patches))
  {
    hide PatchVerdict, Proves, AddressedAlready;
    forall i | 0 <= i < |patches|
      ensures PatchVerdicts(patches, blocks)[i].Ok?
        <==> Proves(patches[i], blocks) && !AddressedAlready(patches, i, blocks)
    {
      PatchExactly(patches, i, blocks);
    }
    if forall i | 0 <= i < |patches| :: Proves(patches[i], blocks) {
      forall j | 0 <= j < |patches|
        ensures AddressedAlready(patches, j, blocks)
          <==> exists i | 0 <= i < j :: patches[i].Get("block_id") == patches[j].Get("block_id")
      {
        AlreadyIsShared(patches, j, blocks);
      }
    }
  }

  /** Block op `j` asks for a block to go that a patch, or an op before it, names as well. */
  ghost predicate Conflicts(patched: set<string>, ops: seq<Json>, j: nat)
    requires j < |ops|
  {
    AsksDelete(ops[j]) && ops[j].Get("block_id").JStr?
    && (ops[j].Get("block_id").text in patched
        || exists i | 0 <= i < j :: AsksDelete(ops[i]) && ops[i].Get("block_id") == ops[j].Get("block_id"))
  }

  lemma {:induction false} DeletesAre(ops: seq<Json>, i: nat, blocks: map<string, Block>, id: string)
    requires i < |ops| && id in blocks
    ensures DeletesAt(ops, i, blocks, id) <==> AsksDelete(ops[i]) && ops[i].Get("block_id") == JStr(id)
  {
    hide Blank;
    NormalizedExactly(ops[i], blocks);
    var n := Normalized(ops[i], blocks);
    if n.Ok? { assert Stands(ops[i], n.value, blocks); }
  }

  lemma {:induction false} OpExactly(ops: seq<Json>, j: nat, patched: set<string>, blocks: map<string, Block>)
    requires j < |ops|
    ensures OpVerdict(ops, j, patched, blocks).Ok?
      <==> CanStand(ops[j], blocks) && !Conflicts(patched, ops, j)
  {
    NormalizedExactly(ops[j], blocks);
    var n := Normalized(ops[j], blocks);
    if n.Ok? && n.value.DeleteBlock? {
      forall i | 0 <= i < j
        ensures DeletesAt(ops, i, blocks, n.value.blockId)
          <==> AsksDelete(ops[i]) && ops[i].Get("block_id") == JStr(n.value.blockId)
      {
        DeletesAre(ops, i, blocks, n.value.blockId);
      }
    }
    hide Normalized, AsksDelete, AsksInsert, DeletesAt, NamesIssue;
  }

  lemma {:induction false} OpsStand(ops: seq<Json>, patched: set<string>, blocks: map<string, Block>)
    ensures AllOk(OpVerdicts(ops, patched, blocks), |ops|)
      <==> (forall j | 0 <= j < |ops| :: CanStand(ops[j], blocks) && !Conflicts(patched, ops, j))
  {
    hide OpVerdict, CanStand, Conflicts;
    forall j | 0 <= j < |ops|
      ensures OpVerdicts(ops, patched, blocks)[j].Ok?
        <==> CanStand(ops[j], blocks) && !Conflicts(patched, ops, j)
    {
      OpExactly(ops, j, patched, blocks);
    }
  }

  /** No block op asks for a block to go that a patch, or another op, names as well. */
  ghost predicate NoConflict(patches: seq<Json>, ops: seq<Json>) {
    && (forall i, j | 0 <= i < |patches| && 0 <= j < |ops| && AsksDelete(ops[j]) ::
          patches[i].Get("block_id") != ops[j].Get("block_id"))
    && (forall i, j | 0 <= i < j < |ops| && AsksDelete(ops[i]) && AsksDelete(ops[j]) ::
          ops[i].Get("block_id") != ops[j].Get("block_id"))
  }

  lemma {:induction false} NoneConflicts(patches: seq<Json>, ops: seq<Json>, blocks: map<string, Block>)
    requires forall i | 0 <= i < |patches| :: Proves(patches[i], blocks)
    requires forall j | 0 <= j < |ops| :: CanStand(ops[j], blocks)
    ensures (forall j | 0 <= j < |ops| :: !Conflicts(Patched(patches, |patches|, blocks), ops, j))
      <==> NoConflict(patches, ops)
  {
    hide AsksDelete, AsksInsert, Proves, Patched, CanStand;
    var patched := Patched(patches, |patches|, blocks);
    forall j | 0 <= j < |ops| && AsksDelete(ops[j])
      ensures ops[j].Get("block_id").JStr?
      ensures ops[j].Get("block_id").text in patched
        <==> exists i | 0 <= i < |patches| :: patches[i].Get("block_id") == ops[j].Get("block_id")
    {
      DeleteNames(ops[j], blocks);
      PatchedAre(patches, blocks, ops[j].Get("block_id").text);
    }
    if forall j | 0 <= j < |ops| :: !Conflicts(patched, ops, j) {
      forall i, j | 0 <= i < |patches| && 0 <= j < |ops| && AsksDelete(ops[j])
        ensures patches[i].Get("block_id") != ops[j].Get("block_id") { assert !Conflicts(patched, ops, j); }
      forall i, j | 0 <= i < j < |ops| && AsksDelete(ops[i]) && AsksDelete(ops[j])
        ensures ops[i].Get("block_id") != ops[j].Get("block_id") { assert !Conflicts(patched, ops, j); }
    }
  }

  lemma {:induction false} DeleteNames(op: Json, blocks: map<string, Block>)
    requires AsksDelete(op) && CanStand(op, blocks)
    ensures op.Get("block_id").JStr?
  {
    var b :| Stands(op, b, blocks);
  }

  lemma {:induction false} PatchedAre(patches: seq<Json>, blocks: map<string, Block>, id: string)
    requires forall i | 0 <= i < |patches| :: Proves(patches[i], blocks)
    ensures id in Patched(patches, |patches|, blocks)
      <==> exists i | 0 <= i < |patches| :: patches[i].Get("block_id") == JStr(id)
  {
    hide ProveRaw, Addressed;
    forall i | 0 <= i < |patches| ensures Addressed(patches[i], blocks) == Some(patches[i].Get("block_id").text) {
      AddressedIs(patches[i], blocks);
      assert Proves(patches[i], blocks);
    }
    forall i | 0 <= i < |patches| ensures patches[i].Get("block_id").JStr? { assert Proves(patches[i], blocks); }
  }

  /** A transcript is accepted exactly when every patch proves against the block it names, every block op
      stands, and no block is named by two of the patches and deletes. */
  lemma {:induction false} AcceptedExactly(patches: seq<Json>, ops: seq<Json>, blocks: map<string, Block>,
      t: Transcript)
    requires Validated(patches, ops, blocks, t)
    ensures t.ProvenTranscript?
      <==> ((forall i | 0 <= i < |patches| :: Proves(patches[i], blocks)) && DistinctTargets(patches)
            && (forall j | 0 <= j < |ops| :: CanStand(ops[j], blocks)) && NoConflict(patches, ops))
  {
    hide AllOk, Proves, CanStand, DistinctTargets, NoConflict, Conflicts, Groups, Patched;
    PatchesProven(patches, blocks);
    OpsStand(ops, Patched(patches, |patches|, blocks), blocks);
    if (forall i | 0 <= i < |patches| :: Proves(patches[i], blocks))
      && forall j | 0 <= j < |ops| :: CanStand(ops[j], blocks)
    {
      NoneConflicts(patches, ops, blocks);
    }
  }

  /** A missing list is an empty one, and what is no list is none. */
  lemma {:induction false} ListsRead(value: Json)
    ensures forall items :: ListOf(value) == Some(items) <==> value == JList(items) || (value == JNull && items == [])
  {
  }
}
