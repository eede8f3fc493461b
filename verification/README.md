# Contract review: verified core

This project models the deterministic core of a contract-review pipeline and proves what the
pipeline relies on. A counterparty's Word document is read in two ways, raw and with every pending
revision accepted, and both reads must address the same clauses. A model's edit transcript is
accepted only when it can be proved against the document's own text. Hard rules that are not proven
present are inserted by code. Spend is reserved before it happens.

## How the parts fit

**Accepting every revision.** `Markup` is the tree; `Splice` says what accepting every revision makes
of it, `SpliceTally` what it files apart, and `SpliceInPlace` is the rewrite as it runs, over mutable elements that drop, unwrap and
re-append their own children. `Reading` is the readers' one traversal; its main result is that the
accepted tree is read as exactly the surviving leaves of the raw one. Everything after it is a
function of the leaves.

**Paragraphs.** `ParagraphText` spells the three texts of a paragraph, `ParagraphDraft`,
`DraftAuthors` and `ParagraphWalk` are the builder that accumulates them, `ParagraphRecord` the record
and its clean text, `Boundaries` the clause-boundary rules and `LeadIns` what they come to,
`ReadingTables` what each kind of element reads as, and `ParagraphAgreement` what the two
reads agree on, with the exact conditions.

**Documents.** `FieldEvents` and `FieldRegions` drop a generated table of contents or index,
`FieldListings` says which, of text and events; `DocumentParagraphs` and `BodyParagraphFacts` walk the body, `Blocks` groups, normalizes and numbers, and `BlockAgreement`
proves that the loops compute a simple block map and exactly when both reads give the same one.

**Transcripts.** `TextFold` is the comparison fold and its index map; `Alignment` and
`AlignmentSoundness` place a transcript's segments on the folded block; `SegmentShape`, `ProvenPatch`,
`ProvenPatchFacts` and `AppliedEdits` prove one patch, `AlignmentExactness` and `ProvenPatchExactness`
say exactly which are proven; `BoundarySpaces` and `BoundarySpaceFacts` trim
doubled spaces; `TranscriptValidation` judges a whole transcript, `TranscriptAcceptance` says which
are accepted, of their JSON, and `TranscriptFacts` what an accepted one guarantees of what is returned.

**The hard-rejection ledger.** `LedgerConditions` is what a rule asks of its clause, `LedgerEvidence`
decides what clears a rule, `LedgerClauses` of which text, `LedgerAnchor` and `LedgerPlacement` where
language goes, `LedgerEnforcement` what enforcing does, `LedgerFacts` what any run of it guarantees, and
`LedgerRun` what claimed evidence comes to in the end.

**Protocols.** `SpendLedger` and `SpendRunners` are the CI spend ledger and any number of runners on
it, step by step, and `SpendGrants` what is let through; `CriticPass` and `FloorJudge` are the two
bounded-retry loops, and `CriticRuns` and `FloorReplies` what they come to, of the answers alone.

**Smaller parts.** `Detector` and `DetectorMatches` (exempt phrases), `DealAliases` (opaque deal names), `OpfHtml` (the HTML
envelope). `Prelude` holds shared vocabulary, and `Characters` spells its tables out.

Every lemma switches Dafny's automatic induction off: each induction the proofs rest on is written out,
and a lemma that needs none gets none.

## What the code does not do

Seven statements the source's comments make, or a reader would expect, are not true as they stand. Each
is proved with the exact condition under which it holds, and with an input that fails.

- Text below a deletion. The walk re-enters insertion mode, and reads a simple field plain, below a
  deletion; the splice drops the whole subtree. The readings agree exactly when no visible text is
  revived this way (`TextSpaceMeetsByteSpace`, `InsertionBelowDeletionIsRevived`).
- Field results. Beside a pending change, a simple field whose result ends its paragraph on a space is
  folded in a second time when the accepted document is read (`CleanTextsAgree`, `FieldFoldedTwice`).
- Boldness. Only direct runs count as bold text, so a bold insertion is seen by one read only
  (`AcceptedBoldness`, `BoundaryAgrees`, `InsertedBoldIsSeenOnce`).
- Lettered markers. A tab after a lettered marker does not always keep it body text: a no-break space
  after the tab makes it open a clause (`TabbedMarkerOpensClause`, `NoBreakSpaceOpensClause`).
- Generated listings. A paragraph is dropped on account of the listing its first text lies in, so one
  that ends one listing and shows text of a second, never closed one is dropped with the first
  (`OmittedExactly`, `OmittedLiesInOneRegion`, `SecondListingIsDropped`).
- Cents. Amounts that are not whole cents are rounded away one by one: any number of reservations under
  half a cent leaves the total where it was (`ExactAddition`, `SubCentIsLost`).
- Not a number. `--run-cost-usd nan` passes every gate, and from then on nothing is refused in that month:
  the cap and the sums hold in exactly the months no such amount was reserved in (`SpendIsSafe`,
  `NotANumberLiftsTheCap`).

Hypotheses on the tree are asked only of what a reader goes through. `WellPlaced` asks, of the runs and
content controls the walk meets, that no insertion or move target in them holds a run's content or a
control's parts, which section 17.13.5 of ECMA-376 Part 1 rules out; without it the two reads differ
(`ItemsSpliced`, `MisplacedRevisionReadsDifferently`). `StylePlaced` asks the same of paragraph
properties, and `ControlsPlaced` of the content controls around paragraphs. `Unveiled` counts the
paragraphs that unwrapping an insertion between paragraphs would bring to light; what is inside a
paragraph, a tracked text box for one, is not looked into, and does not count. `NothingRevived` says
that no insertion and no simple field the walk reads stands below a deletion.

## Model

| member | source | states |
|---|---|---|
| TextFold.FoldTextWithMap | scripts/text_fold.py:114-149 | the run-at-a-time loop builds the one map of a text: the source ranges tile it in order, and what precedes each range folds to what precedes its character |
| TextFold.MapToMaps | scripts/text_fold.py:114-149 | folding one character at a time builds a map of that kind, so the map a method finds is determined by the text |
| TextFold.FoldedConcat | scripts/text_fold.py:114-149 | the fold of a concatenation is the concatenation of the folds, less one space when a whitespace run is cut |
| TextFold.FoldedSpaces | scripts/text_fold.py:114-149 | the only whitespace of a folded text is the space, and no two stand together |
| TextFold.FoldedSlice | scripts/text_fold.py:114-149 | the source text that whole folded characters come from folds to exactly those characters |
| Characters.FoldCharExactly | scripts/text_fold.py:84-111 | typographic quotes, primes and dashes fold to the plain ones, and every other character to itself |
| Alignment.CommonPrefixLen | scripts/block_transcript.py:252-257 | the length of the longest common prefix |
| Alignment.PlaceAtCursor | scripts/block_transcript.py:305-376 | one step of the walk: a match at the cursor, a re-transcribed space, a match past skipped spaces, or the better of two divergences |
| Alignment.PlaceSourceSegments | scripts/block_transcript.py:278-402 | the cursor walk computes the placement of every segment, or the failure of the first that does not fit |
| Alignment.ResolveGaps | scripts/block_transcript.py:405-449 | gaps settled in place give the same placements as settling them at once; the first disputed gap refuses the transcript |
| AlignmentSoundness.AlignmentTiles | scripts/block_transcript.py:278-449 | whenever alignment succeeds with a source segment, the ranges are non-empty and tile the folded block |
| AlignmentSoundness.WidenedRange | scripts/block_transcript.py:405-449 | widening takes whitespace only, and only from a range's own gaps |
| AlignmentSoundness.RangeReadsSegment | scripts/block_transcript.py:307-402 | each range reads its segment up to end whitespace; only a final keep may go on past it |
| AlignmentExactness.PlaceOneFinds | scripts/block_transcript.py:299-341 | a segment is placed wherever it can land, past whitespace nobody wrote or less a first space the range before already has, and there is at most one such place |
| AlignmentExactness.DivergesFurthest | scripts/block_transcript.py:343-372 | a segment that lands nowhere is reported where the block reads on with most of it, the cursor preferred |
| AlignmentExactness.AlignsExactly | scripts/block_transcript.py:278-449 | keeps and deletes align exactly when some arrangement of ranges takes them in order and leaves no character of the block to nobody |
| SegmentShape.SegmentShapeError | scripts/block_transcript.py:196-249 | no problem exactly when every segment passes every shape rule; otherwise the first segment that does not, and why |
| SegmentShape.ShapeFacts | scripts/block_transcript.py:196-249 | what the shape rules buy: non-empty texts, attributed edits, unattributed keeps, no two mergeable neighbours |
| SegmentShape.ShapedExactly | scripts/block_transcript.py:196-249 | a list passes the shape rules exactly when it spells segments, no two neighbours of which could have been one; those are what it is read as |
| ProvenPatch.ProvePatch | scripts/block_transcript.py:452-541 | the prover returns what the specification of the proof says, failures included |
| ProvenPatch.SpansTile | scripts/block_transcript.py:483-506 | the true spans of an alignment with a source segment are non-empty and tile the block's real text in order |
| ProvenPatch.ReconstructionCheck | scripts/block_transcript.py:483-506 | the reconstruction check passes exactly when there is a source segment or the text is empty: it can never fire on an aligned transcript that keeps or deletes anything |
| ProvenPatchFacts.UnmarkedRewriteGuard | scripts/block_transcript.py:307-449 | in a proven patch every keep and delete covers text that compares equal to what was written for it; only a final keep may go on past it, and no delete absorbs unread text |
| ProvenPatchFacts.ExactTranscriptIsProven | scripts/block_transcript.py:305-541 | a transcript that spells the block and edits it is proven at its own cumulative offsets exactly when no boundary cuts a whitespace run |
| ProvenPatchExactness.SameFoldIsProven | scripts/block_transcript.py:278-544 | a transcript that folds to what the block folds to is proven exactly when no keep or delete is whitespace that only goes on the whitespace before it, and then its spans meet where the folds do |
| ProvenPatchExactness.ProvenExactly | scripts/block_transcript.py:452-544 | a patch is proven exactly when it edits something, reads something of a block with text, and its keeps and deletes can be arranged on the block |
| AppliedEdits.ProvenOpsApply | scripts/block_transcript.py:508-541 | striking a proven patch's deletes and putting its inserts in at their offsets turns the source text into `final_text` |
| AppliedEdits.ProvenOffsetsOrdered | scripts/block_transcript.py:508-541 | the offsets of a proven patch never decrease and stay inside the text |
| BoundarySpaces.CollapseBoundarySpaces | scripts/block_transcript.py:549-626 | the trimmed copy differs in insert texts only, and its accepted view is the collapsed accepted view |
| BoundarySpaces.DeliveredFinalText | scripts/block_transcript.py:629-643 | the delivered text is the join of the collapsed accepted view |
| BoundarySpaceFacts.CollapseIdempotent | scripts/block_transcript.py:549-626 | collapsing twice is collapsing once |
| BoundarySpaceFacts.CollapseTrimsEnds | scripts/block_transcript.py:549-626 | only inserts change, only by losing spaces at their ends; an insert of nothing but spaces stays |
| BoundarySpaceFacts.CollapseSettles | scripts/block_transcript.py:549-626 | after each step the boundaries passed double no space and the rest are as authored |
| BoundarySpaceFacts.CollapsedExactly | scripts/block_transcript.py:549-626 | an insert that is not all spaces loses its leading spaces exactly when the piece before it ends in one, its trailing ones exactly when the piece after it starts with one, and nothing else changes |
| BoundarySpaceFacts.DeliveredIsAuthoredSqueezed | scripts/block_transcript.py:549-643 | delivered and authored text are equal once runs of spaces are squeezed, so no join loses its last space |
| TranscriptValidation.ValidateBlockPatches | scripts/block_transcript.py:732-861 | never partial: every failure in order, or the proven blocks in document order, the block ops as written, and both filed under their issues |
| TranscriptValidation.ValidateBlockOps | scripts/block_transcript.py:651-729 | the block ops that stand and the failures of those that do not, against the blocks already claimed |
| TranscriptValidation.AcceptedPatch | scripts/block_transcript.py:732-861 | an accepted patch carries the ops and final text proven against its own block |
| TranscriptValidation.SortedIsOrdered | scripts/block_transcript.py:732-861 | sorting by index permutes the blocks into document order |
| TranscriptValidation.GroupByIssue | scripts/block_transcript.py:874-895 | under each key stand exactly the edits and block ops that key authored |
| TranscriptValidation.EveryEditUnderItsKey | scripts/block_transcript.py:874-895 | every segment edit appears under its own key as often as it was made, and under no other |
| TranscriptValidation.EveryOpUnderItsKey | scripts/block_transcript.py:874-895 | the same for block ops |
| TranscriptFacts.ReturnedBlocks | scripts/block_transcript.py:732-861 | the blocks an accepted transcript returns are the patched ones, each once, in document order; each is the document's own, and its ops applied to its text at their offsets, which never go back, give its final text |
| TranscriptFacts.ReturnedBlockOps | scripts/block_transcript.py:651-729 | each block op returned is what its JSON says and names a block of the document, or the start; none deletes a block the transcript patches, and no two delete one block |
| TranscriptAcceptance.NormalizedExactly | scripts/block_transcript.py:651-729 | a block op is accepted exactly as the JSON has it, its block being one of the map; otherwise it is refused for the block it names, or for its form |
| TranscriptAcceptance.PatchExactly | scripts/block_transcript.py:759-807 | a patch stands exactly when it addresses a block of the map no earlier patch does and proves against its text |
| TranscriptAcceptance.PatchRefused | scripts/block_transcript.py:759-799 | a refused patch is refused for its form, for a block there is not, for a block another patch has, or for what its proof says, in that order |
| TranscriptAcceptance.AcceptedExactly | scripts/block_transcript.py:732-861 | a transcript is accepted exactly when every patch proves, every block op stands and no block is named by two of the patches and deletes |
| TranscriptFacts.ReturnedByIssue | scripts/block_transcript.py:874-895 | under any key, by_issue lists an edit of a returned block as often as its op stands in that block when the key is its own, and never otherwise; the same of block ops |
| Splice.SpliceSettles | scripts/extraction_normalization_stage.py:2078-2184 | after the splice no accept-rule tag is left anywhere |
| Splice.SettledStays | scripts/extraction_normalization_stage.py:2078-2184 | a settled tree is left as it is, so a second splice changes nothing |
| Splice.EmptyTallyUnchanged | scripts/extraction_normalization_stage.py:2078-2212 | the tally is empty exactly when no accept-rule tag stands anywhere, and then the tree is unchanged |
| Splice.RevisionsConserved | scripts/extraction_normalization_stage.py:2042-2212 | every revision element outside a removed subtree is counted as accepted or still there to be reported |
| SpliceTally.MarksFiledApart | scripts/extraction_normalization_stage.py:2154-2213 | exactly the insertions and deletions directly in a paragraph mark's run properties are tallied as splits and merges |
| SpliceInPlace.Element.constructor | scripts/extraction_normalization_stage.py:2078-2184 | an element built over disjoint children stands for the tree of their shapes |
| SpliceInPlace.RevisionTally.CountAccepted | scripts/extraction_normalization_stage.py:2187-2212 | one more accepted revision of its kind; a paragraph mark's own insertion or deletion is filed apart |
| SpliceInPlace.AcceptChild | scripts/extraction_normalization_stage.py:2158-2184 | what one child leaves for its parent to re-append, and what it adds to the tally |
| SpliceInPlace.SpliceAcceptAll | scripts/extraction_normalization_stage.py:2078-2184 | the in-place rewrite leaves the element standing for the accepted tree, inside its old footprint, with the tally grown by exactly the revisions accepted |
| Reading.SplicedLeaves | scripts/extraction_normalization_stage.py:784-928 | reading the accepted tree meets exactly the leaves no deletion encloses, in the same order, their revision context settled |
| Reading.ControlSpliced | scripts/extraction_normalization_stage.py:163-186 | where no revision wrapper holds a part of it, a content control shows its placeholder before exactly when it does after, and its content after is its content before, accepted |
| Reading.FindSpliced | scripts/extraction_normalization_stage.py:2078-2184 | the first child of a kind in the accepted element is the first one found directly or within insertions and move targets, accepted |
| Reading.ItemsSpliced | scripts/extraction_normalization_stage.py:580-668 | a run holds the same items in both trees exactly when no insertion or move target in it holds what it reads |
| Reading.MisplacedRevisionReadsDifferently | scripts/extraction_normalization_stage.py:784-928 | why placement is required: an insertion inside a run is passed over by the raw read and read once unwrapped |
| ParagraphText.TextSpaceMeetsByteSpace | scripts/extraction_normalization_stage.py:671-928 | the raw accept-all reading spells what the accepted tree spells exactly when no visible text below a deletion is read as standing; in the accepted tree the pre-edit reading is the accept-all reading |
| ParagraphText.TextsAgree | scripts/extraction_normalization_stage.py:671-928 | with no insertion and no simple field below a deletion, wherever the walk reads, text and boundary text are the same in both reads, at any depth |
| ParagraphText.InsertionBelowDeletionIsRevived | scripts/extraction_normalization_stage.py:912-917 | the failing family: an inserted run below a deletion is kept by the raw read and lost by the splice |
| ParagraphText.RunSplit | scripts/extraction_normalization_stage.py:580-668 | splitting a run changes neither the text nor the boundary text |
| ReadingTables.ChildSpells | scripts/extraction_normalization_stage.py:615-636 | what each child of a run adds to its text, and to the text clause boundaries are decided on |
| ReadingTables.SoftHyphensAlone | scripts/extraction_normalization_stage.py:567-577 | soft hyphens go, and every other character stays in its order |
| ReadingTables.RunReads | scripts/extraction_normalization_stage.py:638-668 | a run stands in both texts, inserted in the accepted one, struck in the one before any edit, hidden in neither |
| ReadingTables.WrappedReads | scripts/extraction_normalization_stage.py:784-925 | a hyperlink, move target, smart tag, direction wrapper or custom XML reads as its content |
| ReadingTables.OthersReadNothing | scripts/extraction_normalization_stage.py:784-925 | whatever the walk does not list reads as nothing |
| ParagraphDraft.DraftHolds | scripts/extraction_normalization_stage.py:427-732 | the builder's streams are the readings of the leaves; a change is pending exactly when visible text is read as inserted or deleted; every field read whole has its note |
| DraftAuthors.AuthorsReported | scripts/extraction_normalization_stage.py:460-488 | a named author is reported exactly when some visible pending text is theirs, however edits interleave |
| ParagraphWalk.ParaBuilder.constructor | scripts/extraction_normalization_stage.py:433-453 | an empty builder |
| ParagraphWalk.ParaBuilder.CloseCluster | scripts/extraction_normalization_stage.py:455-458 | the open cluster is closed |
| ParagraphWalk.ParaBuilder.EnsureCluster | scripts/extraction_normalization_stage.py:460-488 | another author closes the open cluster; an anonymous one takes on the author |
| ParagraphWalk.ParaBuilder.AddPlain | scripts/extraction_normalization_stage.py:490-494 | plain text closes the cluster and joins all three streams |
| ParagraphWalk.ParaBuilder.AddIns | scripts/extraction_normalization_stage.py:496-501 | inserted text joins the accept-all streams under its author |
| ParagraphWalk.ParaBuilder.AddDel | scripts/extraction_normalization_stage.py:503-505 | deleted text joins the pre-edit stream under its author |
| ParagraphWalk.ParaBuilder.AddHidden | scripts/extraction_normalization_stage.py:507-509 | hidden text closes the cluster and leaves a mark |
| ParagraphWalk.ProcessRun | scripts/extraction_normalization_stage.py:580-668 | a run adds exactly what its items spell, unless hidden |
| ParagraphWalk.ProcessFldSimple | scripts/extraction_normalization_stage.py:671-732 | a field's result, read by a builder of its own, joins the paragraph as pending changes or as plain text with a note |
| ParagraphWalk.WalkContent | scripts/extraction_normalization_stage.py:784-928 | the walk leaves the builder holding exactly what the leaves met add to it |
| Boundaries.TabbedMarkerLeadsIn | scripts/extraction_normalization_stage.py:1009-1033 | a lettered marker set off by a tab is a lead-in only when the blanks lead to further whitespace; otherwise never |
| LeadIns.NumberedExactly | scripts/clause_boundaries.py:124-126 | a numbered lead-in is a dotted number, a dot or bracket perhaps, and all the whitespace that follows |
| LeadIns.OpensClauseExactly | scripts/clause_boundaries.py:152-194 | a paragraph opens a clause exactly by heading style, by outline level, or, in eighty characters at most, by lead-in, whole boldness on one line, or capitals |
| LeadIns.LabelFollowsLeadIn | scripts/clause_boundaries.py:197-217 | a label is the text past its one lead-in, or all of it when it has none |
| LeadIns.HeadedByLabel | scripts/extraction_normalization_stage.py:1838-1850 | a clause is headed by that label, and untitled only when the paragraph has no text |
| LeadIns.ParseIntExactly | scripts/clause_boundaries.py:245-262 | an outline level is the number its value spells, or nothing |
| Boundaries.TabbedMarkerOpensClause | scripts/clause_boundaries.py:152-194 | with no style, boldness or outline level, such a paragraph opens a clause exactly when the blanks lead to further whitespace and the text is short |
| Boundaries.NoBreakSpaceOpensClause | scripts/extraction_normalization_stage.py:1009-1033 | the failing input: a no-break space behind the tab makes the sub-clause a clause; without it the same words are body text |
| ParagraphRecord.BuildParagraphRecord | scripts/extraction_normalization_stage.py:931-1004 | the record of a paragraph, from its leaves |
| ParagraphRecord.ParagraphMarkRevisions | scripts/extraction_normalization_stage.py:374-424 | the tracked insertions and deletions of the paragraph's own mark |
| ParagraphRecord.FindSuspicious | scripts/normalize_input.py:412-431 | the offsets of the invisible characters, all of them in order; none exactly when the text has none beyond a leading byte-order mark |
| ParagraphRecord.NormalizeParagraph | scripts/normalize_input.py:461-795 | the clean text, or nothing when heading or text holds an invisible character |
| ParagraphRecord.FoldSettles | scripts/normalize_input.py:569-575 | folding field results leaves a stripped text alone exactly when each is blank or already in it; otherwise it grows |
| ParagraphAgreement.RecordAgrees | scripts/extraction_normalization_stage.py:931-1004 | the accepted paragraph's record has the raw record's accepted text and decision text, nothing pending, no tracked mark and the raw paragraph's surviving fields; the very same fields where nothing was pending |
| ParagraphAgreement.CleanTextsAgree | scripts/normalize_input.py:461-795 | the two clean texts agree exactly when nothing was pending or no surviving field result is left to fold into the accepted text |
| ParagraphAgreement.FieldFoldedTwice | scripts/normalize_input.py:569-575 | the failing input, as a paragraph: an insertion "Due " and behind it a field "May " read "Due May" raw and "Due May May" accepted |
| ParagraphAgreement.CleanEmptiness | scripts/normalize_input.py:461-795 | the clean text is empty exactly when the accepted text is |
| ParagraphAgreement.StyleAgrees | scripts/clause_boundaries.py:231-264 | where no revision wrapper brings up a property, style and outline level are the same in both reads |
| ParagraphAgreement.AcceptedBoldness | scripts/clause_boundaries.py:231-264 | the accepted paragraph is wholly bold exactly when the raw one has text runs, directly or within insertions and move targets, and all of them are bold |
| ParagraphAgreement.BoundaryAgrees | scripts/clause_boundaries.py:152-194 | the two boundary decisions agree exactly when the raw read sees the boldness the accepted read will, or the text is one boldness decides nothing for |
| ParagraphAgreement.InsertedBoldIsSeenOnce | scripts/clause_boundaries.py:261-262 | the failing input: a bold insertion is no bold line to the raw read and one to the accepted read |
| FieldEvents.EventsFromLeaves | scripts/extraction_normalization_stage.py:1236-1313 | the event walk yields the events of the leaves no deletion encloses |
| FieldEvents.FieldEventsAgree | scripts/extraction_normalization_stage.py:1236-1313 | raw and accepted paragraph yield the same field events, whatever is below a deletion |
| FieldRegions.RuleParagraph | scripts/extraction_normalization_stage.py:1441-1502 | one paragraph through the frame stack: the frame its text lies in, and what the guard is told |
| FieldRegions.Partition | scripts/extraction_normalization_stage.py:1333-1520 | kept and omitted positions as the regions and their guard decide them |
| FieldRegions.PartitionSplits | scripts/extraction_normalization_stage.py:1512-1520 | kept and omitted positions are, each in order, exactly the positions there are |
| FieldListings.OmittedRegionIsAListing | scripts/extraction_normalization_stage.py:1393-1463 | an omitted paragraph lies in a result an end closed, every paragraph of which is omitted, is a listing line by its style, links or text, is no heading, and is no target of the region's links |
| FieldListings.CommittedExactly | scripts/extraction_normalization_stage.py:1393-1515 | a generated result is dropped exactly when its field was closed and every paragraph in it is a listing line, is no heading, and links to no bookmark of any of them |
| FieldListings.BodyTextKeepsRegion | scripts/extraction_normalization_stage.py:1393-1410 | a paragraph of unstyled, unlinked text that does not end in page numbers keeps its whole region |
| FieldListings.PageNumberTailIs | scripts/extraction_normalization_stage.py:1200-1204 | the page-number test: but for whitespace the text ends in a digit, a tab or comma before it, and only digits, blanks, commas and dashes between |
| FieldListings.GeneratedIs | scripts/extraction_normalization_stage.py:1162-1192 | a generated listing is a field whose code's first word is TOC or INDEX, in any case |
| FieldListings.RulingIsOfEvents | scripts/extraction_normalization_stage.py:1316-1330 | what the guard is told of a paragraph is told of its events: its listing line, its links and page references, its bookmarks |
| FieldRegions.OmittedTextIsInside | scripts/extraction_normalization_stage.py:1333-1500 | an omitted paragraph shows text, all of it while a generated result is open |
| FieldRegions.OmittedExactly | scripts/extraction_normalization_stage.py:1333-1520 | a paragraph is omitted exactly when all its text is shown while some generated result is open and the result its first text lies in is one that was committed |
| FieldRegions.OutsideTextIsKept | scripts/extraction_normalization_stage.py:1333-1500 | a paragraph with text outside every generated result, or with none, is kept |
| FieldRegions.OmittedLiesInOneRegion | scripts/extraction_normalization_stage.py:1456-1463 | an omitted paragraph's text lies within one committed region exactly when every text is shown in the result the first one was |
| FieldRegions.OmittedNeverLeaves | scripts/extraction_normalization_stage.py:1435-1500 | that region is never left, from first text to last, exactly when no event between them ends the innermost generated result, begins another or rewrites its code |
| FieldRegions.MovesExactly | scripts/extraction_normalization_stage.py:1435-1482 | exactly the end of a generated result, the start of one, and late code change which generated result is innermost |
| FieldRegions.SecondListingIsDropped | scripts/extraction_normalization_stage.py:1456-1463 | the failing input: a second, never closed listing in the paragraph that ends the first is dropped with it |
| FieldRegions.NestedFieldsKeepOuter | scripts/extraction_normalization_stage.py:1468-1484 | while nested fields come and go no frame opened before them is closed |
| DocumentParagraphs.ParagraphsSpliced | scripts/extraction_normalization_stage.py:1036-1110 | the accepted body's paragraphs are the raw body's, accepted, in order, through tables, controls and wrappers, exactly when unwrapping what the iteration meets brings no further paragraph to light |
| BodyParagraphFacts.ParagraphsAreLedTo | scripts/extraction_normalization_stage.py:1076-1119 | a body's paragraphs are those reached down tables, rows and cells, and through custom XML and content controls that show their content |
| BodyParagraphFacts.ParaIs | scripts/extraction_normalization_stage.py:1206-1234 | a listing line by style is styled toc or index; a real heading is styled heading or has an outline level from nought to eight |
| DocumentParagraphs.BodyParagraphs | scripts/extraction_normalization_stage.py:1745-1757 | the body's paragraphs less the generated ones |
| DocumentParagraphs.KeptAgree | scripts/extraction_normalization_stage.py:1403-1417 | both reads omit exactly the same positions |
| Blocks.ExtractGroups | scripts/extraction_normalization_stage.py:1760-1927 | the grouping loop, struck leading paragraphs held apart |
| Blocks.NormalizeGroup | scripts/extraction_normalization_stage.py:2651-2723 | a group fails when its boundary paragraph or one of its own does; otherwise its non-empty clean texts |
| Blocks.NormalizeParagraphs | scripts/extraction_normalization_stage.py:2514-2790 | all or nothing: no blocks when a paragraph fails, otherwise the numbered sections |
| Blocks.BuildBlockMap | scripts/extraction_normalization_stage.py:2465-2511 | a position for every id, or nothing when an id is missing or repeated |
| Blocks.IdsAreDense | scripts/extraction_normalization_stage.py:2450-2462 | ids run from p0001 in document order and never repeat, so the map of a normalized document is always built |
| Blocks.SpansRebuild | scripts/extraction_normalization_stage.py:2744-2749 | the paragraphs the spans cut out of a block's text, joined by newlines, are its text |
| BlockAgreement.GroupsReadAsViews | scripts/extraction_normalization_stage.py:1760-1927 | grouping and normalizing is: a clause at each boundary paragraph, other texts under the clause before them, nothing for an empty one |
| BlockAgreement.ReadBlocks | scripts/extraction_normalization_stage.py:1724-1931 | the whole reading of a body computes that simple block map |
| BlockAgreement.AcceptedView | scripts/extraction_normalization_stage.py:1843-1857 | what the accepted read makes of a paragraph, told from the raw one: its accepted text, the boldness that will be seen, its surviving fields folded in |
| BlockAgreement.ViewsAgree | scripts/extraction_normalization_stage.py:1843-1857 | a paragraph puts the same into the block map in both reads exactly when it has no accepted text, or its boldness agrees and it opens a clause or its fields agree |
| BlockAgreement.BlockMapsAgree | scripts/extraction_normalization_stage.py:1843-1857 | raw and accepted document have the same ids, headings, texts and spans exactly when both reads are refused, or neither is and every kept paragraph with accepted text has agreeing boldness and opens a clause or has agreeing fields |
| BlockAgreement.AlikeDocumentsAgree | scripts/extraction_normalization_stage.py:1843-1857 | where boldness and fields agree in every kept paragraph with accepted text, both reads give the same, refused or not |
| BlockAgreement.BlocksDetermineParts | scripts/extraction_normalization_stage.py:1760-1931 | two readings silent at the same places give the same block map exactly when both are refused, or neither is and each paragraph puts the same into it |
| LedgerEvidence.LocateSpan | scripts/hard_ledger.py:588-600 | a quoted span is found exactly when the folded block contains it, and what is found is the stretch of the block that folds to its first occurrence there |
| LedgerEvidence.EvaluateEntry | scripts/hard_ledger.py:701-748 | a rule is cleared exactly on proof; otherwise it is asserted for the first thing the evidence lacks, with the block the critic named when it is one of the document |
| LedgerClauses.HeadingMatchesIs | scripts/hard_ledger.py:786-794 | a heading names a clause: but for end marks it is the title, or goes on past it with a space |
| LedgerClauses.ClauseIsJoined | scripts/hard_ledger.py:682-698 | a clause's text is the texts of exactly the blocks under its heading, in document order, a line each |
| LedgerClauses.ProvenByClause | scripts/hard_ledger.py:701-748 | a rule is cleared exactly by words the critic quotes that stand in the block it names, under the rule's own heading, with the condition true of the clause's text |
| LedgerClauses.OtherClausesDecideNothing | scripts/hard_ledger.py:682-748 | adding, removing or changing a block under another heading changes no rule's evidence |
| LedgerClauses.MarkerIsDropped | scripts/hard_ledger.py:579-597 | a rendered block marker at the head of a quoted span is dropped before it is looked for |
| LedgerConditions.AnswerIsSatisfaction | scripts/hard_ledger.py:616-679 | required phrases and cross references are decided as the texts say, blank phrases asking for nothing, and with no answer where there is nothing to look for |
| LedgerEvidence.EvaluateLedger | scripts/hard_ledger.py:751-778 | every rule is evaluated on its first disposition, in ledger order |
| LedgerAnchor.SectionBounds | scripts/hard_ledger.py:806-816 | the outermost blocks under a matching heading, or nothing exactly when there are none |
| LedgerAnchor.Consider | scripts/hard_ledger.py:851-863 | one section of the search replaces the best only when strictly nearer |
| LedgerAnchor.InsertionAnchor | scripts/hard_ledger.py:819-872 | the anchor, case by case: the named block of the clause, its last block, the nearest section before, the nearest after, the end |
| LedgerAnchor.AnchorIsReal | scripts/hard_ledger.py:819-872 | every anchor is the start or a real block; there is none only for a document without blocks |
| LedgerPlacement.AnchorIsPlaced | scripts/hard_ledger.py:819-872 | behind the named block of the clause, else behind the clause's last block, else beside the nearest clause before or after it in the template's order, else at the end |
| LedgerEnforcement.NextIssueKey | scripts/hard_ledger.py:962-968 | the first key not taken; the search ends because a set cannot hold every key |
| LedgerEnforcement.Pigeonhole | scripts/hard_ledger.py:962-968 | a set holding every key below n has at least n - 1 members |
| LedgerEnforcement.FirstFreeUnique | scripts/hard_ledger.py:962-968 | there is one first free key |
| LedgerEnforcement.CoveringInsertTexts | scripts/hard_ledger.py:898-938 | grouped issue by issue, the folded texts of every issue that proposes standard language only |
| LedgerEnforcement.EnforceOne | scripts/hard_ledger.py:1119-1167 | what one rule does to the plan |
| LedgerEnforcement.Enforce | scripts/hard_ledger.py:1075-1167 | the plan a run over the ledger ends in |
| LedgerFacts.KeysAreFresh | scripts/hard_ledger.py:1131-1143 | issue keys are outside the reserved ones and no two issues share one |
| LedgerFacts.RuleInPlan | scripts/hard_ledger.py:1119-1167 | every asserted rule has its entry, and the issue under its key names it |
| LedgerFacts.LedgerConserved | scripts/hard_ledger.py:1168-1177 | cleared plus asserted equals the rules; one issue for each asserted rule, one insertion for each inserted one |
| LedgerFacts.OneInsertionPerClause | scripts/hard_ledger.py:1143-1158 | two inserted rules name different clauses |
| LedgerFacts.NothingLeftOut | scripts/hard_ledger.py:918-1167 | in a document with a block, an asserted rule with standard language is inserted, at a real anchor, exactly when no earlier rule of its clause was and no issue of the review that proposes standard language only proposes it |
| LedgerFacts.EnforceReview | scripts/hard_ledger.py:1075-1183 | untouched when nothing is asserted; otherwise issues and insertions appended and changes requested, under keys the review does not use |
| LedgerRun.RunLedger | scripts/hard_ledger.py:751-1183 | evaluation and enforcement together: the review is untouched exactly as proof of every rule decides |
| LedgerRun.EvidenceDecides | scripts/hard_ledger.py:616-1183 | a rule proven present has a bare entry; any other has an issue naming it, and its language goes in exactly when no earlier rule of its clause did and no issue of standard language only proposes it |
| LedgerFacts.Settle | scripts/hard_ledger.py:1200-1226 | entries as delivered, and how many insertions the document carries |
| LedgerFacts.SettleOnlyDelivered | scripts/hard_ledger.py:1200-1226 | an entry stands inserted exactly when planned and delivered; settling adds none and touches nothing else |
| LedgerFacts.SettleComposes | scripts/hard_ledger.py:1200-1226 | settling twice keeps what both deliveries carried; settling again changes nothing |
| LedgerFacts.NoProblems | scripts/hard_ledger.py:560-573 | no disposition problem is left exactly when every rule has one disposition |
| LedgerFacts.OccurrencesAre | scripts/hard_ledger.py:560-577 | an id is counted as often as it is disposed of |
| SpendLedger.ExactAddition | scripts/eval_budget.py:213-214 | a reservation is recorded to the cent exactly when it is itself in whole cents |
| SpendLedger.SubCentIsLost | scripts/eval_budget.py:213-214 | the failing family: less than half a cent never moves the total, however often it is reserved |
| SpendLedger.RecordedKept | scripts/eval_budget.py:205-237 | a reservation the gate lets through keeps every month: ids numbered from one, and, unless something that is not a number was reserved in it, a total in cents, within the cap, the sum of whole-cent reservations, never off by more than half a cent each |
| SpendLedger.IdsDistinct | scripts/eval_budget.py:228 | reservation ids within a month are distinct |
| SpendRunners.StepExclusive | scripts/eval_budget.py:107-133 | no step lets two runners hold the lock file, and it is there exactly when one does |
| SpendRunners.OtherKept | scripts/eval_budget.py:107-147 | while one runner holds the lock nobody else changes a file, and recorded reservations stay |
| SpendRunners.RunKept | scripts/eval_budget.py:188-241 | the invariant holds in every state of every interleaving, with timeouts, failures and kills |
| SpendRunners.SpendIsSafe | scripts/eval_budget.py:188-241 | in every reachable state: mutual exclusion, every reported reservation recorded, and each month's cap and sums exactly when no amount that is not a number was reserved in it |
| SpendGrants.ArrivesExactly | scripts/eval_budget.py:185-196 | a run passes the first gate exactly when its amount is not negative and not over two hundred dollars, or is not a number |
| SpendGrants.FitsExactly | scripts/eval_budget.py:207-219 | it passes the monthly cap exactly when the total with it is at most half a cent over a thousand dollars, or one of the two is not a number |
| SpendGrants.FitsByReservations | scripts/eval_budget.py:207-219 | in whole cents it passes exactly when all that was reserved in the month and it come to at most a thousand dollars |
| SpendGrants.RecordedExactly | scripts/eval_budget.py:221-229 | a recorded reservation stands last, under the next number, and nothing else in the ledger changes |
| SpendGrants.FailureReleases | scripts/eval_budget.py:202-232 | a runner that fails before the file is replaced is told no, gives the lock back and leaves the ledger as it was |
| SpendRunners.ReservesAlone | scripts/eval_budget.py:202-232 | a runner with the lock to itself whose amount fits ends with its reservation reported and recorded |
| SpendRunners.NotANumberLiftsTheCap | scripts/eval_budget.py:185-210 | the failing run: after one reservation of an amount that is not a number, any number of runners are granted two hundred dollars each in one month |
| SpendRunners.StaleLockFreezes | scripts/eval_budget.py:107-133 | however a run goes on, a lock left by a killed runner stays and the ledger is what it was |
| CriticPass.CriticDeltaRejection | scripts/critic_review_pass.py:146-284 | a check is reported exactly when it fires; none exactly when every issue and every rule has one disposition and every kept issue is there, or the schema defines no dispositions |
| CriticPass.JudgeAttempt | scripts/critic_review_pass.py:612-780 | one attempt: retried, recorded, widened or last |
| CriticPass.RunCriticPass | scripts/critic_review_pass.py:591-891 | the loop stops at the first attempt that is not retried, with its ending and its records |
| CriticRuns.StopsExactly | scripts/critic_review_pass.py:540-891 | a run is its attempts up to the first that breaks, is kept without violations, is cut off at the ceiling, or uses up the retries truncation does not pay for |
| CriticRuns.BudgetClosed | scripts/critic_review_pass.py:540-891 | an attempt's budget is what the document asks for and sixteen thousand tokens for every answer cut off before, up to the ceiling |
| CriticRuns.EndingExactly | scripts/critic_review_pass.py:540-891 | a run returns its last answer exactly when it is kept; otherwise it raises for that answer or gives up |
| CriticPass.AttemptsBounded | scripts/critic_review_pass.py:591-891 | attempts never exceed one plus retries plus truncation retries |
| CriticPass.RunIsLedgered | scripts/critic_review_pass.py:146-891 | one record per attempt, all but the last a retry, success exactly on return and then with every issue and rule accounted for once, budgets non-decreasing and under the ceiling |
| CriticPass.ExhaustedUsesAll | scripts/critic_review_pass.py:871-891 | giving up means every attempt allowed was made |
| CriticPass.BudgetsGrow | backend/src/model_client.py:421-454 | widening never shrinks the budget and never passes the ceiling |
| FloorJudge.CorrectionIsPriced | scripts/floor_judge.py:392-427 | no correction is longer than the priced one, as long as a number of sixty-seven digits counts the characters a quote is over by |
| FloorJudge.QuoteMessage | scripts/floor_judge.py:362-367 | the message about a quote too long fits the two hundred priced characters exactly up to that size |
| FloorJudge.Attempt | scripts/floor_judge.py:620-756 | the attempts on one invariant, each reply put through the response check: calls, input, verdict, truncation |
| FloorReplies.ReplyIsTaken | scripts/floor_judge.py:312-376 | a reply is a verdict exactly when it is one object about the invariant asked, with a flag and a quote within the limit; otherwise the first fault, a cut-off answer or a broken call |
| FloorReplies.AttemptsExactly | scripts/floor_judge.py:612-757 | by its replies alone: calls go to the first that settles an invariant or to all that are allowed, the last one judges it, and the retry carries the correction for the first one's fault |
| FloorReplies.RunIsOfReplies | scripts/floor_judge.py:598-768 | a run's verdicts are those its invariants' last replies give, its calls the attempts made, its truncated ids those cut off and not judged |
| FloorReplies.NeverBroken | scripts/floor_judge.py:702-705 | a run comes to a judgment exactly when no last attempt is a broken call |
| FloorReplies.ReservedExactly | scripts/floor_judge.py:466-524 | reserved are two calls for each invariant a call can be made for, each at its prompt with the longer correction, and nothing for the others |
| FloorReplies.AllCallsAreMade | scripts/floor_judge.py:466-524 | no call reserved is too many: where every answer is cut off, all are made |
| FloorJudge.JudgeFloorInvariants | scripts/floor_judge.py:596-768 | the judgment, or nothing when another model error propagates |
| FloorJudge.EveryInvariantLands | scripts/floor_judge.py:596-768 | whatever the model replies, each invariant lands once, in verdicts or in unjudged, in input order |
| FloorJudge.TruncatedAreUnjudged | scripts/floor_judge.py:757-766 | truncated is part of unjudged |
| FloorJudge.FloorFires | scripts/floor_judge.py:771-822 | what fires are the violated verdicts' ids: each of those verdicts once, no other, in the verdicts' order |
| FloorJudge.FiresExactly | scripts/floor_judge.py:596-822 | over a whole run an id fires exactly when some invariant of that id was judged violated |
| FloorJudge.WorstCaseJudgeUsage | scripts/floor_judge.py:466-524 | the reserved calls and input |
| FloorJudge.SpendIsReserved | scripts/floor_judge.py:466-524 | whatever the model replies, a run never makes more calls or sends more input than was reserved, for any estimator that grows with length |
| Detector.FindSpans | scripts/detector_common.py:128-136 | the leftmost non-overlapping matches |
| DetectorMatches.WholeWordHit | scripts/detector_common.py:109-136 | a whole-word match of words is where they stand with no word character beside them |
| DetectorMatches.SpansScan | scripts/detector_common.py:128-136 | the matches are what a search from left to right finds, each the first from where it goes on |
| DetectorMatches.FiresUnexcused | scripts/detector_common.py:206-222 | a term fires exactly when some match of it lies within no match of an exempt phrase |
| Detector.CheckOnInsert | scripts/detector_common.py:148-223 | the terms that fire, surface by surface |
| Detector.ExemptionIsLocal | scripts/detector_common.py:199-223 | a term fires on two texts with a separator between them exactly when it fires on one: an exempt phrase never suppresses a match elsewhere |
| DealAliases.FindStem | scripts/deal_aliases.py:235-237 | the shortest lengthening of the stem no slug clashes with; the loop ends |
| DealAliases.AliasMap | scripts/deal_aliases.py:221-238 | each deal gets the alias at its place in the order, on a stem no slug clashes with |
| DealAliases.AliasesDistinct | scripts/deal_aliases.py:221-238 | no two deals share an alias |
| DealAliases.NoSlugIsAnAlias | scripts/deal_aliases.py:221-238 | no slug is an alias or begins with one |
| DealAliases.NoAliasHoldsASlug | scripts/deal_aliases.py:221-238 | no slug, however it is cased, stands as a word of an alias |
| DealAliases.ResolutionMap | scripts/deal_aliases.py:241-245 | the aliases read backwards |
| DealAliases.AliasesResolve | scripts/deal_aliases.py:221-245 | every alias resolves to the one deal it stands for and is no deal's own name |
| DealAliases.DigestRoundTrip | scripts/deal_aliases.py:270-294 | aliasing a digest and resolving it restores it exactly when no document id was spelled as an alias |
| OpfHtml.EscapedHasNoClose | scripts/opf_html.py:47-52 | the escaped text holds no close-tag opener |
| OpfHtml.RoundTrip | scripts/opf_html.py:47-57 | unescaping the escaped text restores it exactly when it held no escaped opener of its own |
| OpfHtml.ExtractWrapped | scripts/opf_html.py:66-119 | a wrapped page has exactly one canonical block, ended by the first close tag, and extraction gives the stripped text back exactly when the text held no escaped opener of its own |

## Left out

- Zip packaging, XML parsing and serialisation, part relationships and byte-level round trips: the model starts from a parsed tree.
- Style-inherited hiding: whether a run is hidden is given with the run.
- The symbol table of `sym_char`: a symbol element carries the character it resolves to, or nothing.
- `scan_paragraphs`, unrecognised-markup counts, disclosure notes and receipt wording: text for people, which no block depends on. `p_index` and the heading's source text are not carried into a block either.
- Malformed revision records (`unknown status`, missing `resulting_text`): the extractor never writes one; they concern hand-built input to `normalize`.
- Unicode tables: digits, letter case, `isupper`, `casefold` and word characters are ASCII; whitespace is exact. Both reads use the same tests on the same text, so no agreement rests on them.
- Non-decimal spellings `int()` accepts in an outline level (underscores, other scripts' digits).
- Stamping of field texts on clusters beyond the field's own accepted text, and cluster counts in notes.
- The detail strings of transcript failures; reasons, indices and offsets are kept.
- ParagraphRecord.NormalizeParagraph: the outcome and the clean text only, not the notes; the order in which heading and text are screened shows only in the notes.
- `build_ledger`, and the numeric bounds of `evaluate_predicate`: rules come built, and what a bound's pattern comes to of a clause is an arbitrary answer of true, false or not evaluable. Judge recommendations change no outcome and are not kept. Blocks come in document order with distinct ids, as the block map gives them.
- The critic's `ledger:` issue wording, provenance prefix and summary sentences.
- Edits of a review that carry no issue key: an insertion under no key counts as one under the empty key, and a key that is no string is left aside.
- LedgerFacts.NoProblems: rule ids are taken as listed; removing repeated ids first changes neither half.
- Cancellation, timing, usage and cost fields of an invocation record; the critic's document-too-large gate before the loop; the text of a retry correction.
- Pairing of reviewer and critic issues (`_pair_issues`): whether a kept issue has a counterpart is given with the response.
- `pp.validate_model_response` and the block-transcript check inside the critic loop: predicates of the answer.
- FloorJudge.CorrectionIsPriced: the fixed wording of the two corrections enters as two lengths.
- JSON unwrapping before `_check_judge_response`, and restoring of escaped delimiters in a quote.
- Floating-point arithmetic in the spend ledger: amounts and totals are exact reals, or not a number. Infinite amounts are refused by the first gates and never recorded.
- Reading a damaged ledger file: an unreadable ledger is a failing step that changes nothing. Wall-clock waiting: a runner may time out at any moment the lock is there.
- Regular-expression triggers, and `check_on_remove_or_alter_rule_fires`.
- `deal_document_ids`, hashing and `alias_text`: the deals come in an arbitrary order without repeats.
- The fixed words of the HTML envelope: what stands before the canonical block is any text without `<script`, what stands after it any text none of whose script tags is recognised, and the opening tag any tag the reader recognises; JSON parsing.
- Cover notes, dossiers, entity normalisation, evaluation metrics, confusables and authorisation: correct but easy, and apart from these parts.
