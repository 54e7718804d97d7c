# origofs, verified

origofs stores files as content-addressed chunk lists and keeps, for every byte, who wrote
it. This project models the parts where that can go wrong and proves what they promise.
`dafny verify dfyconfig.toml` checks all of it.

- **Server-owned authorship** (`EditScripts`, `CoeditStamps`, `CoeditDocs`, `CoeditRepair`):
  after a client update the server computes the stamp every byte must carry, finds where the
  document disagrees, converts byte ranges to document indices around embeds, and reformats
  them. A document is a sequence of cells, a text byte or an embed, each with a stamp; a byte
  counts one index and one byte, an embed one index and no byte. The character diff is any
  deterministic function returning a valid edit script.
- **Documents and files** (`SpanCursors`, `CoeditReconcile`, `CoeditSnapshot`): folding a
  foreign write into a live document, rebuilding a document from a file and its blame, and
  reading both back.
- **Blame** (`Lines`, `BlameMaps`, `BlameCodec`, `DiffBlame`, `RevertBlame`, `BlameRanges`,
  `TreeSpans`): deriving, storing, reverting and reporting per-byte authorship. The line diff
  is any script whose old tokens are the old text's lines. `WriteLog` interleaves calls to
  one path: read, derive, commit in one transaction.
- **Manifests** (`Manifests`, `ManifestEdits`, `ManifestCodec`): chunk-list surgery against a
  flat byte sequence, for every choice of chunk boundaries, and the byte codec underneath.
- **Namespace** (`NameTrees`, `NameEdits`, `Namespace`): inodes and named entries as two maps,
  what a path means in them, and what each operation does to every path. The refusal of a
  move into the moved directory is [EINVAL] of rename() in the System Interfaces volume of
  POSIX.1-2017.
- **Access control** (`AclPaths`, `AclCaches`, `AclOverlaps`): the ancestor walk that replaces a scan of all
  grants, and the generation-keyed cache while other workers load and an operator changes
  grants, policies and switches. A change is its row write, then its bump; changes are
  serialised; a hit is one step, every store read of a miss is a step of its own.
- **Tree checkpoints** (`TreeCheckpoints`, `TreeRuns`): which bytes a replica of a tree-shaped
  document may replace, over runs of any number of replicas and of writers around them. Each
  call is one step; `TreeRuns` drives the calls themselves and proves that.
- **Change consumer** (`ChangeFeeds`, `Consumers`, `ConsumerRuns`): cold start, tail, retry and
  restart against a filesystem that keeps changing, feeding a keyed sink that clears itself
  when a snapshot begins. A filesystem change and its event are one step. `ConsumerRuns` holds
  the consumer's own loops, each action of which is proved to be a protocol step.
- **Tiered cache** (`CacheIndexes`, `TieredStores`): the LRU bookkeeping and a read path that
  does not trust the cache. Which cache reads, writes, deletes and sizes fail, and whether the
  disk is low each time it is asked, are parameters.

Hashes are injective. `Tilings` and `Bytes` hold what everything shares: a run-length tiling
is read through the per-byte sequence it expands to.

What the proofs turned up:

- `reconcile_with` uses a byte offset as a document index, so it lands its target for every
  script if and only if no embed stands before text (`CoeditReconcile.ReconcileLandsIff`).
- An empty span can make `SpanCursor` name the wrong author (`SpanCursors.EmptySpanMisleads`);
  `SpanCursors.CursorExactIff` says exactly when.
- A grant at `/a /` is stored as `/a ` but loaded as `/a`: a stored root reads back as itself
  if and only if it does not end in a space (`AclPaths.RootReadsBackIff`).
- A consumer run again in the process whose cold start failed does not walk the tree, so it
  can miss a file for good (`Consumers.RunAgainSkipsTheWalk`). All its runs converge if and
  only if the feed mentions every file and everything the sink holds
  (`Consumers.AgainConvergesIff`); with a new process after such a failure they always do
  (`Consumers.Converges`).
- A read that misses of an object kept under a key of its own caches it under its content hash
  but accounts for it under the key (`TieredStores.KeyedReadIsMistracked`). What is cached is
  what is tracked if and only if the object is kept under its hash
  (`TieredStores.TieredStore.Get`).
- `write_reader_as` documents that its log row records the content it overwrote; the code reads
  that content before its transaction and never compares. The row can be wrong
  (`WriteLog.StreamedRowCanBeWrong`), and is right if and only if the content at the commit is
  again what was read (`WriteLog.RowTellsReplacedIff`).
- A legal rename is refused if and only if its destination's directory is 4096 or more levels
  down (`Namespace.LegalRefusedIff`, `Namespace.DeepRenameRefused`).
- A check that two changes overlap can answer what no state of the store would have
  (`AclOverlaps.TwoChangesMayMix`); with one, its answer is that of before or after
  (`AclOverlaps.OneChangeIsBeforeOrAfter`).
- The generation counter wraps: after 2^64 changes an entry loaded at the first generation is
  current again, and answers (`AclCaches.WrapRevivesOldEntries`).

## Model

| member | source | states |
|---|---|---|
| Tilings.ExpandPush | crates/origofs-core/src/coedit.rs:884-892 | appending a run appends exactly its bytes under its stamp, whether it was merged into the last run or not |
| Tilings.CanonicalUnique | crates/origofs-core/src/coedit.rs:880-892 | two tilings without empty runs or equal neighbours that give every byte the same stamp are the same tiling: one canonical spelling |
| Tilings.SameBytesIffSameCoalesced | crates/origofs-core/src/attribution.rs:281-299 | two span lists agree on every byte if and only if they coalesce to the same map |
| EditScripts.AlignedItem | crates/origofs-core/src/coedit.rs:995-1019 | for any valid edit script, each surviving item of the new text equals the old item it is aligned with |
| EditScripts.AlignedOrder | crates/origofs-core/src/coedit.rs:995-1019 | survivors keep their relative order |
| EditScripts.ChangeAligned | crates/origofs-core/src/coedit.rs:995-1019 | what a change keeps survives item for item from where it stands in the old text, and only what a change inserts is introduced |
| CoeditStamps.TilingCursor.Carry | crates/origofs-core/src/coedit.rs:910-928 | appends the stamps of the next bytes of the tiling, the fallback past its end, and moves the cursor by exactly that many bytes; ends on empty runs |
| CoeditStamps.TilingCursor.Skip | crates/origofs-core/src/coedit.rs:930-944 | drops exactly that many bytes of what the cursor has ahead, or all of it |
| CoeditStamps.IntendedStamps | crates/origofs-core/src/coedit.rs:981-1019 | the tiling the loop builds gives every byte of the new text the stamp the edit script calls for, a fresh one per maximal inserted run, and covers the text exactly |
| CoeditStamps.IntendedByAlignment | crates/origofs-core/src/coedit.rs:949-955 | for any old tiling, told by the alignment alone: a survivor carries the stamp it had, the fallback where the old tiling has run out, and any other byte the mint of its insert run, counted from the start of the script |
| CoeditStamps.DivergingRuns | crates/origofs-core/src/coedit.rs:1021-1070 | two tilings of one text, empty runs allowed: the regions reported are those found byte by byte; it terminates |
| CoeditStamps.DivergencesSound | crates/origofs-core/src/coedit.rs:1021-1025 | every byte inside a reported region disagrees and wants the region's stamp |
| CoeditStamps.DivergencesComplete | crates/origofs-core/src/coedit.rs:1021-1025 | every disagreeing byte is inside a region, so the list is empty exactly when nothing disagrees |
| CoeditStamps.DivergencesInOrder | crates/origofs-core/src/coedit.rs:1051-1056 | regions are non-empty, in order, and two that touch want different stamps: they are maximal |
| CoeditDocs.StampTiling | crates/origofs-core/src/coedit.rs:870-878 | for any fragmentation of the document into runs, the canonical tiling of its bytes, embeds dropped |
| CoeditDocs.DocIndexAt | crates/origofs-core/src/coedit.rs:1074-1086 | the document index of a byte offset, embeds stepped over; `None` exactly past the end of the text |
| CoeditDocs.RangeOf | crates/origofs-core/src/coedit.rs:1088-1103 | the index range that covers a byte range, `None` exactly when the range leaves the text |
| CoeditDocs.FormatRestamps | crates/origofs-core/src/coedit.rs:472-477 | formatting the index range of a byte range restamps exactly those bytes and no other, embeds interleaved anywhere |
| CoeditRepair.CoeditDoc.ApplyUpdateAs | crates/origofs-core/src/coedit.rs:433-492 | after a client update with any stamps: text and layout are the client's, every byte carries its intended stamp, and the repaired regions are exactly the maximal runs of bytes that were wrong, none when none was |
| CoeditRepair.FormatNext | crates/origofs-core/src/coedit.rs:479-484 | index ranges computed on the document as scanned stay right while earlier regions are reformatted |
| CoeditRepair.ForgedStampsHaveNoEffect | crates/origofs-core/src/coedit.rs:408-428 | the authors at the end of a run are a function of its texts and connections: what clients wrote as stamps does not enter |
| CoeditRepair.AttributedByAlignment | crates/origofs-core/src/coedit.rs:455-478 | each byte is the connection's or survives, byte for byte and in order, from the document before under its old stamp |
| CoeditRepair.AuthorsAreAuthentic | crates/origofs-core/src/coedit.rs:408-428 | over any run of attributed updates every author present was in the initial document or is one of the connections |
| CoeditRepair.ApplyAll | crates/origofs-core/src/coedit.rs:433-492 | a document that takes one update after the other ends with the text of the last and the stamps of that run, each of them there at the start or a sender's |
| CoeditRepair.ApplyBoth | crates/origofs-core/src/coedit.rs:408-428 | two documents that start alike and take updates from the same connections to the same texts end with the same stamps, whatever stamps, layouts and forgeries the updates carried |
| SpanCursors.SpanCursor.Advance | crates/origofs-core/src/coedit.rs:1132-1147 | where the cursor stops: a move ends when its bytes are spent, so an empty span there is not passed |
| SpanCursors.WalkTwice | crates/origofs-core/src/coedit.rs:1132-1147 | two moves are one move of their sum |
| SpanCursors.CursorExactIff | crates/origofs-core/src/coedit.rs:1105-1148 | the cursor names every byte's author if and only if each empty span that opens the tiling or follows a non-empty one names the author of the next byte |
| SpanCursors.NoEmptySpanIsExact | crates/origofs-core/src/coedit.rs:1105-1148 | so for every positive-length tiling it is exact |
| SpanCursors.CursorPadded | crates/origofs-core/src/coedit.rs:1124-1130 | and past the end of such a tiling it names nobody |
| SpanCursors.EmptySpanMisleads | crates/origofs-core/src/coedit.rs:1105-1148 | a tiling that opens with an empty span makes the cursor name the wrong author for the first byte |
| SpanCursors.CuttableIff | crates/origofs-core/src/coedit.rs:605-629 | spans can be cut out of a text exactly when each ends inside it and on a character boundary |
| CoeditReconcile.EditedDoc.ReconcileWith | crates/origofs-core/src/coedit.rs:645-705 | batching insert runs per author changes nothing: the document ends as the script replayed one change at a time at the moving index |
| CoeditReconcile.ReplayLands | crates/origofs-core/src/coedit.rs:645-705 | on a document whose embeds follow its text the index never strays: the replay edits the text cells only |
| CoeditReconcile.LandedCells | crates/origofs-core/src/coedit.rs:678-699 | the replayed cells are the new text: a survivor is the very cell it was, an inserted byte carries its span's author, for any spans cut between characters and any length, nobody past their end |
| CoeditReconcile.ReconcileLandsIff | crates/origofs-core/src/coedit.rs:645-705 | the text lands on the target for every script and every tiling if and only if no embed stands before text: the byte offset is used as a document index |
| CoeditReconcile.ReconcileAuthorship | crates/origofs-core/src/coedit.rs:631-638 | where it lands, each byte is the surviving cell or carries the author its offset has in the tiling, none for actor 0 or past its end |
| CoeditSnapshot.FromBlamed | crates/origofs-core/src/coedit.rs:605-629 | succeeds exactly when every span ends on a character boundary inside the text, and then the document reads back as the text the spans cover, under their authors |
| CoeditSnapshot.Snapshot | crates/origofs-core/src/coedit.rs:712-739 | for any fragmentation the text and its per-byte authors, as a canonical tiling |
| CoeditSnapshot.RebuildAndSnapshot | crates/origofs-core/src/coedit.rs:605-739 | rebuilding from text and spans and snapshotting returns the text the spans cover and, byte by byte, their authors, actor 0 as nobody, in canonical form: the coalesced spans themselves when none is of actor 0 |
| Lines.SplitJoins | crates/origofs-core/src/attribution.rs:1396-1400 | the split lines joined are the text, each ends at its first newline, only the last may lack one |
| Lines.JoinSplits | crates/origofs-core/src/attribution.rs:1396-1400 | joining lines and splitting again gives those lines |
| BlameMaps.FromSpans | crates/origofs-core/src/attribution.rs:281-299 | the canonical map with the same author for every byte |
| BlameMaps.Slice | crates/origofs-core/src/attribution.rs:332-352 | the authors of a byte window, clipped to the map |
| BlameMaps.ChangedSince | crates/origofs-core/src/attribution.rs:307-330 | the placed runs that do not stand identically in the prior map, in order |
| BlameMaps.ChangedBytesAreListed | crates/origofs-core/src/attribution.rs:307-313 | every byte whose author differs from the prior map's at that offset is inside a listed run under its author |
| BlameMaps.OpRows | crates/origofs-core/src/attribution.rs:798-826 | every contributor's first run is a row, rows are among the changed runs, and there are exactly as many as fit: all of them, or the larger of 256 and the number of contributors |
| BlameMaps.NoContributorIsLost | crates/origofs-core/src/attribution.rs:793-826 | the author of every changed byte has at least one row |
| BlameCodec.RoundTrip | crates/origofs-core/src/attribution.rs:354-376 | a map whose fields fit their widths decodes from its stored text as itself |
| BlameCodec.PiecesReadAlone | crates/origofs-core/src/attribution.rs:363-376 | stored text is read piece by piece: a piece that is no run costs only itself |
| BlameCodec.StoredForm | crates/origofs-core/src/attribution.rs:354-361 | two runs in the form on record: three numbers with commas between, semicolons between runs |
| DiffBlame.DiffSpans | crates/origofs-core/src/attribution.rs:1402-1491 | for any valid line diff and any old map the new map is canonical, totals the new length, and credits every line of the new text as `LineCredits` says |
| DiffBlame.LineCredits | crates/origofs-core/src/attribution.rs:1427-1482 | where a line stands in the new text: kept or reclaimed at the same length it has its old bytes' authors one by one; reclaimed at another length the first author of the old line throughout; new, or where the old map ends, the writer |
| DiffBlame.ReclaimsInOrder | crates/origofs-core/src/attribution.rs:1436-1463 | of the inserts with one normalised content the first ones reclaim, and the deleted lines with it go to them first to first |
| DiffBlame.EachOldLineDonatesOnce | crates/origofs-core/src/attribution.rs:1402-1408 | no old line gives its authorship to two new lines |
| DiffBlame.ReclaimsAreMaximal | crates/origofs-core/src/attribution.rs:1436-1480 | for each normalised content exactly min(deleted, inserted) inserted lines reclaim a deleted one, at every point of the diff |
| DiffBlame.UnchangedLinesKeepAuthors | crates/origofs-core/src/attribution.rs:1402-1408 | an unchanged line inside the old map keeps its authors byte for byte; the authors cover the new text |
| RevertBlame.RevertContent | crates/origofs-core/src/attribution.rs:1332-1374 | changes the file exactly when it is text, covered by its map, and has a line solely the target's; then body and map are exactly the other lines and their authors |
| RevertBlame.KeptByte | crates/origofs-core/src/attribution.rs:1338-1356 | every kept byte is a byte of the file, under the author it had |
| RevertBlame.KeptInOrder | crates/origofs-core/src/attribution.rs:1338-1356 | kept bytes keep their order |
| RevertBlame.OthersAreKept | crates/origofs-core/src/attribution.rs:1331-1334 | no byte of another author is dropped |
| RevertBlame.RevertTwice | crates/origofs-core/src/attribution.rs:1331-1358 | the kept text splits back into the kept lines, none solely the target's: a second revert changes nothing |
| RevertBlame.RevertAgain | crates/origofs-core/src/attribution.rs:1331-1374 | reverting what a revert left, or left alone, changes nothing; the first shortens the file when it changes it |
| BlameRanges.Blame | crates/origofs-core/src/attribution.rs:1143-1182 | refused exactly when the map does not total the content; otherwise each run's exact byte range, and for first and last byte one plus the newlines before it |
| BlameRanges.RangesNameAuthors | crates/origofs-core/src/attribution.rs:1160-1182 | the ranges tile the content, and each byte is in the range that names its author |
| BlameRanges.ReportsItsLines | crates/origofs-core/src/attribution.rs:1165-1182 | the line numbers a range reports are those of the lines, as the text splits into them, that hold its first and its last byte |
| TreeSpans.NodeAuthors | crates/origofs-core/src/coedit_tree.rs:572-623 | an id maps to an author exactly when all its claims agree on that author |
| TreeSpans.TileSpans | crates/origofs-core/src/coedit_tree.rs:1559-1622 | accepts exactly ordered, non-overlapping spans inside the body on character boundaries, and then tiles every byte |
| TreeSpans.OrderedIff | crates/origofs-core/src/coedit_tree.rs:1559-1622 | spans are accepted exactly when each runs forward inside the body between character boundaries and starts no earlier than the one before ended |
| TreeSpans.SpanAuthorOfByte | crates/origofs-core/src/coedit_tree.rs:1559-1622 | a byte inside a span has its node's author (the checkpointer for an unknown node), any other byte the checkpointer |
| WriteLog.LogIsHashChain | crates/origofs-core/src/attribution.rs:660-849 | over every interleaving of diffed writes each row's pre-hash is the row before's post-hash, the last is the file's content, and each successful call has exactly one row, no other call any |
| WriteLog.ConflictLeavesNoTrace | crates/origofs-core/src/attribution.rs:710-745 | over any run of calls of every kind, a call that is not committed, one refused by a conflict among them, changed neither content, blame nor log in any of its steps, and no row is its own |
| WriteLog.LandsOnWhatItDiffed | crates/origofs-core/src/attribution.rs:732-745 | a diffed write lands only on the very content its authorship was derived from, by a diff against the blame on record for that content at the step that derived it |
| WriteLog.RecordedAsAsked | crates/origofs-core/src/attribution.rs:589-730 | every commit leaves the body asked for with its authors: an explicit write the spans given; a streamed one, and a diffed one of what is not text, the caller on every byte; a diffed one of text the lines credited by a diff against the content and blame it read; a revert the lines it keeps of the content it read, under their authors |
| WriteLog.GivesUpAfterSixteen | crates/origofs-core/src/attribution.rs:660-700 | a call that compares nothing is given up only after losing the race to create the file sixteen times; none is started over more often |
| WriteLog.RowTellsReplacedIff | crates/origofs-core/src/attribution.rs:912-953 | every call that commits read the content it pins at some earlier step and writes one row: a diffed write's always names the content it replaced; an explicit or streamed one's if and only if the content at the commit is again what it was when read, in particular if nobody commits between; a revert's if and only if there was none |
| WriteLog.LogChainsIff | crates/origofs-core/src/attribution.rs:912-953 | over runs of every kind the log is a hash chain if and only if each row names the content its write replaced |
| WriteLog.StreamedRowCanBeWrong | crates/origofs-core/src/attribution.rs:912-953 | a run of one streamed and one diffed call, by two actors and of bodies that are not text, in which the streamed one's row names no content though it replaced some |
| WriteLog.BlameAlwaysFits | crates/origofs-core/src/attribution.rs:589-730 | in every state reachable through diffed, explicit, streamed and reverting writes each recorded map totals its content's length |
| WriteLog.BlameNamesOnlyWriters | crates/origofs-core/src/attribution.rs:690-702 | every author on record was there at the start, made a call, or was named by an explicit one |
| ManifestEdits.BodyStore.AppendHole | crates/origofs-core/src/engine.rs:1021-1052 | appends exactly that many zero bytes |
| ManifestEdits.BodyStore.AffectedChunks | crates/origofs-core/src/engine.rs:885-916 | nothing before the chosen chunks reaches past the offset and nothing after them starts before the end of the write |
| ManifestEdits.BodyStore.SpliceRegion | crates/origofs-core/src/engine.rs:880-975 | inside the body or at its end: the rechunked region between the kept chunks reads as the flat patch |
| ManifestEdits.BodyStore.SpliceBody | crates/origofs-core/src/engine.rs:845-980 | for every boundary choice the body reads as the flat bytes zero-filled to the offset and patched; lengths sum to the size; refused only past 64 bits or too many chunks |
| ManifestEdits.BodyStore.ResizeBody | crates/origofs-core/src/engine.rs:1096-1148 | the body reads as the flat bytes truncated or extended with zeros |
| ManifestEdits.BodyStore.SplitChunksAt | crates/origofs-core/src/engine.rs:1163-1191 | the two lists read as the flat bytes before and after the cut |
| ManifestEdits.BodyStore.SliceChunks | crates/origofs-core/src/engine.rs:1207-1220 | reads as the flat window, clamped |
| ManifestEdits.BodyStore.ReplaceRange | crates/origofs-core/src/engine.rs:1231-1262 | reads as the flat bytes patched with the new chunks' bytes, gap zero-filled; refused only past the widths |
| ManifestEdits.BodyStore.CoveringChunks | crates/origofs-core/src/engine.rs:118-136 | the planned pieces, each within its chunk, concatenate to the flat slice |
| ManifestEdits.BodyStore.ReadRange | crates/origofs-core/src/engine.rs:1719-1754 | a ranged read returns the flat window |
| Manifests.WrittenBytes | crates/origofs-core/src/engine.rs:845-980 | the flat write byte by byte: the data where it lands, zeros in a gap before it, all else unchanged, and a write of nothing changes nothing |
| Manifests.ResizedBytes | crates/origofs-core/src/engine.rs:1096-1148 | the flat truncation byte by byte: what fits, then zeros |
| Manifests.WindowBytes | crates/origofs-core/src/engine.rs:1719-1754 | the flat window byte by byte, clipped at the end |
| ManifestEdits.EditFile | crates/origofs-core/src/engine.rs:845-1262 | any sequence of writes, truncations and range replacements with chunks of other files reads as the flat bytes edited alike; refused only past the widths or when the chunks could be too many to count |
| ManifestCodec.LensBound | crates/origofs-core/src/chunk.rs:143-150 | the lengths of as many chunks as can be declared sum to less than 2^64 |
| ManifestCodec.Encode | crates/origofs-core/src/chunk.rs:74-104 | refused exactly at 2^32 chunks; otherwise tag, version, size, count and entries, little-endian |
| ManifestCodec.EncodingFields | crates/origofs-core/src/chunk.rs:84-104 | where each field of an encoding sits: tag, version 1, size at 5, count at 13, entries from 17 |
| ManifestCodec.FieldBytes | crates/origofs-core/src/chunk.rs:84-104 | what the bytes of a 32-bit and of a 64-bit field stand for, the lowest first |
| ManifestCodec.EncodingInjective | crates/origofs-core/src/chunk.rs:69-73 | two manifests never encode alike |
| ManifestCodec.Decode | crates/origofs-core/src/chunk.rs:109-154 | the encoding of a valid manifest is accepted as it, and accepted bytes re-encode to themselves; a newer version is reported as such; bytes are corrupt exactly when they lay out a manifest whose chunks do not sum to its size, malformed exactly when they lay out none |
| ManifestCodec.RoundTrip | crates/origofs-core/src/chunk.rs:74-154 | decode of encode is the identity on every valid manifest |
| NameTrees.OnePath | crates/origofs-core/src/engine.rs:569-579 | in a well-shaped tree a directory has one path |
| NameTrees.WalkElsewhere | crates/origofs-core/src/engine.rs:569-579 | changing one entry moves nothing but what is at or below it |
| NameEdits.AddedResolves | crates/origofs-core/src/engine.rs:619-634 | creating a path makes it lead to the new inode and changes no other path |
| NameEdits.DroppedResolves | crates/origofs-core/src/engine.rs:1783-1794 | removing a path makes it and all below lead nowhere and changes no other path |
| NameEdits.RenameSubstitutes | crates/origofs-core/src/engine.rs:1873-1925 | after a rename `to/q` leads where `from/q` did, `from` and below lead nowhere, other paths are unchanged, and the tree is still a tree |
| Namespace.OneHome | crates/origofs-core/src/engine.rs:1827-1840 | in a tree each directory has exactly one path from the root and one parent (the root none), and no path leads from it back to itself |
| Namespace.Workspace.ResolvePath | crates/origofs-core/src/engine.rs:569-579 | the inode the components lead to, `NotFound` exactly when they lead nowhere |
| Namespace.Workspace.Mkdir | crates/origofs-core/src/engine.rs:613-634 | the exact refusal, in the order the checks are made; otherwise only the new path changes |
| Namespace.Workspace.MkdirP | crates/origofs-core/src/engine.rs:638-694 | refused exactly when something other than a directory stands on the path, and then nothing was created; otherwise exactly the missing parts of the path now exist |
| Namespace.Workspace.Rmdir | crates/origofs-core/src/engine.rs:697-726 | the exact refusal; otherwise the path leads nowhere, its inode is gone, other paths are unchanged |
| Namespace.Workspace.Unlink | crates/origofs-core/src/engine.rs:1766-1794 | the exact refusal; otherwise one name fewer, and the inode goes exactly with its last name |
| Namespace.Workspace.Remove | crates/origofs-core/src/engine.rs:1797-1810 | succeeds exactly for an existing file or empty directory other than the root |
| Namespace.WhenRefused | crates/origofs-core/src/engine.rs:613-726 | which error a create, an unlink and a directory removal give, and exactly when |
| Namespace.WhenRenameRefused | crates/origofs-core/src/engine.rs:1867-1900 | which error a rename gives, and exactly when |
| Namespace.Workspace.EnsureNotOwnDescendant | crates/origofs-core/src/engine.rs:1841-1864 | meets the source among the nearest 4096 directories on the climb: invalid; a climb of 4096 or more that does not: corrupt; otherwise allowed |
| Namespace.MetIffInside | crates/origofs-core/src/engine.rs:1827-1840 | the climb meets the moved inode exactly when its path is a prefix of the destination directory's |
| Namespace.LegalRefusedIff | crates/origofs-core/src/engine.rs:1841-1864 | a rename that would substitute paths is refused, as corrupt, if and only if its destination's directory is 4096 or more levels down |
| Namespace.DeepRenameRefused | crates/origofs-core/src/engine.rs:1841-1864 | a tree and a legal move in it that is refused |
| Namespace.Workspace.Rename | crates/origofs-core/src/engine.rs:1867-1925 | the exact refusal, in order; two names of one inode: nothing changes; otherwise path substitution, every inode of the kind it was and none gone but what was replaced, a file only with its last name |
| Namespace.Workspace.Run | crates/origofs-core/src/engine.rs:613-726 | any sequence of operations does or refuses each in turn, a refused one changing nothing, and leaves a tree |
| AclPaths.PermsAt | crates/origofs-core/src/acl.rs:141-186 | for every string path and every map of roots: the permissions of the longest root that equals the path, is continued by a slash, or is empty |
| AclPaths.WalkIsScan | crates/origofs-core/src/acl.rs:127-151 | the indexed ancestor walk answers what a scan of every grant does, for every path and every list of grants |
| AclPaths.ScanFindsLongest | crates/origofs-core/src/acl.rs:127-151 | the scan finds nothing exactly when no grant covers the path; otherwise a covering grant with the longest root, the last one made at that root |
| AclPaths.CoversByParts | crates/origofs-core/src/scope.rs:125-139 | a root covers exactly the paths that begin with its components |
| AclPaths.AcceptedIff | crates/origofs-core/src/scope.rs:93-115 | a prefix is accepted exactly when, without the spaces around it, it is empty or starts with a slash, no component is ".." and there is no NUL |
| AclPaths.RootShape | crates/origofs-core/src/scope.rs:93-115 | a root that is accepted is empty or starts with a slash and does not end in one |
| AclPaths.RootReadsBackIff | crates/origofs-core/src/scope.rs:93-115 | a stored root reads back as itself if and only if it is empty or does not end in a space |
| AclPaths.SpaceBeforeSlashIsLost | crates/origofs-core/src/acl.rs:127-138 | a grant at "/a /" is stored as "/a " and loaded as "/a" |
| AclCaches.AclCache.Check | crates/origofs-core/src/acl.rs:201-218 | a hit needs the current generation and the actor, and answers from what was loaded; anything else is a miss |
| AclCaches.AclCache.Put | crates/origofs-core/src/acl.rs:230-250 | a new generation drops every entry before the actor is stored |
| AclCaches.AclCache.PutSettings | crates/origofs-core/src/acl.rs:252-263 | a new generation drops every entry before the switches are stored |
| AclCaches.AclService.EffectivePerms | crates/origofs-core/src/acl.rs:698-726 | one worker alone: every answer, cached or loaded, is the covering grant's; else nothing where the store denies by default; else to read and propose, and to write unless the actor's stored policy is to propose |
| AclCaches.AclService.AclSettings | crates/origofs-core/src/acl.rs:664-678 | one worker alone: the switches answered are the stored ones |
| AclCaches.AclService.Change | crates/origofs-core/src/acl.rs:592-650 | the row and its bump keep the cache exact |
| AclCaches.ChangeTakes | crates/origofs-core/src/acl.rs:592-650 | a change makes the one row it names what is asked and leaves every other as it was |
| AclCaches.NextKeepsInv | crates/origofs-core/src/acl.rs:640-726 | every step of loads, hits, row writes and bumps keeps caches and answers exact, until the counter wraps |
| AclCaches.CacheIsTheStore | crates/origofs-core/src/acl.rs:681-697 | in every reachable state with no change in flight, what a cache holds under the store's generation is what the store holds |
| AclCaches.ChecksAreExact | crates/origofs-core/src/acl.rs:664-726 | a check that overlaps no change answers what the uncached resolver does: the rights just told, bit by bit, or the two switches |
| AclOverlaps.OneChangeIsBeforeOrAfter | crates/origofs-core/src/acl.rs:681-726 | a check that overlaps one change, begun before it or during it, answers as the store before the change or the store after it would have it, whatever other checks loaded meanwhile |
| AclOverlaps.TwoChangesMayMix | crates/origofs-core/src/acl.rs:698-726 | a run in which two changes overlap a check and it answers what the uncached resolver would have answered at no time |
| AclCaches.UncachedScans | crates/origofs-core/src/acl.rs:713-725 | the uncached answer is the scan's longest grant, else deny by default, else the policy |
| AclCaches.UncachedIsRightful | crates/origofs-core/src/acl.rs:341-347 | and the policy grants to read and to propose, and to write if and only if it is direct |
| AclCaches.WrapRevivesOldEntries | crates/origofs-core/src/acl.rs:645-650 | the bound on changes is needed: a run of 2^64 of them from an empty store makes what was loaded at zero current again, and a check that overlaps no change then answers from it, wrongly |
| TreeCheckpoints.TreeFile.Load | crates/origofs-core/src/coedit_tree.rs:1037-1069 | resumes exactly when the sidecar is this root's and vouches for the file's bytes |
| TreeCheckpoints.TreeFile.EnsureCoherent | crates/origofs-core/src/coedit_tree.rs:1219-1281 | the address fast path changes no verdict: it passes exactly when the base names the file's bytes, the sidecar vouches for them, or an unseeded document meets an empty file |
| TreeCheckpoints.TreeFile.Checkpoint | crates/origofs-core/src/coedit_tree.rs:1120-1149 | lands exactly text over accounted-for bytes with spans that fit; then file, sidecar, base and per-byte blame are the body's; otherwise file, sidecar and blame are untouched |
| TreeCheckpoints.CheckpointsLoseNothing | crates/origofs-core/src/coedit_tree.rs:1198-1218 | over any run by any replicas and foreign writers, what a checkpoint replaced was nothing, or bytes a replica of the same root had been seeded from or landed earlier |
| TreeCheckpoints.ForeignBytesAreRefused | crates/origofs-core/src/coedit_tree.rs:1206-1218 | bytes no replica of a root was seeded from or landed are refused to all its replicas |
| TreeCheckpoints.OwnBytesLand | crates/origofs-core/src/coedit_tree.rs:1219-1281 | over runs: a replica seeded from a body or having landed it, and neither seeded nor check pointed since, lands its next fitting checkpoint whenever the file reads that body, whatever others did to file and sidecar |
| TreeCheckpoints.SidecarsAreEarned | crates/origofs-core/src/coedit_tree.rs:1178-1196 | every sidecar hash is that of bytes a replica of its root was seeded from or landed, or of no bytes |
| TreeCheckpoints.EveryReplicaMayFollow | crates/origofs-core/src/coedit_tree.rs:1202-1204 | over runs: from when one replica of a root lands a body and for as long as only replicas of the root land and sweeps frame what the file holds, every replica of the root may check point over it and one opened resumes from it |
| TreeCheckpoints.SweptResumesIff | crates/origofs-core/src/coedit_tree.rs:1157-1172 | over runs: from a sweep until a sidecar is next written, through any foreign writes, the document can be resumed exactly while the file holds its base, or nothing if it was never seeded |
| TreeRuns.Drive | crates/origofs-core/src/coedit_tree.rs:1037-1281 | any sequence of loads, seedings, checkpoints, sweeps and foreign writes over a file without a sidecar leaves file and documents as the run of exactly those steps does, so that what is proved of runs holds of it |
| ChangeFeeds.ChangeTouches | examples/fs-consumer/origofs_fs_consumer.py:637-662 | a change leaves every path the feed does not mention from an event on as it was |
| ChangeFeeds.InOrderSays | examples/fs-consumer/origofs_fs_consumer.py:715-728 | exact-order dispatch ends each path with the op its last event asks for |
| ChangeFeeds.CoalesceBatch | examples/fs-consumer/origofs_fs_consumer.py:730-753 | one op per path touched, the one its last event asks for |
| Consumers.DispatchedFate | examples/fs-consumer/origofs_fs_consumer.py:691-713 | a batch dispatched over a sink right up to it leaves every path right that no later event touches |
| Consumers.NextKeepsInv | examples/fs-consumer/origofs_fs_consumer.py:626-753 | every step of writers, head capture, walk, batches, retries, flushes, crashes and restarts keeps the sink right except where the feed has more to say |
| Consumers.IdleAgrees | examples/fs-consumer/origofs_fs_consumer.py:676-689 | an idle consumer's sink agrees with the filesystem on every path the tail answers for |
| Consumers.Converges | examples/fs-consumer/origofs_fs_consumer.py:637-689 | with a snapshot cold start, through any interleaving, the idle sink equals the filesystem when a failed cold start is taken up by a new process only, and also otherwise when the feed mentions all files and all the sink held |
| Consumers.ReplayConverges | examples/fs-consumer/origofs_fs_consumer.py:637-641 | replay converges through any interleaving when the sink is right to begin with on the paths the feed never mentions |
| Consumers.RunAgainSkipsTheWalk | examples/fs-consumer/origofs_fs_consumer.py:626-635 | a run after a failed cold start in the same process tails from zero without a walk: it can idle with a file missing |
| Consumers.AgainConvergesIff | examples/fs-consumer/origofs_fs_consumer.py:626-689 | from any initial state every snapshot run converges, whatever fails and is taken up again, if and only if the feed mentions every file and everything the sink holds |
| Consumers.ReplayConvergesIff | examples/fs-consumer/origofs_fs_consumer.py:637-641 | from any initial state every replaying run converges if and only if the sink is right on the paths the feed never mentions |
| ConsumerRuns.Consumer.FeedHead | examples/fs-consumer/origofs_fs_consumer.py:664-674 | pages to the end and returns the head, or none when the feed cannot be read |
| ConsumerRuns.Consumer.WalkFiles | examples/fs-consumer/origofs_fs_consumer.py:256-271 | unless a listing or the handler fails: lists every directory exactly once, hands on every file exactly once, in the order met, and ends |
| ConsumerRuns.Consumer.TakeSnapshot | examples/fs-consumer/origofs_fs_consumer.py:650-662 | sink cleared, tree walked, rows flushed, and only then the captured head saved as the cursor; a failure of walk or flush leaves the cursor as it was |
| ConsumerRuns.Consumer.BootstrapCold | examples/fs-consumer/origofs_fs_consumer.py:637-662 | replay saves zero, the others the head of the feed, and the tail starts there; a cold start that fails at the feed, the walk or the flush saves no cursor |
| ConsumerRuns.Consumer.HandleBatchWithRetry | examples/fs-consumer/origofs_fs_consumer.py:691-706 | the batch is dispatched and flushed completely unless more failures come than it is retried, and then the cursor has not moved |
| ConsumerRuns.Consumer.RunOnce | examples/fs-consumer/origofs_fs_consumer.py:602-689 | over a quiet source a run ends, and is left early only when the feed cannot be read, a cold start fails or a batch fails more than six times over; otherwise the feed is drained, the cursor saved at its head, and after a first snapshot run the sink is the filesystem |
| CacheIndexes.CacheIndex.Touch | crates/origofs-core/src/content.rs:1104-1113 | the tables stay inverses; the byte count is the sum of sizes if that fits 64 bits and the largest value otherwise |
| CacheIndexes.CacheIndex.Forget | crates/origofs-core/src/content.rs:1115-1120 | the entry is gone from both tables and its size from the sum |
| CacheIndexes.CacheIndex.Lru | crates/origofs-core/src/content.rs:1122-1127 | the victim is the tracked object whose last use is before that of every other |
| TieredStores.TieredStore.EnforceLimits | crates/origofs-core/src/content.rs:1262-1294 | ends inside the limits or at one entry, and evicts only what it must: each victim, with all used since, was over the size limit or met a low disk; oldest first, and what is inside stays; the cache loses exactly the victims whose delete succeeds |
| TieredStores.WhatFitsStays | crates/origofs-core/src/content.rs:1271-1283 | without a floor, entries that fit the limit together all stay |
| TieredStores.TieredStore.Record | crates/origofs-core/src/content.rs:1253-1261 | the object just used is tracked, last in order, and survives the eviction it causes, which is no more than needed: an object that fits evicts nothing; the byte count stays the sum of tracked sizes and inside the limit |
| TieredStores.TieredStore.Put | crates/origofs-core/src/content.rs:1333-1340 | the object is in the backend and, when the cache takes it, in the cache, tracked at its size as last used, and evicts nothing if it fits; otherwise cache and index are as they were; the byte count stays the sum of tracked sizes |
| TieredStores.TieredStore.WarmIndex | crates/origofs-core/src/content.rs:1235-1246 | exactly what can be sized is tracked at its size before the limits are enforced, and what else was tracked stays so; the byte count is then the sum of tracked sizes |
| TieredStores.TieredStore.Get | crates/origofs-core/src/content.rs:1372-1398 | returns the backend's bytes for every content-addressed object it holds, whatever the cache holds, and keeps the byte count exact; the bytes a miss caches are those the index tracks as last used if and only if the object is kept under its own hash |
| TieredStores.KeyedReadIsMistracked | crates/origofs-core/src/content.rs:1372-1398 | reading a keyed object through an empty bounded cache leaves the key tracked without an object and the object cached without an entry |
| TieredStores.TieredStore.ReplaceKeyed | crates/origofs-core/src/content.rs:1350-1361 | afterwards the cache holds the new value or none, unless both replacing and dropping failed; the byte count stays the sum of tracked sizes |
| TieredStores.TieredStore.GetRange | crates/origofs-core/src/content.rs:1400-1411 | a cached copy answers unverified, otherwise the backend; a copy that is there and cannot be read is dropped |
| TieredStores.RangeBytes | crates/origofs-core/src/content.rs:1400-1411 | a range is the bytes at its offset, clipped at the object's end |

## Left out

- CoeditRepair.CoeditDoc.ApplyUpdateAs: merging is a parameter, the document as the client's update leaves it; the refusal of a document whose runs cannot be indexed, the no-op reply and the encoded reply are not modelled, nor the 32-bit width of document indices.
- CoeditReconcile.ReconcileAuthorship: an insert for actor 0 passes no attributes and is modelled as leaving no stamp; the CRDT library may let it inherit its neighbour's.
- CoeditSnapshot.RebuildAndSnapshot: likewise.
- DiffBlame.DiffSpans: takes the diff as a parameter whose old tokens are the old lines; the branch for a change without an old index does not occur then.
- BlameRanges.Blame: line numbers are unbounded, the source's are 32 bits.
- WriteLog.LogIsHashChain: is stated for runs of diffed writes; explicit, streamed and reverting writes replace content without comparing it, so their rows need not chain (`WriteLog.RowTellsReplacedIff` and `WriteLog.LogChainsIff` say exactly when they do). Quotas, conditional writes against an expected hash, and the per-contributor rows are not in this log.
- ManifestEdits.BodyStore.SpliceBody: allocation failures and conversions to the machine's word are not modelled; the bound on the chunk count counts at most one chunk a byte, as nothing is assumed of where the chunker cuts.
- ManifestEdits.BodyStore.ReplaceRange: likewise counts a hole as one chunk a byte when it says what is not refused.
- ManifestEdits.BodyStore.CoveringChunks: takes the end already clamped, as its callers do.
- Namespace.Workspace.Rename: runs alone; the retry loop, the second emptiness check inside the transaction and what concurrent renames do are not modelled.
- Namespace.Workspace.MkdirP: the branch that adopts a directory a concurrent call created is not modelled.
- Namespace: paths are lists of valid components; splitting a string and refusing `.` and `..` is not modelled. Hard links are allowed by the invariant but no operation makes one. Symlink targets, times and modes are not modelled.
- AclCaches.ChecksAreExact: holds for fewer than 2^64 changes, the width of the counter, and for serialised changes; a change lost between its row write and its bump is not modelled.
- AclPaths: what counts as a space is a parameter. Parsing and printing permission names, delegation rules and the audit events are not modelled.
- TreeCheckpoints.TreeFile.Checkpoint: a foreign write landing inside a call, and sidecars of another format version, are not modelled; neither is the live marker.
- Consumers.Converges: directory renames, which make one event for many paths, are not filesystem steps, and symlinks are not entries; branches, handler errors other than leaving the run, and the sink's rows other than path and bytes are not modelled. Only the whole tree is walked.
- ConsumerRuns.Consumer.RunOnce: runs the loops over a source that stays as it is; the interleaved statement is `Consumers.Converges`.
- CacheIndexes.CacheIndex.Touch: the tick is unbounded, the source's is 64 bits.
- TieredStores.TieredStore.Get: calls run one at a time, and the sum of tracked sizes is taken to stay below 2^64, past which the count saturates (`CacheIndexes.CacheIndex.Touch`); prefetching and `has` are not modelled.
- The CRDT itself, y-sync framing, undo stacks, awareness: library internals.
- FastCDC, BLAKE3 and the text differ: any tiling, any injective function, any valid script.
- Databases, object stores, encryption, HTTP, metrics, the command line and the web front end: input and output.
- Presence, suggestions, merging, trash, retention, corpus windows and size parsers: easy members only.
