# OpenWright in Dafny

OpenWright keeps a tamper-evident log of evidence about AI agents. Spans come in
through an ingest pipeline, become events in an append-only ledger, and are hashed
into a Merkle tree whose signed heads are published, co-signed by witnesses and cited
by attestation reports. A crosswalk engine evaluates controls over the events, and an
independent verifier checks the reports. This project models that core and proves what
it is for. `dafny verify dfyconfig.toml` checks all of it.

Hash functions and signatures are parameters, and nothing assumes that a hash is
injective. Soundness therefore reads: the claim holds, or a function of the accepted
input computes two different preimages with the same hash. A node collision is traced
further, to two different byte strings with the same SHA-256-style hash.

## How it is laid out

- `Pow2`, `Merkle`, `MerkleWalk`, `MerkleProofs`, `HashBytes`, `LogContents`: tree heads and proofs
  (sections 2.1 to 2.1.2 of RFC 6962) and the verifiers (sections 2.1.3.2 and 2.1.4.2 of
  RFC 9162). The verifiers walk bottom-up by the bits of two node numbers, the generators
  split top-down; `MerkleWalk` shows for every size that both read the same claim.
  `HashBytes` and `LogContents` go down to the byte hash with its two prefixes.
- `Frontier`: the incremental tree as a class, refining the recursive root.
- `LineFile`, `FileLedger`, `SpillDisk`, `Spill`: files of one record per line; the ledger
  file with its torn-tail repair, the spill file with its byte cursor as a queue.
- `SpillRuns`, `SpillSound`, `SpillLoss`, `SpillOnce`: whole runs of the spill file, byte by
  byte, with crashes and failures inside every operation; exactly which of them lose a span.
- `Pipeline`, `PipelineOrder`, `DropAccounting`, `Flush`: the ingest pipeline as a system of
  small steps taken in any order by submitters, worker, refill, marker emitter and crash.
- `Json`, `Utf8`, `Canonical`, `CanonicalParser`, `GoCanonical`: the two canonical
  encoders, a parser that inverts them, and their agreement. `JsonText` has the JSON texts
  of RFC 8259; by `CanonicalText` and `Shortest` the canonical text is one of its value, with
  names in order, and none is shorter.
- `PyValue`, `Crosswalk`, `Evaluate`: the crosswalk interpreter and the three-state
  evaluation. `PyLaws`, `ConditionLaws` and `EvidenceLaws` say what comparisons, conditions
  and results mean without the interpreter's recursion.
- `Signing`, `Witness`, `Anchor`: signed heads, witness endorsement, split-view detection.
- `Ledger`, `Sharding`, `Report`, `ReportBuild`, `DeepVerify`: the ledger, the sharded
  ledger, and reports from building to deep verification.
- `Authenticity`: what is accepted under a key goes back to the key's holder.

## Where the code falls short of a plain statement

Each of these is kept as the code has it, shown by a lemma, and bounded by the exact
condition.

- A witness endorses an equal-size head with another root (`Witness.EqualSizeEndorsed`).
  Endorsed heads are those of prefixes of one log, up to a collision, exactly for
  histories in which neighbours of equal size have equal roots and empty heads have the
  empty root (`Witness.ChainCollision`, `Witness.NoForkNeeded`); down to the byte hash
  where the walks start from digests of the right width (`Witness.ChainSound`).
- The spill file can lose spans: after a crash between its compaction and the write of its
  cursor (`SpillLoss.StaleRun`), and after an append that was cut short, for the file is
  never healed and every later drain raises an error at the joined line
  (`SpillLoss.TornRun`, `SpillLoss.JamStays`). Over any run no span is lost exactly if
  each is appended where the line that the reader will find reads as that span
  (`SpillLoss.LossIff`); a lost span is never delivered (`SpillLoss.LostStays`). In the
  pipeline such spans have a place of their own: a span spilled to a file that was emptied
  under a cursor that is not zero is buried there and can be erased
  (`Pipeline.ErasedRun`), exactly in the runs that spill to such a file
  (`Pipeline.BuriedIff`).
- A drop window always ends at the last clock reading of its batch. So a marker covers its
  drops exactly if no reading of its batch is later than the last one or earlier than that
  of the first drop since the pending count was last zero
  (`DropAccounting.MarkerCoversIff`). Readings that reach the drop lock in order are enough (`DropAccounting.WindowsHold`); two submitters can cross
  (`DropAccounting.CrossedClocks`).
- A commit between evaluation and the head can make a correct report fail deep
  verification (`DeepVerify.StaleVerdict`). If the disclosed events can be evaluated, it
  passes exactly if each control's status over the evaluated events is that of the last
  control with its id over the disclosed ones (`DeepVerify.MatchIffUnchanged`,
  `DeepVerify.EvaluateAndBuild`); over unchanged events, exactly if controls that share an
  id agree (`DeepVerify.OwnVerdictsMatch`).
- The size and the root of a shard are read separately. A leaf appended between the two
  reads spoils the record (`Sharding.GrownBetweenReads`, `Sharding.SplitRead`). A proof
  pinned to the super-checkpoint is accepted exactly if none was, up to a collision of the
  byte hash (`Sharding.ShardedLedger.ProveLater`, `Sharding.RecordedIffSameReads`); the
  same holds of unpinned proofs, whose root is read before the size
  (`Sharding.ShardedLedger.ProveNow`).
- The shard sizes are not covered by the signature. Under a wrong size the root of a shard
  passes for a leaf (`Sharding.ShardSizeNeeded`). An accepted proof is the true one exactly
  if its sizes are true (`Sharding.ShardedSound`); under any sizes an accepted hash of a
  content is at least that of some content of the log (`Sharding.ShardedMember`).
- Node preimages are concatenated without lengths. Unless the byte hash collides, an
  accepted inclusion is the true one exactly if the leaf has digest width
  (`HashBytes.InclusionSound`), and an accepted consistency proof exactly if the digest
  that the walk starts from has it (`HashBytes.ConsistencySound`); the verifiers check
  neither (`HashBytes.LeafWidthNeeded`, `HashBytes.ProofWidthNeeded`).

## Model

| member | source | states |
|---|---|---|
| `Powers.LargestPow2Lt` | src/openwright/merkle.py:41-46 | the doubling loop finds the split point `k < n <= 2k`, and answers 1 below two leaves |
| `Powers.SplitUnique` | core-go/merkle.go:31-39 | those bounds determine the power of two, so every way to find it agrees |
| `MerkleWalk.ClimbLeft` | src/openwright/merkle.py:241-262 | below a left child the bit-driven walk decides as in the perfect left tree and then takes one more step, for every size |
| `MerkleWalk.ClimbRight` | src/openwright/merkle.py:241-262 | below a right child the walk is that of the right subtree with the top bit dropped |
| `MerkleWalk.ClimbIsRootFrom` | src/openwright/merkle.py:100-125 | the inclusion walk computes exactly the root that the path claims when read top-down |
| `MerkleWalk.ClimbIsHeadsFrom` | src/openwright/merkle.py:241-262 | the consistency walk, with its leading shifts, computes exactly the two roots that the path claims when read top-down |
| `MerkleProofs.VerifyInclusion` | src/openwright/merkle.py:100-125 | the loop accepts exactly if the index is inside the tree and the path claims the given root |
| `MerkleProofs.BitAndPow2` | src/openwright/merkle.py:236-237 | `m & (m - 1) == 0` tells exactly the powers of two |
| `MerkleProofs.VerifyConsistency` | src/openwright/merkle.py:217-262 | the verifier, with its size cases and the splice, accepts exactly if the path claims both given roots; an older size of 0 passes exactly without a proof |
| `MerkleProofs.WalkConsistency` | core-go/consistency.go:67-96 | the `fn`/`sn` loop returns true exactly if the path claims the two roots |
| `MerkleProofs.DropZeros` | core-go/consistency.go:67-96 | the inner shifting loop drops exactly the trailing zeros of `fn` |
| `MerkleProofs.InclusionComplete` | src/openwright/merkle.py:64-74 | every generated audit path leads from its leaf to the root, for every list and index |
| `MerkleProofs.SubproofComplete` | src/openwright/merkle.py:77-84 | a SUBPROOF without the known flag claims the true old and new roots |
| `MerkleProofs.SubproofSpliced` | src/openwright/merkle.py:233-237 | splicing the old root in front of the proof of a perfect old tree gives the proof without the known flag |
| `MerkleProofs.ConsistencyComplete` | src/openwright/merkle.py:87-94 | every generated consistency proof is accepted against the two true roots, for every list and `0 < m <= n` |
| `MerkleProofs.InclusionCollision` | src/openwright/merkle.py:100-125 | from an accepted proof computes a node collision, or else leaf and proof are the true ones |
| `MerkleProofs.PathCollision` | src/openwright/merkle.py:217-262 | from a path that claims the true new root computes a node collision, or else it is the generated path |
| `MerkleProofs.ConsistencyCollision` | src/openwright/merkle.py:217-262 | from an accepted consistency proof computes a node collision, or else the old root is that of the prefix and the proof is the generated one |
| `MerkleProofs.RootCollision` | src/openwright/merkle.py:49-61 | two lists of equal length and root are equal, or a node collision is computed |
| `MerkleProofs.PrefixCollision` | src/openwright/merkle.py:217-262 | a list whose root is accepted as the older head is a prefix of the newer list, or a node collision is computed |
| `Merkle.SevenLeaves` | src/openwright/merkle.py:49-74 | root and audit paths of the seven-leaf example in section 2.1.3 of RFC 6962, node by node |
| `Merkle.SevenLeavesGrown` | src/openwright/merkle.py:77-94 | the consistency proofs of the same example |
| `MerkleProofs.InclusionExact` | src/openwright/merkle.py:100-125 | under a tree's root an index, leaf and proof are accepted exactly if they are the true ones, or a node collision is produced |
| `MerkleProofs.ConsistencyExact` | src/openwright/merkle.py:217-262 | under a tree's root an older size, root and proof are accepted exactly if they are the true ones, or a node collision is produced; an older size of 0 passes exactly without a proof, and between two empty trees only with the empty root |
| `HashBytes.AlignedIsByteCollision` | src/openwright/merkle.py:27-38 | a node collision whose halves align is a collision of the byte hash |
| `HashBytes.InclusionAligned` | src/openwright/merkle.py:100-125 | for a leaf of digest width every computed collision aligns, whatever lengths the proof elements have |
| `HashBytes.InclusionSound` | src/openwright/merkle.py:100-125 | an accepted leaf and its proof are the true ones exactly if the leaf has digest width, or two byte strings with one hash are produced |
| `HashBytes.PathAligned` | src/openwright/merkle.py:217-262 | if the walk starts from a digest of the right width, every computed collision aligns |
| `HashBytes.ConsistencySound` | src/openwright/merkle.py:217-262 | an accepted old root and proof are the true ones exactly if the walk starts from a digest of the right width, or two byte strings with one hash are produced |
| `HashBytes.LeafWidthNeeded` | src/openwright/merkle.py:32-34 | without the width a longer leaf with a shorter neighbour is accepted |
| `HashBytes.ProofWidthNeeded` | src/openwright/merkle.py:217-262 | the same for an imperfect old tree: another old root of digest width is accepted, and if it were the true one there would be a byte collision |
| `LogContents.ContentCollision` | src/openwright/merkle.py:27-61 | a root determines the whole list of contents, its length included, or two byte strings with one hash are produced; this uses the leaf and node prefixes |
| `LogContents.SmallRoots` | src/openwright/merkle.py:27-61 | the roots of no, one and two contents down to the bytes, with the prefixes 0 and 1 |
| `LogContents.MemberSound` | src/openwright/merkle.py:100-125 | the hash of a content that is accepted under any claimed size and index is that of some content of the list, or two byte strings with one hash are produced |
| `Frontier.IncrementalMerkleTree.constructor` | src/openwright/merkle.py:141-143 | starts as the tree of no leaves |
| `Frontier.IncrementalMerkleTree.FromLeaves` | src/openwright/merkle.py:145-150 | building from a list gives the tree of exactly that list |
| `Frontier.IncrementalMerkleTree.Append` | src/openwright/merkle.py:152-163 | the carry loop appends exactly one leaf and keeps the frontier invariant, counting its node hashes |
| `Frontier.IncrementalMerkleTree.Root` | src/openwright/merkle.py:169-177 | the fold over the filled slots equals the recursive tree hash of all leaves appended |
| `Frontier.IncrementalMerkleTree.FrontierSlots` | src/openwright/merkle.py:128-164 | slot `i` is filled exactly if bit `i` of the size is set, holds the hash of the matching aligned slice, and n appends cost n minus popcount(n) node hashes |
| `Frontier.RootIsTreeHash` | src/openwright/merkle.py:169-177 | folding the filled slots from the smallest gives the recursive root of the leaves behind them |
| `Frontier.SlotSlice` | src/openwright/merkle.py:128-140 | a slot's hash is that of the aligned slice that its bit stands for |
| `Frontier.FilledIsPopCount` | src/openwright/merkle.py:128-140 | the number of filled slots is the number of one bits of the size |
| `Frontier.Absorb` | src/openwright/merkle.py:152-163 | one carry merges two perfect trees of equal size into the hash of the next |
| `Frontier.Settle` | src/openwright/merkle.py:152-163 | the carry in the first empty slot restores the frontier invariant |
| `Frontier.FoldPresent` | src/openwright/merkle.py:169-177 | the loop over the collected slots computes the right fold |
| `LineFile.ReadRecord` | src/openwright/ledger.py:135-146 | reading a line at a record's offset reads exactly that record |
| `LineFile.StartsFrom` | src/openwright/ledger.py:114-121 | the non-blank lines of a file of records start exactly at the records |
| `FileLedger.HealedCut` | src/openwright/ledger.py:106-112 | a file cut at any byte and healed holds exactly the records whose newline was written |
| `FileLedger.HealTornTail` | src/openwright/ledger.py:106-112 | the repair truncates just after the last newline, or to nothing |
| `FileLedger.IndexOffsets` | src/openwright/ledger.py:114-121 | the indexing loop finds exactly the starts of the non-blank lines |
| `FileLedger.FileLedgerBackend.constructor` | src/openwright/ledger.py:96-104 | opening a file cut at any byte yields the prefix of surviving records |
| `FileLedger.FileLedgerBackend.AppendRecord` | src/openwright/ledger.py:123-130 | appends one record to the sequence and its line to the file, keeping the offsets in step |
| `FileLedger.FileLedgerBackend.Size` | src/openwright/ledger.py:132-133 | the number of records |
| `FileLedger.FileLedgerBackend.IterRecords` | src/openwright/ledger.py:135-139 | decoding the file line by line yields exactly the records |
| `FileLedger.FileLedgerBackend.GetRecord` | src/openwright/ledger.py:141-146 | record `i` of the same sequence by its offset, and an error exactly outside it |
| `SpillDisk.AcceptedFrom` | src/openwright/ingest/durable.py:113-133 | how far a drain gets: everything before is accepted and the next, if any, is declined |
| `SpillDisk.FeedLoop` | src/openwright/ingest/durable.py:118-133 | the reading loop, for any bytes and any cursor: blank lines are skipped, a line that cannot be decoded raises an error, a declined span stops it |
| `SpillDisk.WhitespaceSkipped` | src/openwright/ingest/durable.py:105-127 | a line of ASCII whitespace is neither counted nor fed, a line with any other byte is counted |
| `SpillDisk.FeedContent` | src/openwright/ingest/durable.py:118-133 | on a file of spans it reads them in order, up to the first that is declined, and raises no error |
| `SpillDisk.DrainContent` | src/openwright/ingest/durable.py:113-144 | a drain of a file of spans empties it exactly if all are accepted, else it saves the start of the first that was not |
| `Spill.SpillBuffer.constructor` | src/openwright/ingest/durable.py:83-95 | a fresh buffer is an empty queue |
| `Spill.SpillBuffer.Append` | src/openwright/ingest/durable.py:97-103 | puts the span at the end of the queue and moves no cursor |
| `Spill.SpillBuffer.Pending` | src/openwright/ingest/durable.py:105-111 | the count of lines from the cursor is the length of the queue |
| `Spill.SpillBuffer.Drain` | src/openwright/ingest/durable.py:113-144 | delivers the accepted front of the queue in order, none skipped or repeated, and saves the cursor |
| `Spill.FeedLines` | src/openwright/ingest/durable.py:118-133 | the reading loop stops at the start of the first span that was declined |
| `Spill.SpillBuffer.Settle` | src/openwright/ingest/durable.py:134-144 | compaction and the cursor write leave the queue unchanged |
| `Spill.SpillBuffer.Reopen` | src/openwright/ingest/durable.py:91-95 | reopening resumes at the saved cursor; spans can come back, none is lost |
| `Spill.SpillBuffer.DrainInterrupted` | src/openwright/ingest/durable.py:113-144 | a crash in the middle of a drain, before anything was written, delivers the accepted spans again later |
| `Spill.SpillBuffer.DrainCompacted` | src/openwright/ingest/durable.py:138-143 | a crash between compaction and cursor write leaves the file emptied under the older cursor, harmless exactly if that was zero |
| `Spill.SpillBuffer.DrainEmptied` | src/openwright/ingest/durable.py:118-144 | a drain that comes before any append sets the cursor right |
| `Spill.AtLeastOnce` | src/openwright/ingest/durable.py:67-144 | each appended span was delivered or still sits at its place in the queue |
| `Spill.StaleCursor` | src/openwright/ingest/durable.py:138-143 | of spans appended to a file emptied under an older cursor all are visible exactly if there are none or the cursor was zero |
| `SpillRuns.RunOps` | src/openwright/ingest/durable.py:67-144 | carries out any appends, drains, restarts, and crashes or failures inside them, on the bytes of the file and both cursors |
| `SpillRuns.AppendedIsAdded` | src/openwright/ingest/durable.py:97-103 | the spans on record are those that were appended, in order |
| `SpillSound.FeedHolds` | src/openwright/ingest/durable.py:118-133 | from where a span is due the loop delivers the spans from there on, in order, and at most an unfinished line besides |
| `SpillSound.StepKeeps` | src/openwright/ingest/durable.py:67-144 | every operation that appends nothing, or a span where it fits, keeps each undelivered span in reach of both cursors |
| `SpillSound.RunKeeps` | src/openwright/ingest/durable.py:67-144 | a run that appends every span where it fits loses none |
| `SpillLoss.UnfitIsLost` | src/openwright/ingest/durable.py:97-103 | a span that is appended where it does not fit is out of reach of both cursors at once |
| `SpillLoss.LostStays` | src/openwright/ingest/durable.py:67-144 | whatever happens next, a lost span is not delivered |
| `SpillLoss.LossIff` | src/openwright/ingest/durable.py:67-144 | over any run, with crashes and failures inside every operation, no span is lost exactly if each was appended where the line that the reader will find reads as it |
| `SpillLoss.RunInOrder` | src/openwright/ingest/durable.py:67-144 | without a crash or failure inside an operation every span fits, those before the head were delivered once and in the order of appending, and the others are what the reader will find |
| `SpillLoss.TornRun` | src/openwright/ingest/durable.py:97-103 | an append that is cut short anywhere in its text, and another behind it: the second span is lost and the file is jammed |
| `SpillLoss.JamStays` | src/openwright/ingest/durable.py:113-133 | from a jammed file every drain raises an error and delivers nothing, whatever is appended |
| `SpillLoss.StaleRun` | src/openwright/ingest/durable.py:138-143 | a crash between compaction and cursor write, and an append behind it: the span is lost |
| `SpillOnce.AtMostOnce` | src/openwright/ingest/durable.py:67-144 | as long as the process is not restarted nothing is delivered twice or out of order, whatever appends were cut short and whatever drains raised an error |
| `Pipeline.SpanConservation` | src/openwright/ingest/pipeline.py:104-150 | over every interleaving, with crashes and with crashes between compaction and cursor write, each submitted or replayed span is in exactly one place; the spans buried in or erased from the spill file have their own |
| `Pipeline.BuriedIff` | src/openwright/ingest/pipeline.py:104-150 | no span is buried or erased exactly if none is spilled to a file that was emptied under a cursor that is not zero |
| `Pipeline.ErasedRun` | src/openwright/ingest/pipeline.py:104-150 | from the start, a run in which a spilled span is erased without having been delivered |
| `Pipeline.CrashFreePartition` | src/openwright/ingest/pipeline.py:104-150 | without a crash queue, hands, spill, flight, committed, errored and dropped partition what was submitted |
| `Pipeline.CrashFreeNothingLost` | src/openwright/ingest/pipeline.py:219-264 | without a crash nothing is lost from memory, replayed, buried or erased |
| `PipelineOrder.QueueFifo` | src/openwright/ingest/pipeline.py:219-264 | without a crash the worker takes spans in exactly the order in which they were queued |
| `PipelineOrder.SpillFifo` | src/openwright/ingest/pipeline.py:138-150 | without a crash spans come back from the spill file in the order in which they went there |
| `PipelineOrder.OverflowOnly` | src/openwright/ingest/pipeline.py:104-127 | without a crash what is spilled, dropped or about to be is exactly what found the queue full |
| `PipelineOrder.UnboundedKeepsAll` | src/openwright/ingest/pipeline.py:104-127 | with an unbounded queue nothing is ever spilled, dropped, buried or erased, crash or not |
| `PipelineOrder.QueueBounded` | src/openwright/ingest/pipeline.py:104-150 | the queue never exceeds its bound, and without a spill file nothing is spilled |
| `PipelineOrder.SpillKeepsSpans` | src/openwright/ingest/pipeline.py:138-150 | in every run without a crash between compaction and cursor write, a spilled span stays in the file to be read once more until a saved cursor has passed it |
| `PipelineOrder.UnsavedCursorIsSafe` | src/openwright/ingest/pipeline.py:138-150 | as long as no cursor was saved, no crash at any point buries or erases a span |
| `PipelineOrder.FinishedAreCounted` | src/openwright/ingest/pipeline.py:243-260 | in every run the committed spans are those whose commit succeeded, the errors those that were given up |
| `PipelineOrder.DropsAreSpans` | src/openwright/ingest/pipeline.py:119-126 | in every run the drop accounting counts exactly the spans that were dropped |
| `DropAccounting.CountsHold` | src/openwright/ingest/pipeline.py:182-217 | the accounting invariant holds in every reachable state, including what is between the two locks |
| `DropAccounting.JournalIsPending` | src/openwright/ingest/pipeline.py:129-136 | whenever the drop lock is free the journal is the pending count |
| `DropAccounting.DropsAccounted` | src/openwright/ingest/pipeline.py:182-217 | attested plus pending is all drops ever, less those whose own journal write a crash prevented (one per crash at most), plus those a crash made count twice |
| `DropAccounting.CrashFreeAttestation` | src/openwright/ingest/pipeline.py:182-217 | in a crash-free run each drop is attested once or pending once |
| `PipelineOrder.AttestedAreSpans` | src/openwright/ingest/pipeline.py:182-217 | in a crash-free run the markers in the ledger and the pending count add up to the spans that were dropped |
| `PipelineOrder.AllAttested` | src/openwright/ingest/pipeline.py:182-217 | from every reachable state the emitter gets to one with no pending drop and an empty journal; without a crash the markers then attest exactly the dropped spans |
| `DropAccounting.CrashKeepsJournal` | src/openwright/ingest/pipeline.py:93-98 | a restart recovers exactly the journal, so a crash after a marker commit can only count again |
| `DropAccounting.DropKeepsCover` | src/openwright/ingest/pipeline.py:119-126 | recording a drop keeps all pending drops inside the window exactly if it is not earlier than one of them |
| `DropAccounting.EndsHold` | src/openwright/ingest/pipeline.py:119-136 | in every run, whatever the clocks, window, journal, snapshot and markers end at the last reading of as many drops as they count and start at that of the first drop since the pending count was last zero |
| `DropAccounting.MarkerCoversIff` | src/openwright/ingest/pipeline.py:182-217 | in every run a marker covers its drops exactly if no reading of its batch is later than the last one or earlier than that of the first drop since the pending count was last zero |
| `DropAccounting.PendingCoveredIff` | src/openwright/ingest/pipeline.py:119-136 | the same for the drops that are pending |
| `DropAccounting.WindowsHold` | src/openwright/ingest/pipeline.py:182-217 | over runs in clock order every window, journal and marker covers its drops |
| `DropAccounting.CrossedClocks` | src/openwright/ingest/pipeline.py:118-126 | from the start, with any bounded queue: it fills, two readings cross on the way to the drop lock, and the marker covers neither drop |
| `Flush.FlushStep` | src/openwright/ingest/pipeline.py:266-283 | every step of worker or flusher keeps the invariant and lowers the measure |
| `Flush.SomeMove` | src/openwright/ingest/pipeline.py:266-283 | until flushing is done some step is possible |
| `Flush.RunFlush` | src/openwright/ingest/pipeline.py:266-283 | under any schedule and no submitter flush ends with queue, spill and worker empty, each span committed or errored, if no span is buried in the spill file |
| `Json.CleanedIsClean` | src/openwright/canonical.py:31-49 | cleaning leaves no null member at any depth |
| `Json.CleanIdempotent` | src/openwright/canonical.py:31-49 | cleaning twice is cleaning once, and the clean values are the fixed points |
| `Json.AddNullCleaned` | src/openwright/canonical.py:31-49 | a null member added to any object at any depth changes nothing |
| `Json.ArraysKeepNulls` | src/openwright/canonical.py:31-49 | cleaning leaves every array its length and its nulls |
| `Utf8.DecodeEncode` | src/openwright/canonical.py:52-61 | decoding inverts UTF-8 encoding on every text |
| `Utf8.EncodeConcat` | core-go/canonical.go:25-31 | encoding distributes over appending, so the builder's bytes are those of the text written to it |
| `Utf8.OrderAgrees` | core-go/canonical.go:68-76 | byte order of UTF-8 is code-point order for all keys |
| `Utf8.NoShorterEncoding` | src/openwright/canonical.py:52-61 | no well-formed UTF-8 of a text is shorter than its encoding: there are no overlong forms |
| `Canonical.SortedKeys` | src/openwright/canonical.py:52-61 | the keys in strictly increasing code-point order, each once |
| `CanonicalParser.ParseEscape` | src/openwright/canonical.py:52-61 | reading an escaped string literal gives the string back |
| `CanonicalParser.NoRawControl` | src/openwright/canonical.py:52-61 | no control character stands unescaped in a printed literal |
| `CanonicalParser.NoShorterLiteral` | src/openwright/canonical.py:52-61 | no literal that reads as a string is shorter than the printed one, so the short escapes are used wherever there are any |
| `CanonicalParser.ParseDump` | src/openwright/canonical.py:52-61 | parsing a printed clean value gives the value back and leaves any text that follows, provided that text does not go on with a digit |
| `CanonicalParser.ParseCanonical` | src/openwright/canonical.py:52-61 | reading canonical bytes gives the cleaned value, for every float-free value |
| `CanonicalParser.CanonicalBytesExact` | src/openwright/canonical.py:52-61 | two values share canonical bytes exactly if their cleaned forms are equal |
| `Shortest.CanonicalIsShortest` | src/openwright/canonical.py:52-61 | no JSON text of a value, with any whitespace, escapes and order or repetition of members, is shorter than the canonical one |
| `CanonicalText.CanonicalIsText` | src/openwright/canonical.py:52-61 | the canonical text is a JSON text of its value in which the names of every object are strictly increasing in code-point order |
| `CanonicalText.CanonicalBytesAreText` | src/openwright/canonical.py:52-61 | so are the canonical bytes, for the cleaned value |
| `GoCanonical.KeysInOrder` | core-go/canonical.go:68-76 | filtering and sorting keys, in whatever order the map gives them, yields the code-point order of the members that are kept |
| `GoCanonical.SortedUnique` | core-go/canonical.go:68-76 | a set of keys has one sorted order |
| `GoCanonical.WriteRune` | core-go/canonical.go:99-126 | appends each rune to the builder's bytes as the Python encoder writes it |
| `GoCanonical.EncodeString` | core-go/canonical.go:99-126 | the rune loop appends the same literal as the Python encoder |
| `GoCanonical.EncodeArray` | core-go/canonical.go:57-67 | appends the array's canonical text, or stops at a float |
| `GoCanonical.EncodeObject` | core-go/canonical.go:68-90 | appends the object's canonical text without null members, or stops at a float |
| `GoCanonical.EncodeValue` | core-go/canonical.go:33-97 | the one-pass encoder appends the clean-then-dump text of every value |
| `GoCanonical.CanonicalBytesGo` | core-go/canonical.go:25-31 | the Go and the Python encoder yield the same bytes, or both refuse, for every value |
| `PyValue.Get` | src/openwright/crosswalk.py:191-198 | the cursor loop reads the value at a dotted path, null where a step is missing |
| `PyValue.EqGetPath` | src/openwright/crosswalk.py:191-198 | equal values have equal values at every path, under Python equality |
| `PyValue.EqGe` | src/openwright/crosswalk.py:241-244 | equal values compare alike, integers with floats by exact value, errors included, at any depth of lists |
| `PyValue.EqIn` | src/openwright/crosswalk.py:239-240 | equal values are members alike, errors included |
| `PyLaws.EqIsNormal` | src/openwright/crosswalk.py:201-216 | Python equality is equality after writing truth values and integers as floats, at every depth |
| `PyLaws.FalsyValues` | src/openwright/crosswalk.py:220-222 | exactly null, false, the two zeros and the empty text, list and dictionary count as false |
| `PyLaws.PathJoined` | src/openwright/crosswalk.py:191-198 | a joined path is followed part by part, null when a part is missing |
| `PyLaws.NumbersOrdered` | src/openwright/crosswalk.py:241-244 | numbers and truth values are ordered by value in both directions |
| `PyLaws.TextsOrdered` | src/openwright/crosswalk.py:241-244 | texts are ordered by their first difference in code points, a prefix first |
| `PyLaws.ListsOrdered` | src/openwright/crosswalk.py:241-244 | lists are ordered by their first pair that is not equal, a prefix first |
| `PyLaws.OrderTurned` | src/openwright/crosswalk.py:241-244 | `<=` is `>=` turned round, errors included, at any depth of lists |
| `PyLaws.InMeans` | src/openwright/crosswalk.py:239-240 | membership is an equal element, an occurrence in a text or a key; nothing is in a false value; anything else is an error |
| `Crosswalk.EqMatches` | src/openwright/crosswalk.py:201-216 | equal events match the same filters |
| `Crosswalk.EqLinkHolds` | src/openwright/crosswalk.py:257-281 | equal events at different positions are linked alike, in spite of the identity test |
| `Crosswalk.EqHolds` | src/openwright/crosswalk.py:225-254 | equal events at different positions get the same verdict, or the same error, for every condition |
| `ConditionLaws.MatchesIff` | src/openwright/crosswalk.py:201-216 | an event matches exactly if every constraint of the filter, read at its own path, allows the value there |
| `ConditionLaws.ChangedField` | src/openwright/crosswalk.py:201-216 | a match changed at the path of one constraint, where no other looks, stays one exactly if that constraint allows the new value |
| `ConditionLaws.LinkedIff` | src/openwright/crosswalk.py:266-280 | an event is linked by task, context or root exactly if another event has its value there and is a target |
| `ConditionLaws.LinkGrows` | src/openwright/crosswalk.py:266-280 | a further event links exactly the events that it is joined to, and unlinks none |
| `ConditionLaws.ApprovalIff` | src/openwright/crosswalk.py:260-265 | an approval counts exactly if the last event with the id that is referred to is a target; an id that cannot be looked up is an error |
| `ConditionLaws.FieldEquality` | src/openwright/crosswalk.py:230-238 | `exists` is the value not being null, `eq` and `ne` are equality after normalization, an unknown operator is false |
| `ConditionLaws.FieldIn` | src/openwright/crosswalk.py:239-240 | `in` is an equal element of the list, and false for a missing one |
| `ConditionLaws.FieldBounds` | src/openwright/crosswalk.py:241-244 | `gte` and `lte` are false of null and else compare in the right direction |
| `ConditionLaws.CommittedMeans` | src/openwright/crosswalk.py:227-229 | an event counts as committed exactly by the leaf hash that it carries |
| `ConditionLaws.AnyOfMeans` | src/openwright/crosswalk.py:248-249 | `any_of` holds, or raises an error, exactly if the first condition that does not fail does; it fails exactly if all do |
| `ConditionLaws.AllOfMeans` | src/openwright/crosswalk.py:250-251 | `all_of` fails, or raises an error, exactly if the first condition that does not hold does; it holds exactly if all do |
| `ConditionLaws.NotMeans` | src/openwright/crosswalk.py:252-253 | `not` negates `all_of` of its list, an error staying one |
| `ConditionLaws.DeMorgan` | src/openwright/crosswalk.py:248-253 | `any_of` is the negated `all_of` of the negated conditions, errors and order of evaluation included |
| `Evaluate.AmongPassedMeansPassed` | src/openwright/crosswalk.py:321-322 | an event equals some passed event exactly if it passed itself |
| `Evaluate.ViolatorsFail` | src/openwright/crosswalk.py:321-322 | the violators found by value comparison are exactly the events in scope that fail |
| `Evaluate.EvaluateControl` | src/openwright/crosswalk.py:297-345 | one round yields the verdict that the specification gives the control |
| `Evaluate.Override` | src/openwright/crosswalk.py:348-361 | the overwriting loop changes exactly the completeness-sensitive results that are not already failures |
| `Evaluate.EvaluateAll` | src/openwright/crosswalk.py:284-361 | the engine yields the specified results in order, or an error exactly if some condition raises one |
| `Evaluate.StatusesAsExpected` | src/openwright/crosswalk.py:284-361 | each status follows from the events alone; an attested gap forces every completeness-sensitive control to not satisfied |
| `Evaluate.CountsAddUp` | src/openwright/crosswalk.py:321-345 | satisfied count plus failing events is the evaluated count |
| `EvidenceLaws.RaisesIff` | src/openwright/crosswalk.py:321-321 | a control raises an error exactly if its condition does on some event in scope |
| `EvidenceLaws.JudgeMeans` | src/openwright/crosswalk.py:297-345 | evidence is the ids of the events that pass and gaps those of the events that fail, each in log order and at most fifty; the counts count them all |
| `EvidenceLaws.FinalMeans` | src/openwright/crosswalk.py:284-361 | the final result of a control: evidence and counts as before, and the gaps of the failing events or, where an attested gap turns the status, of the attested gaps |
| `EvidenceLaws.EvaluationRaisesIff` | src/openwright/crosswalk.py:284-361 | evaluation raises an error exactly if some condition does on some event in its control's scope |
| `Signing.HexInjective` | src/openwright/signing.py:294-303 | hex text determines the bytes |
| `Signing.SigningBytesBind` | src/openwright/signing.py:294-303 | the signed bytes determine origin, size, root and timestamp |
| `Signing.SignCheckpoint` | src/openwright/signing.py:331-343 | a signed head carries the given size and root and verifies under the signer's key |
| `Witness.WitnessState.Cosign` | src/openwright/witness.py:42-73 | endorses exactly validly signed heads that extend the last one, and keeps the chain of endorsements |
| `Witness.CheckExtends` | src/openwright/witness.py:53-63 | finds no objection exactly if the head does not shrink and, where it grows, the consistency proof is accepted |
| `Witness.HonestExtension` | src/openwright/witness.py:53-63 | every head of a log extends every earlier one with the generated proof, and an empty one with none |
| `Witness.CosignHeads` | src/openwright/witness.py:42-73 | a new witness that is shown the signed heads of one log in order, with generated proofs, endorses them all |
| `Witness.LinkCollision` | src/openwright/witness.py:53-63 | if the later head is that of a list, so is the earlier, or a collision is computed |
| `Witness.ChainCollision` | src/openwright/witness.py:42-73 | over any run every endorsed head is that of a prefix of any list with the latest root, or a collision is computed |
| `Witness.ChainSound` | src/openwright/witness.py:42-73 | the same down to the byte hash, where each walk over a growing link starts from a digest of the right width |
| `Witness.NoForkNeeded` | src/openwright/witness.py:42-73 | the hypothesis of that result holds whenever its conclusion does |
| `Witness.EqualSizeEndorsed` | src/openwright/witness.py:53-63 | an equal-size head is endorsed whatever its root |
| `Anchor.TransparencyAnchor.Publish` | src/openwright/anchor.py:63-68 | the published list grows by the head |
| `Anchor.FindFork` | src/openwright/anchor.py:97-111 | the index scan reports a fork exactly if two validly signed heads of equal size have different roots |
| `Anchor.FindRejected` | src/openwright/anchor.py:113-133 | the second scan finds a supplied proof that fails, or all pass |
| `Anchor.DetectEquivocation` | src/openwright/anchor.py:84-134 | returns evidence exactly if there is a fork or a supplied proof fails, and the evidence is genuine |
| `Anchor.SplitViewDetected` | src/openwright/anchor.py:84-134 | two published heads over different logs of one size make a fork, or a node collision is produced |
| `Anchor.RewriteDetected` | src/openwright/anchor.py:84-134 | if the older of two published heads is over no prefix of the newer's log, every proof supplied between them fails, or a node collision is produced |
| `Ledger.EvidenceLedger.constructor` | src/openwright/ledger.py:246-265 | opening replays the records into the same leaves and tree |
| `Ledger.EvidenceLedger.Commit` | src/openwright/ledger.py:267-290 | appends one event with its index and leaf hash to file, leaves and tree together, or changes nothing |
| `Ledger.FinalizedIgnoresId` | src/openwright/events.py:198-206 | the derived id depends on the rest of the content alone, so finalizing again, or over another id, gives the same event |
| `Ledger.EvidenceLedger.Size` | src/openwright/ledger.py:310-312 | the number of leaves, which is the number of records |
| `Ledger.EvidenceLedger.GetEvent` | src/openwright/ledger.py:318-319 | the event at that index, and an error exactly outside the log |
| `Ledger.EvidenceLedger.Root` | src/openwright/ledger.py:325-327 | the recursive root of all leaves |
| `Ledger.EvidenceLedger.PinnedInclusionProof` | src/openwright/ledger.py:332-337 | the audit path in the tree of the first leaves, errors included, accepted against the root of those leaves |
| `Ledger.EvidenceLedger.PinnedConsistencyProof` | src/openwright/ledger.py:339-342 | the consistency proof in the tree of the first leaves, errors included, accepted between the two roots |
| `Ledger.EvidenceLedger.SignHead` | src/openwright/ledger.py:358-370 | a head of exactly the leaves at that moment, verifiable under the key |
| `Ledger.ReopenAfterCut` | src/openwright/ledger.py:259-263 | after a cut at any byte the ledger has the records, leaves and root of the surviving prefix |
| `Ledger.PinnedProofAccepted` | src/openwright/ledger.py:332-337 | a proof pinned to a head is accepted against it, however much was committed since |
| `Ledger.HeadsSurviveGrowth` | src/openwright/ledger.py:358-370 | a head of the log stays a head of every later state |
| `Ledger.VerifyConsistencyBetween` | src/openwright/verify.py:370-392 | accepts exactly two heads signed by the trusted key with an accepted consistency proof; without a key never |
| `Ledger.HeadsOfOneLogPass` | src/openwright/verify.py:370-392 | two signed heads of one log pass with the proof that the log generates at any later time |
| `Ledger.BetweenCollision` | src/openwright/verify.py:370-392 | lists with the two roots are prefix and extension, or a collision is computed |
| `Ledger.BetweenSound` | src/openwright/verify.py:370-392 | the same for contents and down to the byte hash, where the walk starts from a digest of the right width |
| `Ledger.RunLog` | src/openwright/anchor.py:63-68 | after any mix of commits and publications every published head is one of the log |
| `Ledger.HonestLogNotAccused` | src/openwright/anchor.py:84-134 | heads of one log with generated proofs show no fork and no failing proof |
| `Ledger.OnlyTrueProofPasses` | src/openwright/anchor.py:113-133 | between two signed heads of one log exactly the generated proof passes, or a node collision is produced |
| `Ledger.AuditRun` | src/openwright/anchor.py:84-134 | for every run of one ledger and any pairs of sizes the detector returns nothing |
| `Sharding.VerifyShardedInclusion` | src/openwright/merkle.py:196-214 | accepts exactly if the event is proved in the shard and the shard in the super-tree |
| `Sharding.ShardedLedger.Commit` | src/openwright/ledger.py:411-414 | appends to the pinned or routed shard only, indexed as Python indexes lists, or changes nothing |
| `Sharding.ShardedLedger.Snapshot` | src/openwright/ledger.py:438-438 | with commits between all reads, the two reads of a shard see the same contents exactly if no leaf is appended to it between them |
| `Sharding.ShardedLedger.CommitAll` | src/openwright/ledger.py:411-414 | of any requests exactly those that name an existing shard and can be serialized change it |
| `Sharding.RecordedIffSameReads` | src/openwright/ledger.py:438-438 | a head is that of a prefix of the shard exactly if the two reads saw the same contents, or two byte strings with one hash are produced |
| `Sharding.GrownBetweenReads` | src/openwright/ledger.py:438-438 | with one leaf before and two after, the recorded head is right only if the node hash equals the first leaf |
| `Sharding.SplitRead` | src/openwright/ledger.py:438-438 | the run in which a commit lands between the two reads of a shard: the head is not a head of it, or two byte strings with one hash are produced |
| `Sharding.ShardedLedger.SignSuper` | src/openwright/ledger.py:429-452 | signs the super-root of the recorded roots and the total of the recorded sizes |
| `Sharding.TotalCountsLeaves` | src/openwright/ledger.py:426-452 | the signed total is the number of all leaves of the recorded sizes |
| `Sharding.PinnedShardedProof` | src/openwright/ledger.py:454-478 | a proof exists exactly for the indices below the recorded size and inside the shard |
| `Sharding.PinnedAcceptedIff` | src/openwright/ledger.py:454-478 | a generated proof is accepted exactly if the shard was recorded faithfully |
| `Sharding.ShardedLedger.ProveLater` | src/openwright/ledger.py:429-478 | over a whole run with commits during and after the checkpoint, the pinned proof is accepted exactly if the shard was recorded faithfully, which is exactly if no leaf was appended to it between its two reads, or two byte strings with one hash are produced |
| `Sharding.ShardedLedger.ProveNow` | src/openwright/ledger.py:454-478 | the unpinned proof with commits between the reads of all roots, the size and the leaves: accepted under the roots that were read exactly if no leaf was appended to the shard between its root and its size, or two byte strings with one hash are produced |
| `Sharding.ShardedCollision` | src/openwright/merkle.py:196-214 | from an accepted proof computes a node or leaf collision, or else it is the true proof of the leaf at that shard and index exactly if the sizes that it claims are true |
| `Sharding.ShardSizeNeeded` | src/openwright/merkle.py:196-214 | under the size 1 the root of any larger shard is accepted as a leaf, and were it the hash of a content two byte strings would have one hash |
| `Sharding.ShardedSound` | src/openwright/merkle.py:196-214 | an accepted proof is the true one exactly if its sizes are true and the leaf has digest width, or two byte strings with one hash are produced |
| `Sharding.ShardedMember` | src/openwright/merkle.py:196-214 | under any claimed sizes an accepted hash of a content is that of some content of some shard, of the claimed shard if the number of shards is true, or two byte strings with one hash are produced |
| `Report.VerifyReport` | src/openwright/verify.py:130-262 | the accumulated outcome is the conjunction of all shallow checks; no key gives a failure, a disclosed float an error |
| `Report.CheckSignatures` | src/openwright/verify.py:174-202 | the accumulated outcome of the key and signature checks, each key identifier checked only if there is one |
| `Report.CheckItems` | src/openwright/verify.py:211-232 | the loop computes whether every item passes, the leaves by index and the disclosed ids |
| `Report.CheckItem` | src/openwright/verify.py:217-228 | an item passes exactly if its recomputed leaf is the stored one and is proved under the signed root |
| `Report.CheckEvidence` | src/openwright/verify.py:246-256 | passes exactly if every cited event is disclosed |
| `Report.DisclosureCollision` | src/openwright/verify.py:211-232 | from the items of a valid report computes a node collision, or each item hashes to the leaf at its index |
| `Report.DisclosureIsTheLog` | src/openwright/verify.py:234-245 | then equal indices disclose equal leaves, and full disclosure is the log in order |
| `Report.ItemSound` | src/openwright/verify.py:217-228 | in terms of the byte hash: the event is at its index, or two byte strings with one hash are produced |
| `Report.LeafBindsContent` | src/openwright/verify.py:100-106 | equal leaf hashes mean equal cleaned content, or the two canonical forms collide |
| `Authenticity.HeadWasSigned` | src/openwright/signing.py:321-328 | under a key that verifies only what its holder signed, a verified head has the four fields of a head that the holder signed |
| `Authenticity.OneKeyPerHead` | src/openwright/signing.py:321-328 | a head verifies under one key at most, if key identifiers differ |
| `Authenticity.CosignSigned` | src/openwright/witness.py:50-52 | a witness endorses only heads that the producer signed |
| `Authenticity.CosignatureWasMade` | src/openwright/witness.py:76-90 | an accepted cosignature is one that the witness made for a head with the same four fields, and carries its size and root |
| `Authenticity.BetweenWereSigned` | src/openwright/verify.py:370-392 | heads accepted as consistent were both signed by the trusted key's holder, and nothing is accepted without a key |
| `Authenticity.AccusedSignedBoth` | src/openwright/anchor.py:84-134 | behind genuine evidence are two heads that the accused signed, in conflict or with a supplied proof that fails |
| `Authenticity.ReportWasSigned` | src/openwright/verify.py:174-202 | a report accepted under a key was signed by its holder as it stands, over a head that was signed too |
| `Authenticity.TamperedIsInvalid` | src/openwright/verify.py:174-202 | no change to a report, with any signature, is accepted unless the changed report was signed |
| `Authenticity.OneTrustedKey` | src/openwright/verify.py:157-202 | a report that embeds its key or names it in either identifier is accepted under one trusted key at most |
| `Authenticity.FullDisclosureExhibitsLog` | src/openwright/verify.py:234-245 | a valid report that discloses every index exhibits a log with the signed head, without any assumption on the hash |
| `Authenticity.CitedEventIsLogged` | src/openwright/verify.py:211-256 | every event that a valid report cites is disclosed with the stored hash of its content and is at its index in the log, or a node collision is produced |
| `Authenticity.OnePinnedCrosswalk` | src/openwright/verify.py:283-332 | a report is pinned to one crosswalk at most, and to none without a hash |
| `ReportBuild.CollectItem` | src/openwright/report.py:66-80 | with commits before and between the two reads, the item is the record with its leaf and a proof that leads to the head |
| `ReportBuild.CollectItems` | src/openwright/report.py:66-80 | the loop collects all records up to the head, each with a valid proof |
| `ReportBuild.ResultsCiteEvents` | src/openwright/crosswalk.py:292-361 | evaluation cites only ids of the events that it was given |
| `ReportBuild.RecordsAreCommitted` | src/openwright/crosswalk.py:227-229 | the engine sees every record of a ledger as committed, its other fields as they are |
| `ReportBuild.BuildReport` | src/openwright/report.py:42-146 | however commits interleave, the report discloses the records up to its head and passes every shallow check exactly if the cited evidence is among them |
| `DeepVerify.VerifyDeep` | src/openwright/verify.py:265-351 | fails without the pinned crosswalk, else succeeds exactly if each reported status is the one derived from the disclosed events |
| `DeepVerify.StatusById` | src/openwright/verify.py:334-334 | the dictionary of statuses, the last result for an id winning |
| `DeepVerify.OwnVerdictsMatch` | src/openwright/verify.py:334-351 | results checked against their own events match exactly if results that share an id agree |
| `DeepVerify.DistinctIdsAgree` | src/openwright/verify.py:334-351 | which distinct ids ensure |
| `DeepVerify.PassingMeansExpected` | src/openwright/verify.py:334-351 | a passing line states the expected status of a control with its id over the disclosed events |
| `DeepVerify.MatchIffUnchanged` | src/openwright/verify.py:334-351 | verdicts from earlier events match exactly if each control's expected status is that of the last control with its id over the later events |
| `DeepVerify.UnchangedIfDistinct` | src/openwright/verify.py:334-351 | with distinct ids that is each control's own status |
| `DeepVerify.EvaluateAndBuild` | src/openwright/report.py:42-146 | evaluating, then building while others commit: over a head of its own the report passes shallow verification, over a supplied one exactly if that covers the cited evidence; it passes the deep one exactly if no status changed from the evaluated to the disclosed events, and over a head on just the evaluated records exactly if same ids agree |
| `DeepVerify.StaleVerdict` | src/openwright/verify.py:334-351 | one commit in between can make deep verification fail |

## Left out

- Ed25519, PEM, PKCS#11 and key sources: signatures are an abstract scheme in which honest signatures verify.
- SHA-256 itself: hash functions are parameters; widths and prefixes are modelled, the compression function is not.
- HTTP, gRPC, forwarding, OTLP decoding, PDF, OSCAL, SARIF, dashboards, CLI and configuration: input, output and wiring.
- pydantic validation, YAML loading and the JSON text of stored lines: records and spans round-trip through an abstract line codec that is assumed faithful (and, in the two runs that lose a span, to refuse text with a fragment in front or a missing beginning); events are read back as they were written.
- Hex text of roots and proofs: the model passes digests; only the signed form of a head uses hex.
- Floats are finite and taken as exact reals, as Python compares them with integers; infinities and NaN are not modelled.
- Lone surrogates and dictionary keys that are not strings: texts are sequences of Unicode scalar values.
- Dotted paths are given already split into their steps.
- Negative tree sizes in a consistency check: sizes are natural numbers.
- The pipeline is a system of steps over values, not a class with locks; what the locks exclude appears as guards. Journal writes are taken to succeed and the journal to be configured; the retry loop is one step that commits or gives up; normalization, `stop` and the statistics counters are not modelled.
- Pipeline.SpanConservation: an append to the spill file that is cut short is not a step of the pipeline; what it does to the file is shown in `SpillLoss`. A spill file deleted from outside is not modelled.
- Flush.RunFlush: leaves out files with spans buried under an older cursor or with a line that cannot be decoded, on which a drain can raise an error out of the flush.
- The in-memory and SQL backends, retention, corrections and the file-backed anchor: easy or mostly database work.
- The shards of the sharded ledger are leaf lists, with the contents that they hash, rather than ledger objects; what a ledger does with its leaves is shown in `Ledger`. The default route is a parameter.
- Evaluate.EvaluateAll: leaves out the texts of reasons and the sum of dropped events in them, whose conversion can raise an error; every event is taken to have an id.
- Presentation fields of reports (scope, period, gap list, summary) and the loading of built-in crosswalks; the signed form of a report and the crosswalk hash are parameters.
- Authenticity.TamperedIsInvalid: takes the signed form of a report to determine the report and to differ from that of every head; in the code that form is the canonical JSON of the whole report without its signature.
- Warnings and messages of verification, and `select_profile`.
- Timestamps are opaque texts, or integers where drop windows need an order.
