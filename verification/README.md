# Verified models of Git's core algorithms

This project models parts of the C core of Git in Dafny and proves what they promise. It follows the source in
form: code that updates fields, arrays, lists and counters step by step is a class with methods and loops,
proved against specification functions; what the specification promises is proved as lemmas about those
functions. Every result holds for all inputs of the stated kind.

`dafny verify dfyconfig.toml` checks everything.

## What is modelled

| area | files | main results |
|---|---|---|
| History | `CommitGraph`, `DateList`, `Painting`, `Marks`, `MergeBases` | merge bases, ancestry and head reduction are exact on every finite acyclic history and for all dates; no flag is left behind |
| Ordering | `TopoOrder`, `TopoTurn`, `TopoSort` | topological order, newest or last released ready commit first, ties included |
| Bisection | `BisectWeights`, `Bisect` | all weights are exact and the chosen commit is an optimal split, early exits included |
| Deltas | `Rabin`, `DeltaFormat`, `DeltaIndex`, `DeltaBuild`, `DeltaEmit`, `DeltaRoom`, `DeltaStep`, `DeltaEncode` | encoding followed by patching is the identity; a file against itself gets a short delta; the rolling fingerprint, the index and the buffer bounds are right |
| Line endings | `CrlfSpec`, `Convert` | the streaming filter computes the whole-buffer conversion for every chunking |
| Attributes | `AttrSpec`, `AttrCollect` | macro expansion terminates and first assignments win; the stack equals a rebuild |
| Excludes | `ExcludeStack` | the exclude stack equals a rebuild and its shared buffer names the right directories |
| Cache tree | `CacheTreeSpec`, `CacheTreeNodes`, `CacheTreeGroups`, `CacheTreeUpdate`, `CacheTree`, `CacheTreeSession`, `CacheTreeObjects`, `CacheTreeIO`, `Decimal` | cached hashes equal hashes from scratch through edits and updates, and the objects behind them give the index back; writing and reading is a round trip |
| Similarity | `SpanSpec`, `SpanTable`, `SpanHash`, `CountChanges`, `SpanLines` | the hash table is a map of sums, and copied and added bytes are conserved |
| Renames | `Strings`, `RenameSpec`, `RenameTables`, `RenameFair`, `Rename`, `RenameResult` | the post-image is preserved, no candidate is passed over for a worse one, use counts are the renames, and the letters D and R name exactly the vanished files |
| Bulk check-in | `CsumFile`, `BulkSpec`, `BulkCheckin` | over any session with restarts packs are well formed and names are right |
| Configuration | `ConfigSpec`, `ConfigLaws`, `ConfigFile` | written keys and values parse back; what comments, escapes, continued lines and bare keys mean |
| Base 85 | `Base85` | round trip and exact overflow test |

Commits are numbers with a finite acyclic map of parents. SHA-1, zlib, fnmatch and the object store are
functions or sets that nothing is assumed about beyond what the code needs; zlib is a coder that consumes input
and produces output until one of them runs out. Hash contexts are represented by the bytes they absorbed, and
the hashes in a cache tree by their 20 bytes.
Library sorts are insertion sorts with the order of the comparison function. Power-of-two masks are written as
remainders. The two fingerprint tables are given by the eight entries at powers of two; the others are their
xor combinations, as in the source. The two 32-bit words of a chunk's hash are numbers below 2^32; the bits that are
xored together never overlap, so they are added (`SpanSpec.XorAdds`).

Where the code does not do what one might expect, the model follows the code and says when:

- An empty piece of input offered to the LF-to-CRLF filter while it holds a character other than CR loses that
  character; no other call does (`Convert.LfToCrlf.Feed`, and `Convert.HeldIsLost` for an input). Neither the
  filtered stream nor the cascade of filters ever offers an empty piece.
- A delta whose commands rebuild the target is accepted with one more command behind them that cannot be run: any
  copy, or the count of an insert without its data (`DeltaFormat.PatchAccepts`, `DeltaFormat.BadEndIsAccepted`).
- The encoder's 32-bit buffer size wraps around when a buffer of 1570824171 bytes is full, which needs a target of
  more than 785 million bytes and no size limit up to that number; the model stops there with `Overrun`. When the
  source is at most 16 bytes long it happens exactly from 1558552067 target bytes on (`DeltaEncode.CreateDelta`,
  `DeltaEncode.DiffDelta`, `DeltaEncode.OverrunIsPossible`).
- A value written to a configuration file comes back unless it has a CR and is not in quotes for another reason
  (`ConfigSpec.ValueBackExactly`).
- Starting a new pack in the middle of a plugged session takes the plug out. That happens exactly when a record would
  take a pack that has an object over a non-zero limit (`BulkCheckin.BulkCheckin.DeflateToPack`, and
  `BulkCheckin.PlugIsLost` for a session).
- When the name of a per-directory exclude file would be too long, the exclude list stays that of the directory
  before (`ExcludeStack.Excludes.PrepExclude`).
- Of a pattern that starts with two slashes only the first is taken off (`AttrCollect.LeadingSlash`).
- Bytes behind the last chunk of a file are in neither of the two similarity counts (`CountChanges.Conserved`).

## Model

| member | source | states |
|---|---|---|
| `DateList.InsertByDate` | commit.c:381-392 | a commit goes behind every entry that is not older and before every entry that is older; nothing else moves, so the list stays newest first |
| `DateList.SpliceElements` | commit.c:381-392 | insertion loses and duplicates no list entry |
| `Painting.MergeBaseAbove` | commit.c:712-775 | every common ancestor lies above some best one, so best common ancestors exist whenever common ones do |
| `Painting.SpreadSound` | commit.c:650-658 | a parent that takes over its child's flags is only marked with tips it really is an ancestor of, and STALE only when it is a proper ancestor of a common ancestor |
| `Painting.PaintParent` | commit.c:659-669 | marking and queueing one parent keeps the painting invariant: flags truthful, flags of everything off the queue already passed on, results truthful |
| `Painting.RecordFound` | commit.c:650-655 | recording a commit painted from both sides keeps the invariant |
| `Painting.PaintReaches` | commit.c:639-670 | once only STALE commits are queued, flags have passed along every path from a tip to a best common ancestor, whatever the dates |
| `Painting.MergeBaseRecorded` | commit.c:639-683 | at the early stop every best common ancestor is in the result and not STALE |
| `Marks.ClearingEnds` | commit.c:442-470 | when the work list runs dry exactly the commits on an unbroken marked path from the tip have lost the mark |
| `Marks.ClearedFromIsClosed` | commit.c:464-470 | clearing from several tips one after the other leaves no marked commit with an uncleared way from a tip |
| `Marks.RootedIsCleared` | commit.c:442-470 | a flag connected to a tip by flagged commits is gone after clearing from all tips |
| `Marks.ClearingLeavesNothing` | commit.c:748-757 | after a painting run, clearing from its tips leaves every commit of the history without flags |
| `MergeBases.History.ClearCommitMarks1` | commit.c:442-462 | following first parents and pushing the others keeps the clearing invariant and makes progress |
| `MergeBases.History.ClearCommitMarks` | commit.c:464-470 | removes the mark from exactly the commits on an unbroken marked path from the commit |
| `MergeBases.History.Interesting` | commit.c:598-608 | true exactly when some queued commit is not STALE |
| `MergeBases.History.PaintParents` | commit.c:656-669 | one commit's parents: the invariant holds again and either the missing flags got fewer or nothing changed |
| `MergeBases.History.MergeBasesMany` | commit.c:610-683 | for every finite acyclic history and all dates: only common ancestors of `one` and some of `twos`, every best one among them, once each, newest first; terminates |
| `MergeBases.History.GetMergeBasesMany` | commit.c:712-775 | exactly the best common ancestors, once each, newest first, independent of the dates; with cleanup no flag is left |
| `MergeBases.OneCandidateIsExact` | commit.c:727-734 | a single candidate needs no repair: it is the one best common ancestor |
| `MergeBases.SelfIsOnlyBase` | commit.c:616-623 | when `one` is among `twos` it is the only best common ancestor |
| `MergeBases.CandidateDecides` | commit.c:755-763 | of two commits, one is in their candidate list exactly when the other reaches it |
| `MergeBases.RepairPair` | commit.c:751-765 | each comparison of the pairwise repair drops only commits another candidate reaches |
| `MergeBases.RepairedIsExact` | commit.c:751-772 | after all pairs a candidate survives exactly when it is a best common ancestor |
| `MergeBases.AncestorIsBase` | commit.c:798-816 | `a` is a best common ancestor of `a` and `d` exactly when `d` reaches `a` |
| `MergeBases.History.InMergeBases` | commit.c:798-816 | decides whether the reference reaches the commit, and leaves no flags |
| `MergeBases.History.IsDescendantOf` | commit.c:783-796 | true exactly when the list is empty or the commit reaches a member of it |
| `MergeBases.BaseTellsIndependence` | commit.c:844-863 | the merge bases of a head with the other heads are that head alone exactly when another head reaches it |
| `MergeBases.ReducedIsExact` | commit.c:818-868 | the reduced list holds exactly the heads no other head reaches, once each |
| `MergeBases.History.ReduceHeads` | commit.c:818-868 | computes the reduced list in order of first mention, and leaves no flags |
| `TopoOrder.EdgesEmit` | commit.c:560-577 | emitting a commit takes as many off a parent's count as the commit names that parent |
| `TopoOrder.EdgesZero` | commit.c:517-543 | a count is zero exactly when no unemitted commit of the list names the parent |
| `TopoOrder.SubtractParent` | commit.c:560-577 | before the subtraction a listed parent's count is still above one, so counts never run under |
| `TopoOrder.Drained` | commit.c:551-585 | in an acyclic list nothing is left behind when the work list is empty |
| `TopoOrder.SortedAtEnd` | commit.c:501-586 | at the end the output is a permutation with every listed child before its listed parents |
| `TopoOrder.AllEmitted` | commit.c:501-586 | an empty work list means a full, ordered output and all counters zero |
| `TopoTurn.ReleasedSorted` | commit.c:568-575 | a parent goes to its place: with lifo on in front, as the one released last; by date behind all that are not older, and of equal dates behind those released before it |
| `TopoTurn.NextStable` | commit.c:545-547 | the sort of the tips by date is stable: putting in the next one keeps equal dates in list order |
| `TopoTurn.EmitFirst` | commit.c:551-585 | the head of the work list goes first among all ready commits: by date the newest, and of equally new ones the one released first; with lifo on the one released last |
| `TopoTurn.InTurnAtEnd` | commit.c:501-586 | at the end every emitted commit was the one whose turn it was; released later means by a later commit, by a later parent of the same one, or, for tips, earliest in the list |
| `TopoSort.History.CountChildren` | commit.c:511-527 | after the two counting passes each listed commit's counter is one plus its listed children |
| `TopoSort.History.FindTips` | commit.c:529-543 | the first work list holds exactly the listed commits without listed children, in list order |
| `TopoSort.History.EmitOne` | commit.c:551-585 | one step emits a commit, releases exactly the parents that became ready, keeps the counts true and the work list in its order |
| `TopoSort.History.SortInTopologicalOrder` | commit.c:501-586 | a permutation of an acyclic list of distinct commits, children first; of the ready commits the newest comes next, and of equal dates the one released first; or with lifo on the one released last; all counters end at zero |
| `BisectWeights.HalfwayIsBest` | bisect.c:96-115 | a weight within one of half splits at least as well as any other |
| `BisectWeights.ClosedIsReach` | bisect.c:35-60 | a set that holds the commit, only what it reaches, and its members' interesting parents is exactly what it reaches |
| `BisectWeights.RootWeight` | bisect.c:259-280 | a commit without interesting parents weighs one, or zero if it changes nothing |
| `BisectWeights.StrandWeight` | bisect.c:330-342 | on a single strand the weight is the parent's plus one, or the parent's if nothing changes |
| `BisectWeights.SomeParentKnown` | bisect.c:314-348 | the fill cannot get stuck: some unweighed commit always has a weighed parent |
| `Bisect.CountingJoins` | bisect.c:48-56 | what a parent's count adds is disjoint from what was counted before, so no commit counts twice |
| `Bisect.HalfwaySplits` | bisect.c:306-308 | a commit passing the halfway test maximises the smaller side over the whole list |
| `Bisect.PassProgresses` | bisect.c:314-348 | a full pass of the fill weighs at least one more commit while some is unweighed |
| `Bisect.AllWeighedSplits` | bisect.c:352-353 | with every weight exact, the last loop's choice maximises the smaller side |
| `Bisect.FilteredIsBisectable` | bisect.c:368-386 | what the filter keeps is closed under interesting parents |
| `Bisect.Bisection.CountDistance` | bisect.c:35-60 | counts the tree-changing commits newly reached, each once, and marks exactly those |
| `Bisect.Bisection.ClearDistance` | bisect.c:62-69 | takes the mark off exactly the listed commits |
| `Bisect.Bisection.WeighMerge` | bisect.c:303-304 | a merge's weight is the number of tree-changing commits it reaches, and no mark is left |
| `Bisect.Bisection.CountInterestingParents` | bisect.c:83-94 | counts the parents that are not uninteresting |
| `Bisect.Bisection.InitWeights` | bisect.c:253-280 | roots get their weight, strands -1, merges -2; the count of known ones is right |
| `Bisect.Bisection.Halfway` | bisect.c:96-115 | true exactly for a tree-changing commit whose doubled weight is within one of the total |
| `Bisect.Bisection.WeighMerges` | bisect.c:298-310 | every merge gets its exact weight, or a halfway commit is returned that is an optimal split |
| `Bisect.Bisection.FillPass` | bisect.c:314-348 | one pass keeps all weights exact, returns only optimal splits, and makes progress unless nothing can be done |
| `Bisect.Bisection.BestBisection` | bisect.c:158-180 | the first of the listed commits with the largest smaller side |
| `Bisect.Bisection.DoFindBisection` | bisect.c:246-356 | terminates; every weight it has assigned is the number of tree-changing commits reached; the result, early exits included, maximises the smaller side |
| `Bisect.Bisection.FindBisection` | bisect.c:358-401 | filtering included: the best tree-changing commit, what it reaches and the total |
| `Rabin.EntryLinear` | diff-delta.c:23-113 | the tables are linear: the entry of a xor is the xor of the entries |
| `Rabin.EntryIsSpelled` | diff-delta.c:23-113 | an entry is the xor of the eight basis entries its bits select |
| `Rabin.THigh` | diff-delta.c:23-67 | an entry of T carries bit 31 exactly at odd places |
| `Rabin.PushStaysLow` | diff-delta.c:186-188 | shifting a byte in always leaves bit 31 clear, so T is indexed in range |
| `Rabin.PushLinear` | diff-delta.c:186-188 | shifting in is linear over fingerprints below 2^31 |
| `Rabin.UTable` | diff-delta.c:69-113 | an entry of U is its byte followed by fifteen zero bytes |
| `Rabin.LeadingByte` | diff-delta.c:372-373 | the first byte's part of a fingerprint can be split off as that byte followed by zeros |
| `Rabin.RollingIsExact` | diff-delta.c:372-373 | taking the oldest byte out and shifting a new one in gives the fingerprint of the moved window |
| `Rabin.FingerprintFits` | diff-delta.c:186-188 | a fingerprint is below 2^31 and never the sentinel of all ones |
| `DeltaBuild.KeepNext` | diff-delta.c:228-251 | the culling accumulator keeps the entry a fixed even spacing asks for |
| `DeltaBuild.DropNext` | diff-delta.c:228-251 | the inner loop never runs off the end of the bucket |
| `DeltaBuild.AllSeen` | diff-delta.c:228-251 | when the bucket is used up exactly the limit was kept and the accumulator is back at zero |
| `DeltaBuild.CullBucket` | diff-delta.c:216-252 | an oversized bucket keeps exactly HASH_LIMIT entries, evenly spaced, in order |
| `DeltaBuild.BlockFingerprint` | diff-delta.c:186-188 | the fingerprint of the sixteen bytes after the block's first, never the sentinel |
| `DeltaBuild.HeadsMove` | diff-delta.c:189-201 | of the blocks from one on, which ones are the lowest of their run once the next lower block is taken in |
| `DeltaBuild.EnterBlock` | diff-delta.c:189-201 | a block enters the front of its bucket, or takes over the entry of the equal block just above it; the total is kept right |
| `DeltaBuild.Populate` | diff-delta.c:181-202 | walking the blocks backwards leaves in every bucket, strictly ascending, exactly the lowest block of each run of blocks with equal fingerprints, and as many entries as counted |
| `DeltaBuild.Cull` | diff-delta.c:204-252 | buckets within the limit are untouched, others thinned, and the count of what is left is right |
| `DeltaBuild.HashSize` | diff-delta.c:157-159 | the smallest power of two from 16 up with at least a quarter of the entries, capped at 2^31 |
| `DeltaBuild.Pack` | diff-delta.c:279-292 | the packed index has as many entries as counted and each bucket in its own stretch |
| `DeltaBuild.CreateDeltaIndex` | diff-delta.c:133-296 | no index exactly for an empty source; else the lowest block of every run of equal blocks is indexed in its bucket, and buckets over the limit are thinned to exactly HASH_LIMIT entries |
| `DeltaIndex.ScanHopeless` | diff-delta.c:381-384 | once an entry leaves too little source for a longer match, no later entry of an ascending bucket improves it |
| `DeltaIndex.FindMatch` | diff-delta.c:374-394 | a true match at least as long as before, and in an ascending bucket the same one a scan without the early break finds |
| `DeltaFormat.SizeRoundTrip` | diff-delta.c:338-352 | a size written seven bits at a time is read back, and exactly its bytes are used |
| `DeltaFormat.GetDeltaHdrSize` | delta.h:89-102 | reads the size spelled at the position and stops behind it, never past the buffer |
| `DeltaFormat.ArgRoundTrip` | diff-delta.c:435-447 | offset and size bytes, zero bytes left out, are put together again from the command's bits |
| `DeltaFormat.CopyRoundTrip` | diff-delta.c:428-449 | a copy command of up to 64 KB is parsed as the copy it was made from; size 64 KB is written as no size |
| `DeltaFormat.ParseExtends` | patch-delta.c:39-74 | parsing a command looks at no byte behind it |
| `DeltaFormat.ReplayAppend` | patch-delta.c:38-74 | two command streams in a row rebuild their two results in a row |
| `DeltaFormat.SmallestDelta` | patch-delta.c:23-24 | every delta of a non-empty target is at least four bytes, so the size check refuses none |
| `DeltaFormat.AcceptedIsGood` | patch-delta.c:38-82 | whatever the loop accepts replays, apart from such a command at the end |
| `DeltaFormat.PatchAccepts` | patch-delta.c:15-84 | a delta is accepted exactly when both sizes are right and its commands replay to the target, or do so followed by one more copy or by the count of an insert with no data |
| `DeltaFormat.BadEndIsAccepted` | patch-delta.c:52-82 | two deltas that end in a command that cannot be run and are accepted all the same |
| `DeltaFormat.PatchWhole` | patch-delta.c:15-84 | with both sizes in front, a stream that rebuilds the target is accepted and does |
| `DeltaFormat.PatchDelta` | patch-delta.c:15-84 | applying a delta: the loop breaks off at copies outside the source and at commands for more than is expected, and the outcome is accepted when nothing more is expected and nothing is left to read |
| `DeltaEmit.EmitLiteral` | diff-delta.c:397-406 | adding a literal byte keeps the buffer a stream for the target so far plus pending literals |
| `DeltaEmit.EmitClose` | diff-delta.c:424-425 | filling in the insert count makes the pending literals a command |
| `DeltaEmit.TakeBack` | diff-delta.c:412-423 | giving the last literal back to a match undoes exactly that literal |
| `DeltaEmit.EmitCopy` | diff-delta.c:428-453 | a copy command extends the rebuilt target by the matched bytes |
| `DeltaEmit.EmittedPatches` | diff-delta.c:317-489 | a finished buffer patches the source into the target |
| `DeltaEmit.MatchBack` | diff-delta.c:412-418 | a match extended by an equal byte in front is a match |
| `DeltaRoom.GrowthSuffices` | diff-delta.c:464-471 | growing by half leaves room for another command from every buffer size but the last, 1570824171, where 32-bit multiplication wraps around; that size is only reached without a limit or with a larger one |
| `DeltaRoom.GrowthEnds` | diff-delta.c:466-466 | thirty growths without wrapping around lead from 8192 to 1570824171, and the next one wraps |
| `DeltaRoom.OverrunsFrom` | diff-delta.c:397-406 | a target of literals alone reaches the end of the last buffer exactly from 1558552067 bytes on |
| `DeltaEncode.Encoder.ExtendBack` | diff-delta.c:411-426 | moves back over equal bytes as far as there are pending literals, stopping at the first difference, shortening the insert and lengthening the match by the same amount |
| `DeltaEncode.Encoder.Search` | diff-delta.c:370-395 | the fingerprint stays that of the last sixteen bytes and the best match of the bucket is taken |
| `DeltaEncode.Encoder.CopyPart` | diff-delta.c:428-453 | emits at most 64 KB of the match and keeps the rest of it a match |
| `DeltaEncode.Encoder.CopyStep` | diff-delta.c:407-462 | writes the extended match, up to 64 KB, as one copy of at most seven bytes; afterwards the fingerprint is rebuilt from the sixteen bytes before the position |
| `DeltaEncode.Encoder.CheckRoom` | diff-delta.c:464-476 | afterwards a whole command fits the buffer, or the size limit is exceeded, or a buffer of the last size is full |
| `DeltaEncode.Encoder.Step` | diff-delta.c:370-476 | one round: when the best match is shorter than four bytes one literal, else a copy of it, extended backwards as far as the bytes agree and literals are pending and cut at 64 KB, in at most seven bytes |
| `DeltaStep.FirstFound` | diff-delta.c:374-394 | the first window of a file finds the file's first block, and nothing longer |
| `DeltaStep.SelfNext` | diff-delta.c:370-462 | a file against itself, station by station: from the first window back to the beginning, over 64 KB copies, to a rest of less than four literals or the end, with the bytes written so far counted |
| `DeltaEncode.CreateDelta` | diff-delta.c:317-489 | a returned delta patches the source into the target byte for byte and respects a non-zero limit; all writes are inside the buffer; with no match to find it is overrun exactly when the literals fill the last buffer and there is no smaller limit; no delta only for an empty target or a limit below 12 + 2 bytes per target byte; and a file of at least 20 bytes against an index led by its own first block gets a delta of at most 10 + 7 * (n / 64 KB + 1) + 4 bytes, under no limit or any limit from there up |
| `DeltaEncode.DiffDelta` | delta.h:56-69 | index and encode in one call: the same guarantee for every source and target; for a source of at most 16 bytes the buffer is overrun exactly from 1558552067 target bytes on, unless there is a limit up to the last buffer size; and a file of n >= 20 bytes against itself, whatever is in it, gets a delta of at most 10 + 7 * (n / 64 KB + 1) + 4 bytes, under no limit or any limit from there up |
| `DeltaEncode.OverrunIsPossible` | diff-delta.c:464-476 | a size at which the buffer is overrun, and that one byte less does not overrun it |
| `DeltaEncode.DiffThenPatch` | patch-delta.c:15-84 | encoding and patching compose to the identity unless the buffer was overrun, which takes more than 785 million target bytes |
| `Convert.GatherStats` | convert.c:33-74 | the number of NULs, CRs, LFs and CRLFs, and of printable and other characters, a final end-of-file character aside |
| `CrlfSpec.BareIsDifference` | convert.c:291-293 | LFs without a CR are the LFs minus the CRLFs, which is what the early return tests |
| `CrlfSpec.NothingToDo` | convert.c:291-293 | text whose LFs all have their CR comes out unchanged |
| `CrlfSpec.NoBareLeft` | convert.c:276-333 | converted text has no LF without a CR |
| `CrlfSpec.CrlfIsIdempotent` | convert.c:276-333 | converting twice is converting once |
| `CrlfSpec.CrlfLine` | convert.c:316-329 | line by line and character by character conversion agree |
| `Convert.AddCrs` | convert.c:316-329 | the copying loop produces the specified conversion |
| `Convert.CrlfToWorktree` | convert.c:276-333 | the crlf action gives the converted text and the binary and input ones none, for every configuration; for text, autocrlf decides, then core.eol, then the platform; auto does the same for text that has a bare LF, no CR alone and is not binary; without an attribute only autocrlf=true converts, and only text that has no CR at all either; what is given is the specified text |
| `Convert.LfToCrlf.Feed` | convert.c:932-1009 | for any input piece and output room, what came out and what is still owed make up the conversion; exactly an empty piece offered while a character other than CR is held loses that character |
| `Convert.HeldIsLost` | convert.c:943-957 | an input on which an empty piece loses the held character |
| `Convert.LfToCrlf.Drain` | convert.c:939-953 | draining hands out the held character and owes nothing more |
| `Convert.FilteredStream.Advance` | streaming.c:207-244 | each round keeps the owed text and gets nearer the end |
| `Convert.FilteredStream.Read` | streaming.c:190-247 | what is read and what remains make up the conversion; a short read means the end |
| `Convert.ReadAll` | streaming.c:190-247 | reading in pieces of any sizes from an upstream cut anyhow gives the whole-buffer conversion: as much of it as the sizes add up to, and all of it when they reach its end |
| `Convert.GetStreamFilter` | convert.c:1287-1312 | which filter a file is streamed with, for each action and configuration, and when it is not streamed |
| `Convert.StreamAgrees` | convert.c:1287-1312 | for every action and configuration for which a file is streamed, streaming gives what the whole-buffer conversion gives, as much of it as is read; and which conversion that is |
| `AttrSpec.RunAppend` | attr.c:666-702 | assignments in two batches have the effect of one batch |
| `AttrSpec.RunSettled` | attr.c:742-744 | when nothing is unknown the rest of the rules changes nothing, so stopping early is safe |
| `AttrSpec.RunKeeps` | attr.c:676-683 | an attribute that has a value keeps it |
| `AttrSpec.RunDecides` | attr.c:666-686 | every mentioned attribute ends up with a value |
| `AttrSpec.MacrosAreExpanded` | attr.c:704-726 | what a set macro mentions ends up with a value too |
| `AttrSpec.FirstAssignmentWins` | attr.c:666-702 | the first assignment that is reached while its attribute is unknown decides it, whatever comes before and behind |
| `AttrSpec.MacroAssignmentWins` | attr.c:704-726 | an assignment of a macro that has just been set, reached while its attribute is unknown, decides it before anything behind the macro |
| `AttrSpec.RunTakesFirst` | attr.c:666-726 | every attribute not decided before takes the first assignment to it in order of precedence, a macro's assignments standing right behind the one that made it true; it stays unknown exactly when there is none |
| `AttrCollect.NameMatches` | attr.c:643-648 | a pattern without a slash is matched with the name alone, in whatever directory it is |
| `AttrCollect.SlashMatches` | attr.c:649-661 | a pattern with a slash is matched with the path below the directory of its file, one slash at its start taken off, and with no path outside that directory |
| `AttrCollect.LeadingSlash` | attr.c:651-652 | a slash in front of a pattern that has one elsewhere, and not at its start, changes nothing |
| `AttrCollect.Collector.FillOne` | attr.c:666-686 | the recursion over macros, cyclic ones included, terminates, has the specified effect, and `rem` is the number of unknown attributes |
| `AttrCollect.Collector.MacroExpandOne` | attr.c:704-726 | expands the first definition found down the stack, in place, only for a true value |
| `AttrCollect.Collector.Fill` | attr.c:688-702 | one stack element's matching rules, last first, with the count of unknowns right after |
| `AttrCollect.Collector.PopOthers` | attr.c:578-596 | pops to the deepest directory both paths share, and no further |
| `AttrCollect.Collector.PushMissing` | attr.c:598-627 | pushes one element for every directory missing on the way |
| `AttrCollect.Collector.PrepareAttrStack` | attr.c:543-637 | after any path before, the stack is the one built from scratch for the new path |
| `AttrCollect.AttributesTakeFirst` | attr.c:732-745 | from scratch, every attribute of a path is the first assignment to it in order of precedence |
| `AttrCollect.Collector.CollectAllAttrs` | attr.c:732-745 | the values are those of running the precedence stream, macros expanded in place, over the rebuilt stack |
| `CacheTreeSpec.BelowBelow` | cache-tree.c:263-298 | what lies below a subdirectory can be found among what lies below the directory |
| `CacheTreeSpec.Grouped` | cache-tree.c:263-298 | in a sorted index the entries below a directory are neighbours |
| `CacheTreeNodes.CmpTrans` | cache-tree.c:34-42 | the subtree order, length before bytes, is transitive |
| `CacheTreeNodes.ShorterFirst` | cache-tree.c:34-42 | shorter names come first, and of equally long ones that with the smaller first different byte |
| `CacheTreeNodes.InsertKeepsSorted` | cache-tree.c:65-97 | inserting at the place the search names keeps the list sorted |
| `CacheTreeNodes.EditIsLocal` | cache-tree.c:105-150 | an edit of one path changes what lies below a directory only if the path lies below it |
| `CacheTreeNodes.ValidTransfers` | cache-tree.c:105-150 | nodes of directories the edited path is not below stay true |
| `CacheTreeNodes.InvalidationIsSound` | cache-tree.c:105-150 | after an edit at a path, invalidating that path leaves only nodes that are true of the new index |
| `CacheTreeGroups.RunAt` | cache-tree.c:277-298 | the entries of a subdirectory form one run from its first entry |
| `CacheTreeGroups.RunIsBelow` | cache-tree.c:277-298 | a run is all the index has below the subdirectory |
| `CacheTreeGroups.HandDown` | cache-tree.c:289-297 | the rest of the index from the run on is what the subdirectory's update may be given |
| `CacheTreeGroups.RunLine` | cache-tree.c:321-347 | a run stands for one line with the subdirectory's tree hash |
| `CacheTreeUpdate.UsedOnlyIsExact` | cache-tree.c:209-224 | discarding keeps exactly the used subtrees, in order |
| `CacheTreeUpdate.DiscardKeepsCurrent` | cache-tree.c:209-224 | afterwards there is one subtree for each subdirectory and no other |
| `CacheTreeUpdate.FoundReady` | cache-tree.c:321-330 | the second walk finds every subtree, with the true count to skip and the true hash to write |
| `CacheTreeUpdate.MissingBelow` | cache-tree.c:330-340 | what is missing below a subdirectory is missing below the directory |
| `CacheTree.Tree.SubtreePos` | cache-tree.c:44-63 | the place of the name, or the one place where it belongs |
| `CacheTree.Tree.FindSubtree` | cache-tree.c:65-97 | finds the subtree or inserts it in its place; nothing else changes |
| `CacheTree.Tree.InvalidatePath` | cache-tree.c:105-150 | marks the nodes on the way and removes the last component's subtree, in place; all others are untouched |
| `CacheTree.Tree.DiscardUnused` | cache-tree.c:209-224 | compacts the list in place to the used subtrees |
| `CacheTree.Tree.UpdateSubtrees` | cache-tree.c:255-298 | every subdirectory's node is brought up to date and marked used; the nodes stay true even if it fails halfway |
| `CacheTree.Tree.UpdateRun` | cache-tree.c:277-298 | one subdirectory: found or created, updated, and skipped by its exact number of entries |
| `CacheTree.Tree.TreeLines` | cache-tree.c:302-353 | the tree object's lines are those of the directory built from scratch; fails exactly when objects may not be missing and one of these lines names a missing one |
| `CacheTree.Tree.UpdateOne` | cache-tree.c:240-370 | from any true cache: on success the count and hash of the directory as built from scratch, stale subtrees gone, the object stored unless a dry run; on failure the cache is still true, and a file's object is missing, or a write failed, or in a dry run a subdirectory's object is missing |
| `CacheTree.Tree.Update` | cache-tree.c:372-385 | the whole cache: the same count and root hash as starting from an empty cache; fails only for a missing object or a failed write, so never in a dry run with missing objects allowed |
| `CacheTreeObjects.LinesRebuild` | cache-tree.c:302-353 | the lines of a directory give back the entries they were made from |
| `CacheTreeObjects.TreeRebuilds` | cache-tree.c:302-353 | walking the objects from a directory's hash, and down exactly the lines whose mode is that of a directory, gives the names, modes and hashes of the index below it, in order |
| `CacheTreeObjects.OneFileRebuilds` | cache-tree.c:321-347 | a file in a directory, for which the root records one line of mode 040000 with the directory's object; such a store exists |
| `CacheTreeSession.EditThenInvalidate` | cache-tree.c:105-150 | after entries of one path are added, removed or replaced, invalidating that path makes the cache true of the new index |
| `CacheTreeSession.Run` | cache-tree.c:372-385 | over any run of index edits, invalidations and updates, failed ones and dry runs included, every update that succeeds records the count and hash of the index as it is then |
| `CacheTreeIO.WriteOne` | cache-tree.c:387-425 | writes the node and its subtrees; dies exactly when a subtree list is unsorted |
| `Decimal.ReadsBack` | cache-tree.c:400-400 | a number printed with %d is read back by strtol, one leading space allowed |
| `CacheTreeIO.HeadReads` | cache-tree.c:449-473 | count, number of subtrees and hash of a written node are read back, and exactly their bytes are used |
| `CacheTreeIO.GrowsAtEnd` | cache-tree.c:490-503 | written subtrees come in sorted order, so each goes to the end of the list |
| `CacheTreeIO.ReadOne` | cache-tree.c:432-513 | what was written comes back with shape, names, counts and the hashes of valid nodes, and exactly those bytes are used |
| `CacheTreeIO.CacheTreeRead` | cache-tree.c:515-520 | the same for the whole extension; anything not starting with an empty name is refused |
| `CacheTreeIO.WriteThenRead` | cache-tree.c:387-520 | writing any tree with named nodes for all subtrees and reading it back, whatever follows in the file: the writer dies exactly of an unsorted list, and else shape, names, counts and the hashes of valid nodes are back and exactly the bytes written are used |
| `CacheTreeIO.WrittenAgain` | cache-tree.c:387-425 | what is read back is in order and is written as the same bytes again |
| `CacheTreeIO.StillValid` | cache-tree.c:432-513 | a cache that is true of an index is true of it when it has been read back |
| `CacheTreeIO.SomeTreeStarts` | cache-tree.c:387-425 | a cache with a valid and an invalid subdirectory for any hashes, and a buffer that holds it |
| `SpanSpec.SpansAccount` | diffcore-delta.c:138-158 | every byte is in a chunk, a skipped CR, or left over behind the last chunk |
| `SpanSpec.LineLeavesNothing` | diffcore-delta.c:138-158 | nothing is left over when the text ends in an LF |
| `SpanSpec.MixesWords` | diffcore-delta.c:149-151 | shifting the two words into each other turns the 64 bits they make up left by seven, and the byte is added to the low word |
| `SpanLines.CrLfSame` | diffcore-delta.c:145-147 | a text has the chunks of the same text with LF line ends |
| `SpanLines.LinesAreChunks` | diffcore-delta.c:138-158 | lines of at most 64 bytes are one chunk each |
| `SpanLines.ShortHash` | diffcore-delta.c:149-154 | the hash value of up to four bytes is their polynomial in 128, modulo 107927 |
| `SpanLines.CountsLines` | diffcore-delta.c:138-158 | such a line is counted with all its bytes as often as it is there, and with no other line |
| `SpanLines.NothingShared` | diffcore-delta.c:166-233 | texts of lines of at most one character, none a NUL, that have no line in common share nothing |
| `SpanSpec.CopiedPlusAdded` | diffcore-delta.c:193-224 | per hash value, copied and added make up the destination's bytes, and copied is at most the source's |
| `SpanSpec.SumIsTotal` | diffcore-delta.c:193-224 | summing by hash value or chunk by chunk is the same |
| `SpanTable.Sizes` | diffcore-delta.c:27-37 | every table size keeps an empty slot, doubling leaves room, and 2^17 slots have room for every hash value |
| `SpanTable.UsedBounded` | diffcore-delta.c:32-37 | a table never fills more slots than there are hash values |
| `SpanTable.StoppedEmpty` | diffcore-delta.c:88-107 | probing that meets an empty slot first proves the hash value absent |
| `SpanTable.FillKeepsSound` | diffcore-delta.c:91-99 | filling that slot keeps every count findable |
| `SpanTable.Probe` | diffcore-delta.c:88-107 | linear probing terminates at the match or the first empty slot on the way |
| `SpanHash.Top.Rehash` | diffcore-delta.c:49-80 | doubling moves every count, keeps the table sound, and is never needed beyond 2^17 slots |
| `SpanHash.Top.Add` | diffcore-delta.c:82-107 | adds the bytes to that hash value's sum and to no other; an empty slot always remains |
| `SpanHash.InsertKeeps` | diffcore-delta.c:109-121 | the sort order: by hash value, empty slots last |
| `CountChanges.HashChars` | diffcore-delta.c:123-164 | the sorted table of the text's chunks: each hash value once, ascending, with its sum, an empty slot at the end |
| `CountChanges.Merge` | diffcore-delta.c:193-224 | the merge computes the sum of per-hash minima and of per-hash excesses, stopping at the empty slots |
| `CountChanges.Conserved` | diffcore-delta.c:166-233 | copied plus added plus skipped CRs plus left-over bytes is the size of the new file |
| `CountChanges.DiffcoreCountChanges` | diffcore-delta.c:166-233 | both results are determined by the chunks of the two files, and add up; a file adds nothing to itself |
| `RenameSpec.BasenameSame` | diffcore-rename.c:99-112 | true exactly when the parts after the last slash are equal |
| `RenameSpec.RecordIfBetter` | diffcore-rename.c:407-421 | the four candidates kept for a destination are at least as good as every candidate dropped |
| `RenameSpec.InsertSorts` | diffcore-rename.c:225-243 | the order of candidates, unused ones last, sorts as a permutation |
| `Rename.Renames.CandidatesCompare` | diffcore-rename.c:225-243 | only regular files are more than 0 similar, at most 60000; a candidate goes before another exactly when it is more similar, or as similar and not behind in its basename, and unused places go last |
| `RenameTables.Search` | diffcore-rename.c:23-36 | binary search finds the path or its place |
| `RenameTables.MatchKeepsBooks` | diffcore-rename.c:201-223 | a match raises its source's use count by one and keeps all counts equal to the matches |
| `Rename.OfInterest` | diffcore-rename.c:506-545 | which files may be renamed and which they may be renamed from, by the options |
| `Rename.Renames.LocateDst` | diffcore-rename.c:18-54 | finds the destination by its path, or inserts it in its place |
| `Rename.Renames.RegisterSrc` | diffcore-rename.c:63-97 | registers the source in its place, or leaves the table alone when its path is there |
| `Rename.Renames.GatherPair` | diffcore-rename.c:507-544 | one pair enters the tables exactly as its kind and the options ask, a staying source counting itself as a user |
| `Rename.Renames.RecordRenamePair` | diffcore-rename.c:201-223 | matches an unmatched destination and nothing else |
| `Rename.Renames.PickBest` | diffcore-rename.c:261-296 | an eligible identical source, found whenever there is one: unused before used, then with the same basename, the first of equals, looking at no more than a hundred |
| `Rename.Renames.FindIdenticalFiles` | diffcore-rename.c:251-303 | matches only the group's destinations, each at most once; afterwards each is matched or no identical source may be taken for it |
| `Rename.Renames.FindExactRenames` | diffcore-rename.c:386-405 | whatever the order of groups, no destination is matched twice, the returned number is the number of matches, every match is with an identical file, and afterwards no unmatched destination has an identical source that may be taken |
| `Rename.Renames.FillCandidates` | diffcore-rename.c:593-617 | every source not skipped is considered, and the best ones, from different sources, are in the destination's places |
| `Rename.Renames.ConsideredMeans` | diffcore-rename.c:597-605 | when the matrix is cut down exactly the unmodified sources are skipped |
| `Rename.Renames.BuildMatrix` | diffcore-rename.c:585-624 | of every unmatched destination each considered candidate is in the matrix, or four from other sources at least as good are; they fit the matrix allocated for them, and come out best first |
| `Rename.Renames.FindRenames` | diffcore-rename.c:472-491 | afterwards no usable candidate has both an unmatched destination and a source that may be taken; and of every usable one the destination was matched before or took one at least as good, or, without copies, the source was used before or went to one at least as good |
| `RenameFair.FairAt` | diffcore-rename.c:472-491 | when a candidate's turn comes in the sorted matrix, whatever its destination or source was taken for is at least as good |
| `Rename.Renames.BothPasses` | diffcore-rename.c:622-630 | after both passes no candidate of an unmatched destination was passed over for a worse one: its destination has a source at least as good, or its source is used at least as well, or four better candidates' sources are |
| `Rename.Renames.PickedExhausts` | diffcore-rename.c:472-491 | for a destination left unmatched, with copies no considered source is similar enough; without, every one that is has been used, or four at least as similar have |
| `Rename.Renames.TooManyRenameCandidates` | diffcore-rename.c:429-470 | whether the product of the two numbers is at most the square of the limit, is so without unmodified sources, or is not |
| `Rename.Renames.MatchAll` | diffcore-rename.c:547-630 | after both phases no identical source is left for an unmatched destination, and unless there are too many candidates none that is similar enough; and no candidate similar enough was passed over for a worse one |
| `RenameResult.MatchHasImage` | diffcore-rename.c:643-661 | a matched destination has the path, mode and contents of the creation it replaces |
| `RenameResult.PostImageKept` | diffcore-rename.c:631-707 | the output has the new files of the input without unmodified pairs, each once, in the same order |
| `RenameResult.FromIsClaimed` | diffcore-rename.c:643-661 | every match comes out as one rename from its source, and no rename comes from nowhere |
| `RenameResult.UsesAreRenames` | diffcore-rename.c:631-707 | a source's use count is its renames in the output, one more if it stays; without copies at most one rename |
| `RenameResult.DroppedExactly` | diffcore-rename.c:631-707 | a pair is not put out exactly when it is unmodified, a creation put out as a rename, or a deletion something is renamed from |
| `RenameResult.CollectQueue` | diffcore-rename.c:631-707 | builds that output queue |
| `RenameResult.NoIdenticalLeft` | diffcore-rename.c:251-303 | a created file is left as an addition beside an identical vanished one only when that one has been renamed elsewhere |
| `RenameResult.DiffcoreRename` | diffcore-rename.c:493-724 | the whole of rename detection leaves true books and that output: first exact matches, with none missed; then, within the limits, no destination is left unmatched while a similar enough source may be taken, and no candidate was passed over for one that is worse, neither by its destination nor by its source |
| `RenameResult.ResolveRenameCopy` | diff.c:4030-4088 | each pair's letter, counting the uses of a source down; a rename that reconnects a path with itself is M and takes no use |
| `RenameResult.LastIsRename` | diff.c:4054-4071 | of the renames from one source the last is R if the source is gone, all others are C, and C only if it stays |
| `RenameResult.GoneExactly` | diff.c:4030-4088 | the letters D and R together name exactly the files that are gone, each of them |
| `RenameResult.DetectAndResolve` | diffcore-rename.c:493-724 | rename detection followed by the letters, with all of these at once; a pair put out itself is A without an old side, D without a new one, T when the types differ, and M when contents or mode do |
| `CsumFile.Sha1File.Write` | csum-file.c:89-119 | however the bytes meet the 8 KB buffer they are accepted once and in order, and the hash absorbs exactly what reaches the disk |
| `CsumFile.Sha1File.TakeCheckpoint` | csum-file.c:161-166 | a checkpoint is of the flushed file |
| `CsumFile.Sha1File.Truncate` | csum-file.c:168-179 | going back to a checkpoint drops exactly what was accepted since |
| `BulkSpec.LaidGrows` | bulk-checkin.c:239-250 | a record at the end of a well laid out pack, listed with its offset, leaves it well laid out |
| `BulkSpec.HeaderMovesNothing` | bulk-checkin.c:38-44 | rewriting the pack header moves no record |
| `BulkSpec.NextCut` | bulk-checkin.c:115-132 | reads end at the same places in every attempt, so the bytes hashed so far end where a read ends |
| `BulkCheckin.ReadMore` | bulk-checkin.c:115-132 | reads the next piece and hashes it unless an earlier attempt did |
| `BulkCheckin.BulkCheckin.FixupHeader` | bulk-checkin.c:38-44 | the checksum comparison when the header is rewritten always succeeds |
| `BulkCheckin.BulkCheckin.Finish` | bulk-checkin.c:23-59 | adds a pack with the listed objects, if any; resets everything, the plug included, but only when a file is open |
| `BulkCheckin.BulkCheckin.AlreadyWritten` | bulk-checkin.c:61-76 | true exactly for objects in the repository or on the list |
| `BulkCheckin.BulkCheckin.StreamToPack` | bulk-checkin.c:93-166 | appends exactly the object's record and hashes each byte once and in order, or gives up only when there is a limit, the pack has an object, and pack and record together pass the limit |
| `BulkCheckin.BulkCheckin.Attempt` | bulk-checkin.c:212-234 | fails exactly when the pack has an object and the record would take it over the limit; then the object is taken out and the pack finished |
| `BulkCheckin.BulkCheckin.ListOrDrop` | bulk-checkin.c:239-250 | the object is listed with its true offset and CRC, or taken back off the pack when it is known |
| `BulkCheckin.BulkCheckin.DeflateToPack` | bulk-checkin.c:184-252 | restarts at most once, and exactly when the record would take a pack that has an object over the limit; the pack is finished and the plug lost exactly then; the name is that of the object's own bytes; the new list and offset; nothing available is lost |
| `BulkCheckin.BulkCheckin.Index` | bulk-checkin.c:254-263 | when not plugged the object is in the repository on return, and no pack is open |
| `BulkCheckin.BulkCheckin.Unplug` | bulk-checkin.c:270-275 | everything listed ends up in the repository |
| `BulkCheckin.BulkCheckin.AddFiles` | builtin/add.c:463-470 | a whole session over any files and restarts: every file stored under its own name, every pack well laid out, within the limit and without duplicates |
| `BulkCheckin.AddTwoPlugged` | bulk-checkin.c:184-252 | in a plugged session of two different new files the plug is gone after the second exactly when the two records with the header pass the limit |
| `BulkCheckin.PlugIsLost` | bulk-checkin.c:23-59 | a plugged session of two files that ends without the plug |
| `ConfigSpec.QuotedBack` | config.c:197-256 | a value written between quotes is read back, CRs included |
| `ConfigSpec.PlainBack` | config.c:197-256 | a value written without quotes is read back, inner spaces included |
| `ConfigSpec.CrIsLost` | config.c:197-256 | outside quotes no CR gets into a value |
| `ConfigSpec.ValueBackExactly` | config.c:1144-1190 | a written value is read back exactly when it has no CR or is in quotes for another reason |
| `ConfigSpec.PairBack` | config.c:1144-1190 | a written pair makes one call with the lower-case name and the value |
| `ConfigSpec.SubBack` | config.c:294-330 | a written subsection is read back untouched, within the length limit |
| `ConfigSpec.SectionBack` | config.c:1119-1142 | a written section header sets the base name |
| `ConfigSpec.FileBack` | config.c:352-406 | a file of written sections and pairs makes one call for each pair, in order, and is read to its end |
| `ConfigLaws.CommentLine` | config.c:379-390 | a comment line changes nothing |
| `ConfigLaws.PlainLine` | config.c:197-292 | a key, an equals sign, any text without quotes, escapes or comments, and perhaps a comment: one call with the text between its outer blanks, tabs read as spaces |
| `ConfigLaws.BareKey` | config.c:263-292 | a key alone makes a call without a value |
| `ConfigLaws.Escape` | config.c:226-247 | what each escape stands for, quoted or not, and that any other is an error; a backslash at the end of a line continues it |
| `ConfigLaws.LineEndings` | config.c:171-256 | a line is continued by a backslash before a CRLF too; quotes must be closed before the line or the file ends |
| `ConfigLaws.BadStart` | config.c:379-405 | a line that starts with anything else makes no call, and nothing behind it is read |
| `ConfigLaws.Lowered` | config.c:263-284 | names are read in lower case |
| `ConfigLaws.DottedSection` | config.c:332-350 | a dot in a section header belongs to the section's name |
| `ConfigFile.StoreWriteSection` | config.c:1119-1142 | writes the header of the key's section, a subsection escaped and in quotes |
| `ConfigFile.StoreWritePair` | config.c:1144-1190 | writes the pair, in quotes exactly when the value needs them |
| `ConfigFile.ConfigFile.GetNextChar` | config.c:171-195 | one character, CRLF and the end of the file as LF |
| `ConfigFile.ConfigFile.ParseValue` | config.c:197-256 | parses as specified |
| `ConfigFile.ConfigFile.GetValue` | config.c:263-292 | parses as specified, inside the name buffer |
| `ConfigFile.ConfigFile.GetExtendedBaseVar` | config.c:294-330 | parses as specified, inside the name buffer |
| `ConfigFile.ConfigFile.GetBaseVar` | config.c:332-350 | parses as specified, inside the name buffer |
| `ConfigFile.ConfigFile.ParseFile` | config.c:352-406 | the calls of the whole file, byte order mark included, and whether it was understood; terminates for all bytes |
| `ConfigFile.WriteAndRead` | config.c:1353-1375 | writing a new file with one key and reading it back makes exactly the one call |
| `Base85.EnDistinct` | base85.c:15-26 | no character stands for two digits |
| `Base85.Alphabet` | base85.c:15-26 | the alphabet: digits, capitals, small letters and the 23 other characters in this order |
| `Base85.PrepBase85` | base85.c:29-38 | the decoding table inverts the alphabet and refuses all other characters |
| `Base85.DigitsValue` | base85.c:92-96 | five digits hold every 32-bit value |
| `Base85.UnpackPack` | base85.c:67-72 | taking the bytes out of a word gives back those put in |
| `Base85.RoundTrip` | base85.c:79-102 | decoding what was encoded gives the data back for every length, short last groups included |
| `Base85.Encode85` | base85.c:79-102 | encodes as specified, with a NUL at the end |
| `Base85.TakeLetters` | base85.c:46-64 | accepts a group exactly when all its letters are in the alphabet and its value fits 32 bits |
| `Base85.PutBytes` | base85.c:67-72 | rotating the word hands out its bytes from the highest |
| `Base85.Decode85` | base85.c:40-77 | decodes as specified, or fails at the first bad group |
| `ExcludeStack.ReadWhereItSays` | dir.c:484-494 | every pattern in use was read from the directory its part of the shared path names |
| `ExcludeStack.OwnLast` | dir.c:484-492 | a directory's own patterns come last, all of them, in the order of its file |
| `ExcludeStack.OuterFirst` | dir.c:468-494 | the patterns of the directories further out come before, unchanged, with nothing between a directory's and its parent's |
| `ExcludeStack.Excludes.Pop` | dir.c:461-465 | dropping the innermost directory leaves the stack of its parent |
| `ExcludeStack.Excludes.Push` | dir.c:471-494 | entering the next directory reads the file of that directory and keeps the prefixes of all live patterns |
| `ExcludeStack.Excludes.PrepExclude` | dir.c:445-497 | after any paths before, the list is the one built from scratch for the new directory; when the file name would be too long nothing changes |

## Left out

- DeltaEncode.CreateDelta: what the source does with its memory after the buffer size has wrapped around is not modelled; for sources of more than 16 bytes only a necessary condition for getting there is stated, because how much of the target is copied depends on both contents. A bound on the size is stated only for a file against itself. Failing allocations are not modelled.
- DeltaFormat.PatchDelta: a copy command cut off at the end of the delta makes the source read past it; the model fails. Sizes of 64 bits and more are not cut off.
- DeltaIndex.FindMatch: the packed index is a sequence of buckets; pointers into it and the byte size check of the allocation are not modelled.
- Bisect.Bisection.DoFindBisection: merges that change nothing are excluded: they are counted as known weights although they do not count towards the total. The variant that ranks all commits is not modelled.
- MergeBases.History.GetMergeBasesMany: commits whose parsing fails are not modelled, nor is the octopus variant, which calls it once per commit.
- Convert.StreamAgrees: the ident filter and cascades of filters are not modelled, nor is the way back to LF.
- AttrCollect.Collector.CollectAllAttrs: parsing of attribute files, the index as their source and quoting are not modelled; a file is its list of rules.
- CacheTree.Tree.Update: entries marked as removed or as intent to add, unmerged entries and the neighbour check for file and directory conflicts are not modelled; the results do not need freedom from such conflicts.
- CacheTreeIO.ReadOne: printed numbers are unbounded; the integer types of the source are wide enough for every count it writes. On bytes that were not written by the writer the source's strtol may read on behind the end of the extension; the model stops there.
- SpanHash.Top.Add: counts are unbounded; a file's size fits 32 bits, and so does every sum. Keeping a file's table for later calls is not modelled.
- Rename.Renames.BuildMatrix: similarity scores are any values that are zero for files that are not regular.
- Rename.Renames.FindExactRenames: `sha` is the hash of the contents of every file, including files that are not stored yet; the source hashes those first, which is not modelled.
- Rename.Renames.TooManyRenameCandidates: the product of the two counts is unbounded; in the source it can overflow an int from about 65 thousand files on.
- RenameResult.DiffcoreRename: broken and unmerged pairs and the score of a rejoined pair are not modelled.
- BulkCheckin.BulkCheckin.DeflateToPack: failing reads, writes, seeks and truncations, and sizes of 2^63 bytes and more, are not modelled; the input is a sequence of bytes and a position.
- ConfigFile.ConfigFile.ParseFile: a callback of the source sees names and values as C strings, cut at a NUL; the model hands them over whole. Line numbers for messages, callbacks that refuse a key, and includes are not modelled.
- ConfigSpec.FileBack: the in-place edit of an existing file that puts a pair among the lines already there is not modelled.
- ExcludeStack.Excludes.PrepExclude: what a pattern file's lines mean and how patterns match are not modelled; a file is its list of patterns.
- Base85.Decode85: the caller provides five letters for every started group, as its callers do.
- Pathspec matching, diff output, transport, checkout and user interface would add only members without a hard property.
