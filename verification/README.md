# Verified model of Redis core algorithms

This project models, in Dafny, the parts of Redis 8.6 (`redis-stable/src`) that are hard to get
right, and proves what they are for. It covers:

- **CRC-64.** The bit-by-bit checksum, the combination of two checksums by GF(2) matrices, and the
  table-driven version that runs two or three streams at once and combines them. All three compute
  the same checksum for every input.
- **Append-only persistence.** The manifest of BASE and INCR files and its text, the rewrite
  protocol with its child process and its failures, the flush under short writes, the background
  fsync worker, and loading a file that may end in the middle of a command or a transaction. Over
  every run of all of these together, byte by byte, loading recovers exactly the commands wholly on
  disk, and every transaction wholly or not at all.
- **ACL command permissions.** Rules that grant and revoke commands, subcommands, first arguments
  and categories, in any letter case; the compacted log of rules kept as one string; splitting that
  string with its quotes; rebuilding the permissions from it.
- **Clients blocked on keys.** The two-way index between clients and keys, the counts kept beside
  it, and the queue of ready keys while serving clients.
- **Bit operations.** BITOP over strings of any lengths, bitfields and their overflow policies, and
  the parallel bit count.
- **Hash slots.** The slot of a key and of a glob pattern, arrays of slot ranges and their text, and
  the cuckoo tables of the top-K structure.

Each file holds one module. Code that updates state in place is modelled by methods and classes and
proved against functions; protocols are state machines over their steps.

| file | content |
|---|---|
| `Gf2.dfy`, `Crc64.dfy`, `CrcCombine.dfy`, `CrcSpeed.dfy` | words as polynomials, the checksum, combining, the fast version |
| `AofManifest.dfy`, `AofManifestText.dfy`, `AofRewrite.dfy` | the manifest, its text, and every run of the rewrite protocol with crashes |
| `AofFlush.dfy`, `AofFsync.dfy`, `AofLoad.dfy`, `AofRecovery.dfy` | flushing, the fsync worker, loading, and all of it over bytes |
| `SdsText.dfy` | splitting a line into arguments, and printing strings so that they can be split off again |
| `AclRules.dfy`, `AclCase.dfy`, `AclCompaction.dfy` | the meaning of rules, letter case, the compacted log |
| `AclRuleText.dfy`, `AclSplit.dfy`, `AclRebuild.dfy` | the text of the log in place, splitting it, rebuilding from it |
| `AclText.dfy`, `AclSelector.dfy` | every run on the text, and the selector |
| `BlockedClients.dfy` | blocked clients and ready keys |
| `BitOp.dfy`, `Bitfield.dfy`, `BitfieldCommand.dfy`, `Popcount.dfy` | bit operations |
| `SlotHash.dfy`, `SlotRanges.dfy`, `SlotRangeArray.dfy`, `SlotRangeText.dfy`, `CuckooTable.dfy` | slots and tables |
| `Wrappers.dfy`, `Numbers.dfy` | options; powers, remainders and decimal digits |

## Where the code does not do what one would expect

Each of these is proved with its exact condition.

- A rewrite that starts while the append-only buffer could not be written out replays the buffered
  commands twice (`AofRewrite.UndrainedRewriteExact`).
- If writing the manifest fails after the new one has already replaced the old one, the BASE file
  it lists is removed and nothing can be recovered (`AofRewrite.FailedPersistExact`).
- The INCR file opened by a rewrite is not in append mode, and truncating it after a short write
  does not move its write position: the next write leaves a hole (`AofFlush.CutShortWriteLeavesHole`).
  Over whole runs nothing is lost exactly when no flush that keeps bytes follows such a cut
  (`AofFlush.RunConservesExactly`).
- After a failed background fsync the main thread still publishes its offset once it finds no job
  pending. Over every interleaving, failures included, the published offset is durable exactly when
  the main thread never publishes in this way after an fsync of bytes written since the last good
  one has failed (`AofFsync.PublishedIsDurableExactly`); `AofFsync.FailedFsyncExact` is an example.
- A file that ends inside a command of an open transaction is cut after the last whole command, so
  that the MULTI and the commands behind it stay in it. The file that is left holds exactly what
  took effect if and only if it did not end in such a place (`AofLoad.TransactionKeptExactly`).
  What is written after the restart is queued behind the open transaction and lost, up to the next
  EXEC, which also makes part of the old transaction take effect (`AofLoad.CutTransaction`,
  `AofRecovery.RestartKeepsWriting`).
- A single quote is not among the characters for which a file name is printed in quotes in the
  manifest. A name with one, and nothing else that calls for quotes, is not read back
  (`SdsText.NameReadBack`), and a server with such an `appendfilename` does not start again
  (`AofManifestText.QuotedNameRefused`). A line that is too long for the buffer is not read back
  either; `AofManifestText.ManifestReadBack` has the whole condition.
- A first-argument rule whose argument holds a blank or a quote is recorded in the log in a form
  that is not read back: the program aborts or rebuilds another selector, and a later operation may
  take a piece out of the middle of the rule (`AclText.SpacedRuleBroken`). Over every history from
  an empty selector the text rebuilds the selector at every point exactly when no recorded operation
  holds such a character (`AclText.RebuildsExactly`). For one rule added to a log that can be read
  back this is `AclRebuild.LogReadBack` and `AclRebuild.FirstArgumentReadBack`.
- A first argument keeps its letter case but is logged in lower case, so that rebuilding from the
  log changes it, exactly when it is not in lower case (`AclText.PlainRebuilds`).
- A BITFIELD assignment that saturates stores the maximum for a negative number in an unsigned
  field, and for a number far below the minimum of a signed field
  (`BitfieldCommand.UnsignedAssignment`, `BitfieldCommand.SignedAssignment`).
- A range given the wrong way round is accepted when merging joins it to a neighbour
  (`SlotRanges.ReversedExactly`), and range numbers are cut to 16 bits before they are checked
  (`SlotRangeText.PieceExactly`).
- When both heavy counts of a bucket are the largest 64-bit number, the search for the lower one
  finds none and the program goes on with the index -1 (`CuckooTable.TopK.FindSpot`).
- The comment above `handleClientsBlockedOnKeys` says that clients of another type are moved to the
  other end of the list; the code leaves them where they are
  (`BlockedClients.Server.HandleClientsBlockedOnKey`).
- The comment above the overflow checks promises -1 for underflow; with the wrap policy the code
  returns 1 for both directions. The lemmas state when the result is not zero.

## Model

| member | source | states |
|---|---|---|
| Crc64.ReflectInvolution | redis-stable/src/crc64.c:75-103 | reflecting a word twice gives the word |
| Crc64.ReflectShiftBits | redis-stable/src/crc64.c:113-136 | the reflection of the left-shift register after k bits of a byte is the right-shift register over the reversed polynomial |
| Crc64.FeedByte | redis-stable/src/crc64.c:118-130 | the mask loop feeds the eight bits of a byte, lowest first |
| Crc64.BitwiseCrc64 | redis-stable/src/crc64.c:113-136 | the bitwise checksum is the reflected register, which is the right-shift checksum of the data |
| Crc64.ChecksumContinue | redis-stable/src/crc64.c:146-148 | feeding two parts in turn is feeding their concatenation |
| Crc64.ChecksumSuperposition | redis-stable/src/crccombine.c:225-250 | the start value and the data contribute independently: the start value only passes through zero bits |
| Crc64.ChecksumConcat | redis-stable/src/crccombine.c:225-250 | the checksum of a concatenation is the first checksum moved over the second part's zero bits plus the second checksum |
| Gf2.TimesLinear | redis-stable/src/crccombine.c:47-112 | the matrix product is linear over GF(2) |
| CrcCombine.TimesFromNibble | redis-stable/src/crccombine.c:47-112 | four columns of the product are the switch on one nibble |
| CrcCombine.TimesSwitch | redis-stable/src/crccombine.c:47-112 | the nibble-switch loop computes the matrix product |
| CrcCombine.SquareDoubles | redis-stable/src/crccombine.c:172-177 | the square of the operator for n zero bits is the operator for 2n zero bits |
| CrcCombine.BitMatrixIsZeroOperator | redis-stable/src/crccombine.c:192-203 | the first matrix is the operator for one zero bit |
| CrcCombine.CombineCache.constructor | redis-stable/src/crccombine.c:180-181 | a fresh cache is ready for every polynomial |
| CrcCombine.CombineCache.Square | redis-stable/src/crccombine.c:172-177 | the square is written in place and no other level changes |
| CrcCombine.CombineCache.FillBitMatrix | redis-stable/src/crccombine.c:192-203 | the polynomial row followed by the shifted identity |
| CrcCombine.CombineCache.Init | redis-stable/src/crccombine.c:192-212 | level k is the zero operator for exactly 2^k bytes, for all levels |
| CrcCombine.SpanDigit | redis-stable/src/crccombine.c:233-245 | one binary digit of the length applies one level |
| CrcCombine.CombineCache.ApplyZeroBytes | redis-stable/src/crccombine.c:233-245 | the loop over the digits moves a checksum over that many zero bytes |
| CrcCombine.CombineCache.Combine | redis-stable/src/crccombine.c:225-250 | for every length the result is the first checksum over that many zero bytes plus the second, and a zero length gives the first |
| CrcCombine.MergedChecksum | redis-stable/src/crccombine.c:225-250 | combining the checksums of A and of B from zero gives the checksum of A followed by B, for all A and B |
| CrcCombine.CombineCache.CombineParts | redis-stable/src/crccombine.c:225-250 | checksumming A and B bit by bit on their own and combining the results returns the checksum of A followed by B |
| CrcSpeed.ZeroByte | redis-stable/src/crcspeed.c:47-63 | feeding eight zero bits is a table lookup on the low byte plus the shifted rest |
| CrcSpeed.InitTables | redis-stable/src/crcspeed.c:47-68 | row k of the tables is the effect of a byte followed by k zero bytes |
| CrcSpeed.FillFirstRow | redis-stable/src/crcspeed.c:50-54 | the first row holds the checksums of the single bytes |
| CrcSpeed.FillColumn | redis-stable/src/crcspeed.c:57-63 | each next row follows from the one before and the first |
| CrcSpeed.SliceFeedsEight | redis-stable/src/crcspeed.c:134-142 | eight lookups feed eight bytes at once |
| CrcSpeed.SegmentWord | redis-stable/src/crcspeed.c:130-142 | a stream's checksum after one more word |
| CrcSpeed.SegmentMerge | redis-stable/src/crcspeed.c:149-154 | merging two streams gives the checksum of both segments |
| CrcSpeed.TwoStreams | redis-stable/src/crcspeed.c:210-229 | two parallel streams give the checksum of the part they cover |
| CrcSpeed.ThreeStreams | redis-stable/src/crcspeed.c:187-209 | three parallel streams give the checksum of the part they cover |
| CrcSpeed.Crc64Little | redis-stable/src/crcspeed.c:174-248 | for every buffer, address and pair of cutoffs the fast version returns the same checksum as the bitwise one |
| AofManifest.NewIncrLoadable | redis-stable/src/aof.c:468-478 | a manifest with a new INCR file has climbing numbers and old history, and its next numbers are those of the files it lists |
| AofManifest.RewrittenLoadable | redis-stable/src/aof.c:440-465 | so does the manifest after a rewrite, which lists the new BASE and only the last INCR file |
| AofManifest.ManifestFile.Dup | redis-stable/src/aof.c:404-422 | a copy has the same content |
| AofManifest.ManifestFile.GetNewBaseFileName | redis-stable/src/aof.c:440-465 | the old BASE becomes history and the new one has the next number |
| AofManifest.ManifestFile.GetNewIncrFileName | redis-stable/src/aof.c:468-478 | an INCR file with the next number is added last |
| AofManifest.ManifestFile.MarkRewrittenAsHistory | redis-stable/src/aof.c:506-536 | all INCR files but the last become history, in their order, before the older history |
| SdsText.CatRepr | redis-stable/src/sds.c:951-976 | the loop prints a string in quotes with its escapes |
| SdsText.FindSpecial | redis-stable/src/sds.c:984-995 | the loop finds whether a character calls for quotes |
| SdsText.ReprReadBack | redis-stable/src/sds.c:1030-1142 | every byte string printed in quotes is split off as itself, whatever bytes it has |
| SdsText.NameReadBack | redis-stable/src/aof.c:118-127 | a name printed with quotes only where needed is split off as itself if and only if it is not empty and has no single quote outside double quotes |
| SdsText.QuoteInside | redis-stable/src/sds.c:1088-1126 | a single quote inside a bare word breaks the line or swallows at least two characters of the word |
| AofManifestText.Format | redis-stable/src/aof.c:118-142 | a line of the manifest, with the offsets that are set |
| AofManifestText.PrintList | redis-stable/src/aof.c:183-194 | the loop adds one line for each file |
| AofManifestText.ManifestString | redis-stable/src/aof.c:211-229 | the base, the history and the increments are printed in this order |
| AofManifestText.LoadManifest | redis-stable/src/aof.c:265-395 | the loop with its line buffer, comments and error exits gives the specified manifest or refuses |
| AofManifestText.LineReadBack | redis-stable/src/aof.c:316-347 | a printed line is read back as it was if and only if the name has no path, terminator or bare single quote, the number is not zero and there is no end offset without a start offset; its kind never changes |
| AofManifestText.TextReadBack | redis-stable/src/aof.c:283-347 | a printed text gives the same lines if and only if each of them is read back and fits the buffer |
| AofManifestText.AssembleExactly | redis-stable/src/aof.c:352-372 | lines in printing order make the manifest that lists them if and only if the INCR numbers climb from above zero; otherwise they are refused |
| AofManifestText.ManifestReadBack | redis-stable/src/aof.c:211-395 | for every manifest: what is loaded from its text is that manifest if and only if it lists a file, its INCR numbers climb and every line is readable and fits |
| AofManifestText.ListingReadBack | redis-stable/src/aof.c:440-478 | the manifests that creating and rewriting files can make are loaded with the same files, history included, and the same next numbers if and only if every line is readable and fits |
| AofManifestText.PrefixDecides | redis-stable/src/aof.c:453-472 | whether a file name can be read back is decided by the configured prefix alone |
| AofManifestText.QuotedNameRefused | redis-stable/src/aof.c:118-395 | with one bare single quote in any file name the manifest is refused |
| AofRewrite.FlushKeeps | redis-stable/src/aof.c:1147-1321 | a flush of any part of the buffer keeps the invariant of persistence |
| AofRewrite.OpenKeeps | redis-stable/src/aof.c:804-868 | so does creating the next INCR file, or failing to |
| AofRewrite.PersistIncrKeeps | redis-stable/src/aof.c:804-868 | so does writing the manifest that lists it, or failing to |
| AofRewrite.ForkKeeps | redis-stable/src/aof.c:2652-2720 | so does forking the child, or failing to |
| AofRewrite.RenameKeeps | redis-stable/src/aof.c:2835-2905 | so does renaming the snapshot, or failing to |
| AofRewrite.PersistBaseKeeps | redis-stable/src/aof.c:2905-2934 | so does switching the manifest to the new BASE, or failing before the switch |
| AofRewrite.DeleteKeeps | redis-stable/src/aof.c:682-706 | so does deleting a history file |
| AofRewrite.RestartKeeps | redis-stable/src/aof.c:241-262 | so does a crash and a restart at any point |
| AofRewrite.StepKeeps | redis-stable/src/aof.c:2809-2934 | every step of the protocol keeps the invariant, as long as a rewrite starts with an empty buffer |
| AofRewrite.RunKeeps | redis-stable/src/aof.c:2652-2934 | so does every run |
| AofRewrite.FlushedIsRecovered | redis-stable/src/aof.c:2652-2934 | after any run from a fresh server, crashes included, the files on disk replay to the dataset after all flushed commands |
| AofRewrite.UndrainedRewriteReplaysTwice | redis-stable/src/aof.c:2652-2720 | a rewrite started with a non-empty buffer recovers a dataset with the buffered commands applied twice |
| AofRewrite.UndrainedRewriteExact | redis-stable/src/aof.c:2652-2720 | such a rewrite recovers what was flushed if and only if the buffer was empty |
| AofRewrite.FailedPersistExact | redis-stable/src/aof.c:539-631 | after a failed manifest write there is something to recover if and only if the old manifest was not replaced yet, and then it is unharmed |
| AofFlush.FlushConserves | redis-stable/src/aof.c:1147-1321 | a flush keeps file plus buffer equal to all bytes fed if and only if the write position is at the end or no byte stays in the file |
| AofFlush.FlushAligned | redis-stable/src/aof.c:1245-1280 | it leaves the write position at the end if and only if the file is in append mode or no short write was cut off |
| AofFlush.AppendRunConserves | redis-stable/src/aof.c:1109-1321 | in append mode every run of feeds and flushes, with any short writes, errors and truncations, loses and repeats nothing |
| AofFlush.RunConservesExactly | redis-stable/src/aof.c:1109-1321 | outside append mode every state of a run is conserved if and only if no flush that keeps bytes comes after a short write that was cut off |
| AofFlush.UncutRunConserves | redis-stable/src/aof.c:1109-1321 | in particular every run without a successful truncation is |
| AofFlush.CutShortWriteLeavesHole | redis-stable/src/aof.c:804-868 | without append mode a cut short write makes the next flush leave a hole of zeroes |
| AofFlush.AppendOnlyFile.FeedBuffer | redis-stable/src/aof.c:1438-1445 | the encoded bytes are added to the buffer |
| AofFlush.AppendOnlyFile.Write | redis-stable/src/aof.c:1109-1126 | the write loop puts out what the results of the system calls allow and returns their sum, or -1 |
| AofFlush.AppendOnlyFile.FlushBuffer | redis-stable/src/aof.c:1147-1321 | the file, the buffer and the recorded size after a flush, when the server exits instead, and the recorded status |
| AofFsync.MainKeeps | redis-stable/src/aof.c:1152-1181 | every step of the main thread keeps the invariant of published offsets |
| AofFsync.QueueKeeps | redis-stable/src/bio.c:181-189 | so does queueing a job |
| AofFsync.WorkerKeeps | redis-stable/src/bio.c:281-369 | so does every step of the worker that does not fail |
| AofFsync.RunKeeps | redis-stable/src/bio.c:281-369 | so does every interleaving |
| AofFsync.PublishedIsDurable | redis-stable/src/aof.c:1323-1354 | under every interleaving without a failed fsync the published offset never exceeds one whose bytes are all durable |
| AofFsync.StepSafeExactly | redis-stable/src/bio.c:281-369 | every step, a failed fsync included, keeps the weak invariant, and keeps the published offset durable if and only if it does not publish while bytes are not synced |
| AofFsync.RunSafeExactly | redis-stable/src/aof.c:1152-1354 | over every interleaving with failures each state is safe if and only if no step publishes while bytes are not synced |
| AofFsync.StepTracks | redis-stable/src/bio.c:281-369 | whether bytes are not synced at an idle publish is told by the steps alone: bytes were written and an fsync failed since the last good one |
| AofFsync.PublishedIsDurableExactly | redis-stable/src/aof.c:1152-1354 | for every run from the start the published offset is durable throughout if and only if the main thread never publishes on seeing no job after an fsync of bytes written since the last good one has failed |
| AofFsync.FailedFsyncExact | redis-stable/src/bio.c:300-335 | an example: with one job in flight and nothing else to do, the offset published afterwards is durable if and only if the fsync succeeds or nothing was left to sync |
| AofLoad.CommandWhole | redis-stable/src/aof.c:1581-1680 | a command wholly in the file is read back with all its arguments |
| AofLoad.CommandCut | redis-stable/src/aof.c:1581-1680 | a command cut anywhere, also inside a number, is reported as short and never misread |
| AofLoad.WholeCommandsMaximal | redis-stable/src/aof.c:1718-1735 | the commands counted as whole fit the prefix and one more would not |
| AofLoad.LoadPrefix | redis-stable/src/aof.c:1581-1735 | loading any prefix of any encoded log: the commands wholly in it take effect up to the last point outside a transaction; the file is cut after them, or before the last MULTI if it ends between commands of a transaction |
| AofLoad.KeptExactly | redis-stable/src/aof.c:1660-1735 | the file that is left encodes exactly the commands that took effect if and only if no transaction is open at its end, or it ends between commands and the last MULTI opened the transaction |
| AofLoad.TransactionKeptExactly | redis-stable/src/aof.c:1660-1735 | for logs without nested MULTI this is so if and only if the file did not end inside a command of an open transaction |
| AofLoad.LostBehindBlock | redis-stable/src/aof.c:1660-1711 | behind a transaction left open nothing takes effect, whatever is appended, as long as no EXEC is |
| AofLoad.CutTransaction | redis-stable/src/aof.c:1660-1735 | the failing input: a transaction cut inside its second command stays in the file, the command written next is lost, and the next EXEC makes the first command take effect |
| AofLoad.LoadWhole | redis-stable/src/aof.c:1357-1380 | loading a whole encoded log that ends outside a transaction returns the commands |
| AofLoad.CountsFit | redis-stable/src/aof.c:1581-1600 | every 64-bit count and length fits the line the loader reads |
| AofLoad.CatCommand | redis-stable/src/aof.c:1357-1380 | the generic encoding of a command is appended |
| AofLoad.LoadArgs | redis-stable/src/aof.c:1617-1650 | the argument loop reads the arguments as specified |
| AofLoad.LoadCommand | redis-stable/src/aof.c:1581-1650 | so does the reading of one command |
| AofLoad.LoadAppendOnlyFile | redis-stable/src/aof.c:1507-1735 | the loading loop with its queue, the two valid offsets and the truncations gives the specified outcome |
| AofRecovery.FlushSeen | redis-stable/src/aof.c:1147-1321 | a flush of bytes that stops anywhere, cut off or not, is a flush of the commands and transactions it completes |
| AofRecovery.RestartSeen | redis-stable/src/aof.c:1775-1898 | a crash and a restart on a file that does not end inside a command of an open transaction cuts it to what took effect and is a restart on commands |
| AofRecovery.RecoverSeen | redis-stable/src/aof.c:1775-1898 | loading the files byte by byte, the last one cut anywhere, gives the dataset of the commands that take effect |
| AofRecovery.StepSeen | redis-stable/src/aof.c:1147-1321 | every step over bytes is a step of the rewrite protocol over commands |
| AofRecovery.RunKeeps | redis-stable/src/aof.c:2652-2934 | every run over bytes keeps the invariant of persistence and files of whole commands |
| AofRecovery.WrittenIsRecovered | redis-stable/src/aof.c:1775-1898 | after any run from the first start, with flushes that stop inside commands and transactions, failed rewrites and crashes, loading gives exactly the dataset after the commands wholly on disk, transactions all or nothing |
| AofRecovery.RestartKeepsWriting | redis-stable/src/aof.c:1660-1735 | in every state of such a run: a command written after a restart is recovered the next time if and only if the file had not ended inside a command of an open transaction |
| AclRules.Lookup | redis-stable/src/server.c:3503-3525 | what is found has the full name that was looked up |
| AclCompaction.ApplyWrites | redis-stable/src/acl.c:632-668 | which bits and first arguments a rule writes, and to what; everything else is left |
| AclCompaction.OverruledIsCovered | redis-stable/src/acl.c:574-616 | a rule removed from the log wrote nothing that the new rule does not write |
| AclCompaction.RemoveKeeps | redis-stable/src/acl.c:574-616 | removal takes exactly the overruled rules and keeps the log compact |
| AclCompaction.ReplayWithout | redis-stable/src/acl.c:574-628 | replaying without the removed rules differs at most where the new rule writes |
| AclCompaction.CompactedReplay | redis-stable/src/acl.c:620-628 | applying a rule is the same as replaying the compacted log with the rule at its end |
| AclCompaction.RerunKeepsLog | redis-stable/src/acl.c:673-706 | running a compact log from its base records the same log again |
| AclCompaction.RecomputeRebuilds | redis-stable/src/acl.c:673-706 | recomputing finds every rule valid, rebuilds the same bits and first arguments and leaves the log unchanged |
| AclCase.AnyCaseFolds | redis-stable/src/acl.c:1037-1212 | an operation in any letter case has the effect, or the error, of the lower-case one, with first arguments compared in lower case |
| AclSplit.SplitJoin | redis-stable/src/sds.c:1047-1142 | a log of any rules joined by spaces is split back into them if and only if no rule is empty, starts with a blank or holds a blank that ends a word, a quote or a terminator |
| AclRebuild.LogReadBack | redis-stable/src/acl.c:673-706 | on a log that can be read back, an accepted operation leaves one that can be if and only if it sets everything or holds no such character |
| AclRebuild.FirstArgumentReadBack | redis-stable/src/acl.c:1140-1206 | a first-argument rule added to any such log leaves it readable if and only if its argument holds no such character |
| AclRebuild.RunOfLog | redis-stable/src/acl.c:673-706 | every rule of a log is accepted again, and applying them from the base gives the same bits and log, and the first arguments in lower case |
| AclRebuild.RebuiltExactly | redis-stable/src/acl.c:673-706 | reading the rules back from the text gives the same list if and only if every rule is plain; then the bits are the same, and the first arguments are if and only if they are in lower case |
| AclText.StepOnRules | redis-stable/src/acl.c:574-628 | on a log without spaces an operation on the text is the operation on the list of rules |
| AclText.SetTextSound | redis-stable/src/acl.c:1037-1212 | on such a log an accepted operation keeps the permissions equal to the replay of the compacted log, up to the case of first arguments |
| AclText.TextConsistent | redis-stable/src/acl.c:1037-1212 | so does every history of operations, refused ones included and in any letter case, that records no space |
| AclText.PlainRebuilds | redis-stable/src/acl.c:673-706 | a selector whose rules are plain is rebuilt from its text with the same text and bits, and the first arguments are the same if and only if they are in lower case |
| AclText.UnblandLost | redis-stable/src/acl.c:673-706 | on a plain log an operation with a blank or a quote leaves a text from which the selector is not rebuilt |
| AclText.RebuildsExactly | redis-stable/src/acl.c:1037-1212 | over every history of operations the text rebuilds the selector at every point if and only if no recorded operation holds a blank that ends a word or a quote |
| AclText.SpacedRuleBroken | redis-stable/src/acl.c:574-628 | the failing input: after a first argument `a xget` of SELECT the operation `+get` takes a piece out of the middle of that rule |
| AclText.DescriptionRestores | redis-stable/src/acl.c:760-813 | applying the description of a plain log to any selector restores text and bits, and first arguments in lower case |
| AclRuleText.FindChar | redis-stable/src/acl.c:583-590 | the first position of a character before the terminator |
| AclRuleText.MoveDown | redis-stable/src/acl.c:600-608 | the overlapping move copies the tail down |
| AclRuleText.DropRange | redis-stable/src/acl.c:600-608 | a stretch of the string is removed in place with its terminator |
| AclRuleText.SameRule | redis-stable/src/acl.c:590-600 | the comparison with its length checks decides whether the new rule overrules the old one |
| AclRuleText.Iteration | redis-stable/src/acl.c:580-612 | one pass of the loop keeps or removes one piece of the text with its separator |
| AclRuleText.RemoveCommandRule | redis-stable/src/acl.c:574-616 | on every text the byte-moving loop ends with the text without the overruled pieces |
| AclRuleText.RemoveRules | redis-stable/src/acl.c:574-616 | on rules without spaces it leaves the text of exactly the rules that are not overruled, in order, without stray spaces |
| AclRuleText.PiecesRemoved | redis-stable/src/acl.c:574-616 | on every text the pieces left are exactly those not overruled, in order |
| AclSelector.CommandSelector.constructor | redis-stable/src/acl.c:348-365 | a new selector allows nothing and has an empty log |
| AclSelector.CommandSelector.SetCommandBit | redis-stable/src/acl.c:560-569 | one bit is set or cleared, and a cleared bit clears the all-commands flag |
| AclSelector.CommandSelector.ResetFirstArgsForCommand | redis-stable/src/acl.c:918-925 | the first arguments of one command are forgotten |
| AclSelector.CommandSelector.AddAllowedFirstArg | redis-stable/src/acl.c:945-971 | one first argument is added as given, unless it is there in any letter case |
| AclSelector.CommandSelector.ChangePerm | redis-stable/src/acl.c:632-646 | a command is granted or revoked with its subcommands and first arguments |
| AclSelector.CommandSelector.SetCommandBitsForCategory | redis-stable/src/acl.c:654-668 | a category is granted or revoked over the whole command table |
| AclSelector.CommandSelector.UpdateCommandRules | redis-stable/src/acl.c:620-628 | the text loses the overruled pieces and gains the new rule in lower case |
| AclSelector.CommandSelector.ChangePermissions | redis-stable/src/acl.c:1037-1212 | the permissions change as the operation says, in any letter case |
| AclSelector.CommandSelector.SetEverything | redis-stable/src/acl.c:1054-1067 | everything or nothing is granted and the log is empty |
| AclSelector.CommandSelector.Operate | redis-stable/src/acl.c:1037-1212 | each operation, in any letter case and on any log, has the specified effect or error, and an error changes nothing |
| AclSelector.CommandSelector.ApplyLog | redis-stable/src/acl.c:682-704 | applying words one by one works if and only if each is accepted, and gives the specified selector |
| AclSelector.CommandSelector.Recompute | redis-stable/src/acl.c:673-706 | it works if and only if the text can be split and every word is accepted, and then gives what the text says: the same text and bits, and first arguments in lower case, for every selector that its text rebuilds |
| AclSelector.CommandSelector.Describe | redis-stable/src/acl.c:760-813 | the base followed by the log if the text can be split, is accepted and gives the same bitmap, and an abort otherwise; never an abort for a selector that its text rebuilds |
| BlockedClients.Server.BlockClient | redis-stable/src/blocked.c:74-87 | the counts per kind and of regular clients stay right when a client blocks |
| BlockedClients.Server.WaitForKey | redis-stable/src/blocked.c:399-430 | a client joins one list at its end and both sides of the index and the key count agree |
| BlockedClients.Server.BlockForKeys | redis-stable/src/blocked.c:388-437 | the client waits last on the list of each of its keys, once even for repeated keys, no other list changes, and all indexes and counts stay right |
| BlockedClients.Server.ReleaseBlockedEntry | redis-stable/src/blocked.c:536-569 | the client leaves one list; an empty list and a zero count are removed |
| BlockedClients.Server.UnblockWaitingData | redis-stable/src/blocked.c:443-457 | the client leaves exactly the lists it stood on, in whatever order |
| BlockedClients.Server.UnblockClient | redis-stable/src/blocked.c:184-215 | the client is on no list and in no count afterwards, the others keep their order, and all indexes and counts stay right |
| BlockedClients.Server.ReleaseAndForget | redis-stable/src/blocked.c:536-569 | releasing one key on both sides keeps the indexes while the client stays blocked |
| BlockedClients.Server.UnblockClientOnKey | redis-stable/src/blocked.c:666-681 | releasing the ready key first and the rest afterwards is the same as unblocking |
| BlockedClients.Server.BlockOnOther | redis-stable/src/blocked.c:621-660 | blocking on something else keeps all indexes and counts right |
| BlockedClients.Server.Connect | redis-stable/src/blocked.c:61-69 | a new client keeps all indexes and counts right |
| BlockedClients.Server.Disconnect | redis-stable/src/networking.c:2140-2150 | a freed client is on no list |
| BlockedClients.WaiterFound | redis-stable/src/blocked.c:491-500 | the lookups of a signal say whether any client waits, or waits for the key's deletion |
| BlockedClients.MatchQueues | redis-stable/src/blocked.c:478-500 | the quick returns of a signal never miss a matching client |
| BlockedClients.Server.SignalKeyAsReady | redis-stable/src/blocked.c:476-523 | a key is queued if and only if it is not queued yet, clients of a fitting kind are blocked and somebody waits for it; never twice; and queue and marks agree, also while other keys are being served |
| BlockedClients.Server.ServeReceiver | redis-stable/src/blocked.c:600-617 | one client's turn: who is handed the key, what its command may change, and no queued key is lost |
| BlockedClients.Server.HandleClientsBlockedOnKey | redis-stable/src/blocked.c:582-618 | every client waiting at the start gets one turn in order; those not served keep their place, those that block again come last, and nobody else changes |
| BlockedClients.Server.ServeNext | redis-stable/src/blocked.c:360-374 | the key's mark goes before it is served, so it can be queued again |
| BlockedClients.Server.ServeRound | redis-stable/src/blocked.c:350-376 | one round serves the queue as it stood while new signals gather in a fresh one |
| BlockedClients.Server.HandleClientsBlockedOnKeys | redis-stable/src/blocked.c:335-379 | for every finite script of command effects, serving ends with no key queued or marked; the keys served are those queued at the start followed by all keys queued meanwhile, in the order of queueing |
| BitOp.FastNext | redis-stable/src/bitops.c:1228-1330 | what one bit of a block holds after one more string, for each operation |
| BitOp.FastEnd | redis-stable/src/bitops.c:1270-1330 | after all strings and the closing step the bit has its meaning |
| BitOp.CombineBlock | redis-stable/src/bitops.c:1228-1330 | all strings go into the four words of a block |
| BitOp.FirstPass | redis-stable/src/bitops.c:1189-1330 | the first pass over all blocks |
| BitOp.SecondPass | redis-stable/src/bitops.c:1268-1303 | the second pass of DIFF, DIFF1 and ANDOR |
| BitOp.WordPath | redis-stable/src/bitops.c:1189-1330 | every bit of whole blocks has its meaning |
| BitOp.SlowNext | redis-stable/src/bitops.c:1342-1405 | what one bit of a byte's variables holds after one more string |
| BitOp.SlowEnd | redis-stable/src/bitops.c:1400-1426 | at the end, or as soon as the rest is skipped, the bit has its meaning |
| BitOp.CombineByte | redis-stable/src/bitops.c:1335-1426 | a byte of the result, with the early exit |
| BitOp.BytePath | redis-stable/src/bitops.c:1333-1426 | the bytes left over by the word path |
| BitOp.Lookup | redis-stable/src/bitops.c:1132-1159 | missing keys are empty strings, a wrong type is an error, and the shortest and longest lengths |
| BitOp.Bitop | redis-stable/src/bitops.c:1080-1455 | for any keys of any lengths each bit of the result is the operation over the zero-extended strings, ONE exactly when one string has it; the result has the longest length; and the error cases |
| Bitfield.SetUnsignedBitfield | redis-stable/src/bitops.c:498-511 | the loop writes the bits one at a time, most significant first |
| Bitfield.GetUnsignedBitfield | redis-stable/src/bitops.c:518-530 | the loop reads the number in the field |
| Bitfield.WrittenBits | redis-stable/src/bitops.c:498-511 | the field holds the digits of the value and every other bit of the buffer is unchanged |
| Bitfield.WriteThenRead | redis-stable/src/bitops.c:498-530 | a field of n bits reads back what was written modulo 2^n, at any offset and width |
| Bitfield.ReadElsewhere | redis-stable/src/bitops.c:498-530 | a disjoint field reads as before |
| Bitfield.WritesCommute | redis-stable/src/bitops.c:498-511 | writes to disjoint fields commute, byte for byte |
| BitfieldCommand.WrappedUnique | redis-stable/src/bitops.c:605-667 | the wrapped value is the one value in range congruent to the sum |
| BitfieldCommand.SignedWrapped | redis-stable/src/bitops.c:648-666 | copying the sign bit over the higher bits gives the wrapped value |
| BitfieldCommand.UnsignedIncrement | redis-stable/src/bitops.c:577-612 | for widths 1 to 63, any value in range and any 64-bit increment: flagged if and only if the exact sum does not fit, and the limit is the clamped or wrapped sum |
| BitfieldCommand.SignedIncrement | redis-stable/src/bitops.c:614-667 | the same for signed widths 1 to 64, although the intermediates may wrap |
| BitfieldCommand.UnsignedAssignment | redis-stable/src/bitops.c:577-612 | an assignment is flagged if and only if the number does not fit, and the limit is right if and only if it is not a negative number to be saturated |
| BitfieldCommand.SignedAssignment | redis-stable/src/bitops.c:614-667 | the same for signed fields, where saturation fails exactly for numbers too far below the maximum |
| BitfieldCommand.LowestSaturatesHigh | redis-stable/src/bitops.c:614-667 | the lowest 64-bit number saturates to 127 in a signed byte |
| BitfieldCommand.GetSignedBitfield | redis-stable/src/bitops.c:532-552 | the field read as a two's complement number |
| BitfieldCommand.FieldReadBack | redis-stable/src/bitops.c:513-552 | a number in range is read back as itself, signed or not |
| BitfieldCommand.IncrementField | redis-stable/src/bitops.c:1838-1908 | INCRBY replies and stores the outcome of the exact sum under the policy, or changes nothing |
| BitfieldCommand.AssignField | redis-stable/src/bitops.c:1838-1908 | SET replies the old value and stores the number the policy gives, or changes nothing |
| BitfieldCommand.GetField | redis-stable/src/bitops.c:1909-1942 | GET reads the field of the string extended with zeroes, through the nine byte copy |
| Popcount.TableIsCount | redis-stable/src/bitops.c:51-59 | the macro-built table counts the bits of a byte |
| Popcount.WordCount | redis-stable/src/bitops.c:123-137 | each byte of the parallel sum counts the bits of one byte of the word |
| Popcount.GatherLanes | redis-stable/src/bitops.c:138-145 | the product gathers the four byte sums in the top byte, without a carry |
| Popcount.GroupCount | redis-stable/src/bitops.c:110-146 | seven words in parallel give the number of bits in 28 bytes |
| Popcount.CountBits | redis-stable/src/bitops.c:65-154 | head, groups and tail give the number of bits for every length and address |
| SlotHash.KeyHashSlot | redis-stable/src/cluster.h:59-78 | the tag between the first opening brace and the next closing one, or the whole key, is hashed |
| SlotHash.LiteralPrefix | redis-stable/src/util.c:65-205 | a key that matches a pattern starts with the pattern's literal part, and is it if nothing follows |
| SlotHash.TagOfPrefix | redis-stable/src/cluster.h:59-78 | a key's tag is decided by its start up to the closing brace |
| SlotHash.PatternHashSlot | redis-stable/src/cluster.c:35-60 | if a slot is returned every key the pattern matches has it; none is returned if and only if a special character comes before the end of the tag |
| SlotRanges.MergedTimes | redis-stable/src/cluster.c:1894-1907 | merging well-formed ranges leaves every slot as often as it was |
| SlotRanges.MergedSpaced | redis-stable/src/cluster.c:1894-1907 | merging sorted ranges leaves no two adjacent ranges |
| SlotRanges.TimesReordered | redis-stable/src/cluster.c:1881-1897 | sorting leaves every slot as often as it was |
| SlotRanges.CheckedExactly | redis-stable/src/cluster.c:1770-1805 | for well-formed ranges the checks after merging succeed if and only if the given ranges are in bounds and disjoint, and then the array is normal |
| SlotRanges.NormalUnique | redis-stable/src/cluster.c:1910-1923 | two normal arrays with the same slots are equal |
| SlotRanges.ReversedExactly | redis-stable/src/cluster.c:1770-1805 | an accepted array was well formed if and only if no reversed range was joined to another one |
| SlotRanges.ReversedAccepted | redis-stable/src/cluster.c:1770-1805 | 1-4 with 5-2 is accepted as 1-2 |
| SlotRangeArray.MergeInPlace | redis-stable/src/cluster.c:1899-1906 | the loop joins adjacent ranges in place |
| SlotRangeArray.Mark | redis-stable/src/cluster.c:1796-1802 | the slots of a range are marked, unless one is already |
| SlotRangeArray.Slots.SortAndMerge | redis-stable/src/cluster.c:1894-1907 | the merged form of whatever order the sort leaves |
| SlotRangeArray.Slots.Check | redis-stable/src/cluster.c:1782-1803 | the marks answer whether ranges are in bounds, well formed and disjoint |
| SlotRangeArray.Slots.NormalizeAndValidate | redis-stable/src/cluster.c:1770-1805 | for well-formed ranges yes if and only if they are few enough, in bounds and disjoint, and then the array is normal and has the same slots |
| SlotRangeArray.Slots.Extend | redis-stable/src/cluster.c:1946-1967 | the last range grows or a new one follows, with the buffer growing as needed |
| SlotRangeArray.Append | redis-stable/src/cluster.c:1937-1967 | so for an existing array; a missing one is made with the one slot |
| SlotRangeArray.LocalSlotRanges | redis-stable/src/cluster.c:2081-2098 | the ranges built slot by slot are in normal form and have exactly the slots of the master, or all slots outside a cluster |
| SlotRangeArray.ExtendedNormal | redis-stable/src/cluster.c:1937-1967 | an appended slot keeps the normal form and adds that slot alone |
| SlotRangeArray.IsEqual | redis-stable/src/cluster.c:1910-1923 | for arrays without repeated slots, also an array and itself, yes if and only if they cover the same slots |
| SlotRangeText.ParseDecimal | redis-stable/src/util.c:484-548 | every non-negative 64-bit number is read back from its decimal form |
| SlotRangeText.PieceExactly | redis-stable/src/cluster.c:1854-1865 | a range is read as printed if and only if its numbers fit in 16 bits |
| SlotRangeText.SplitPrint | redis-stable/src/cluster.c:1828-1841 | the text is split back into the texts of its ranges |
| SlotRangeText.ToString | redis-stable/src/cluster.c:1828-1841 | the loop and the cut of the last space give the text |
| SlotRangeText.FromString | redis-stable/src/cluster.c:1844-1879 | an array is returned if and only if every part is a range and the array passes the checks |
| SlotRangeText.RoundTrip | redis-stable/src/cluster.c:1828-1879 | a normal array within the limit is read back from its text as it is |
| CuckooTable.AltInvolution | redis-stable/src/chk.c:169-171 | the alternate index of the alternate index is the index |
| CuckooTable.MoveKeepsHome | redis-stable/src/chk.c:173-186 | moving an entry keeps its home bucket, and its lookup probes wherever it is |
| CuckooTable.EntryIsProbed | redis-stable/src/chk.c:173-186 | every entry in the tables is in one of the two buckets its lookup probes |
| CuckooTable.PutTokens | redis-stable/src/chk.c:262-280 | replacing an entry exchanges exactly the two |
| CuckooTable.TopK.FindSpot | redis-stable/src/chk.c:262-277 | the first empty spot, or else the first with the lowest count; -1 if and only if both counts are the largest number |
| CuckooTable.TopK.Kick | redis-stable/src/chk.c:254-280 | one kick, or none where there is no spot, conserves all entries together with the one that is out |
| CuckooTable.TopK.Kickout | redis-stable/src/chk.c:248-281 | the bounded loop conserves all entries with their counts and homes except at most one; the entry left out and the final tables are those of at most sixteen kicks, each into the first empty spot or the lower count |

## Left out

- AclRules.Lookup: command names are compared exactly; letter case is reduced to this by AclCase.AnyCaseFolds.
- AofManifest.NewIncrLoadable: the listing is a record of numbers; the text of the manifest is in AofManifestText.ListingReadBack.
- AofManifest.RewrittenLoadable: the listing is a record of numbers; the text of the manifest is in AofManifestText.ListingReadBack.
- AofRewrite.FlushKeeps: flushes whole commands; flushes that stop inside a command are in AofRecovery.FlushSeen.
- AofRewrite.FlushedIsRecovered: recovers whole commands; files cut inside a command are in AofRecovery.WrittenIsRecovered.
- AofRecovery.WrittenIsRecovered: leaves out flushes that leave a hole, rewrites started with a buffer that could not be written out, and restarts on a file that ends inside a command of an open transaction; AofFlush.RunConservesExactly, AofRewrite.UndrainedRewriteExact and AofRecovery.RestartKeepsWriting say exactly when these lose or repeat data.
- AofFlush.AppendOnlyFile.FeedBuffer: the SELECT command and the timestamp that may precede a command are not modelled.
- CuckooTable.TopK.Kickout: whether a count is heavy is a parameter, because the program decides it in floating point; buckets are addressed by the machine word of their index.
- Crc64.BitwiseCrc64: the register has 64 bits; other sizes of the checksum are not modelled.
- BlockedClients.Server.ServeReceiver: what a command does when it runs again is a parameter: the value of the key at its turn, the keys it signals, and whether it blocks again.
- SIMD and POPCNT versions of the checksum, the bit count and BITOP, big-endian tables, and CRC-16.
- ACL keys, channels and passwords; the category table itself is data of the model.
- Temporary INCR files while a first rewrite is pending, and the AOF upgrade.
- Loading with `aof-load-truncated` off, with `aof-load-corrupt-tail-max-size` set, or when the truncation itself fails.
- RDB snapshots inside AOF files, timestamps, SELECT, DISCARD and unknown commands while loading; what a command does, MULTI and EXEC included, is a parameter.
- Failures of the fsync of files and directories during a rewrite, other than as a failed step.
- The fsync policies' timing, and the postponing of flushes while a background fsync is running.
- Timeouts of blocked clients, reprocessing of their commands, replies, and the lists of clients waiting for replicas or postponed; a client keeps its database while it is blocked.
- BITCOUNT ranges, BITPOS, SETBIT and GETBIT, argument parsing and the growing of strings before BITFIELD.
- Glob patterns compare characters as unsigned and never ignore letter case.
- The lobby entries, decay and heap of the top-K structure.
- Memory management and reference counts.
