# ChaosLabs in Dafny

A Dafny 4.11 model of the parts of ChaosLabs where correctness is hard to see by reading: the
diff-emit engine of the controller, the export pipeline and the CLI that verifies it, the netem
experiment manager and the timing-wheel scheduler of the agent, the broadcast queues of the
notifier, and the deduplicating writer. `dafny verify dfyconfig.toml` checks everything.

Each stateful component has two layers. A specification layer gives its operations as functions on
a state and proves what every step and every run keeps. An imperative layer (a class, or a method
with loops) is proved equal to those functions, for every order in which Go may iterate a map and
for every answer the outside world may give (failing `tc` commands, refused stores, clock
readings, interrupted downloads), which appear as parameters.

| file | models |
|---|---|
| `Json.dfy`, `FieldDiff.dfy`, `DiffEmit.dfy` | values, ignored fields and normal forms; array, map and field diffs; the engine, its cache and its subscribers |
| `Merkle.dfy`, `Export.dfy`, `RangeDownload.dfy` | the Merkle fold; chunks, manifest and the CLI checks; range requests and resuming clients |
| `Csv.dfy`, `ExportCompare.dfy` | the CSV formatter with an RFC 4180 reader; the comparison of two exports |
| `NetemConfig.dfy`, `Netem.dfy`, `NetemManager.dfy` | merging and `tc` arguments; the manager as a transition system with timers and cleanup; its methods |
| `Wheels.dfy`, `Scheduler.dfy`, `TimingScheduler.dfy` | the four wheels; scheduling, ticking and completing with full accounts; its methods |
| `Notifier.dfy`, `Writer.dfy` | filters and bounded queues; the three consumer loops |
| `Decimal.dfy`, `Wrappers.dfy` | decimal printing; the option type |

Modelling decisions that a reader should know:

- Hash functions are parameters. A fixed-width hash cannot be injective, so the theorems ask only
  that it does not collide on the finitely many strings (or normal forms) hashed in the situation
  they speak about, and, for the Merkle results, that its output has 64 characters.
- Go strings and byte slices are both `string`. JSON numbers are reals. `reflect.DeepEqual` is
  equality of JSON values. `%v` renderings are a parameter (`show`) or already done (CSV values).
- A section executed under a mutex is one step. The cleanup loop of the netem manager, which
  releases the lock between its scan and its reverts, is several steps; so are the check, the
  insert and the mark of the writer.
- Time is an integer. Netem percentages are whole hundredths, the precision at which they are printed.

Where the code does not do what its comments say or what one would expect, the model keeps the code,
a lemma gives the input, and another says exactly when the expectation holds:

| expectation | fails for | holds exactly when |
|---|---|---|
| subscribers stay in sync | `DiffEmit.LargeThresholdLosesChange` | `DiffEmit.SyncOverRuns`: no change that the subscriber lacks falls below the threshold |
| files that pass the checks are the export | `Export.RepeatedFilePasses`, `Export.TwoChecksumsPass` | `Export.CountBindsExactly`: as many files as in the original; `Export.LongerListingExactly`: longer lists exist unless the count is a power of two |
| the CSV reads back | any header with a comma | `Csv.RoundTripExactly`: plain headers, and no value with a line break but neither comma nor quote |
| ranges follow the RFC | first position beyond 64 bits | `RangeDownload.AgreesWithRfcExactly` |
| an experiment is not reverted before its TTL | `Netem.ReusedIdEndsEarly` | `Netem.ReuseEndsEarlyExactly`: at the call no scan holds the ID and no timer of it is due before the new TTL |
| netem is only where an experiment is live | a failed delete | `Netem.OrphanFreeOverRuns`: no event leaves it behind |
| `CurrentConfig` is what the kernel has | `Netem.SecondRevertMisrecords` | `Netem.RecordExactly`, `Netem.RecordFromStart` |
| an Apply merges with what is there | any smaller configuration | `Netem.ApplyMergesExactly`: it covers every other live configuration |
| a scheduled operation runs | `Scheduler.PunctualTickStrands` | `Scheduler.StrandedExactlyWhenDropped`: no tick reaches it before its time; `Scheduler.ReachedAtFirstHit` says which tick reaches it |
| a delay is waited for | `Wheels.DelayCutShort` | `Wheels.WaitsExactly`: the wheel starts a round when the part of the delay it does not count is over |
| an event is stored once | `Writer.RaceInsertsTwice` | `Writer.RowBoundExactly`: it occurs on at most one stream |

The comment at `controller/writer_service.go:260` promises to keep the last 10000 IDs; the code clears
them all, and the model follows the code. No request sets a run limit, so the limit that the rescheduling
code tests is always 0 (`Scheduler.RepeatingStays`).

## Model

| member | source | states |
|---|---|---|
| `Json.ShouldIgnoreField` | controller/diff_emit_engine.go:499-513 | the loop answers true exactly for fields named by a pattern or covered by a trailing-star prefix |
| `Json.IgnoredExactly` | controller/diff_emit_engine.go:499-513 | a field is ignored if and only if a pattern is the field, or some beginning of it followed by a star |
| `Json.NormalFormDecidesAgreement` | controller/diff_emit_engine.go:468-497 | two values have equal normal forms if and only if a plain recursive comparison that skips ignored fields at every depth finds no difference |
| `Json.NormalizeIdempotent` | controller/diff_emit_engine.go:468-497 | normalising a normal form changes nothing |
| `FieldDiff.ComputeArrayDiff` | controller/diff_emit_engine.go:352-395 | the loop produces the change list and length change whose inversion is proved below |
| `FieldDiff.ItemChangesAt` | controller/diff_emit_engine.go:365-389 | the array diff has exactly the right entry at a position where the arrays differ, and none elsewhere |
| `FieldDiff.ItemChangesIncreasing` | controller/diff_emit_engine.go:365-389 | positions in an array diff strictly increase, so none is reported twice |
| `FieldDiff.ArrayDiffInvertible` | controller/diff_emit_engine.go:352-395 | applying an array diff to the previous array gives the current one, undoing it gives the previous one back |
| `FieldDiff.ComputeMapDiff` | controller/diff_emit_engine.go:398-441 | for every iteration order of the keys the loop produces the nested map diff |
| `FieldDiff.ComputeNestedDiff` | controller/diff_emit_engine.go:329-349 | dispatch on two arrays, two maps, or anything else |
| `FieldDiff.NestedDiffInvertible` | controller/diff_emit_engine.go:329-349 | every nested diff carries the previous value to the current one and back |
| `FieldDiff.NestedIsExact` | controller/diff_emit_engine.go:329-441 | a nested diff is of the kind its two values call for and has, for every position or key that changed and for no other, the entry that says how it changed |
| `FieldDiff.FieldChangesExact` | controller/diff_emit_engine.go:269-317 | a patch says of every field of either side that is not ignored what happened to it and nothing of any other; a modified field whose new value is an array or map, and no other, carries a nested diff, which is exact, carries the old value to the new one and back |
| `FieldDiff.CompareField` | controller/diff_emit_engine.go:270-316 | an entry is made exactly for a field that is not ignored and differs, and it records both sides |
| `FieldDiff.CompareFields` | controller/diff_emit_engine.go:254-317 | for every visiting order: the diff holds exactly the differing fields, and Changed, Added and Removed are duplicate-free and split its keys by kind |
| `FieldDiff.FieldDiffInvertible` | controller/diff_emit_engine.go:269-317 | the top-level diff carries the previous object to the current one and back on every field not ignored, and touches no ignored field |
| `DiffEmit.DiffEmitEngine.constructor` | controller/diff_emit_engine.go:103-108 | a new engine has an empty store and zero counters |
| `DiffEmit.DiffEmitEngine.ComputeDetailedDiff` | controller/diff_emit_engine.go:232-326 | an exact patch, nested diffs included, with its share of changed fields for two objects, whole value otherwise, and field lists that match the payload |
| `DiffEmit.DiffEmitEngine.ComputeDiff` | controller/diff_emit_engine.go:117-229 | the new store, the three counters, the emission and both versions, on the error, fast and slow paths |
| `DiffEmit.DiffEmitEngine.PerformCleanup` | controller/diff_emit_engine.go:602-640 | for every order in which the sort may leave ties, the entries past the limit are removed and nothing else changes |
| `DiffEmit.EvictKeepsNewest` | controller/diff_emit_engine.go:606-634 | cleanup keeps exactly the configured number of snapshots, unchanged, and none of them is older than an evicted one |
| `DiffEmit.FastPathIsPlainComparison` | controller/diff_emit_engine.go:149-159 | equal digests happen exactly when the key is cached and the latest submission agrees with the new one under plain comparison |
| `DiffEmit.CacheFaithful` | controller/diff_emit_engine.go:124-223 | over every run the stored digest is that of the latest submission, the stored version is one plus the number of normalised changes since the key was created, and comparisons = sent + skipped + failed encodings |
| `DiffEmit.CountedExactly` | controller/diff_emit_engine.go:124-223 | a submission counts as sent if and only if plain comparison with the latest one finds it new and the share of what is new reaches the threshold, as skipped if it is encodable and not sent, and as neither otherwise |
| `DiffEmit.ReportedExactly` | controller/diff_emit_engine.go:149-223 | the result names the versions before and after, the share of what is new, and whether something was sent |
| `DiffEmit.StoredExactly` | controller/diff_emit_engine.go:185-214 | the new value is stored with its digest, time and version, and nothing else changes, unless it repeats the latest one |
| `DiffEmit.ShareExactly` | controller/diff_emit_engine.go:319-322 | the share times the number of fields of both sides is the number of fields that are not ignored and were added, removed or changed; other values count as all or nothing |
| `DiffEmit.SlowPathFindsChange` | controller/diff_emit_engine.go:232-326 | a submission that passes the digest check always yields a payload; a patch has at least one entry and a share between one field and all |
| `DiffEmit.ShareInUnitInterval` | controller/diff_emit_engine.go:319-322 | the change share lies in [0, 1] for all pairs of objects |
| `DiffEmit.PatchCarriesAgreement` | controller/diff_emit_engine.go:269-317 | a patch computed from the stored object also carries any copy that agrees with it, up to ignored fields, to one that agrees with the current object |
| `DiffEmit.SyncExactlyWhenNothingLost` | controller/diff_emit_engine.go:149-223 | for every threshold: from a subscriber in sync, one event leaves it in sync if and only if it did not drop, below the threshold, a change that the subscriber lacks |
| `DiffEmit.DroppedIsLost` | controller/diff_emit_engine.go:179-180 | with a threshold of at most 1, every dropped change is one that a subscriber in sync lacks |
| `DiffEmit.SyncOverRuns` | controller/diff_emit_engine.go:117-229 | for every threshold and over every run, the subscriber is in sync after every event if and only if no change it lacked was dropped |
| `DiffEmit.SubscriberRefinesEngine` | controller/diff_emit_engine.go:117-229 | with a threshold of at most 1 and at most one field's share at each call, after every event of every run from a new engine the subscriber holds every latest value up to ignored fields, across fast-path calls, failed encodings and evictions |
| `DiffEmit.LargeThresholdLosesChange` | controller/diff_emit_engine.go:179-180 | with a threshold of 0.75, changing one of two fields leaves a subscriber that was in sync behind |
| `Merkle.BuildMerkleTree` | controller/export_service.go:534-559 | the recursion over freshly built levels computes the level-by-level fold |
| `Merkle.DepthIsCeilLog2` | controller/export_service.go:534-559 | the number of levels is the ceiling of the base-two logarithm of the number of hashes |
| `Merkle.FoldFromTop` | controller/export_service.go:543-558 | for 2^k < n <= 2^(k+1) the fold joins the k-level lift of the first 2^k elements with the k-level lift of the rest, for any way of joining, in k + 1 levels |
| `Merkle.TreeOfFacts` | cli/main.go:730-755 | the root is the hash of a perfect tree of that depth whose leaves begin with the given hashes |
| `Merkle.RootsAgreeExactly` | cli/main.go:730-755 | two lists of equal depth have equal roots if and only if they fold to the same tree |
| `Merkle.RootBindsLeaves` | cli/main.go:730-755 | with the number of hashes fixed, the root determines every hash |
| `Merkle.SharedRootExtends` | cli/main.go:730-755 | of two lists with one root and one depth, the shorter begins the longer, and the longer adds no new hash |
| `Merkle.FullLengthKeepsRoot` | controller/export_service.go:543-558 | for every list and hash, the leaves of the folded tree are a list of full power-of-two length with the same depth and root, drawn from the given hashes |
| `Merkle.ShallowerHashesPairs` | cli/main.go:730-755 | of two lists with one root and different depths, every hash of the shallower is the hash of two joined hashes |
| `Merkle.RepeatedLastLeafKeepsRoot` | controller/export_service.go:547-551 | repeating the last hash of an odd list of more than one keeps the root, for every hash function |
| `Export.ExportService.CreateChunks` | controller/export_service.go:475-514 | file records and stored chunks for every byte string; a refused store ends the call and leaves exactly the chunks before it |
| `Export.ChunksReassemble` | controller/export_service.go:481-511 | the chunks concatenate to the exported bytes |
| `Export.ChunkSizes` | controller/export_service.go:476-487 | ceil(len / 10 MiB) chunks, none empty, all but the last full |
| `Export.ChunksAreTenMebibytes` | controller/export_service.go:476 | the same with the size written out: 10485760 bytes |
| `Export.RangesTile` | controller/export_service.go:502-510 | the [StartByte, EndByte] ranges are nonempty and cover the data in order without gap or overlap |
| `Export.JobNamingDistinct` | controller/export_service.go:489-497 | different chunk indices get different names and different storage keys |
| `Export.NamesRead` | controller/export_service.go:489-497 | how the name and the storage key of a chunk read |
| `Export.StorageKeysDistinct` | controller/export_service.go:489-500 | a storage key determines its job as well as its chunk, so no export overwrites another's chunks |
| `Export.RecordedWhereStored` | controller/export_service.go:497-510 | every file record names the key its chunk is stored under, and its size and checksum are those of what is stored there |
| `Export.StoredReadBack` | controller/export_service.go:497-500 | every chunk can be read back under its key and no other key is disturbed |
| `Export.CalculateTotalSize` | controller/export_service.go:611-617 | the accumulation loop sums the recorded sizes |
| `Export.CreateManifest` | controller/export_service.go:517-592 | manifest with counts, total size and prefixed Merkle root of the checksums |
| `Export.VerifyMerkleTree` | cli/main.go:391-406 | answers whether the recomputed root equals the manifest's root without its prefix |
| `Export.CheckFiles` | cli/main.go:246-289 | the failed list is empty exactly when every file is present with its recorded size and checksum, and names exactly the files that are not |
| `Export.ChecksExactly` | cli/main.go:246-289 | the files pass if and only if each is present, has its recorded size, and has its recorded checksum |
| `Export.ExportPassesChecks` | cli/main.go:391-448 | every export, the empty one included, passes both checks, and its manifest counts every byte |
| `Export.ContentBinding` | cli/main.go:391-448 | files that pass both checks against any manifest with the original root and number of files concatenate to exactly the exported bytes |
| `Export.RepeatedFilePasses` | cli/main.go:730-755 | an input: the last of an odd number of files may be listed twice, and both checks pass for every hash |
| `Export.TwoChecksumsPass` | cli/main.go:391-406 | an input of another depth: for an export of two chunks, one file that holds their two checksums passes both checks, for every hash |
| `Export.CountBindsExactly` | cli/main.go:246-406 | with the number of files free, and of any depth unless the export is as long as two checksums, files that pass both checks against the original root concatenate to the exported bytes if and only if there are as many of them as in the original |
| `Export.PairExportCanSplit` | cli/main.go:391-406 | why that length is set apart: if the checksums of its halves spell the export again, listing the halves passes and restores it with two files for one |
| `Export.LongerListingExactly` | cli/main.go:246-406 | a passing list of files can be made longer with the same depth and root, still passing, if and only if its length is not a power of two |
| `RangeDownload.HandleRangeRequest` | controller/export_service.go:774-807 | the answer to any header text, including signs, overflow and malformed parts |
| `RangeDownload.ServedRangeIsExact` | controller/export_service.go:797-806 | for every header a served range is nonempty and in bounds, and its announced positions, total and length are those of the bytes sent |
| `RangeDownload.AgreesWithRfcExactly` | controller/export_service.go:785-800 | a well-formed int-range is answered as section 14.1.2 of RFC 9110 asks, last position clamped, if and only if its first position fits in 64 bits or there is nothing to serve |
| `RangeDownload.SignsCount` | controller/export_service.go:785-795 | a sign before a number is accepted, and counts |
| `RangeDownload.ParseIntExactly` | controller/export_service.go:785-795 | numbers beyond 64 bits and anything but digits after the sign are not read |
| `RangeDownload.OneDashNeeded` | controller/export_service.go:776-781 | a header with any number of dashes but one is refused |
| `RangeDownload.UnitIsOptional` | controller/export_service.go:775 | the "bytes=" may be left out |
| `RangeDownload.UnreadablePositions` | controller/export_service.go:785-795 | positions that cannot be read count as the first and the last |
| `RangeDownload.SuffixServedFromStart` | controller/export_service.go:785-795 | "bytes=-n", which asks for the last n bytes, is answered with the first n + 1 |
| `RangeDownload.Download` | controller/export_service.go:774-807 | a client that keeps asking for what is missing and keeps any nonempty prefix ends with the exact chunk |
| `RangeDownload.DownloadExport` | controller/export_service.go:749-771 | over all chunks it ends with the exact export and a directory holding every chunk under its name |
| `RangeDownload.ExportRoundTrip` | controller/export_service.go:249-324 | for every byte string and hash: store, manifest, interrupted download and both CLI checks succeed and return the exported bytes |
| `Csv.RowValues` | controller/export_service.go:458-466 | one record's values in header order, missing ones as `<nil>`, each escaped (what they are is stated by `Csv.RoundTripExactly`) |
| `Csv.CollectHeaders` | controller/export_service.go:445-450 | for every iteration order, the header list is the record's keys in ascending order |
| `Csv.SortStringsSorts` | controller/export_service.go:450 | sorting a listing of distinct names gives them in ascending order, none lost |
| `Csv.AscendingUnique` | controller/export_service.go:445-450 | a set of names has only one ascending listing, so the output does not depend on the iteration order |
| `Csv.BeforeExactly` | controller/export_service.go:450 | the order is that of dictionaries: where two names part, one ends or has the smaller character |
| `Csv.FormatAsCSV` | controller/export_service.go:438-472 | the sorted keys of the first record as the header line, then one line per record |
| `Csv.ReadAllSpends` | controller/export_service.go:460-463 | a text from which a reader for section 2 of RFC 4180 gets given rows has at least two quotes for every field that needs them, and two for every quote in it |
| `Csv.RoundTripExactly` | controller/export_service.go:438-472 | that reader returns the header row and, row by row, every record's own value under every header (`<nil>` where it has none) if and only if there is a record and a header, no header has a comma, quote or line break, and no value has a line break without also having a comma or a quote |
| `ExportCompare.CreateRecordIndex` | cli/main.go:569-585 | the index maps every record key to the last record with that key |
| `ExportCompare.IdsAreKeys` | cli/main.go:573-577 | two records with string IDs share a key if and only if the IDs are equal |
| `ExportCompare.KeyWithoutId` | cli/main.go:587-598 | without one, the key joins what there is of name, experiment_type, target and created_at, in that order |
| `ExportCompare.JoinBarPush` | cli/main.go:597 | the parts stand in order with a bar between each two |
| `ExportCompare.IndexHoldsLast` | cli/main.go:582 | a record that is the last with its key is what the index gives for that key |
| `ExportCompare.IndexFullExactly` | cli/main.go:569-585 | the index has as many entries as there are records if and only if no two records share a key |
| `ExportCompare.CompareRecords` | cli/main.go:600-655 | for every visiting order, exactly one difference per field that is not ignored and differs, and none if and only if the records agree |
| `ExportCompare.ReportedExactly` | cli/main.go:612-655 | a field is reported if and only if it is not ignored and is on one side only or is shown differently, and the report has each side's value in its place |
| `ExportCompare.CompareShared` | cli/main.go:520-537 | identical and modified count the shared keys by agreement; the differences are exactly those of the shared keys that disagree, each field once and under its own key; the first-only list holds exactly the records whose keys are missing on the second side |
| `ExportCompare.OnlyIn` | cli/main.go:540-544 | the second-only list holds exactly the records whose keys are missing on the first side, each once |
| `ExportCompare.OneSidedExactly` | cli/main.go:516-544 | a one-sided list has exactly the records that are the last with their key on their side and whose key the other side lacks |
| `ExportCompare.CompareExports` | cli/main.go:511-567 | for every visiting order: the summary's counts and score, both one-sided lists, and exactly the differing fields of every shared key |
| `ExportCompare.CountsCover` | cli/main.go:511-567 | identical + modified + one-sided equals the index size on either side |
| `ExportCompare.SummaryExactly` | cli/main.go:546-565 | what each number of the summary counts |
| `ExportCompare.ScoreExactly` | cli/main.go:546-551 | the score times all records on both sides is twice the identical ones |
| `ExportCompare.SwapSwapsSides` | cli/main.go:511-567 | swapping the inputs swaps the one-sided counts, exchanges the two values of every reported difference, and leaves the other counts and the score as they are |
| `ExportCompare.ScoreInUnitInterval` | cli/main.go:546-551 | the score of any two exports lies in [0, 1] |
| `ExportCompare.PerfectScoreExactly` | cli/main.go:546-551 | for nonempty input the score is 1 if and only if both sides have unique keys, equal key sets and agreeing fields |
| `NetemConfig.MergeConfigs` | agent/netem.go:565-604 | the loop with its empty and single-element shortcuts |
| `NetemConfig.JoinAllIsJoin` | agent/netem.go:574-603 | the merge is the least upper bound of zero and the set of configurations, hence independent of their order |
| `NetemConfig.JoinMonotone` | agent/netem.go:574-603 | merging more configurations never lowers a field |
| `NetemConfig.MergeEffective` | agent/netem.go:570-572 | the single-element shortcut makes no difference to what is told to `tc` |
| `NetemConfig.BuildNetemArgs` | agent/netem.go:814-847 | appends the argument list of a configuration |
| `NetemConfig.OptionsRead` | agent/netem.go:814-847 | with every field positive, all options in their order, each keyword before its value |
| `NetemConfig.ValuesRead` | agent/netem.go:814-847 | how the values are written: milliseconds, percent with two decimals, megabits, counts |
| `NetemConfig.ArgsDecode` | agent/netem.go:814-847 | a reader of netem options recovers exactly the positive part of the configuration, jitter only with a delay |
| `NetemConfig.ArgsDetermineEffective` | agent/netem.go:479-509 | two configurations give the same arguments if and only if their positive parts agree |
| `NetemConfig.LexShow` | agent/netem.go:814-847 | the text of every argument determines the argument |
| `Netem.ApplyRefused` | agent/netem.go:101-125 | a failed validation changes nothing; a failed backup makes the interface known and nothing else |
| `Netem.ApplyIssues` | agent/netem.go:126-147 | otherwise one command goes out, "change" where the interface has netem and "add" elsewhere, and only its success changes the kernel and records the experiment with its start and TTL |
| `Netem.RevertLast` | agent/netem.go:310-352 | reverting the last experiment of an interface forgets it and issues one delete, whose success clears kernel and record |
| `Netem.RevertShared` | agent/netem.go:324-348 | reverting one of several forgets it and issues one "change" with the merge of exactly the others on its interface |
| `Netem.RevertUnknown` | agent/netem.go:314-317 | reverting an unknown ID, or everything on an unknown interface, does nothing |
| `Netem.RevertAllForgets` | agent/netem.go:355-386 | reverting everything on an interface forgets exactly its experiments and issues one delete |
| `Netem.ApplySafe` | agent/netem.go:100-158 | Apply keeps the safety invariant whatever fails |
| `Netem.RevertSafe` | agent/netem.go:310-352 | Revert keeps the safety invariant whatever fails |
| `Netem.RevertAllSafe` | agent/netem.go:355-386 | RevertAll keeps the safety invariant whatever fails |
| `Netem.AlwaysSafe` | agent/netem.go:100-628 | over every interleaving of Apply, Revert, RevertAll, timers and cleanup with any `tc` failures: HasNetem mirrors the kernel, every live experiment's interface is known and has netem, "add" was issued only where netem was absent and "change" only where it was present |
| `Netem.OrphanExactly` | agent/netem.go:324-348 | a step abandons netem on an interface in use if and only if it fails to delete it for the last experiment or moves the last experiment's ID to another interface |
| `Netem.OrphanFreeOverRuns` | agent/netem.go:100-386 | over every run, netem is only where an experiment is live after every event if and only if no event leaves it behind |
| `Netem.NetemExactlyWhereLive` | agent/netem.go:100-386 | with fresh IDs and no failed delete, after every run netem is present exactly on the interfaces of live experiments |
| `Netem.ScanCollectsExactly` | agent/netem.go:612-622 | a scan collects exactly the live experiments past a positive TTL, besides those already held |
| `Netem.CleanupEndsExpired` | agent/netem.go:606-629 | the cleanup that follows a scan can end, and ends, every experiment past its TTL |
| `Netem.TimerEndsExperiment` | agent/netem.go:149-154 | the timer set by a successful Apply can fire once the TTL is over, and ends the experiment |
| `Netem.NoEarlyRevertStep` | agent/netem.go:149-154 | an experiment leaves the table in a step only by an explicit request naming it or its interface, or at or after its TTL |
| `Netem.NoEarlyRevert` | agent/netem.go:606-629 | the same at every later point of every possible run with fresh IDs, including reverts from a cleanup scan made earlier |
| `Netem.SecondRevertChangesNothing` | agent/netem.go:314-317 | once gone an ID stays gone over every run with fresh IDs, and reverting it again changes neither tables nor kernel |
| `Netem.EndsEarlyExactly` | agent/netem.go:310-352 | a live experiment can be ended early and unasked in some continuation that does not apply its ID again if and only if its TTL is not over and a scan holds its ID or one of its timers is due before its TTL |
| `Netem.ReuseEndsEarlyExactly` | agent/netem.go:149-154 | the same read off at the call: after a successful Apply, if and only if a scan held the ID or a pending timer of it was due before the new TTL |
| `Netem.NoEarlyRevertWhenCareful` | agent/netem.go:100-628 | over every possible run whose Apply calls met no such leftover, IDs reused or not, a live experiment not applied again ends only on request or past its TTL |
| `Netem.ReusedIdEndsEarly` | agent/netem.go:150-154 | an input: for all TTLs short < long, an ID applied twice in a row can be ended early by its first timer |
| `Netem.RevertMerges` | agent/netem.go:545-562 | a revert that leaves other experiments issues one "change" whose arguments decode to the fieldwise maximum of the remaining configurations, and leaves the interface records as they were |
| `Netem.RecordExactly` | agent/netem.go:326-348 | from a state whose records match the kernel, a step makes one wrong if and only if it is a successful revert that leaves others on the interface and changes what the kernel has there |
| `Netem.RecordFromStart` | agent/netem.go:100-562 | over every run of a new manager the records match the kernel after every event if and only if no event is such a revert |
| `Netem.SecondRevertMisrecords` | agent/netem.go:545-562 | an input: with two experiments on one interface, reverting the second leaves a wrong record exactly when their configurations differ in effect |
| `Netem.ApplyMergesExactly` | agent/netem.go:126-147 | after a successful Apply the kernel has the merge of all live configurations of the interface if and only if the new one covers each of the others |
| `NetemManager.Manager.constructor` | agent/netem.go:86-91 | empty tables |
| `NetemManager.Manager.Apply` | agent/netem.go:100-158 | the Apply transition, and success exactly when validation, backup (if needed) and command succeed |
| `NetemManager.Manager.ApplyNetemConfig` | agent/netem.go:468-518 | one command, "change" or "add" by the flag, with the configuration's arguments |
| `NetemManager.Manager.Restore` | agent/netem.go:521-543 | one delete, and the flag and configuration cleared when it succeeds |
| `NetemManager.Manager.HasExperiments` | agent/netem.go:327-334 | answers whether an experiment is left on the interface |
| `NetemManager.Manager.CollectConfigs` | agent/netem.go:547-553 | collects exactly the configurations on the interface, in any order |
| `NetemManager.Manager.Recalculate` | agent/netem.go:546-562 | one command carrying the join of the remaining configurations, for every collection order |
| `NetemManager.Manager.Revert` | agent/netem.go:310-352 | the Revert transition, including unknown IDs and failing commands |
| `NetemManager.Manager.RevertAll` | agent/netem.go:355-386 | the RevertAll transition |
| `NetemManager.Manager.CollectExpired` | agent/netem.go:612-622 | the locked scan returns exactly the IDs whose TTL is positive and lies wholly in the past |
| `NetemManager.MergedArgs` | agent/netem.go:559-561 | the arguments of the merged list are those of the join of the set of configurations |
| `Wheels.AdvanceCounts` | agent/scheduler.go:170-188 | one cascade adds one to the mixed-radix number the positions spell |
| `Wheels.CallsCount` | agent/scheduler.go:184-187 | the number of wheels a cascade advances is the growth of the total |
| `Wheels.WheelOdometer` | agent/scheduler.go:96-188 | after n ticks the positions are the digits of n in bases 1000, 60, 60, 24, and wheels were advanced n + n/1000 + n/60000 + n/3600000 times |
| `Wheels.TargetFrom` | agent/scheduler.go:310-324 | the first wheel whose span exceeds the delay, else the last |
| `Wheels.PlacementBounds` | agent/scheduler.go:309-329 | a nonnegative delay inside the total span lands in the finest covering wheel, in the slot whose interval contains it |
| `Wheels.PlaceableExactly` | agent/scheduler.go:326-328 | the slot index is nonnegative if and only if the due time is less than 1 ms past or past by whole milliseconds divisible by 1000 |
| `Wheels.AdvanceSlot` | agent/scheduler.go:170-188 | a cascade empties exactly the slots it reaches, hands over what was in them, and leaves all others as they were |
| `Wheels.HitsExactly` | agent/scheduler.go:170-188 | tick t moves wheel j to a slot if and only if t is a multiple of the wheel's period and the quotient has the slot as its remainder |
| `Wheels.FirstHitExactly` | agent/scheduler.go:170-188 | a formula for the first tick after t that moves wheel j to a slot, and no earlier one does |
| `Wheels.HitsOncePerRound` | agent/scheduler.go:170-188 | a wheel visits a slot once per round, at the ticks whose remainder by the round is the slot times the period |
| `Wheels.WaitsExactly` | agent/scheduler.go:309-329 | for every delay and tick, a placement is waited for in exactly the milliseconds of its delay if and only if there is at least one, they fit in the round of the wheel it is placed in, and that wheel starts a round when the part of the delay it does not count is over |
| `Wheels.DelayCutShort` | agent/scheduler.go:326-328 | an input: 2500 milliseconds on a new scheduler end after 2000, while at tick 59500 they are waited for |
| `Scheduler.ScheduledRecord` | agent/scheduler.go:253-306 | a scheduled operation is due at the time asked for, one interval on, or one minute on, shifted by the jitter, and the counters go up by one |
| `Scheduler.UnsupportedRecord` | agent/scheduler.go:253-306 | an unsupported kind uses up an ID and changes nothing else |
| `Scheduler.OnceEnds` | agent/scheduler.go:241-247 | a finished one-time operation is unregistered and waits nowhere |
| `Scheduler.RepeatContinues` | agent/scheduler.go:228-240 | a finished repeating or cron operation has one more run behind it, is due one interval or one minute later, and waits once |
| `Scheduler.PutCounts` | agent/scheduler.go:326-328 | a placement adds exactly one waiting entry for its operation |
| `Scheduler.AdvanceTakes` | agent/scheduler.go:170-188 | a cascade removes from the wheels exactly what it reaches |
| `Scheduler.ScheduleSound` | agent/scheduler.go:253-306 | scheduling keeps all accounts |
| `Scheduler.TickSound` | agent/scheduler.go:170-188 | a tick keeps all accounts, whatever the clock says at each operation |
| `Scheduler.CompleteSound` | agent/scheduler.go:211-248 | a finished run, rescheduled or removed, keeps all accounts |
| `Scheduler.AlwaysSound` | agent/scheduler.go:146-329 | over every run: placements = waiting + executed + discarded per operation, executed = in flight + finished, at most one place per registered operation, ActiveOperations = number registered, NextRun of a repeating operation = first due time + RunCount x Interval, positions = digits of the tick count |
| `Scheduler.SoundFromStart` | agent/scheduler.go:85-123 | the same for every run from a new scheduler |
| `Scheduler.RepeatingStays` | agent/scheduler.go:225-248 | no event removes a repeating operation |
| `Scheduler.ScheduledSits` | agent/scheduler.go:253-329 | every scheduled operation sits in the slot computed for its delay, in the wheel that covers it |
| `Scheduler.RescheduledSits` | agent/scheduler.go:225-241 | so does every operation scheduled again after a run |
| `Scheduler.ReachedAtFirstHit` | agent/scheduler.go:170-188 | over every run, whatever else is scheduled and completed, a placement stays in its slot and is first reached by exactly the tick that first moves its wheel there |
| `Scheduler.FateAtFirstHit` | agent/scheduler.go:173-182 | that tick starts the operation if and only if the clock reads later than its next run, and otherwise strands it |
| `Scheduler.StrandsExactly` | agent/scheduler.go:146-329 | an event leaves an operation registered but neither waiting nor running if and only if it was so before or the event is a tick that reaches it before its time |
| `Scheduler.StrandedExactlyWhenDropped` | agent/scheduler.go:175-182 | in every run of a new scheduler the stranded operations are exactly those dropped by some tick, and they stay registered and never run again |
| `Scheduler.PunctualTickStrands` | agent/scheduler.go:175-182 | an input: one millisecond ahead on a new scheduler, a punctual first tick strands the operation |
| `TimingScheduler.Timing.constructor` | agent/scheduler.go:85-117 | empty wheels and tables |
| `TimingScheduler.Timing.Place` | agent/scheduler.go:309-329 | the wheel search and the append |
| `TimingScheduler.Timing.ScheduleOperation` | agent/scheduler.go:253-306 | the Schedule transition with its error case |
| `TimingScheduler.Timing.ExecuteSlot` | agent/scheduler.go:173-179 | starts exactly the operations that are due |
| `TimingScheduler.Timing.TurnWheel` | agent/scheduler.go:171-182 | one wheel moves on and its new slot is cleared |
| `TimingScheduler.Timing.AdvanceWheel` | agent/scheduler.go:170-188 | the cascade on wheels and running operations |
| `TimingScheduler.Timing.Tick` | agent/scheduler.go:146-167 | the Tick transition |
| `TimingScheduler.Timing.FinishOperation` | agent/scheduler.go:211-248 | the Complete transition |
| `Notifier.EvaluateCustomFilter` | controller/enhanced_notifier_service.go:667-678 | true exactly when every condition whose key the message has is met |
| `Notifier.ApplyFilter` | controller/enhanced_notifier_service.go:644-664 | the filter decision, with filters lacking a usable condition passing everything |
| `Notifier.RefusedExactly` | controller/enhanced_notifier_service.go:644-678 | a filter refuses exactly another type, a lower priority, another room, or a differing condition, by its kind |
| `Notifier.ShouldSendToClient` | controller/enhanced_notifier_service.go:618-641 | true exactly for an unexpired message that passes every enabled filter within the rate |
| `Notifier.DeclinedExactly` | controller/enhanced_notifier_service.go:618-641 | a client declines exactly what has expired, what an enabled filter refuses, and what exceeds its rate |
| `Notifier.EnhancedClient.Offer` | controller/enhanced_notifier_service.go:521-548 | queue, counters and verdict (sent or dropped) under both overflow policies, as a function of the client's state and the message |
| `Notifier.FitsExactly` | controller/enhanced_notifier_service.go:524-545 | an accepted message that fits ends up last, in place of the oldest if the queue was full; another leaves the queue alone |
| `Notifier.BroadcastToClients` | controller/enhanced_notifier_service.go:519-549 | every listed client ends in the state its own offer gives, no other changes, and the returned count is exactly the number of clients the message reached |
| `Notifier.SentCountsClients` | controller/enhanced_notifier_service.go:519-549 | the number sent is the number of clients that accept the message and have room for it |
| `Notifier.UnreadQueue` | controller/enhanced_notifier_service.go:528-545 | unread, a high-priority queue is exactly the last min(n, c) accepted messages and any other exactly the first min(n, c) |
| `Notifier.UnreadClient` | controller/enhanced_notifier_service.go:519-549 | a client that never reads, after any messages in any pattern of acceptance: that queue of the accepted ones, every refused one counted as filtered, and only the first c accepted ones counted as received |
| `Notifier.GoodBroadcast` | controller/enhanced_notifier_service.go:528-545 | one broadcast keeps the queue invariant, and a high-priority queue ends with the new message |
| `Notifier.QueueFromStart` | controller/enhanced_notifier_service.go:519-549 | over every run of broadcasts and reads: the queue never exceeds its capacity, read followed by queued is an in-order subsequence of what was offered, and offered = read + queued + lost |
| `Writer.WriterService.IsProcessed` | controller/writer_service.go:242-246 | whether the ID is marked |
| `Writer.WriterService.MarkProcessed` | controller/writer_service.go:249-253 | marks one ID |
| `Writer.WriterService.CleanupProcessedIDs` | controller/writer_service.go:256-267 | the clearing transition, only above 10000 entries |
| `Writer.WriterService.HandleEvent` | controller/writer_service.go:100-145 | an undisturbed handler call is exactly its check, insert and mark steps |
| `Writer.DeliveryTakenUp` | controller/writer_service.go:107-111 | a delivery is taken up if and only if its ID is not marked |
| `Writer.FailureLeavesNoTrace` | controller/writer_service.go:113-138 | undecodable data and a failed insert change nothing, and a redelivery is taken up again |
| `Writer.SuccessStoresOnce` | controller/writer_service.go:100-145 | an unmarked ID that is delivered and inserted gets exactly one more row and is marked |
| `Writer.ClearedExactly` | controller/writer_service.go:256-267 | the map is emptied if and only if it has more than 10000 entries, and nothing else changes |
| `Writer.SoundStep` | controller/writer_service.go:100-267 | every step keeps the row bound and the marked-implies-persisted invariant |
| `Writer.IdempotentPersistence` | controller/writer_service.go:100-267 | over every interleaving with redelivery and failed inserts, an ID on one stream, whatever other IDs do, has at most 1 + clears rows, and a row once it is marked |
| `Writer.ExactlyOnceWithoutClearing` | controller/writer_service.go:100-267 | while the map is never cleared, such an ID has at most one row and exactly one once marked |
| `Writer.RaceInsertsTwice` | controller/writer_service.go:107-142 | an input: an ID delivered to any two consumers is stored twice without any clearing |
| `Writer.RowBoundExactly` | controller/writer_service.go:100-267 | for every set of streams, the row bound of an ID holds over all runs that deliver it within those streams if and only if there is at most one of them |

## Left out

- Export.CountBindsExactly: a listing deeper than the original's is not judged for an export exactly as long as two checksums (128 bytes); there the answer depends on the hash (`Export.PairExportCanSplit`).
- NetemConfig.LexShow: percentages finer than a hundredth, which the printing rounds away, are not modelled.
- Interfaces changed by programs other than the netem manager; a successful `tc` command has the effect its name says.
- Filtered and ingress netem (`ApplyWithFilter`, `ApplyIngress`), state import and export, and the text of the original qdisc, which the code records and never restores.
- `CancelOperation`, cron parsing (a stub that adds one minute), drift statistics, latency averages and handler timeouts of the scheduler; ticks are counted, and no real time is attached to them.
- A slot index below zero is a run-time panic; scheduling is modelled only where `Wheels.PlaceableExactly` rules it out.
- `Reset` of the diff engine, compression (a stub), the store-size gauge, size estimates and timing averages; Go values that are not JSON-shaped.
- Signatures, the Parquet and NDJSON writers, data fetching, filters and job IDs of exports; loading NDJSON chunk by chunk.
- The RFC meaning of suffix ranges ("bytes=-n") and of multiple ranges, which the handler does not implement; what it answers instead is stated.
- Rate limiters, merging, dropping by load, compression and Redis publishing of the notifier: their answers are inputs. A send to one client is atomic, so a reader that drains the channel between the two `select` statements is not modelled; metadata comparison of uncomparable Go values, which panics, is not modelled.
- The contents of the rows the writer inserts; only how many there are per event ID.
- Health checks, preflight and doctor checks, schema validation, replay, migration, benchmarks, the dashboard and deployment files: I/O, configuration, or decisions settled by a single branch.
