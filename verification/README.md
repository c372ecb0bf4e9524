# Omnora in Dafny

Omnora is a small file server: it indexes mounted directories, takes resumable uploads, hands out
shares and access tokens on the strength of memberships and grants, keeps a trash, and copies
between mounts. This project models the parts of it that carry hard state or ordering arguments and
proves what they are for. `dafny verify dfyconfig.toml` checks all of it.

Strings are sequences of code points; on valid UTF-8 their order is the byte order that Go and
SQLite use. Anything that can fail for reasons outside the model (a disk, a database statement, a
clock) may fail at any point: `if *` in a method body stands for that. A store, mount or database
that is `steady` is spared this, and of those the contracts say exactly what succeeds. Random ids,
hashes, JSON and
letter folding are parameters, with the assumptions written in the contracts that need them.

## Modules

| module | what it models |
|---|---|
| `TextOrder`, `Paths`, `PathCleaning`, `Sorting` | string order; `path.Clean`, accepted paths, share and token boundaries; what cancels in a path and which paths escape; sorting by a strict total order |
| `CatalogWalk`, `CatalogOrder`, `ComponentOrder`, `CatalogScan`, `CatalogCoverage`, `ComponentScan`, `CatalogRows`, `CatalogIndex` | the directory walk, its order against the cursor's, the scan in batches, what it covers, the scan with a cursor compared by components, what a row says of the node at its path, the index |
| `Jobs`, `JobRetries`, `ClaimOrder`, `ScanProtocol`, `IndexWorker` | the job queue, retries and pauses, its order against time, the interleaving of workers, queue and index, and the worker itself |
| `LikePattern`, `Search` | SQLite's `LIKE` and the patterns built for it; search and its pages |
| `Uploads`, `UploadProtocol`, `UploadClient` | the upload store one instance at a time, any number of instances on one session, and the client's chunk loop |
| `Capabilities`, `CapabilitySteps`, `CapabilityRuns`, `CapabilityPrecision`, `CapabilityEffects`, `CapabilityStore` | accounts, memberships, grants, shares, uploads and tokens, one transaction per step; what every step and run keeps; that nothing more is taken back than must be; what each step is for; the transactions statement by statement |
| `FileTree`, `CrossMount`, `Trash`, `TrashedMount` | trees and their algebra, copies and moves between mounts, the trash |
| `MountRegistry`, `MountSelection` | mount roots, conflicts, automatic selection |
| `Timestamps`, `ShareSessions`, `Pbkdf2` | expiry texts, share visits, the password hash |

State that the Go code changes in place is a class with the same fields, and each of its methods is
tied to a function or relation on values, about which the lemmas speak. Concurrent parties are state
machines whose steps interleave freely.

## What the code does not do

Several promises hold only under a condition. Each is proved with the exact condition and, beside
it, a concrete case that shows it can fail:

- The walk sorts siblings by name, the cursor compares whole paths. A directory `a` and a file
  `a.txt` beside it can end a batch such that `a.txt` is never indexed (`EveryBatchSizeCanMiss`,
  `SplitTreeNotReliable`); all batch sizes are exact if and only if no directory is split that way,
  and one batch size misses nothing if and only if nothing later in the walk lies at or before a
  saved cursor (`ScanCoversIffSafeCursors`). Comparing by components needs no condition
  (`ComponentScanIsExact`).
- Search pages skip or repeat entries whose names SQLite's `lower` and Go's `strings.ToLower` fold
  differently (`AskTwice`, `AccentedNameIsSkipped`).
- A search boundary such as `./` is stored as "." and then covers nothing (`SlashedDotIsNotTheMount`);
  a boundary covers what it names unless it cleans to "." without being "" or "." (`CoversItsOwnIff`).
- `LIKE` ignores the case of ASCII letters, paths do not: a search boundary `docs` also lets through
  what lies in `Docs` (`BoundaryReachesOtherCase`), and only a boundary without such letters is exact.
- Revoking the shares of a deleted path, or of one moved to another mount, also revokes others when
  the path contains `%` or `_` (`WildcardReachesOut`), and shares under a path that differs in the case of an ASCII letter
  (`RevocationReachesOtherCase`); it is exact if and only if the path has neither.
- A deleted regular file called `meta.json` is overwritten by its own record (`MetaJsonIsLost`), and
  a directory called `meta.json` cannot be deleted at all (`TrashedMount.Mount.SoftDelete`).
- When the record of a deletion cannot be written and the object cannot be moved back either, the
  clean-up deletes the object (`StrandedIsLost`).
- The name that a restore uses when the original one is taken is not checked to be free
  (`ConflictNameCanBeTaken`, `RestoreOverTaken`).
- Updating a mount writes back settings that were loaded before the transaction
  (`StaleUpdateCanBreak`); finishing an upload writes its outcome over how it ended meanwhile
  (`StaleFinishCanOverwrite`); refreshing a mount's identity can make two mounts stand for one
  directory (`StaleRefreshCanBreak`).
- A move to another mount deletes the symbolic links and special files of what is moved
  (`MovedLinkIsLost`).
- Expiry texts are out of order within a second when one fraction's digits begin the other's
  (`HalfSecondIsMisread`), and so are the creation times that jobs are claimed by
  (`LaterJobCanBeNext`).

## Model

| member | source | states |
|---|---|---|
| `CatalogWalk.Collector.Walk` | internal/catalog/service.go:433-492 | The walk of a directory and everything in it, with its early stop, equals folding the cursor test over the list of all visits of the tree. |
| `CatalogWalk.CollectBatch` | internal/catalog/service.go:429-493 | A batch that is collected without error is the fold over the visits of the whole tree from an empty list. |
| `CatalogWalk.VisitsFindListing` | internal/catalog/service.go:436-492 | The entries met on the walk are the plain preorder listing of the eligible paths: a directory before its contents, siblings in name order. |
| `CatalogWalk.CollectIsFirstAfterCursor` | internal/catalog/service.go:477-483 | A batch is the first entries of the walk whose whole path is past the cursor, up to the limit. |
| `CatalogWalk.CompleteMeansRoomAtLastLook` | internal/catalog/service.go:437-439 | A batch is complete exactly when there was still room when the walk looked at the last thing it visits. |
| `CatalogWalk.CompleteBatchHoldsRest` | internal/catalog/service.go:437-492 | A complete batch holds everything past the cursor. |
| `CatalogWalk.BatchFacts` | internal/catalog/service.go:429-493 | A batch is a prefix of what is past the cursor; an incomplete one has exactly the limit. |
| `CatalogWalk.JoinRelativeIsPathJoin` | internal/catalog/service.go:569-574 | Joining a directory and a proper name with a slash is what `path.Join` returns. |
| `CatalogOrder.AscendingIffNoSplit` | internal/catalog/service.go:450-477 | The walk visits paths in ascending string order if and only if no name, together with what lies beneath it, is interleaved with a sibling that extends the name by a character below the slash. |
| `CatalogOrder.PlainNamesNeverSplit` | internal/catalog/service.go:450-477 | Names without a character below the slash never give such an interleaving. |
| `CatalogOrder.ListingDistinct` | internal/catalog/service.go:450-492 | No path is listed twice. |
| `CatalogOrder.ListingAfterEmptyCursor` | internal/catalog/service.go:429-493 | The empty cursor excludes nothing. |
| `ComponentOrder.WalkIsComponentOrder` | internal/catalog/service.go:436-492 | On every sorted tree, whatever the names, the walk lists the paths in component order; the cursor compares strings instead. |
| `CatalogScan.CursorAdvances` | internal/catalog/service.go:92-108 | A batch that is not done has exactly the limit, raises the cursor, and leaves strictly fewer entries past it; so the loop ends on every tree. |
| `CatalogScan.EmittedAreAhead` | internal/catalog/service.go:92-185 | Whatever the names, all that a scan emits from a cursor is listed and past the cursor. |
| `CatalogScan.ExactFit` | internal/catalog/service.go:437-439 | When exactly a full batch is left, whether the scan is told so depends on whether the walk looks at anything after the last entry. |
| `CatalogScan.ScanExactIffCleanCuts` | internal/catalog/service.go:92-185 | The batches from the empty cursor, end to end, are the listing if and only if each batch boundary separates smaller from greater paths. |
| `CatalogScan.ScanExactForEveryBatchSizeIffNoSplit` | internal/catalog/service.go:92-185 | For a tree, every batch size emits exactly the listing if and only if no directory is split; both directions, for all trees. |
| `CatalogScan.AscendingScanIsRest` | internal/catalog/service.go:92-185 | On an ascending walk a scan from any cursor emits exactly what is past the cursor, once and in order. |
| `CatalogCoverage.ScanCoversIffSafeCursors` | internal/catalog/service.go:92-185 | For one batch size, a scan misses nothing if and only if, at every cursor it saves, nothing later in the walk lies at or before that cursor; the cursors are read off the listing. |
| `ComponentScan.ComponentScanIsExact` | internal/catalog/service.go:477-483 | The remedy: with the cursor compared by components a scan lists every sorted tree exactly, whatever the names and the batch size, also when it is resumed behind any listed path. |
| `CatalogIndex.NormalizeBatchSize` | internal/catalog/service.go:514-525 | A request without a size gets the default; any other gets the size nearest to it within the fixed bounds. |
| `CatalogIndex.UpsertHolds` | internal/catalog/service.go:140-168 | After the upserts each entry has exactly its own row, all other rows are as before. |
| `CatalogIndex.Service.ScanBatch` | internal/catalog/service.go:110-185 | One batch: refused as excluded exactly when the mount is not active, not indexed or not verified; excluded mounts and failures leave the index alone; otherwise the rows, the count, the done flag and the next cursor are those of the collected batch, and each new row describes the node at its path: a file with its own size, or a directory with none, with its time and its name. On a steady service it succeeds on every mount that is not excluded. |
| `CatalogIndex.Service.ScanMount` | internal/catalog/service.go:92-108 | The loop ends, leaves in the index all that the batches emit, each row describing the node at its path, and reports their number. A scan that fails on the way has stored the first of those entries and no others; a steady one fails only on an excluded mount. |
| `CatalogIndex.ScanIndexesTheTree` | internal/catalog/service.go:92-192 | After a full scan of a tree without split directories the index holds, of that mount, a row for exactly the files and directories found by walking the tree along their components, all but what lies under the reserved name, and each row describes its node. |
| `CatalogRows.ListingIsTheTree` | internal/catalog/service.go:429-512 | What is listed, without reference to the walk: every file and directory that can be looked up in the tree by its components, unless the first is the reserved name, and nothing else; its row has its kind, its size if it is a file and none otherwise, its time, and the last component as its name. |
| `CatalogRows.EveryNodeListed` | internal/catalog/service.go:433-492 | Below any directory of the walk, each file or directory found by its components is listed under the joined path. |
| `CatalogRows.AcceptedIff` | internal/catalog/service.go:452-459 | Of the paths the walk builds, cleaning refuses exactly the reserved name at the top. |
| `CatalogIndex.EveryBatchSizeCanMiss` | internal/catalog/service.go:429-493 | For every batch size from two up there is a concrete sorted tree (`a` with files in it, beside `a.txt`) on which the scan ends normally without ever emitting `a.txt`. |
| `Jobs.Store.EnqueueJob` | internal/jobs/jobs.go:65-103 | A new queued job with no attempts, or an error that changes nothing. |
| `Jobs.Store.ClaimNext` | internal/jobs/jobs.go:105-163 | Claims only while nothing runs, and then the least job by priority, creation time and id among the queued. |
| `Jobs.Store.ClaimRequested` | internal/jobs/jobs.go:167-210 | Claims one named queued job, only while nothing runs. |
| `Jobs.Store.RequeueJob` | internal/jobs/jobs.go:231-257 | A running job goes back to the queue, unclaimed, with its new checkpoint. |
| `Jobs.Store.FailJob` | internal/jobs/jobs.go:280-300 | A running job counts one more attempt and is no longer claimed; it is queued again, with its checkpoint, unless that was its last attempt, in which case it has failed; every other job, and a job that does not run, stays as it is. |
| `JobRetries.FailureIsRetried` | internal/jobs/jobs.go:280-300 | From a valid table, a job that fails for the first time or any time but the last stands in the queue, nothing runs, and it can be claimed again at once with its checkpoint. |
| `JobRetries.LastFailureIsFinal` | internal/jobs/jobs.go:280-300 | The last failure is for good, whatever operations follow. |
| `JobRetries.EveryAttemptIsMade` | internal/jobs/jobs.go:105-300 | A lone job whose every batch fails is claimed exactly as often as its maximum allows, however many rounds are run, and ends as failed if and only if enough rounds are run; until then it is queued. |
| `JobRetries.PauseThenResume` | internal/jobs/jobs.go:259-265 | A paused job cannot be claimed; resuming it gives back the very table. |
| `JobRetries.PausedWhileRunning` | internal/jobs/jobs.go:259-278 | A job paused while it runs is not requeued, completed or failed by the batch that still runs. |
| `JobRetries.CheckpointIsKept` | internal/jobs/jobs.go:212-229 | A checkpoint saved in mid-batch is the one the next attempt starts from. |
| `JobRetries.CanceledForever` | internal/server/mount_admin.go:364-372 | Deleting a mount cancels its live jobs for good and touches no other job. |
| `JobRetries.PriorityDecides` | internal/jobs/jobs.go:65-103 | A job queued with a smaller priority number goes before any other, and with a greater one behind it, whatever their times. |
| `Jobs.FirstOf` | internal/jobs/jobs.go:105-163 | Among any queued jobs there is exactly one that the claim order puts first. |
| `ClaimOrder.ClaimOrderIsTimeOrderIff` | internal/jobs/jobs.go:94-131 | Two jobs of equal priority are claimed in the order of their creation if and only if their creation times are not within one second with the written digits of one fraction beginning those of the other. |
| `ClaimOrder.LaterJobCanBeNext` | internal/jobs/jobs.go:94-131 | Of a job queued on a whole second and one queued half a second later, the later is claimed first. |
| `Jobs.EveryRunValid` | internal/jobs/jobs.go:105-330 | In every run at most one job runs, a running job is claimed and no queued, paused, completed or failed one is, and attempts are below the maximum unless the job failed, when they equal it. |
| `Jobs.TerminalForever` | internal/server/mount_admin.go:364-372 | A completed, failed or canceled job keeps its row through every later run, cancellation by mount deletion included. |
| `Jobs.AttemptsCountFailures` | internal/jobs/jobs.go:280-300 | Attempts count exactly the failures, so no job fails more often than its maximum. |
| `ScanProtocol.StepKeepsGood` | internal/server/index_worker.go:163-236 | Every step of queue, workers and index (claim, commit, settle, crash between the two, give up, pause, resume, mount deletion) keeps: nothing that one undisturbed scan would emit is lost behind a live cursor. |
| `ScanProtocol.RunKeepsGood` | internal/server/index_worker.go:163-236 | So does every run, with any number of workers, stale ones included. |
| `ScanProtocol.CompletedMeansPlainScanIndexed` | internal/server/index_worker.go:187-236 | In every reachable state a completed scan job has indexed all that one undisturbed scan emits, and the index holds only listed entries of a live mount. |
| `ScanProtocol.CompletedMeansTreeIndexed` | internal/server/index_worker.go:187-236 | On a tree without split directories the index of a completed job is exactly the tree. |
| `ScanProtocol.NothingBehindCursorIsMissing` | internal/server/index_worker.go:187-236 | On such a tree every listed path at or before a live job's saved cursor is in the index. |
| `ScanProtocol.AloneRunsPlainScan` | internal/server/index_worker.go:163-236 | A single queued job, worked on alone, is one of the runs, completes, and indexes exactly the undisturbed scan. |
| `ScanProtocol.ReliableIffPlainScanCovers` | internal/server/index_worker.go:187-236 | Completion can be relied on in every run if and only if the undisturbed scan covers the listing: crashes, retries and stale workers cost nothing. |
| `ScanProtocol.ReliableIffSafeCursors` | internal/server/index_worker.go:187-236 | In terms of the listing alone: completion can be relied on if and only if nothing later in the walk lies at or before a cursor that batches of 500 save. |
| `ScanProtocol.SplitTreeNotReliable` | internal/server/index_worker.go:187-236 | A concrete tree on which a job completes with a listed path never indexed. |
| `ScanProtocol.DeletingClears` | internal/server/mount_admin.go:313-377 | Deleting a mount takes exactly its rows out of the index and ends exactly its live jobs. |
| `ScanProtocol.PausingHolds` | internal/jobs/jobs.go:259-265 | No worker can claim a paused job by either way; resuming it gives back the state. |
| `ScanProtocol.RequestedIsClaimed` | internal/jobs/jobs.go:167-210 | A queued job that is asked for by its id is claimed with its own checkpoint when nothing runs. |
| `ScanProtocol.OneJobAtATime` | internal/server/index_worker.go:163-236 | Whatever the workers do, stale ones included, the queue stays what its own operations make of it: at most one job runs, and attempts stay below the maximum unless the job failed. |
| `ScanProtocol.ScanIsQueued` | internal/server/index_worker.go:120-139 | A scan is queued to begin at the start, with the usual priority and three attempts. |
| `IndexWorker.Server.RunCatalogScanBatch` | internal/server/index_worker.go:187-236 | From claimed to settled, step by step on the two stores, any statement of which may fail, the settling one included: what happens is a run of the protocol, and the job is no longer running exactly when it was settled. When nothing fails it commits and settles exactly if the mount is there, stands for its directory and is indexed, and otherwise gives the job up. |
| `IndexWorker.Server.RunNextJobBatch` | internal/server/index_worker.go:163-185 | Claim and batch together are a run of the protocol; a claim that finds no work means that something runs or nothing is queued; the job worked on is the one next in line and no other job is touched; one of an unknown kind fails without a look at the index; after a batch a further claim is possible exactly when its job was settled. When nothing fails the job is always settled. |
| `LikePattern.EscapeLike` | internal/catalog/service.go:621-631 | The loop over the runes puts a backslash before each of the three special characters and nothing else. |
| `LikePattern.EscapedMatchesItself` | internal/catalog/service.go:621-631 | In any pattern an escaped text matches just that text, up to ASCII case, whatever characters it has. |
| `LikePattern.QueryPatternMeansContains` | internal/catalog/service.go:270-286 | The query's pattern matches a name exactly when the name contains the query. |
| `LikePattern.BoundaryPatternMeansBeneath` | internal/catalog/service.go:287-299 | The boundary's pattern matches a path exactly when the boundary and a slash are a prefix of it, up to ASCII case. |
| `LikePattern.BoundaryClauseIsComponentTest` | internal/catalog/service.go:287-299 | A boundary clause lets through all that is at or below it by components, and nothing that is not at least up to ASCII case; on texts without capitals it is exact. |
| `LikePattern.BoundaryClauseExactIff` | internal/catalog/service.go:287-299 | A boundary lets through nothing from outside, read literally, if and only if it has no ASCII letter. |
| `LikePattern.BoundaryReachesOtherCase` | internal/catalog/service.go:287-299 | The boundary `docs` lets through `Docs/x`. |
| `LikePattern.UnescapedPatternExactIff` | internal/server/file_ops.go:380-392 | The share revocation reaches every path at or beneath the target, read literally; it reaches no other if and only if the target has neither a wildcard character nor an ASCII letter. |
| `LikePattern.UnescapedUpToCaseIff` | internal/server/file_ops.go:386-390 | Up to ASCII case, the unescaped pattern matches no other path if and only if the target has no wildcard character. |
| `LikePattern.RevocationReachesOtherCase` | internal/server/file_ops.go:386-390 | Revoking for `docs`, which has no wildcard, also revokes for `Docs/x`. |
| `LikePattern.WildcardReachesOut` | internal/server/file_ops.go:386-390 | For every path with a wildcard, a path outside it whose shares are revoked too. |
| `Search.NormalizeBoundaries` | internal/catalog/service.go:537-567 | Refuses the list exactly when an entry is bad; otherwise returns each normalized boundary once, and no other. |
| `Search.MatchingMeans` | internal/catalog/service.go:270-299 | The filter selects exactly the undeleted entries of the space, on searchable mounts, whose folded names contain the query and that are, or up to ASCII case lie beneath, a requested boundary. |
| `Search.BoundaryRefusedIff` | internal/catalog/service.go:537-567 | A boundary is refused exactly when it names no mount or a path that any other request would be refused for. |
| `Search.CoversItsOwnIff` | internal/catalog/service.go:551-560 | Of an accepted boundary every entry at or beneath the path it names is let through if and only if the boundary is empty or "." or does not clean to ".". |
| `Search.DotBoundaryCoversNothing` | internal/catalog/service.go:551-560 | A boundary that is stored as "." covers no entry at all. |
| `Search.SlashedDotIsNotTheMount` | internal/catalog/service.go:551-560 | `./` is such a boundary, while `.` stands for the whole mount. |
| `Search.Search` | internal/catalog/service.go:229-357 | One page: refused exactly in the listed cases; otherwise the first entries, up to the limit, of the sorted matches behind the cursor, and a next cursor exactly when the page is full. |
| `Search.PageBreak` | internal/catalog/service.go:301-308 | Behind the cursor made of one row come exactly the rows after it in (folded name, id) order. |
| `Search.FollowCursors` | internal/catalog/service.go:300-350 | Following the cursors with any limits yields every matching entry exactly once, in order, and ends, when the two foldings agree on the matching names. |
| `Search.BreaksCleanlyIff` | internal/catalog/service.go:303-349 | Pages of entries with a given name always continue where the last one stopped if and only if SQLite's `lower` and the twice applied `strings.ToLower` agree on that name. |
| `Search.AskTwice` | internal/catalog/service.go:303-349 | Two requests over two entries of one name: where the foldings differ on it, the page behind the first page's cursor is empty when the cursor folds too high, so that an entry is skipped, and repeats the first entry when it folds too low. |
| `Search.AccentedNameIsSkipped` | internal/catalog/service.go:303-349 | With names of one capital U+00C9 the second entry matches and is never returned. |
| `Sorting.SortingUnique` | internal/catalog/service.go:308-308 | A set has only one sorting under a strict total order. |
| `Sorting.TakeSorted` | internal/catalog/service.go:308-309 | `ORDER BY` with `LIMIT`: the front of that sorting, up to the limit. |
| `Sorting.Sort` | internal/server/mount_auto_register.go:74-87 | Sorting distinct elements that come in any order. |
| `Uploads.CopyWithLimit` | internal/transfer/service.go:636-653 | Never yields more than the limit, yields the body whole when it fits, and reports too large only when it does not. |
| `Uploads.SumUpdate` | internal/transfer/service.go:596-602 | Replacing one part's size changes the sum by the difference. |
| `Uploads.ExactlyNumbers` | internal/transfer/service.go:368-374 | If as many numbers as there are parts are all present, the part numbers are exactly 1 to n. |
| `Uploads.Store.CreateUploadSession` | internal/transfer/service.go:157-196 | A fresh session with an empty manifest, or no change. When nothing fails it is refused exactly for a negative size or a taken target. |
| `Uploads.Store.WritePart` | internal/transfer/service.go:215-267 | The sum of the sizes never passes the announced size; the part file and the manifest entry are the whole body; too large is reported only when the body does not fit. When nothing fails every whole body that fits is accepted. |
| `Uploads.Store.VerifyComplete` | internal/transfer/service.go:359-401 | Finds exactly the first of the listed defects, or none. |
| `Uploads.CompleteIff` | internal/transfer/service.go:359-401 | Nothing is wrong exactly when the part numbers are 1 to n, every part file has the size noted for it, and the sizes add up to the announced one. |
| `Uploads.CompletionErrorMeans` | internal/transfer/service.go:359-401 | The only complaints are too large and incomplete, and the first is made exactly of an empty upload that has whole parts. |
| `Uploads.Store.AssembleParts` | internal/transfer/service.go:338-357 | The bytes written are the part files in number order. |
| `Uploads.Store.Publish` | internal/transfer/service.go:522-533 | Without overwrite never replaces a target. When nothing else fails it succeeds exactly on a free target or with overwrite. |
| `Uploads.Store.CompleteUpload` | internal/transfer/service.go:269-320 | On success exactly the announced number of bytes, the parts 1 to n in order, are at the target and nothing else changed; on failure nothing changed, but for the link that took effect. When nothing fails a verified upload is published exactly on a free target or with overwrite, and its session removed. |
| `UploadProtocol.StepKeepsGood` | internal/transfer/service.go:215-320 | Every file-system step of any number of instances on one session keeps each manifest copy, however stale, within the announced size and each assembly made of whole part bodies. |
| `UploadProtocol.EveryPublicationGood` | internal/transfer/service.go:269-320 | In every interleaving each published file has exactly the announced size, is made of whole part bodies numbered 1 to n in that order, and without overwrite replaces nothing. |
| `UploadProtocol.RoomIsNeverNegative` | internal/transfer/service.go:232-246 | However stale its manifest, an instance always finds room for the part it already has. |
| `UploadProtocol.LinkLeavesName` | internal/transfer/service.go:522-533 | A publication puts exactly the assembled bytes at the target and nothing anywhere else; by link it leaves the temporary name, whose removal ends the instance. |
| `UploadProtocol.RemovalEnds` | internal/transfer/service.go:313-336 | Once the manifest is removed no instance starts on the session; one that has begun may go on. |
| `UploadProtocol.UninterruptedWriteIsARun` | internal/transfer/service.go:215-267 | A part write that nothing interrupts is one of the runs and leaves what the store operation leaves. |
| `UploadProtocol.UninterruptedCompletionIsARun` | internal/transfer/service.go:269-320 | So is a completion, and it publishes the assembled parts. |
| `UploadClient.TotalCovers` | web/src/member/MemberFilesApp.tsx:764-764 | The rounded up number of parts covers the file, and one fewer does not. |
| `UploadClient.MissingSliceFits` | web/src/member/MemberFilesApp.tsx:770-775 | Whatever slices are already there, the next missing one fits in what is left. |
| `UploadClient.SlicesAssemble` | web/src/member/MemberFilesApp.tsx:770-775 | The slices in order are the file. |
| `UploadClient.AllSlicesComplete` | web/src/member/MemberFilesApp.tsx:770-778 | With all slices there the completion finds nothing wrong. |
| `UploadClient.SendMissing` | web/src/member/MemberFilesApp.tsx:770-777 | The loop sends just the missing slices; no part write on the way reports too large. |
| `UploadClient.UploadFile` | web/src/member/MemberFilesApp.tsx:721-793 | For every file, part size and set of slices already uploaded, a run that succeeds has published exactly the original bytes. When nothing fails it succeeds exactly on a free target or with overwrite. |
| `UploadClient.EveryTabPublishesTheFile` | web/src/member/MemberFilesApp.tsx:721-793 | Any number of clients sending one file through one session, in any interleaving and with any failures: every publication is exactly the file. |
| `UploadClient.EveryFileCanBePublished` | web/src/member/MemberFilesApp.tsx:721-793 | For every file and part size a session that has just been created has such a run that ends with exactly the file at the target, and every other file as it was. |
| `Capabilities.InsertGuardsAgreeWithAuthorize` | internal/access/mounts.go:35-73 | The conditions written out in the two inserts decide exactly as the access service does. |
| `CapabilityEffects.AuthorizeMeans` | internal/access/mounts.go:35-73 | An operation is allowed exactly to an active account with a membership and a grant for an active mount of that space, of which both allow it, on a mount that admits it. |
| `CapabilityEffects.StepDoes` | internal/server/admin_control.go:190-493 | Every handler does what it is asked for and touches no other row, or changes nothing, in terms of the tables alone: who then is a member, granted, enabled, which row is new, which are revoked. |
| `CapabilityEffects.NamedEndsForGood` | internal/aitoken/service.go:230-241 | What a handler revokes, ends or withdraws by name, a share, an upload or a token, is not live right after it nor after any later run. |
| `CapabilityRuns.StaleUpdateCanBreak` | internal/server/mount_admin.go:65-152 | A concrete table in which such an update leaves an upload running on a read-only mount. |
| `CapabilitySteps.StepKeepsSound` | internal/server/admin_control.go:190-493 | Every handler's transaction, the clean-up of token creation included, keeps: an unrevoked share, a running upload, a grant, a token boundary and a live token are each backed by current accounts, memberships, grants and mount settings. |
| `CapabilityRuns.EveryRunSound` | internal/server/mount_access_admin.go:125-278 | So does every run of serialised handlers. |
| `CapabilityRuns.NothingComesBack` | internal/server/mount_admin.go:313-377 | Through every run of serialised handlers revoked shares and tokens stay revoked, ended uploads stay ended as they did, deleted mounts and removed accounts stay so, and no row is pointed elsewhere. |
| `CapabilityRuns.StaleFinishOverwritesIff` | internal/server/api.go:1024-1076 | The outcome of an upload is written without looking at its status again: whatever ran since the request came in, this keeps the invariant, and overwrites how the upload ended if and only if it has ended otherwise meanwhile. |
| `CapabilityRuns.StaleFinishCanOverwrite` | internal/server/api.go:1049-1050 | A concrete run in which an upload canceled with its account ends up as completed. |
| `CapabilityRuns.UnrevokedShareUsableIffMountActive` | internal/share/service.go:157-190 | In every reachable state an unrevoked share passes the join exactly while its mount is active. |
| `CapabilityRuns.RunningUploadMayWriteIffMountActive` | internal/server/api.go:905-932 | In every reachable state a running upload's owner may write exactly while its mount is active. |
| `CapabilityRuns.BoundaryMayReadIffMountActive` | internal/aitoken/service.go:150-180 | In every reachable state a live token's boundary may be read exactly while its mount is active. |
| `CapabilityRuns.StaleUpdateKeepsSoundIff` | internal/server/mount_admin.go:65-152 | Writing back a mount row loaded before the transaction keeps the invariant if and only if it closes no door that a running upload or an unrevoked share still stands in. |
| `CapabilityRuns.FreshUpdateIsUpdate` | internal/server/mount_admin.go:65-152 | With a mount row that is not stale the update is the one of the serialised handler. |
| `CapabilityRuns.FreshFinishIsFinish` | internal/server/api.go:1024-1076 | With an upload that is still running the late write is the one of the serialised handler. |
| `CapabilityPrecision.StepEndsExactlyTheUnbacked` | internal/server/mount_access_admin.go:125-278 | What a step revokes, cancels or drops without being asked to by name is exactly what its own changes leave without backing: nothing that lost it is spared, nothing that kept it is hit. |
| `CapabilityStore.Database.SetUserEnabled` | internal/server/admin_control.go:190-265 | Statement by statement, any of which may fail: the whole transaction or nothing; not found exactly for unknown or deleted accounts. Nothing but a failing statement makes a transaction fail; so for all below. |
| `CapabilityStore.Database.PutSpaceMember` | internal/server/admin_control.go:357-393 | The membership stands and what it no longer carries has ended, or nothing has changed. |
| `CapabilityStore.Database.DeleteSpaceMember` | internal/server/admin_control.go:442-493 | The deletions come back when there was no membership to delete. |
| `CapabilityStore.Database.UpdateMount` | internal/server/mount_admin.go:107-152 | Mode and public shares are set from the request and from the row as it was loaded earlier, or nothing has changed. |
| `CapabilityStore.Database.SoftDeleteMount` | internal/server/mount_admin.go:313-377 | The mount is deleted with all that hangs on it, or nothing has changed; not found exactly when it was deleted before. |
| `CapabilityStore.Database.PutMountGrant` | internal/server/mount_access_admin.go:125-215 | A grant that the insert refuses is taken back together with what hangs on it, and that is committed. |
| `CapabilityStore.Database.DeleteMountGrant` | internal/server/mount_access_admin.go:241-278 | The grant goes with what hangs on it, or nothing has changed; not found exactly when there was none. |
| `CapabilityStore.Database.CreateToken` | internal/aitoken/service.go:134-180 | One refused boundary leaves no token; every boundary of an issued one was readable. |
| `CapabilityStore.Database.WithdrawToken` | internal/server/api.go:1868-1896 | The clean-up of a token whose boundary is no longer authorized: the token is revoked, no boundary of it is left, every other token and boundary and all other tables are as before; or nothing has changed. |
| `FileTree.PlaceCut` | internal/files/trash_crossmount.go:80-80 | Putting back what was cut out of a tree restores it. |
| `FileTree.MoveBackRestores` | internal/files/service.go:214-246 | Moving something to a free place and back restores the tree. |
| `FileTree.RejectSymlinkPath` | internal/files/service.go:376-392 | Accepts only paths whose every component is there and no symbolic link. |
| `FileTree.NamedIsCleaned` | internal/files/service.go:214-246 | The place a request names has the components of the cleaned request; a refused request, and one for the mount itself, names none. |
| `FileTree.AbsentMeans` | internal/files/trash_crossmount.go:58-62 | A path is plainly absent exactly when all that exists on the way to it is a directory. |
| `CrossMount.OneMoreChild` | internal/files/trash_crossmount.go:421-459 | Copying one more child of a directory extends the copied part by exactly that child's subtree. |
| `CrossMount.Mounts.CopyFileVerified` | internal/files/trash_crossmount.go:461-491 | On success a new file of the expected size with the source's bytes; on failure at most a partial new file; chunk by chunk. When nothing fails a regular file of that size is copied to any place where one can be made. |
| `CrossMount.Mounts.CopyDirTree` | internal/files/trash_crossmount.go:421-459 | Entries in any order, any call failing: on success exactly the source subtree restricted to directories and regular files is at the destination and nothing else changed. When nothing fails it succeeds wherever a directory can be made. |
| `CrossMount.Mounts.RemoveAll` | internal/files/trash_crossmount.go:300-302 | Children first in any order, stopping anywhere: only what is at or below the path goes, and all of it on success. |
| `CrossMount.Mounts.CopyAcrossMounts` | internal/files/trash_crossmount.go:264-311 | The outcome's path is what `path.Join` makes of the cleaned target directory, or of none when that is refused or blank, and the last name of the source; on success the copy stands there at every depth; outside that place nothing changes; after an error the destination is as before when cleaning up succeeded, and otherwise differs only below that path. When nothing fails, a file or directory is copied exactly when the target may be written, no link is on the way, the target directory is there and the place in it is free. |
| `CrossMount.DestinationIsPathJoin` | internal/files/trash_crossmount.go:269-270 | The place the copy is put, component by component, is the joined and cleaned text. |
| `CrossMount.CopyHoldsExactly` | internal/files/trash_crossmount.go:421-459 | Of a copied directory exactly the directories and regular files arrive, with their content. |
| `CrossMount.Mounts.Delete` | internal/files/service.go:250-274 | Takes only what is at or below the path. When nothing fails, just what exists and is no link is deleted, on a mount that may be written. |
| `CrossMount.Mounts.MoveAcrossMounts` | internal/files/trash_crossmount.go:314-331 | The same target as for a copy; in no state recorded from the first to the last is a regular file whole in neither mount; on success the source subtree is gone and the copy complete, and every node is on one of the sides if and only if there were only directories and regular files; in neither mount does anything outside the two places change. When nothing fails no move is left incomplete, and what can be copied is moved. |
| `CrossMount.MoveKeepsNodesIff` | internal/files/trash_crossmount.go:443-456 | After a copy and the removal of the source, every node is on one of the sides if and only if the source subtree holds directories and regular files only. |
| `CrossMount.MovedLinkIsLost` | internal/files/trash_crossmount.go:443-456 | A concrete directory whose symbolic link is on neither side after the move. |
| `Trash.SoftDeleteEffect` | internal/files/trash_crossmount.go:47-113 | Takes exactly the object out of sight, records it, and leaves the other items alone. |
| `Trash.DeletingKeepsContent` | internal/files/trash_crossmount.go:80-83 | The object's exact subtree is kept unless it is called `meta.json`. |
| `Trash.FileKeptIff` | internal/files/trash_crossmount.go:356-371 | A regular file survives its deletion if and only if it is not called `meta.json` or already holds the bytes of its record. |
| `Trash.MetaJsonIsLost` | internal/files/trash_crossmount.go:80-96 | A concrete tree on which a user's `meta.json` is lost. |
| `Trash.UndoneAgrees` | internal/files/trash_crossmount.go:96-101 | Moving the object back after its record could not be written gives back the old visible tree and the other items. |
| `Trash.AgreeEffect` | internal/files/trash_crossmount.go:47-113 | Trees that differ at most in one item and the directories leading to it look the same to users and hold the same other items. |
| `Trash.RollbackIsAllowed` | internal/files/trash_crossmount.go:96-101 | Whatever was written of the record, the tree never stands in the way of moving the object back. |
| `Trash.StrandedIsLost` | internal/files/trash_crossmount.go:96-101 | When moving the object back fails as well, the removal of the item's directory takes the object with it: it is neither at its path nor in the trash. |
| `Trash.RestoreEffect` | internal/files/trash_crossmount.go:154-189 | The object is back at the target as it was kept; only missing parents are new; the other items are untouched. |
| `Trash.RestoreKeepsVisibleIff` | internal/files/trash_crossmount.go:173-189 | A restore keeps everything users saw if and only if nothing is at the target, or just what comes back. |
| `Trash.RestorationKeepsVisibleIff` | internal/files/trash_crossmount.go:173-189 | So does the whole operation, its clean-up included. |
| `Trash.RestoredDirectoryLosesNothing` | internal/files/trash_crossmount.go:173-189 | A directory that is restored never replaces more than an empty directory; only a restored file or link can cost users something. |
| `Trash.ConflictNameCanBeTaken` | internal/files/trash_crossmount.go:395-399 | A concrete tree, with a record for the item, in which the second restore of one path within a second can be carried out and replaces what the first one brought back. |
| `Trash.ItemsStay` | internal/files/trash_crossmount.go:47-189 | Through every run an item that is not itself restored or purged stays as it is. |
| `Trash.DeleteRestoreRoundTrip` | internal/files/trash_crossmount.go:47-189 | Deletion, any run of other deletions, restores, purges and edits, then a restore to the original path: the exact subtree is back, nothing else users see has changed but for new parents, the other items are untouched. |
| `Trash.DeleteThenRestoreAtOnce` | internal/files/trash_crossmount.go:47-189 | Restored at once, a deleted object leaves no trace that users could see. |
| `TrashedMount.ConflictSafePath` | internal/files/trash_crossmount.go:395-399 | Another name in the same directory, never the original one. |
| `TrashedMount.ConflictNameMeans` | internal/files/trash_crossmount.go:395-399 | The time goes between the name and its extension, which is kept, so restores at different times get different names. |
| `TrashedMount.Mount.MkdirAll` | internal/files/trash_crossmount.go:401-419 | Makes the missing directories on the way, up to where it failed. |
| `TrashedMount.Mount.SoftDelete` | internal/files/trash_crossmount.go:47-113 | Call by call, any of which may fail: the deletion step with the record read back as written; or the same visible tree and other items as before, but for a file called `meta.json` that may now hold a part of the record; or, when the rollback fails too, the visible tree without the object. When nothing fails, every file or directory is deleted whose item can be made, except that a directory called `meta.json` is moved back. |
| `TrashedMount.Mount.RollBack` | internal/files/trash_crossmount.go:96-101 | Moving back undoes the deletion; the object is left behind only when that call itself fails for a reason outside the tree. When nothing fails the object is back. |
| `TrashedMount.Mount.SurvivesUnlessStranded` | internal/files/trash_crossmount.go:84-101 | An object not called `meta.json` survives a deletion, successful or not, if and only if it is not left behind by a failed rollback and then wiped out. |
| `TrashedMount.Mount.RestoreTrash` | internal/files/trash_crossmount.go:154-189 | Restores to the original path when that is free and to the conflict-safe one otherwise; what users saw stays if and only if nothing else was at that target; a failure only leaves new directories. When nothing fails it succeeds whenever the way to the target is open and the rename allowed. |
| `TrashedMount.RestoreOverTaken` | internal/files/trash_crossmount.go:173-189 | On a tree where the conflict-safe name is taken, every successful restore loses what was there. With two files, and nothing failing, it does succeed. |
| `TrashedMount.ConflictHasBothTaken` | internal/files/trash_crossmount.go:395-399 | The concrete tree of the conflict is such a tree. |
| `TrashedMount.Mount.MoveWithinMount` | internal/files/service.go:214-246 | A rename to a free place, or no change. When nothing fails it succeeds whenever the source is there and no link, the new directory is there and the place free and not inside the source. |
| `TextOrder.Trichotomy` | internal/catalog/service.go:477-477 | The string order is total. |
| `Paths.AtOrBelowIsComponentPrefix` | internal/server/api.go:1463-1468 | Equal, or a prefix followed by a slash, is the same as being a prefix by components. |
| `Paths.CleanIdempotent` | internal/storage/path.go:11-27 | Cleaning a path twice is cleaning it once. |
| `Paths.CleanRelativePathAccepts` | internal/storage/path.go:11-27 | An accepted path is "." or consists of proper names, the first of them not reserved, and has the components of the request after cancellation. |
| `PathCleaning.RefusedIff` | internal/storage/path.go:11-27 | A request is refused as absolute exactly when it begins with a slash, as leaving the mount exactly when, walked component by component, it rises above its start at some point, and as reserved exactly when its first component is the reserved name in the end. |
| `PathCleaning.NameThenUpCancels` | internal/storage/path.go:19-19 | Anywhere in a path a name and the ".." behind it cancel. |
| `PathCleaning.CleanCancels` | internal/storage/path.go:19-19 | On texts: `a/name/../b` is cleaned as `a/b` is, for every name and all `a` and `b`. |
| `PathCleaning.CleanSkips` | internal/storage/path.go:19-19 | `a/./b` and `a//b` are cleaned as `a/b` is. |
| `PathCleaning.CleanStopsAtRoot` | internal/storage/path.go:19-19 | Nothing lies above the root. |
| `PathCleaning.CleanTrims` | internal/storage/path.go:19-19 | A leading "./" and a trailing slash make no difference to a relative path. |
| `Paths.CleanedIsFixed` | internal/storage/path.go:11-27 | Accepting an accepted path again changes nothing, if and only if it is not all white space. |
| `Paths.ShareBoundPathConfined` | internal/server/share_portal.go:164-193 | The bound path is the share root or beneath it by components, and the display path gives back the cleaned request. |
| `Paths.BoundaryTestIsExact` | internal/server/api.go:1453-1470 | The token boundary test holds exactly when the boundary's components are a prefix of the path's. |
| `Paths.NormalizedBoundaryIsCleaned` | internal/aitoken/service.go:374-395 | A stored boundary is the whole mount or a cleaned path. |
| `PathCleaning.BoundaryPathMeans` | internal/aitoken/service.go:374-395 | A token boundary is stored as any request would be cleaned, the mount itself as the empty text, and refused exactly when that request is refused, holds a NUL or names the reserved directory anywhere. |
| `PathCleaning.TrimSpaceTakesEnds` | internal/aitoken/service.go:374-376 | Trimming takes the white space off both ends, all of it and nothing else. |
| `PathCleaning.ShareBoundPathRefuses` | internal/server/share_portal.go:164-193 | Within a share exactly the requests are refused that are refused on a mount. |
| `MountRegistry.ContainmentIsComponentPrefix` | internal/mountid/mountid.go:361-371 | On absolute clean paths the string test means containment by components, the root directory included. |
| `MountRegistry.CheckConflicts` | internal/mountid/mountid.go:109-132 | No conflict exactly when the candidate and every existing identity are complete and none overlaps by path, directory or bind source. |
| `MountRegistry.BindSourceOverlapsMeans` | internal/mountid/mountid.go:377-388 | Two mounts of one device overlap exactly when they are different mounts and some path of the device lies in both. |
| `MountRegistry.AtMostOneMount` | internal/mountid/mountid.go:109-132 | In a valid registry every absolute path lies in at most one mount. |
| `MountRegistry.RunKeepsValid` | internal/server/mount_admin.go:193-240 | In every run of registrations, re-verifications, refreshes and deletions no undeleted root contains another and no two are one directory. |
| `MountRegistry.StepDoes` | internal/server/mount_admin.go:193-331 | Each handler touches only the row it names: the mount stands with the identity found, or is deleted. |
| `MountRegistry.MatchingOverlaps` | internal/server/api.go:2774-2797 | An identity that matches the stored one overlaps just what the stored one does. |
| `MountRegistry.BestMountForPath` | internal/mountid/mountid.go:344-355 | The first of the longest mount points that contain the path, or none if none does. |
| `MountRegistry.LongestIsNearest` | internal/mountid/mountid.go:344-355 | The longest enclosing mount point lies within all the others, so it is the nearest. |
| `MountRegistry.Registry.CreateMount` | internal/server/api.go:1504-1572 | Registered as asked, refused or failed: on success one new active row with the captured identity; refused only when no identity was found or another mount is in the way; otherwise every row is as before, and a mount is registered only when it is free of the others. Nothing but a failing statement fails it. |
| `MountRegistry.Registry.ReverifyMount` | internal/server/mount_admin.go:180-240 | A root is checked against all others but itself before it is active again, with the identity that was captured; refused only when there is no such mount, no identity was found or another mount is in the way; then nothing changes. |
| `MountRegistry.Registry.RefreshMountIdentity` | internal/server/api.go:2707-2770 | Compared with the identity loaded earlier and stored later, with any handlers in between: the registry stays valid if and only if nothing was stored, the mount is gone, or no other mount stands for the directory that was found; with nothing in between it always does. |
| `MountRegistry.StaleRefreshKeepsValidIff` | internal/server/api.go:2752-2764 | The update on its own, after any handlers since the comparison: it keeps the registry valid if and only if the mount has been deleted or no other mount stands for the very directory that was found. |
| `MountRegistry.StaleRefreshCanBreak` | internal/server/api.go:2707-2770 | A concrete run after which two mounts stand for one directory. |
| `MountRegistry.Registry.SoftDeleteMount` | internal/server/mount_admin.go:313-331 | Deletes exactly an undeleted mount. |
| `MountRegistry.Registry.AutoRegister` | internal/server/mount_auto_register.go:138-255 | The registration loop is a run of registrations; but for the points at which a statement failed, each point afterwards has a mount, or nothing could be found out about it, or another mount is in its way. When no statement fails there are no such points. |
| `MountSelection.BeneathIsDeeper` | internal/server/mount_auto_register.go:104-110 | What lies strictly beneath a clean path has greater depth. |
| `MountSelection.CollectPoints` | internal/server/mount_auto_register.go:52-64 | The eligible points, each with the last entry listed for it. |
| `MountSelection.SelectConfiguredMounts` | internal/server/mount_auto_register.go:49-102 | A point is selected exactly when it is listed and wanted, nothing else wanted contains it but the external root, and, if it is the external root, nothing else wanted lies in it; the points come in the order of the number of their slashes and then by name, each with its last entry. |
| `MountSelection.ChosenAreMinimal` | internal/server/mount_auto_register.go:58-101 | That choice is the minimal ones of the points that remain after the external root has given way. |
| `MountSelection.DepthIsCount` | internal/server/mount_auto_register.go:104-110 | On clean paths the depth is the number of slashes, and none for the root. |
| `MountSelection.SelectionIsDetermined` | internal/server/mount_auto_register.go:74-87 | There is only one such result, so the order in which the map is iterated does not matter. |
| `MountSelection.MinimalPointsCover` | internal/server/mount_auto_register.go:89-101 | Every eligible point lies at or beneath a selected one. |
| `Timestamps.DifferentSecondsInOrder` | internal/share/service.go:266-268 | Instants in different whole seconds have texts in their own order. |
| `Timestamps.WithinSecondInOrderIff` | internal/share/service.go:266-268 | Within a second the earlier instant has the smaller text if and only if its written digits are not a prefix of the later one's. |
| `Timestamps.ExpiryTestsAgreeIff` | internal/share/service.go:192-214 | The SQL expiry test and `now.Before` agree, except within a second when the digits of one fraction begin those of the other, when they are opposite. |
| `Timestamps.HalfSecondIsMisread` | internal/share/service.go:205-214 | A whole second and half a second later are a concrete case. |
| `ShareSessions.Store.Exchange` | internal/share/service.go:97-250 | A session is issued exactly when the share is live by both tests, the secret and password fit and a visit is left; a password is asked for exactly when the share has one and none was sent; each visit counted issues one session, which ends with the share if that is sooner. |
| `ShareSessions.Store.VerifySession` | internal/share/session.go:31-105 | Accepts exactly unrevoked, unexpired sessions of an unrevoked, unexpired share of the same generation. |
| `ShareSessions.Store.IncrementDownload` | internal/share/session.go:111-149 | Counts exactly while a download is left, and never past the maximum. |
| `ShareSessions.Store.Sweep` | internal/server/index_worker.go:154-158 | Removes exactly the sessions that SQL sees as expired. |
| `ShareSessions.SweptEarlyOnlyInLastSecond` | internal/server/index_worker.go:154-158 | A live session is swept early only in its last second. |
| `Pbkdf2.Pbkdf2Sha256` | internal/identity/crypto.go:92-115 | For every password, salt, iteration count and length the key is that of section 5.2 of RFC 8018. |
| `Pbkdf2.DeriveBlock` | internal/identity/crypto.go:96-112 | The chain of hashes folded in place is the exclusive or of all of them. |
| `Pbkdf2.XorInPlace` | internal/identity/crypto.go:108-110 | The inner loop is the octet-wise exclusive or. |
| `Pbkdf2.ShorterKeyIsPrefix` | internal/identity/crypto.go:92-115 | A shorter key is a prefix of a longer one. |
| `Pbkdf2.FirstBlockWrittenOut` | internal/identity/crypto.go:96-112 | Written out for one and two iterations: the hash of the salt followed by the four octets of the block number, and its exclusive or with the hash of that. |
| `Pbkdf2.BlockIndicesDiffer` | internal/identity/crypto.go:99-99 | Within the standard's bound no two blocks hash the same index. |

## Left out

- CatalogWalk.Collector.Walk: the sorting of a directory's entries is a premise on the tree (siblings in strictly ascending order) instead of a call.
- Invalid UTF-8 in names is not modelled.
- Stale catalog rows and jobs left running by a process crash: the code removes and recovers neither, so no equality in that direction and no liveness is claimed.
- Jobs.TerminalForever: cancellation by mount deletion matches jobs by their mount, where the code looks for the mount id inside the payload text.
- Job timestamps other than the creation time, and progress texts.
- UploadProtocol.EveryPublicationGood: says nothing of which of several concurrent bodies for one part is the one published, because the code does not order them.
- Session directories, expiry of uploads and symlink checks on upload targets, beyond failing.
- CapabilityRuns.EveryRunSound: holds for handlers one at a time; what an interleaved mount update or end of an upload does is stated separately.
- Browser sessions, administrators and account deletion; the model keeps the deleted status as one that no handler leaves.
- CrossMount.Mounts.CopyAcrossMounts: the source tree does not change while it is copied, so the size comparison always holds for regular files; file modes and times are not modelled.
- TrashedMount.Mount.SoftDelete: what a removal that stops half way leaves in the item's directory after a failed rollback.
- TrashedMount.Mount.RestoreTrash: a symbolic link put in the place of a parent directory since the deletion counts as an error, where the operating system may follow it.
- Listing, purging and emptying the trash as methods; a purge is an event of the runs.
- Kinds, sizes and times in trash records, which no restore reads.
- Bind-source overlap as a lasting invariant of the registry: it depends on kernel mount ids, which a refresh changes.
- MountRegistry.Registry.RefreshMountIdentity: compares path, device and inode only, and treats an unavailable mount as an active one.
- Jobs.Store.ClaimNext and the other job store methods: their statements succeed here; `IndexWorker.Server`, which calls them, lets each fail.
- Parsing of the kernel's mount table, display names and mount kinds.
- Timestamps.DifferentSecondsInOrder: years from 10000 on, which take five digits; an expiry like `9999-12-31T23:59:59-01:00` is accepted (internal/server/api.go:1661) and is one in UTC.
- Timestamps.ExpiryTestsAgreeIff: instants are given by their calendar fields in UTC; calendar arithmetic and time zones belong to Go's library.
- ShareSessions.Store.Exchange: the clock plus the session's lifetime, and whether the creator's authority still backs the share, are inputs.
- Pbkdf2.Pbkdf2Sha256: HMAC with SHA-256 is a parameter of which only the length of its result is used.
- HTTP plumbing, audit records, the user interface apart from the chunk loop, migrations and backup.
- Byte ranges, TOTP, redaction, route groups and preview kinds.
