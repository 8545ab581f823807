# Thunderstore verification model

A Dafny 4.11 model of the parts of Thunderstore that carry state or algorithms, with proofs of what they
keep. `dafny verify dfyconfig.toml` checks the whole project.

| file | what it models |
|---|---|
| `ChunkedCache.dfy`, `Batch.dfy`, `Json.dfy` | the chunked package-list cache: batches, order restoration, greedy packing, chunk text |
| `Tiling.dfy`, `S3Upload.dfy` | the server side of a multipart upload, and the way from a file to the object S3 assembles |
| `FileUpload.dfy`, `FileUploadObject.dfy`, `Throttle.dfy`, `Retry.dfy` | the browser side: the upload, its part tasks, cancelling, throttling, retrying |
| `UploadOutcome.dfy` | how `upload()` begins and ends, and how often the finish request is sent |
| `CanceledUpload.dfy` | what a cancel does: telling the server, winding down, and whether the call still returns |
| `EndToEnd.dfy` | browser, server and bucket together: what a completed upload has stored |
| `Submission.dfy`, `SubmissionSchedule.dfy` | asynchronous package submission: polls, task deliveries, workers, crashes |
| `Repository.dfy`, `Dependencies.dfy`, `LatestVersion.dfy` | uploads, the dependency graph, the cached latest version |
| `Keyset.dfy` | cursor pagination over package versions |
| `Reference.dfy`, `Version.dfy`, `Filepath.dfy`, `Text.dfy` | reference and version text, storage path normalising |
| `LegacyProfile.dfy` | the content-addressed profile store and its caches |
| `Sorting.dfy`, `Prelude.dfy` | Python's stable sort, option and result types |

## How it is modelled

Code that updates objects or variables step by step is imperative here too: a class or a method with loops,
whose `ensures` equates the new state with a function of the old one or states the promised property
outright. What the code promises is then proved about those functions, over all inputs and all runs.

Protocols are runs of a step function over arbitrary sequences of actions. In `FileUpload` an action is the
code between two awaits; in `Submission` it is a transaction or the reading of a row; in `S3Upload` it is
one operation, whose S3 calls may each be refused or lose their connection before or after taking effect. In
`EndToEnd` it is an action of the browser or the arrival of one of its requests at the server or at S3, which
may come late, more than once or never; the browser sees a good answer only to a request that was granted.

What comes from outside is a parameter or a nondeterministic choice: clock readings, generated ids, file
contents, the order in which a database returns rows, the outcome of a network call, the outcome of the
upload form. Hashes (SHA-256, MD5, S3 entity tags) are taken as injective and compression as the identity.
Dates are integers. `StrictVersion` is Python's `distutils.version.StrictVersion`, which is not part of the
repository; JSON text is that of RFC 8259 (arrays of section 5, strings of section 7).

## Where the code does not do what it says

* The chunk limit counts the brackets but not the comma it adds, so a chunk of several listings can be one
  byte over. `ChunkedCache.BlobSize` says exactly when, `ChunkedCache.LimitIsExceededByOne` gives a case.
* `chunked_enumerate` promises all rows but skips rows whose id is smaller than that of an older row at a page
  boundary. `Keyset.CompleteIff` and `Keyset.CompleteForAllSizesIff` say exactly when nothing is skipped.
* A profile that is already stored is refused when its size does not fit under the cap a second time
  (`LegacyProfile.RepeatedUploadIff`).
* A part answered with an error status is retried, and the retry can complete it, but the upload can no longer
  become complete. Once all parts have completed the upload is finished exactly if it was not canceled and no
  part was ever rejected (`FileUpload.FinishesIff`); `FileUpload.RejectionCanBeRetriedInVain` gives a run.
* Polls that read the row before another one writes it can schedule a task too soon
  (`SubmissionSchedule.StalePollsScheduleTwice`). `SubmissionSchedule.TooSoonIffStale` says exactly which polls can, and
  `SubmissionSchedule.EnqueuesOnceFinishedIff` which can enqueue a task for a submission that is already finished.
* A canceled upload need not return: an aborted request never settles (`builder/src/utils.ts:76-90` handles
  loading and errors only), so its task keeps its place in the throttler. `CanceledUpload.ReturnsIffNotStuck`
  says exactly when the call hangs, `CanceledUpload.CancelCanHang` gives a run.
* If the answer to the creation of a multipart upload is lost, the upload stays open after its row has been
  cleaned up, and only then (`S3Upload.LeftoverIffCreationLost`). If the answer to the deletion of an object is
  lost, the row is kept as complete without its object (`S3Upload.StatusTellsWhatS3Holds`).

## Model

| member | source | states |
|---|---|---|
| Batching.Batch | django/thunderstore/utils/batch.py:6-14 | The batches in order are the input, none is empty, and all but the last have the batch size (one, if the size is smaller). |
| ChunkedCache.FetchRows | django/thunderstore/repository/models/cache.py:295-304 | The rows with the wanted ids, each once, in an order the caller knows nothing about. |
| ChunkedCache.GetPackageListingChunk | django/thunderstore/repository/models/cache.py:260-307 | Whatever order the database answers in, the rows come back in the order of the ids. |
| ChunkedCache.DataBlobGroup.AddEntry | django/thunderstore/storage/models/group.py:26-43 | Appends the entry, or refuses and changes nothing once the group is complete. |
| ChunkedCache.UpdateForCommunity | django/thunderstore/repository/models/cache.py:163-207 | The stored chunks are the greedy packing of the listings in query order, under the given limit or 14,000,000 bytes if none or zero is given; the group ends complete. |
| ChunkedCache.ChunksRoundTrip | django/thunderstore/repository/models/cache.py:179-205 | Splitting every chunk as a JSON array and concatenating gives exactly the listings, each once, in order; no listings give the one chunk `[]`. |
| ChunkedCache.PackIsMinimal | django/thunderstore/repository/models/cache.py:187-205 | No order-preserving split of the listings into runs that pass the size test has fewer runs than the packer produces. |
| ChunkedCache.ExceedsIsNotFits | django/thunderstore/repository/models/cache.py:196-198 | The code's size test on the chunk text fails exactly if the longer run's total plus its length passes the limit. |
| ChunkedCache.BlobSize | django/thunderstore/repository/models/cache.py:194-202 | A chunk with several listings is at most one byte over the limit, and over exactly if its run meets the limit; a larger chunk holds one listing. |
| ChunkedCache.LimitIsExceededByOne | django/thunderstore/repository/models/cache.py:194-202 | The extra byte occurs. |
| ChunkedCache.ChunksAreFull | django/thunderstore/repository/models/cache.py:196-200 | The first listing of a chunk would have failed the size test on the chunk before it. |
| Json.SplitOfArray | django/thunderstore/repository/models/cache.py:179-185 | Objects joined by commas inside brackets are taken apart again exactly, by a scanner that tracks depth, strings and escapes. |
| Json.DumpedObjectIsObject | django/thunderstore/repository/models/cache.py:318-359 | The text of any dictionary, with any nesting and any characters, is one object to that scanner. |
| Tiling.PlanParts | django/thunderstore/usermedia/s3_upload.py:78-104 | The planned parts are consecutive, number `ceil(size / part size)`, are full but for the last, and cover the file exactly. |
| Tiling.SliceIsExact | builder/src/state/FileUpload.ts:155-158 | The browser's slice of a part within the file is exactly the planned range, so its signed length matches. |
| Tiling.PutAllStores | builder/src/state/FileUpload.ts:151-206 | In whatever order and however often slices are uploaded, each uploaded part number ends up holding its slice. |
| Tiling.SortedCompletions | django/thunderstore/usermedia/s3_upload.py:138 | Sorting by part number brings any permutation of the completed parts back into plan order. |
| Tiling.JoinableIff | django/thunderstore/usermedia/s3_upload.py:138-148 | S3 accepts a report of the plan, in any order once sorted, exactly if the plan is not empty and every slice is stored; what it joins is then the file. |
| Tiling.OnlyPlanOrderIsAccepted | django/thunderstore/usermedia/s3_upload.py:138 | Without the sort only a report that already is in plan order would be accepted. |
| Tiling.ObjectWithinDeclaredSize | django/thunderstore/usermedia/s3_upload.py:81-99 | Whatever bodies a client uploads to its signed addresses and whatever it reports, the joined object is no larger than the declared size, and exactly that large if every part is in it. |
| Tiling.UploadReproducesFile | django/thunderstore/usermedia/s3_upload.py:138-148 | For every non-empty file and part size, any upload order and any order of the report, S3 accepts the sorted parts and the joined object is the file. |
| S3Upload.S3Client.Send | django/thunderstore/usermedia/s3_upload.py:42-46 | One request, answered, refused or cut off; other keys are untouched. |
| S3Upload.CreateUpload | django/thunderstore/usermedia/s3_upload.py:24-50 | Refusals create nothing; otherwise a row that records the upload id exactly if S3's answer arrived. |
| S3Upload.GetSignedUploadUrls | django/thunderstore/usermedia/s3_upload.py:60-104 | Refuses a missing bucket, anyone but the owner and any other status, exactly and in this order; otherwise returns parts of 50 MiB that tile the recorded size. |
| S3Upload.FinalizeUpload | django/thunderstore/usermedia/s3_upload.py:107-163 | The row and the bucket after every outcome of the two S3 calls, other keys untouched; anyone but the owner is refused and changes nothing. |
| S3Upload.AbortUpload | django/thunderstore/usermedia/s3_upload.py:166-193 | The row and the bucket after every outcome, other keys untouched; anyone but the owner is refused and changes nothing. |
| S3Upload.CleanupExpiredUpload | django/thunderstore/usermedia/s3_upload.py:225-266 | The row is gone or, after an exception, back as it was; the bucket accordingly. |
| S3Upload.OthersAreRefused | django/thunderstore/usermedia/s3_upload.py:117-119 | Nobody but the owner finalizes, aborts or downloads an upload: each gets a permission error and nothing changes. |
| S3Upload.OnlyOwnerChangesRow | django/thunderstore/usermedia/s3_upload.py:69-70 | In every run the owner stays the creator, and a row changes only by the owner's finalize or abort or by a cleanup. |
| S3Upload.RefusalsInOrder | django/thunderstore/usermedia/s3_upload.py:115-136 | A missing bucket, a wrong status, an open transaction or a time before the expiry refuses each operation, in this order, with nothing changed. |
| S3Upload.CreateSucceedsIff | django/thunderstore/usermedia/s3_upload.py:31-50 | Succeeds exactly with a bucket, a size from one byte to the maximum and S3's answer, and what row is left in each case. |
| S3Upload.FinalizeSucceedsIff | django/thunderstore/usermedia/s3_upload.py:113-156 | Succeeds exactly for the owner of a created upload, outside a transaction, whose sorted report S3 accepts without a fault; the row then has the object's size. |
| S3Upload.FinalizeMarksError | django/thunderstore/usermedia/s3_upload.py:140-163 | The row is marked as an error exactly if S3 refused the parts or the object or used another key; a lost connection leaves it as it was. |
| S3Upload.AbortSucceedsIff | django/thunderstore/usermedia/s3_upload.py:169-193 | Succeeds exactly for the owner of a created, aborted or failed upload that is open in S3. |
| S3Upload.CleanupSucceedsIff | django/thunderstore/usermedia/s3_upload.py:225-266 | Succeeds, and removes the row, exactly once expired and without a fault if S3 has to be asked. |
| S3Upload.DownloadSucceedsIff | django/thunderstore/usermedia/s3_upload.py:196-222 | Exactly the owner of a complete upload gets exactly the stored object. |
| S3Upload.RunIsConsistent | django/thunderstore/usermedia/s3_upload.py:24-266 | Every state of every run keeps the row and the bucket consistent, lost answers included. |
| S3Upload.StatusTellsWhatS3Holds | django/thunderstore/usermedia/s3_upload.py:107-193 | In every state of every run an aborted or complete row has no open multipart, and a complete row has its object, of the recorded size, exactly until a deletion answer is lost. |
| S3Upload.LeftoverIffCreationLost | django/thunderstore/usermedia/s3_upload.py:225-266 | After cleanup a multipart upload is left open exactly if its creation's answer was lost. |
| S3Upload.CompleteIsLeftByCleanup | django/thunderstore/usermedia/s3_upload.py:121-125 | A complete row is changed only by a cleanup that removes it, and finalizing it again fails. |
| S3Upload.CleanupIsAllOrNothing | django/thunderstore/usermedia/s3_upload.py:251-266 | Cleanup raises and keeps the row, or removes it, leaves no multipart of a row that knew its id, and deletes the object of a complete row and of no other. |
| S3Upload.FinalizeSucceedsOnce | django/thunderstore/usermedia/s3_upload.py:107-163 | At most one finalize of an upload succeeds in any run. |
| S3Upload.FinalizedFileIsDownloaded | django/thunderstore/usermedia/s3_upload.py:196-222 | Once every planned slice is stored, finalizing with the parts in any order succeeds and a download returns the file. |
| FileUpload.RunKeepsInvariant | builder/src/state/FileUpload.ts:136-368 | The invariant over status, tasks and log holds after every interleaving. |
| FileUpload.CanceledIsAbsorbing | builder/src/state/FileUpload.ts:58-63 | Once canceled, an upload stays canceled under every continuation. |
| FileUpload.NoPutAfterCancel | builder/src/state/FileUpload.ts:136-149 | No part request starts after the cancel. |
| FileUpload.AtMostTenPuts | builder/src/state/FileUpload.ts:208-225 | Each part is sent at most ten times. |
| FileUpload.CompleteIsEarned | builder/src/state/FileUpload.ts:332-368 | Complete is entered only from uploading, after every planned part completed and with no part ever rejected. |
| FileUpload.FinishReportsAllParts | builder/src/state/FileUpload.ts:355-366 | Every finish request lists all planned parts in plan order after all have completed and none was rejected; the first one precedes any cancel. |
| FileUpload.FinishesIff | builder/src/state/FileUpload.ts:284-353 | In any run whose parts have all completed, the finish request is sent, and the upload completes when it is answered, exactly if there was no cancel and no rejected part. |
| FileUpload.SurvivesNineFailures | builder/src/retry.ts:9-20 | In any run without a cancel, whatever the other tasks do meanwhile: a part that fails in any mix of ways, checksum, connection or rejection, before it succeeds is completed exactly if it fails at most nine times. |
| FileUpload.RejectedIsNotComplete | builder/src/state/FileUpload.ts:196-199 | No run ends complete in which a part was ever rejected. |
| FileUpload.RetriedRejectionIsFatal | builder/src/state/FileUpload.ts:196-199 | A rejected part that a retry completes keeps the upload from completing under every continuation. |
| FileUpload.RejectionCanBeRetriedInVain | builder/src/state/FileUpload.ts:196-225 | A run in which that happens: the only part is rejected, retried and completed, and the upload fails. |
| FileUpload.StepsThrottle | builder/src/throttle.ts:16-26 | Every step of an upload is a step of the throttler or invisible to it. |
| FileUpload.AtMostThreeAtOnce | builder/src/state/FileUpload.ts:43-45 | The throttler's counter is the number of part tasks inside it and never passes three. |
| FileUploadObject.Drive | builder/src/state/FileUpload.ts:31-368 | The object, driven through any interleaving of its methods, is in the state the model's run reaches and keeps its invariant; it is canceled exactly if it ever was, and at most three part tasks are inside its throttler, which counts them. |
| FileUploadObject.Upload.Spawn | builder/src/state/FileUpload.ts:278-282 | One queued task for every planned part, each a caller of the throttler. |
| FileUploadObject.Upload.Join | builder/src/state/FileUpload.ts:284-353 | A failed part fails the upload, pending parts keep it waiting, otherwise the checks decide whether the finish request is sent. |
| FileUploadObject.Upload.CancelUpload | builder/src/state/FileUpload.ts:227-251 | The upload is canceled, exactly the requests in flight are aborted, and the server is told exactly if the upload was known and not complete. |
| FileUploadObject.Upload.ContinuePart | builder/src/state/FileUpload.ts:151-225 | One resumption of a part's task, entering and leaving through the throttler. |
| UploadOutcome.StartsIff | builder/src/state/FileUpload.ts:253-264 | A call starts an upload only if it is new, fails for an empty file, and otherwise does nothing. |
| UploadOutcome.EmptyFileSendsNothing | builder/src/state/FileUpload.ts:255-259 | An empty file is refused with an error in every run before anything is asked of the server. |
| UploadOutcome.PlanArrivesIff | builder/src/state/FileUpload.ts:266-276 | The initiating request leads on exactly if it is answered well and there was no cancel; otherwise null is returned, with an error unless canceled. |
| UploadOutcome.PlanWasAnswered | builder/src/state/FileUpload.ts:317-329 | In every run a plan that is known came with a good answer. |
| UploadOutcome.CanceledEarlyStartsNoPart | builder/src/state/FileUpload.ts:136-149 | An upload canceled before its parts were started never starts one. |
| UploadOutcome.PartsDecide | builder/src/state/FileUpload.ts:284-353 | In every run: a failed part makes the call return null, unfinished parts keep it waiting, and completed parts lead to the finish request exactly if there was no cancel and no rejection. |
| UploadOutcome.FinishSurvivesNineFailures | builder/src/state/FileUpload.ts:355-367 | Whatever happens meanwhile, a cancel included: once sent, the finish request succeeds exactly if it fails at most nine times before. |
| UploadOutcome.AtMostTenFinishes | builder/src/retry.ts:9-20 | The finish request is sent at most ten times. |
| UploadOutcome.ResultMatchesStatus | builder/src/state/FileUpload.ts:284-303 | In every run an id is returned only for a complete upload and null only with an error, unless canceled, and a complete upload has returned its id. |
| CanceledUpload.ServerIsToldIff | builder/src/state/FileUpload.ts:227-251 | In every run the server is asked to abort exactly if there was a cancel when the upload was known and not complete. |
| CanceledUpload.CanceledPartsWindDown | builder/src/state/FileUpload.ts:136-149 | After a cancel no part begins an attempt, sends a request or takes note of an answer, and only a part whose retries had already succeeded is completed. |
| CanceledUpload.ReturnsIffNotStuck | builder/src/state/FileUpload.ts:227-251 | An upload canceled while it waits for its parts can still return unless a request was aborted, no part has failed, and aborted requests hold all three places or no other part can fail; then it never returns. |
| CanceledUpload.CancelCanHang | builder/src/state/FileUpload.ts:227-240 | A canceled upload that never returns: its only part's request was aborted. |
| EndToEnd.RunKeepsInvariant | builder/src/state/FileUpload.ts:136-368 | In every run of browser, server and S3 the browser's beliefs are true of the server, and an open multipart holds the slice of every part that S3 accepted. |
| EndToEnd.CompletedUploadIsTheFile | django/thunderstore/usermedia/s3_upload.py:107-163 | Once an upload is complete, a download returns the file, byte for byte, until the row is cleaned up, under every order, loss, delay and repetition of requests and every abort. |
| EndToEnd.FinishSucceedsIff | django/thunderstore/usermedia/s3_upload.py:138-156 | A finish request that meets no fault succeeds exactly if the row still counts as created and the multipart is still open. |
| EndToEnd.EveryFileCanBeUploaded | builder/src/state/FileUpload.ts:253-303 | For every file of an admissible size there is a run in which the upload completes and the file can be downloaded. |
| Throttle.PromiseThrottler.TryEnter | builder/src/throttle.ts:12-21 | A waiting caller enters exactly if fewer callers than the limit are inside, and the counter remains their number. |
| Throttle.PromiseThrottler.Leave | builder/src/throttle.ts:23-25 | The caller is outside, with a result or an error, one place is free again, and the counter remains the number of callers inside. |
| Throttle.NeverOverLimit | builder/src/throttle.ts:12-26 | Under every schedule of any number of callers the counter is the number inside and never passes the limit. |
| Throttle.PassIsNeutral | builder/src/throttle.ts:20-25 | A caller that enters and leaves, with a result or an error, changes the counter by nothing, whatever other callers do in between: it moves only as the number of others inside. |
| Throttle.WaiterCanStartIff | builder/src/throttle.ts:16-19 | With callers waiting and none inside, each of them can start exactly if the limit is positive. |
| Retrying.Retry | builder/src/retry.ts:3-21 | At most the given number of calls, stopping at the first success or the first refusal to retry. |
| Submission.AsyncPackageSubmission.ScheduleIfAppropriate | django/thunderstore/repository/models/submission.py:54-72 | Enqueues exactly if pending and never scheduled or scheduled longer ago than the time-to-live; writes the time of the poll and, if it enqueued, of the scheduling. |
| Submission.AsyncPackageSubmission.ProcessLocked | django/thunderstore/repository/tasks/submission.py:64-72 | The row ends finished, with a trace as task error, form or save errors as form errors and the version as created version, unless the exception is re-raised; the timestamps of polls stay. |
| Submission.RunKeepsInvariant | django/thunderstore/repository/tasks/submission.py:48-74 | The invariant over rows, locks and commits holds after every interleaving. |
| Submission.AtMostOneVersion | django/thunderstore/repository/tasks/submission.py:56-74 | A submission commits at most once and creates at most one version, under every interleaving. |
| Submission.CommitsCreateDistinctVersions | django/thunderstore/repository/models/submission.py:46-52 | No two commits, of whatever submissions, create the same version. |
| Submission.CommitsHaveOneOutcome | django/thunderstore/repository/tasks/submission.py:77-101 | What commits is finished, with exactly one of created version, form errors and task error. |
| Submission.FinishedIsNeverLeft | django/thunderstore/repository/models/submission.py:64-72 | No step changes a finished row's status or outcome, except that its version may be deleted and the row cleaned up. |
| Submission.CommitLosesNoPoll | django/thunderstore/repository/tasks/submission.py:69-72 | A worker's full save overwrites no poll and touches no other submission. |
| Submission.RollbackLeavesNoTrace | django/thunderstore/repository/tasks/submission.py:48-62 | A crashed worker frees its lock, which was the only one, so that its submission can be taken again; that its writes vanish is how a transaction is modelled, not a result. |
| Submission.DeliveryFinishes | django/thunderstore/repository/tasks/submission.py:48-74 | A pending, unlocked submission is finished by any idle worker, with what its processing came to in the field for it, and no other row changes. |
| Submission.CommitRecordsAttempt | django/thunderstore/repository/tasks/submission.py:64-101 | In every run a commit writes a trace to the task error, form and save errors to the form errors, the version to the created version, and the time; everything else stays. |
| Submission.SubmitCreatesPending | django/thunderstore/repository/models/submission.py:32-52 | A new submission is pending, polled now, unscheduled and without an outcome. |
| SubmissionSchedule.PollWritesTimestamps | django/thunderstore/repository/models/submission.py:64-72 | A poll that gets to write changes the two timestamps of its row and nothing else, and enqueues exactly if its copy is pending and unscheduled or expired. |
| Submission.RemovedIffStale | django/thunderstore/repository/tasks/submission.py:38-45 | A row disappears exactly when a cleanup finds it unlocked and finished more than a day ago or not polled for a day. |
| Submission.DeletedVersionIsForgotten | django/thunderstore/repository/models/submission.py:46-52 | Deleting a version clears it from the row that created it and changes nothing else. |
| SubmissionSchedule.ScheduleRateBound | django/thunderstore/repository/models/submission.py:64-72 | In every run in which polls write only what they read after the last scheduling, n tasks of a submission span more than n - 1 times the time-to-live. |
| SubmissionSchedule.SchedulesAreApart | django/thunderstore/repository/utils.py:65-72 | In every such run, with any workers, crashes and cleanups, any two tasks of a submission are more than the time-to-live apart. |
| SubmissionSchedule.SerialPollIsCurrent | django/thunderstore/repository/models/submission.py:54-72 | A poll is of that kind if no other poll of the submission writes between its reading and its writing. |
| SubmissionSchedule.EnqueuesWithinIff | django/thunderstore/repository/models/submission.py:64-71 | A poll can enqueue within the time-to-live after a time exactly if it finds the row unlocked and its copy is pending and shows no schedule at that time or later. |
| SubmissionSchedule.TooSoonIffStale | django/thunderstore/repository/models/submission.py:64-72 | In a run whose polls were current the next one can come too soon exactly if the row is unlocked and its copy is pending and outdated. |
| SubmissionSchedule.NoScheduleOnceFinished | django/thunderstore/repository/models/submission.py:65-71 | In every run in which polls write only with the current status, no task is enqueued after the commit. |
| SubmissionSchedule.EnqueuesOnceFinishedIff | django/thunderstore/repository/models/submission.py:65-71 | In any run a finished submission can be enqueued once more exactly by polls that still hold it as pending. |
| SubmissionSchedule.StalePollsScheduleTwice | django/thunderstore/repository/models/submission.py:54-72 | Two polls that both read the row first can enqueue two tasks at the same time. |
| Repository.DoesContainPackage | django/thunderstore/repository/utils.py:10-25 | Finds the package regardless of version. |
| Repository.HasDuplicatePackages | django/thunderstore/repository/utils.py:28-44 | True exactly if two different references name one package; repeating a reference does not count. |
| Repository.ValidateUniqueInstallers | django/thunderstore/repository/package_manifest.py:39-44 | Accepts exactly the lists without a repeated identifier. |
| Repository.SameStrIffSamePlain | django/thunderstore/repository/package_reference.py:195-208 | Looking a version up by its printed number is looking it up by its three numbers. |
| Repository.Resolve | django/thunderstore/repository/package_reference.py:239-249 | The row a versioned reference names, if there is one. |
| Repository.ParseDependencies | django/thunderstore/repository/serializer_fields.py:45-59 | Accepts a list exactly if every entry parses, has a version and names a row; returns the parsed references. |
| Repository.Repository.ExistsInAnyCase | django/thunderstore/repository/utils.py:75-76 | Whether the owner has a package of that name in any case. |
| Repository.Repository.ValidateManifest | django/thunderstore/repository/package_manifest.py:83-111 | The first failing check decides the error; otherwise the references are returned and the save may rely on all checks. |
| Repository.Repository.SaveUpload | django/thunderstore/repository/package_upload.py:192-241 | Adds one active version whose dependencies are exactly the rows its references name, creating the package if needed, and keeps the tables sound and every cache right. |
| Repository.Repository.UploadPackage | django/thunderstore/repository/package_upload.py:192-241 | A refused upload changes nothing; an accepted one adds exactly its version, depending on exactly the rows its dependency texts name. |
| Repository.Repository.RecacheLatest | django/thunderstore/repository/models/package.py:287-293 | The package's cache becomes its newest active version; other packages' caches are left alone. |
| Repository.Repository.SaveVersion | django/thunderstore/repository/models/package_version.py:286-291 | A save with any activity keeps every cache right. |
| Repository.Repository.DeleteVersion | django/thunderstore/repository/models/package_version.py:293-295 | A deletion removes the row and the edges to it and keeps every cache right. |
| Repository.Replay | django/thunderstore/repository/package_upload.py:192-241 | A repository that has gone through any sequence of uploads, saves and deletions holds exactly the tables these leave, and its caches the newest active version of every package in them. |
| Repository.AfterIsSoundAndAcyclic | django/thunderstore/repository/package_manifest.py:83-111 | Those tables have one row per release, dependencies on existing older rows of distinct other packages, and no circular dependency. |
| Repository.UploadAddsItsVersion | django/thunderstore/repository/package_upload.py:192-241 | After any history an accepted upload adds one active row of its package with the number as written and, as dependencies, exactly the rows its texts name; all other rows stay. |
| Repository.DependencyNamesOneRow | django/thunderstore/repository/package_upload.py:235-236 | Each dependency text of an accepted upload names exactly one row. |
| Repository.FirstFailureDecides | django/thunderstore/repository/package_manifest.py:83-111 | An upload is refused for the first of the six conditions that fails, each spelled out over texts and rows, and accepted exactly if none does. |
| Repository.FoldedIff | django/thunderstore/repository/utils.py:75-76 | Two names clash exactly if they are equally long and agree letter by letter in whatever case. |
| Repository.RefusedUploadChangesNothing | django/thunderstore/repository/package_manifest.py:83-111 | A refused upload leaves no trace. |
| Repository.SaveSetsActivity | django/thunderstore/repository/models/package_version.py:286-291 | A save sets the activity of its row and changes nothing else. |
| Repository.DeleteRemovesRow | django/thunderstore/repository/models/package_version.py:293-295 | A deletion removes its row and the edges to it and changes nothing else. |
| Dependencies.SoundIsAcyclic | django/thunderstore/repository/package_manifest.py:98-103 | No version depends on itself through any chain of dependencies. |
| Dependencies.ClosureIsReachable | django/thunderstore/repository/models/package_version.py:126-131 | Collecting dependencies transitively terminates and yields exactly what chains of dependencies reach. |
| LatestVersion.ListsAgree | django/thunderstore/repository/models/cache.py:310-315 | The list sorted for the JSON cache equals the package's available versions, whatever order either query returned. |
| LatestVersion.AvailableIsDescending | django/thunderstore/repository/models/package.py:175-196 | The available versions are exactly the active ones, strictly newest first. |
| LatestVersion.IsLatestIff | django/thunderstore/repository/models/package.py:287-293 | A package's latest version is an active one of its own that is newer than every other active one; there is none exactly if none is active. |
| LatestVersion.HeadIsLatest | django/thunderstore/repository/models/package.py:287-293 | The head of that list is the newest active version, or there is none. |
| LatestVersion.LatestIsUnique | django/thunderstore/repository/models/package.py:90-95 | There is only one newest active version. |
| Keyset.ChunkedEnumerate | django/thunderstore/repository/models/package_version.py:53-73 | The loop terminates for every table and page size and yields the pages that its cursors select. |
| Keyset.YieldedIsAscending | django/thunderstore/repository/models/package_version.py:65-73 | Rows come out strictly increasing by date and id, so without repeats, and all are table rows. |
| Keyset.CompleteIff | django/thunderstore/repository/models/package_version.py:65-73 | Every row is yielded exactly once if and only if no row after a page boundary has a smaller id than the boundary row. |
| Keyset.CompleteForAllSizesIff | django/thunderstore/repository/models/package_version.py:53-64 | That holds for every page size if and only if ids increase with the creation date. |
| Keyset.RowCanBeMissed | django/thunderstore/repository/models/package_version.py:68-71 | A two-row table of which only one row is yielded. |
| Version.AcceptsExactlyCanonical | django/thunderstore/repository/validators.py:46-53 | The validator accepts exactly the printed forms of three natural numbers. |
| Version.AcceptsByShape | django/thunderstore/repository/validators.py:46-53 | That is, three dot-separated numerals without leading zeros. |
| Version.CanonicalBijection | django/thunderstore/repository/validators.py:46-53 | Accepted texts and triples of numbers correspond one to one. |
| Version.RejectedIff | django/thunderstore/repository/validators.py:46-53 | The empty text alone fails otherwise than by being rejected. |
| Version.ParseVersionIff | django/thunderstore/repository/package_reference.py:145 | A text is a version number exactly if it is two or three dotted numerals, with or without a letter `a` or `b` and a numeral, one trailing newline aside. |
| Version.SpellingIsRead | django/thunderstore/repository/package_reference.py:145 | Such a text is read as the numbers it spells, a missing third number being zero. |
| Version.ParseOfPrerelease | django/thunderstore/repository/package_reference.py:145 | A suffix is read with its letter and number. |
| Version.ParseIgnoresNewline | django/thunderstore/repository/package_reference.py:145 | One trailing newline is ignored. |
| Version.LessIsStrictTotal | django/thunderstore/repository/package_reference.py:96-112 | Of any two versions, suffixes included, exactly one of less, equal and greater holds. |
| Version.LessIsTransitive | django/thunderstore/repository/package_reference.py:105-112 | The order is transitive. |
| Version.LessIsLexicographic | django/thunderstore/repository/package_reference.py:105-112 | On releases it is the lexicographic order of the three numbers. |
| Version.LessIff | django/thunderstore/repository/package_reference.py:105-112 | The whole order spelled out: by major, minor and patch number, then a suffix before none, then by letter and number of the suffix. |
| Reference.ParseOfStr | django/thunderstore/repository/package_reference.py:117-154 | Parsing a printed reference gives it back if and only if namespace and name are non-empty, the name has no dash (and no dot if versionless), and the version has no suffix. |
| Reference.ParseAcceptsIff | django/thunderstore/repository/package_reference.py:117-154 | Exactly which texts are references and what each refers to, read off its dash-separated parts. |
| Reference.StrIsInjective | django/thunderstore/repository/package_reference.py:31-35 | No two such references print alike. |
| Reference.StrOfParse | django/thunderstore/repository/package_reference.py:117-154 | An accepted text prints back unchanged if and only if it has no version or its version is one the validator accepts. |
| Reference.ParseIsStable | django/thunderstore/repository/package_reference.py:117-154 | Printing and parsing an accepted text without a suffix once more changes nothing. |
| Reference.EqualIsIdentical | django/thunderstore/repository/package_reference.py:91-115 | Equal references are identical, so they hash the same text. |
| Reference.OrderIsStrictTotal | django/thunderstore/repository/package_reference.py:96-112 | On the versions of one package exactly one of the three comparisons holds; on releases the order is lexicographic. |
| Reference.ComparableIff | django/thunderstore/repository/package_reference.py:96-112 | Two references can be compared exactly if they name the same package and both have a version. |
| Reference.OrderIsTransitive | django/thunderstore/repository/package_reference.py:105-112 | Comparison of references is transitive. |
| Filepath.SanitizedIsClean | django/thunderstore/core/utils.py:102-111 | Every output is empty or consists of non-empty segments of letters, digits, `_`, `-` and `.`, none of dots only, and has no backslash. |
| Filepath.SanitizeIsIdempotent | django/thunderstore/core/utils.py:102-111 | Sanitizing twice is sanitizing once. |
| Filepath.ValidatorAcceptsImage | django/thunderstore/core/utils.py:124-130 | The prefix check accepts, and returns unchanged, exactly the clean paths, which are exactly the possible outputs; what it suggests is the cleaned path, which it accepts. |
| Filepath.SanitizeOfConcat | django/thunderstore/core/utils.py:102-111 | Either slash separates, and both sides are cleaned on their own. |
| Filepath.FilenameIsCharByChar | django/thunderstore/core/utils.py:93-99 | A file name is cleaned character by character, keeping letters, digits, `_`, `-` and `.` in place. |
| Filepath.SanitizeOfSegment | django/thunderstore/core/utils.py:96-111 | A single segment loses its other characters, and vanishes if nothing but dots would remain. |
| LegacyProfile.Serve | django/thunderstore/modpacks/models/legacyprofile.py:41-93 | Any sequence of uploads, lookups, totals and evictions is answered as by the store without caches. |
| LegacyProfile.LegacyProfileManager.GetOrCreateFromUpload | django/thunderstore/modpacks/models/legacyprofile.py:41-78 | Whatever is cached, an upload answers and stores what the store without caches would; the id, the file name and the total are cached then. |
| LegacyProfile.LegacyProfileManager.GetFileUrl | django/thunderstore/modpacks/models/legacyprofile.py:80-85 | The row's file name, cached or not, or an error if there is no row; a name that was found is cached. |
| LegacyProfile.LegacyProfileManager.GetTotalUsedDiskSpace | django/thunderstore/modpacks/models/legacyprofile.py:87-93 | The sum of the stored sizes, cached or not, which is cached then. |
| LegacyProfile.LegacyProfileManager.Evict | django/thunderstore/modpacks/models/legacyprofile.py:56-78 | Any entries may vanish and the caches still agree with the table. |
| LegacyProfile.WithinCap | django/thunderstore/modpacks/models/legacyprofile.py:42-45 | The stored total never passes the cap. |
| LegacyProfile.SameIdIffSameContent | django/thunderstore/modpacks/models/legacyprofile.py:47-78 | In any such sequence two accepted uploads get the same id exactly if their contents are equal. |
| LegacyProfile.IdLeadsToFirstFile | django/thunderstore/modpacks/models/legacyprofile.py:80-85 | An id that an upload was answered with leads ever after to the file stored when its content was first uploaded. |
| LegacyProfile.UnknownIdHasNoFile | django/thunderstore/modpacks/models/legacyprofile.py:80-85 | An id that no upload was answered with has no file. |
| LegacyProfile.NewContentIff | django/thunderstore/modpacks/models/legacyprofile.py:41-78 | A content not stored before is accepted exactly if it fits under the cap, and is then stored under its own new id. |
| LegacyProfile.RepeatedUploadIff | django/thunderstore/modpacks/models/legacyprofile.py:41-57 | A stored content is answered with its id again exactly if its size fits under the cap once more. |
| LegacyProfile.RepeatedUploadCanBeRefused | django/thunderstore/modpacks/models/legacyprofile.py:41-45 | A store filled by one upload refuses the same upload. |

## Left out

- Json.DumpedObjectIsObject: does not say which fields a listing has, because their choice carries no property, nor that the text can be read back: writing it is Python's `json.dumps`. Any dictionary is covered.
- ChunkedCache.UpdateForCommunity: does not model the index blob, gzip or blob deduplication, and takes the ordered listing query as a list of distinct ids.
- Repository.Repository.UploadPackage: does not model the zip, icon, readme and size checks of the form, communities, categories, installers or release webhooks; a failed form check refuses the upload before anything modelled here.
- Repository.Repository.SaveUpload: does not model listings, communities, categories, installers and files of the saved version; nothing proved here depends on them.
- Repository.Repository.RecacheLatest: treats the package row as one canonical object; stale in-memory copies and updates that bypass the save and delete hooks are not modelled.
- S3Upload.RunIsConsistent: takes a row's save as succeeding once the S3 call before it has returned; lost saves and concurrent operations on one upload are not modelled.
- S3Upload.CleanupIsAllOrNothing: claims nothing about the object of a row in error, because finalizing can fail after S3 has assembled the object and cleanup does not delete it.
- SubmissionSchedule.ScheduleRateBound: asks that the copies polls write from are current, because outdated ones are not bounded; `SubmissionSchedule.TooSoonIffStale` is the exact condition.
- EndToEnd.CompletedUploadIsTheFile: takes every request for a part to come from this upload, since only it has the signed addresses, and the row's saves as succeeding.
- FileUpload.RunKeepsInvariant: lets every queued part start in a step of its own, where the code starts the first three at once; the code's runs are among the modelled ones.
- Upload progress, error messages, the markdown and manifest pages and the other React components of the builder: display only.
- Review status, permissions, teams, service accounts and visibility: finite case tables, or switched off in the code.
- The Redis fallback cache, the experimental package index and the unchunked package list: they add nothing to the properties above.
- Integer widths: Python integers are unbounded, and the TypeScript counters stay below a few thousand.
