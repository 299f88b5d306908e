# fs-safe: a verified model

fs-safe is a guardrail library around the filesystem. This project models the six parts of it that
hold hard logic and proves what they are for. Everything is checked by Dafny 4.11; nothing here was
executed.

    dafny verify dfyconfig.toml

| part | files |
|---|---|
| shared definitions | `Basics.dfy` |
| durable-queue ownership protocol | `DurableQueueSpec.dfy` (transition system), `DurableQueue.dfy` (operations) |
| re-entrant Root lock release | `HeldLock.dfy` |
| ZIP physical admission | `ZipBytes.dfy`, `ZipEnd.dfy`, `ZipExtra.dfy`, `ZipDirectory.dfy`, `ZipWindows.dfy`, `ZipAdmission.dfy`, `ZipNames.dfy`, `ZipCount.dfy`, `ZipPrefix.dfy`, `ZipWriter.dfy` and `ZipRoundTrip.dfy` (what is written is admitted), `ZipPlainNames.dfy`, `ZipFaithful.dfy` (what is admitted was spelled out) |
| guest cross-device tree move | `GuestTree.dfy`, `GuestMove.dfy` |
| bounded byte transport | `TarReplay.dfy`, `BoundedRead.dfy`, `FileCopy.dfy`, `HashScratch.dfy`, `Crc32.dfy` |
| archive paths, planning and limits | `ArchivePath.dfy`, `ArchivePlan.dfy`, `ArchiveLimits.dfy` |

**How failures and other parties are modelled.** A system call may fail, and a process may die,
wherever the code can; in the queue every call may be the last. Producers of the queue act between
any two calls of the lock holder. Callbacks of the lock run any operation to any depth. Reads and
writes are as short as the operating system likes, stat sizes may be anything, and buffers come
with arbitrary content. A method's contract holds for all of these at once; what an undisturbed call
does is stated under the inputs that make it one (no callback acts, no producer acts, nothing fails).

**What the proofs found.** The code keeps its promises with these exceptions, each stated with the
exact condition under which the promise does hold.

- Settling a queue entry whose crashed claim was not resumed. Acknowledging it can deliver the entry
  twice (`AcknowledgedCrashedClaimIsRedelivered`); quarantining it can leave a pending file that no
  claim ever takes (`QuarantinedCrashedClaimIsLittered`); either can strand the newest message in the
  retirement record (`SettledCrashedRetirementWedges`). `SettlingExactly` says which of these follow
  from the names before, and that none does if and only if the record holds no entry and the pending
  name is another generation, as after a claim that returned. `ClaimableExactly` is the condition for a
  second delivery.
- Directories of a cross-device move get their mode from `mkdir` only: it drops the bits of the creation
  mask, and on Linux hands down the parent's set-group-ID bit. Modes are preserved if and only if, from
  the destination down, each directory's dropped bits are handed down to it again and it has every bit
  that is handed down (`MoveKeepsModes`; inputs: `MaskedBitIsLost`, `InheritedBitIsGained`). If the final
  `fchmod` of a mode-0 directory fails, the published copy keeps the owner's mode.
- The identity check and the unlink of the move's removal are two system calls. A leaf edited between
  them is deleted, and its deletion is preserved by the copy if and only if body and file mode are
  unchanged (`EditAfterTheCheckIsLost`). Edits at any other time after the copy are safe.
- A TAR consumer that leaves its payload loop early is refused or not depending on how the stream
  was cut into chunks (`ClosingDependsOnChunks`): it must have pulled its whole payload.
- The size shortcut of bounded reading returns too little exactly when the observed size is
  positive, already reached by the first short read, and smaller than what was left
  (`ShortcutLosesAByte`).
- `resolveArchiveOutputPath` accepts the root itself when the root is `/` (`RootAcceptsItself`); for
  stripped validated paths this never arises.
- The public ZIP entry count, documented as a conservative hint, can be smaller than the count of an
  accepted archive (`HintIsTooSmall`): with bytes prepended and a sentinel in the end record it reads
  whatever stands at the unadjusted offset of the locator. `HintIsEnoughExactly` gives the condition.

## Model

| member | source | states |
|---|---|---|
| `DurableQueueSpec.NoMessageIsLost` | src/json-durable-queue-ownership.ts:105-156 | for every lawful run of lock holder, producers and environment, a crash being the end of a run at any step: every published generation is under pending, retirement entry or processing, or was settled or withdrawn, or was superseded before anyone claimed it; a claimed one keeps its processing name until settled |
| `DurableQueueSpec.InvStep` | src/json-durable-queue-ownership.ts:366-426 | the inductive invariant behind it is kept by every single system call and every environment step |
| `DurableQueueSpec.NewestAndClaimedAreNamed` | src/json-durable-queue-ownership.ts:105-156 | after any run the newest publication is under a live name unless settled or withdrawn, and every unsettled claim is the processing file |
| `DurableQueueSpec.SettledIsFinal` | src/json-durable-queue-ownership.ts:213-255 | once a claim that had returned is delivered or dropped, no continuation ever names that generation pending, retired or processing again |
| `DurableQueueSpec.NeverReturns` | src/json-durable-queue-ownership.ts:105-156 | a generation that left the three live names never comes back under any of them |
| `DurableQueueSpec.ClaimableExactly` | src/json-durable-queue-ownership.ts:131-148 | no claim being under way, a generation without a processing name can be claimed in some run if and only if it is the pending file, the record can be cleared and holds no entry, it has no link outside the queue, and failed does not name it; a delivered name does not help, since it can still be dropped |
| `DurableQueueSpec.BarredForever` | src/json-durable-queue-ownership.ts:105-156 | a generation that has left the queue, or meets a record that refuses, or keeps a second name, is never claimed again in any continuation |
| `DurableQueueSpec.SettlingExactly` | src/json-durable-queue-ownership.ts:243-255 | exactly what acknowledging or quarantining leaves, by the names before it: a second delivery, a wedged record, a pending file that no claim will take; none of them if and only if the claim was clean |
| `DurableQueueSpec.LinkCrashIsReachable` | src/json-durable-queue-ownership.ts:139-150 | a claim that crashed between its link and its retirement |
| `DurableQueueSpec.AcknowledgedCrashedClaimIsRedelivered` | src/json-durable-queue-ownership.ts:227-255 | the concrete run from there: acknowledging settles generation 1, which is then claimed again |
| `DurableQueueSpec.QuarantinedCrashedClaimIsLittered` | src/json-durable-queue-ownership.ts:292-306 | quarantining it instead leaves generation 1 pending and failed at once, and no run claims it |
| `DurableQueueSpec.RetirementCrashIsReachable` | src/json-durable-queue-ownership.ts:407-426 | continuing the claim, a crash right after the retirement rename leaves generation 2 only in the retirement record |
| `DurableQueueSpec.SettledCrashedRetirementWedges` | src/json-durable-queue-ownership.ts:227-308 | acknowledging or quarantining in that state strands the newest message in the record |
| `DurableQueueSpec.WedgedForever` | src/json-durable-queue-ownership.ts:385-389 | a retirement entry without a processing file stays exactly so in every continuation |
| `DurableQueueSpec.CrashedClaimIsReadable` | src/json-durable-queue-ownership.ts:366-405 | whatever state crashed claims leave, a rerun meets none of the ambiguous or incomplete refusals, provided the pending file has no link outside the queue and neither delivered nor failed names it |
| `DurableQueue.CrashedClaimsConverge` | src/json-durable-queue-ownership.ts:105-156 | after any number of claims interrupted anywhere among any producers, one undisturbed claim is refused only if the pending file has a foreign, delivered or failed name; it ends without a record, keeps an existing processing file, and leaves pending absent or a distinct single-link file |
| `DurableQueueSpec.FailedEvidenceIsKept` | src/json-durable-queue-ownership.ts:257-308 | no run replaces an existing failed file |
| `DurableQueueSpec.QuarantineKeepsAName` | src/json-durable-queue-ownership.ts:292-306 | through any number of interrupted moves to failed the generation stays named processing or failed |
| `DurableQueue.Queue.ClaimEntry` | src/json-durable-queue-ownership.ts:105-156 | claimed means a regular processing file, no retirement record and a different pending file; an existing processing generation is kept; without failing system calls it never stops; undisturbed it refuses if and only if the names are unreadable, and every name afterwards is given |
| `DurableQueue.Queue.ResumeClaim` | src/json-durable-queue-ownership.ts:112-130 | the branch for an existing processing file: it is kept, and a pending name of the same generation is retired; undisturbed every name afterwards is given |
| `DurableQueue.Queue.FreshClaim` | src/json-durable-queue-ownership.ts:131-155 | the branch that links the pending file: exact outcome by link count and every name afterwards; skipping leaves unowned files alone |
| `DurableQueue.Queue.RetireSource` | src/json-durable-queue-ownership.ts:407-426 | ends with the record gone and the pending name distinct from processing, in every interleaving in which it succeeds |
| `DurableQueue.Queue.Recover` | src/json-durable-queue-ownership.ts:366-405 | undisturbed it succeeds exactly on readable records and gives exactly the recovered names; it never succeeds on a wedged record; interrupted anywhere it keeps a steady state steady |
| `DurableQueue.Queue.GiveBack` | src/json-durable-queue-ownership.ts:391-401 | the retired generation regains the pending name unless claimed or superseded, which is what makes dropping its entry safe |
| `DurableQueue.Queue.CloseRecord` | src/json-durable-queue-ownership.ts:402-404 | drops the entry and removes the record |
| `DurableQueue.Queue.OpenRecord` | src/json-durable-queue-ownership.ts:344-354 | a fresh empty record exists afterwards |
| `DurableQueue.Queue.Acknowledge` | src/json-durable-queue-ownership.ts:227-255 | every success leaves neither a processing file nor a delivered marker, and settled the processing generation; undisturbed the refusals are exactly the listed ones and every name afterwards is given, for success and refusal |
| `DurableQueue.Queue.CompleteDelivered` | src/json-durable-queue-ownership.ts:213-225 | success means no delivered marker; complete exactly when there was one and no processing file; undisturbed it refuses exactly irregular files and changes nothing but the marker; no generation is brought back |
| `DurableQueue.Queue.PublishFailed` | src/json-durable-queue-ownership.ts:298-306 | processing is dropped only when the failed file is that generation; an existing different failed file is left alone; undisturbed every name afterwards is given |
| `DurableQueue.Queue.MoveToFailed` | src/json-durable-queue-ownership.ts:257-308 | the generation is named processing or failed at every point; success means no processing file and a failed file that names the generation, also when the pending file was claimed inside the call; when an undisturbed move succeeds, and every name afterwards, is given exactly |
| `DurableQueue.Queue.LinkPending` | src/json-durable-queue-ownership.ts:138-155 | from the link on: a lost race is not a refusal; undisturbed a second link is exactly what refuses |
| `DurableQueue.Queue.DeliverClaim` | src/json-durable-queue-ownership.ts:250-253 | the rename settles the generation, and the marker is removed; nothing else changes |
| `DurableQueue.Queue.AnyHistory` | src/json-durable-queue-ownership.ts:105-308 | no loss over any sequence of complete or interrupted operations |
| `DurableQueue.ReadyIsStable` | src/json-durable-queue-ownership.ts:105-308 | what the lock holder has observed before a call cannot be invalidated by any environment steps in between |
| `HeldLock.Record.ReleaseHandle` | src/file-lock-sync-root-held.ts:412-433 | one handle, across every nesting of callbacks: how its release ends is given exactly by the record before. The last reference: thrown back if the descriptor does not close; dropped with exactly one confirmed unlink, at no references and no re-entrant acquisition, and a confirmed unlink is never thrown back; with a filesystem that works only a record that changes in every attempt is refused; undisturbed it succeeds if and only if the close and the removal do. Beside other references, or inside a callback, exactly one reference goes, is deferred, or is kept by a changed sidecar. A throw leaves the handle live and retryable |
| `HeldLock.Record.ReleaseRecord` | src/file-lock-sync-root-held.ts:296-410 | the same for the record: consumed, kept (deferred to exit cleanup) or thrown back, case by case, within two attempts |
| `HeldLock.Record.ReleaseNested` | src/file-lock-sync-root-held.ts:302-316 | a release entered from a callback: deferred handles stay so, a changed sidecar is refused, the last reference during exit cleanup is deferred, any other gives up its reference; the whole new state is given |
| `HeldLock.Record.ReferencesAreLeft` | src/file-lock-sync-root-held.ts:304 | the branch for a record without references is unreachable: a handle released in a callback is still counted |
| `HeldLock.Record.BeginRelease` | src/file-lock-sync-root-held.ts:325-341 | the reference and the descriptor are consumed before any callback |
| `HeldLock.Record.ReleaseLast` | src/file-lock-sync-root-held.ts:325-410 | the final release: within two attempts the record is dropped exactly when a removal worked, or active again with the reference restored; undisturbed success is exact |
| `HeldLock.Record.FinalRelease` | src/file-lock-sync-root-held.ts:359-410 | the attempt loop against arbitrary callbacks: an attempt whose removal worked drops the record and is not thrown back; if all removals work, only losing continuity in every attempt throws |
| `HeldLock.Record.Attempt` | src/file-lock-sync-root-held.ts:359-407 | one attempt: over unless the record changed and has no reference; each ending with its unlink and its references |
| `HeldLock.Record.CloseDescriptor` | src/file-lock-sync-root-held.ts:325-357 | the first half: a descriptor that does not close is thrown back, a record that was taken up again or is gone counts as released |
| `HeldLock.Record.ReleaseShared` | src/file-lock-sync-root-held.ts:317-323 | a release beside other references: one less, unless the sidecar changed |
| `HeldLock.Record.GiveUp` | src/file-lock-sync-root-held.ts:308-315 | inside a callback the reference goes, and is deferred if it was the last one under exit cleanup |
| `HeldLock.Record.ReferencesAreLive` | src/file-lock-sync-root-held.ts:317-325 | an active record counts exactly its unreleased handles, so the last reference is the last handle |
| `HeldLock.Record.Settled` | src/file-lock-sync-root-held.ts:374-407 | how one attempt ends: released and unregistered, or active again with the reference restored or not |
| `HeldLock.Record.Reactivate` | src/file-lock-sync-root-held.ts:110-122 | active again unless replaced or released |
| `HeldLock.Record.RemoveSidecar` | src/file-lock-sync-root-mutation.ts:173-236 | the answer is what the filesystem says unless continuity was lost; the unlink happens only if the continuity test held after the mutation authority ran, so no acquisition came between |
| `HeldLock.Record.Acquire` | src/file-lock-sync-root-acquire.ts:116-137 | a handle is given if and only if the record is verified and still registered after the callback; undisturbed it is exactly one more reference and one new live handle, and a refusal changes nothing |
| `HeldLock.Record.AddReference` | src/file-lock-sync-root-acquire.ts:127-137 | one more reference, and the handle that holds it |
| `HeldLock.Record.ExitCleanup` | src/file-lock-sync-root-held.ts:173-277 | nothing for a record that is not active or under a running cleanup; undisturbed an active record is always dropped, with its sidecar unlinked if that works and left to policy otherwise; re-entered from anywhere it keeps the accounting |
| `HeldLock.Record.CleanRecord` | src/file-lock-sync-root-held.ts:187-273 | one record under exit cleanup: discarded, or active again; undisturbed it is discarded with at most one unlink, under its references |
| `HeldLock.Record.BeginCleanup` | src/file-lock-sync-root-held.ts:187-221 | descriptor and timer are taken first; a changed record goes on only without references, and otherwise comes back because of one that was not deferred |
| `HeldLock.Record.CleanupAttempts` | src/file-lock-sync-root-held.ts:222-265 | one or two attempts: discarded only after a confirmed unlink, or in the first attempt with references left and a removal that failed; a second attempt is made only without references; with a filesystem that works the record comes back only for a reference that was not deferred or after changing in every attempt |
| `HeldLock.Record.RestoreAfterExitCleanup` | src/file-lock-sync-root-held.ts:152-171 | deferred releases become references again; without any reference the record is dropped |
| `HeldLock.Record.Discard` | src/file-lock-sync-root-held.ts:124-130 | the deferred handles, and only they, are released with the record |
| `HeldLock.Record.Settle` | src/file-lock-sync-root-held.ts:141-150 | a scoped handle gives up a deferred release exactly once |
| `HeldLock.Record.ScopedUse` | src/file-lock-sync-root-held.ts:435-458 | unless the release throws the scope's reference is gone whatever its callback did |
| `HeldLock.Record.constructor` | src/file-lock-sync-root-acquire.ts:90-116 | a new record: one reference, one live handle |
| `ZipEnd.EndOffset` | src/archive-zip-directory.ts:57-75 | the sixteen-candidate search answers missing, ambiguous or the unique end record, as the specification demands |
| `ZipEnd.DenseEndOffset` | src/archive-zip-directory.ts:45-55 | the byte scan meets the same specification |
| `ZipEnd.AnswersAgree` | src/archive-zip-directory.ts:45-75 | that specification has one answer, so the fast and the dense search agree on every buffer |
| `ZipEnd.FindLatestEnd` | src/archive-zip-count.ts:40-82 | the shortcut, the candidate search and the scan together give the greatest offset whose comment reaches the end, or -1 |
| `ZipEnd.EndsAreNear` | src/archive-zip-count.ts:44-48 | no end record starts before the searched tail |
| `ZipEnd.StrictAgreesWithLatest` | src/archive-zip-directory.ts:57-75 | strict and latest search: missing together, equal when unique, ambiguous exactly when an earlier record exists |
| `ZipCount.HintIsEnoughExactly` | src/archive-zip-count.ts:84-201 | exactly when the public hint reaches the entry count of an accepted archive: nothing is prepended, or the end record has no sentinel, or the bytes at the offset the locator advertises declare enough, or enough headers follow from the directory offset those bytes give |
| `ZipCount.HintOfAccepted` | src/archive-zip-count.ts:148-201 | for every archive the strict scan accepts with nothing prepended the hint is the exact entry count, and without a ZIP64 sentinel it is never too small |
| `ZipPrefix.HintIsTooSmall` | src/archive-zip-count.ts:84-112 | the failing input: 300 prepended bytes that hold a ZIP64 end record where the locator points; the archive is accepted with one entry and the hint is 0 |
| `ZipPrefix.AdmittedButNotCounted` | src/archive-zip-count.ts:191-201 | the same by running buffer admission and the hint on those bytes |
| `ZipPrefix.TheLayout` | src/archive-zip-directory.ts:96-134 | the strict scan passes the planted record over and finds the true layout |
| `ZipCount.ReadEntryCount` | src/archive-zip-count.ts:191-201 | the hint is the function of the latest end record that the lemmas speak about |
| `ZipCount.CountHeaders` | src/archive-zip-count.ts:148-189 | the header walk |
| `ZipCount.ScannedAreCounted` | src/archive-zip-count.ts:165-188 | the loose header walk counts exactly the records the strict scan admits, past a digital signature or a ZIP64 end record |
| `ZipCount.InfoIsLayout` | src/archive-zip-count.ts:84-146 | the two readings of the end records coincide when nothing is prepended |
| `ZipCount.StrictEndIsLatest` | src/archive-zip-directory.ts:96-102 | the strict end record within the tail is the latest one of the whole file |
| `ZipExtra.Zip64RoundTrip` | src/archive-zip-directory.ts:136-168 | sizes, offset and disk written with sentinels into a ZIP64 field (section 4.5.3 of PKWARE APPNOTE) anywhere among other fields are read back exactly |
| `ZipExtra.DecodedIsCarried` | src/archive-zip-directory.ts:136-168 | whatever is accepted was encoded: an accepted central field is exactly the payload of the sentinel slots, to its last byte |
| `ZipExtra.CarriedIsDecoded` | src/archive-zip-directory.ts:136-168 | and whatever is so encoded is accepted with those values |
| `ZipExtra.WideValues` | src/archive-zip-directory.ts:136-168 | the cursor over the field computes that decoding; the slots it reads are pinned by `ZipRoundTrip.WrittenIsScanned` and `ZipFaithful.AcceptedIsSpelled` |
| `ZipExtra.ExtraFields` | src/archive-zip-names.ts:17-31 | the offset loop computes the specified map |
| `ZipExtra.ScanFindsCritical` | src/archive-zip-names.ts:17-31 | scanning finds the critical fields of the parsed field list, and refuses exactly cut-off lists and duplicate critical ids |
| `ZipExtra.ParseOfEncode` | src/archive-zip-names.ts:17-31 | parsing an encoded field list gives it back |
| `ZipExtra.EncodeOfParse` | src/archive-zip-names.ts:17-31 | and a parsed buffer is the encoding of its fields |
| `ZipBytes.SafeReadIsValue` | src/archive-zip-names.ts:10-15 | the result is the little-endian value; exactly cut-off fields and values that are not safe integers are refused |
| `ZipBytes.WrittenIsRead` | src/archive-zip-names.ts:10-15 | little-endian fields written are read |
| `ZipWindows.WindowedFile.Serve` | src/archive-zip-admission.ts:41-96 | for any short reads and any eviction history the reply is exactly file[offset..offset+length] |
| `ZipWindows.WindowedFile.Fill` | src/archive-zip-admission.ts:62-80 | the fill loop completes a window from short reads |
| `ZipWindows.WindowedFile.FindWindow` | src/archive-zip-admission.ts:50-58 | a window that covers the request is found if there is one |
| `ZipAdmission.AdmitFile` | src/archive-zip-admission.ts:36-101 | the windowed file admits and emits exactly what the specification does |
| `ZipAdmission.AdmitBuffer` | src/archive-zip-admission.ts:17-34 | and so does the buffer: the two accept and refuse the same archives and send onEntry the same entries, also before a refusal |
| `ZipAdmission.ScanZipDirectory` | src/archive-zip-directory.ts:185-258 | for any replies every request lies inside the archive, the scan ends, computes the specified scan and emissions, and what it accepts is a true layout |
| `ZipAdmission.ScanItems` | src/archive-zip-directory.ts:193-250 | the loop over the records, with what has been emitted at any refusal |
| `ZipAdmission.Source.Request` | src/archive-zip-directory.ts:34-41 | a request is made exactly when it is inside the bound, and answered in full or refused |
| `ZipAdmission.ScanWideEnd` | src/archive-zip-directory.ts:77-94 | both ZIP64 candidates, exactly one of which may match |
| `ZipAdmission.ScanLayout` | src/archive-zip-directory.ts:96-134 | the layout the end records describe |
| `ZipAdmission.ScanDescriptor` | src/archive-zip-directory.ts:170-183 | exactly one of the two descriptor framings |
| `ZipAdmission.ScanCentral` | src/archive-zip-directory.ts:199-211 | one central record |
| `ZipAdmission.ScanLocal` | src/archive-zip-directory.ts:212-222 | its local header |
| `ZipAdmission.ScanEntry` | src/archive-zip-directory.ts:223-251 | the agreement of the two |
| `ZipAdmission.CheckOverlap` | src/archive-zip-directory.ts:253-256 | the neighbour test over the sorted spans |
| `ZipDirectory.AcceptedIsTrueLayout` | src/archive-zip-directory.ts:185-258 | an accepted directory: records tile the directory up to the optional signature, indices are 0..count-1, spans lie in the local area and are pairwise disjoint, and compressed sizes sum to at most that area |
| `ZipRoundTrip.AdmitWritten` | src/archive-zip-admission.ts:17-101 | whole-archive round trip, over the bytes and over the staged file: an archive written from the format's tables, with anything prepended, any mix of 32-bit and ZIP64 values, descriptors, extra fields and comments, is admitted if and only if no other place passes for its end record, and each emitted entry has the written compressed size, size, method, checksum, names and flags, its data standing where it says |
| `ZipRoundTrip.WrittenIsScanned` | src/archive-zip-directory.ts:185-258 | the same for the scan: exactly the written entries, and refusal exactly for a second end record |
| `ZipRoundTrip.ItemsAreRead` | src/archive-zip-directory.ts:193-250 | every written record is read back, one after the other |
| `ZipRoundTrip.ItemIsRead` | src/archive-zip-directory.ts:195-250 | one written record with its local header is read as the entry that was written |
| `ZipRoundTrip.CentralIsRead` | src/archive-zip-directory.ts:205-212 | a written central record is read back |
| `ZipRoundTrip.LocalIsRead` | src/archive-zip-directory.ts:215-221 | and its local header |
| `ZipRoundTrip.DescriptorIsRead` | src/archive-zip-directory.ts:170-183 | of a written descriptor exactly the framing that was written matches, whatever follows |
| `ZipRoundTrip.EndLayoutIsWritten` | src/archive-zip-directory.ts:100-134 | written end records, ordinary or ZIP64, describe the layout that was written |
| `ZipRoundTrip.LayoutIsWritten` | src/archive-zip-directory.ts:96-134 | and are found exactly if nothing else passes for the end record |
| `ZipRoundTrip.EntriesHold` | src/archive-zip-directory.ts:241-249 | each entry says what was written and where its data stands |
| `ZipRoundTrip.WrittenInOrder` | src/archive-zip-directory.ts:253-256 | written spans are in order and apart |
| `ZipWriter.CentralHeaderFields` | src/archive-zip-directory.ts:199-213 | each field of a written central header is read at its place |
| `ZipWriter.LocalHeaderFields` | src/archive-zip-directory.ts:216-219 | and each field of a written local header |
| `ZipWriter.CentralDecodes` | src/archive-zip-directory.ts:136-168 | written central values come back from their slots and ZIP64 field |
| `ZipWriter.LocalDecodes` | src/archive-zip-directory.ts:136-168 | and so do local ones |
| `ZipWriter.AreaReads` | src/archive-zip-names.ts:17-31 | a ZIP64 field in front of other fields is found |
| `ZipPlainNames.AdmitPlain` | src/archive-zip-admission.ts:17-101 | with the real admission of names: an archive of plain ASCII names without a shared key or output path is admitted with exactly what was written |
| `ZipPlainNames.PlainIsAdmitted` | src/archive-zip-names.ts:66-143 | a plain name is admitted exactly when its key and its folded path are new |
| `ZipFaithful.AcceptedIsSpelled` | src/archive-zip-directory.ts:185-258 | the converse for every accepted archive: each emitted entry is spelled out by its bytes: signatures, only the supported flags, names, extra fields, equal flags and method in both headers, checksum and sizes equal or deferred, sizes and offset carried by slots or ZIP64 field, and data that ends at its descriptor of the right width |
| `ZipFaithful.RecordIsSpelled` | src/archive-zip-directory.ts:195-250 | the same for one record |
| `ZipFaithful.DescriptorIsThere` | src/archive-zip-directory.ts:170-183 | an accepted descriptor is the checksum and both sizes, with or without the signature |
| `ZipFaithful.SlotsAreCarried` | src/archive-zip-directory.ts:136-168 | the values of a header at its place are carried by its slots and its field |
| `ZipDirectory.ItemsTile` | src/archive-zip-directory.ts:193-250 | the tiling, by induction over the records |
| `ZipDirectory.NeighboursGiveAllApart` | src/archive-zip-directory.ts:253-256 | sorted neighbours apart means every pair apart |
| `ZipDirectory.SortedApart` | src/archive-zip-directory.ts:253-256 | disjointness of the sorted spans is disjointness of the emitted ones |
| `ZipDirectory.TotalFits` | src/archive-zip-directory.ts:253-256 | disjoint spans in an area cannot exceed it |
| `ZipDirectory.LayoutIsSound` | src/archive-zip-directory.ts:96-134 | 0 <= base <= start <= end <= size for every accepted layout |
| `ZipNames.AcceptedNamesAreDistinct` | src/archive-zip-names.ts:66-129 | in an accepted archive all readings of every name are one path and one kind, and no two entries share a collision key or an output path |
| `ZipNames.EmittedPath` | src/archive-zip-names.ts:51-64 | the emitted path: the text of a central Unicode field whose checksum matches; else, flagged, ASCII as it is and other bytes as UTF-8; else a known path only for ASCII; a directory exactly by the last byte |
| `ZipNames.EmittedKey` | src/archive-zip-names.ts:115-130 | the portable key is that of the central field, else of the flagged local text, else of the local bytes |
| `ZipNames.EmittedKind` | src/archive-zip-names.ts:131-142 | the portable kind follows the flagged local text before the central field, which needs the local checksum |
| `ZipNames.PlainNameIsAdmitted` | src/archive-zip-names.ts:66-143 | a plain ASCII name is admitted exactly when it validates and its key is new, and is emitted as it is |
| `ZipNames.ReadingsMean` | src/archive-zip-names.ts:46-64 | what the four readings are, by flag, bytes and fields |
| `ZipNames.AdmitNames` | src/archive-zip-names.ts:66-143 | with all its reuse of keys and readings it computes the plain definition and adds exactly the entry's keys |
| `ZipNames.Read4` | src/archive-zip-names.ts:73-85 | sharing the readings of equal names and fields changes nothing |
| `ZipNames.CheckConsistent` | src/archive-zip-names.ts:86-114 | accepts exactly the consistent readings |
| `ZipNames.Agree` | src/archive-zip-names.ts:90-106 | comparing keys only where texts differ decides that all have one key |
| `ZipNames.KeyOfPortable` | src/archive-zip-names.ts:125-130 | the reused key is the key of the portable path |
| `ZipNames.PathKeyIsCanonical` | src/archive-zip-names.ts:41-44 | the single-component shortcut of zipPathKey equals the canonical form |
| `ZipNames.ItemsAdmitted` | src/archive-zip-directory.ts:223-224 | every emitted entry was admitted against exactly its predecessors |
| `GuestMove.MoveDirectory` | src/guest.ts:323-368 | moved: the destination is a copy and the source name is gone; modes are kept exactly when they survive mkdir; raised before publication: both sides unchanged, or only a temporary directory is left; raised by the final fchmod of a mode-0 source: published with the owner's mode; everything deleted from the source has its content in the copy; undisturbed, every leaf is at the source or preserved, and without faults it succeeds exactly when permission bits, link counts and the destination allow it; what is published is a tree in which every path is admitted: no special file, no file with a second link, everything readable; any other tree stops the move before anything lasting; at the destination only an empty directory gives way |
| `GuestMove.CopyableExactly` | src/guest.ts:121-154 | with the owner's rights on all directories a tree can be copied exactly if every path in it holds a readable file with one link, a link or a directory |
| `GuestMove.ChildrenAreAdmitted` | src/guest.ts:270-305 | whatever is copied is admitted at every path |
| `GuestMove.PublishCopy` | src/guest.ts:337-364 | the copying half: published whole, with the staged mode, or not at all; when it succeeds without faults |
| `GuestMove.FillCopy` | src/guest.ts:281-302 | one nested directory from its mkdir on: filled, or removed again |
| `GuestMove.CopyEntry` | src/guest.ts:270-305 | the copy and a manifest of the source's identities, or the destination as it was |
| `GuestMove.CopyChildren` | src/guest.ts:284-285 | all children in listing order, or the first failure |
| `GuestMove.CopyLeaf` | src/guest.ts:121-154 | a file or link: whole or not at all, but for a partial file whose unlink failed; exactly when it succeeds without faults |
| `GuestMove.RemoveCopied` | src/guest.ts:307-321 | deletes only leaves that the manifest records under their present identity; stopped anywhere, every leaf is in place or logged; left alone it succeeds exactly when the permission bits allow it |
| `GuestMove.RemoveChildren` | src/guest.ts:316-318 | the loop over the recorded children |
| `GuestMove.RemoveLeaf` | src/guest.ts:309-315 | after the check, unlinks whatever leaf is there by then |
| `GuestMove.RemoveTree` | src/guest.ts:238-249 | without faults it removes the whole tree exactly when the permission bits allow it; otherwise a part may be left |
| `GuestMove.CreateTempDir` | src/guest.ts:89-98 | the first free of 128 names, found exactly when there is one and the directory may be changed |
| `GuestMove.EditAfterTheCheckIsLost` | src/guest.ts:309-315 | identity check and unlink are two calls: a run in which a leaf is edited between them deletes the edited leaf, and that deletion is preserved by the copy if and only if body and file mode are unchanged |
| `GuestTree.RecordedIsPreserved` | src/guest.ts:251-265 | a deleted leaf whose identity was recorded has its body and mode at the same path of the copy, whatever happened to the source meanwhile |
| `GuestTree.CopyIsSameExactly` | src/guest.ts:278-282 | directories get their mode from mkdir alone: the copy equals the source in modes too if and only if, from the destination down, every directory's dropped bits are handed down to it by its parent and it has every bit that is handed down |
| `GuestTree.SurvivesExactly` | src/guest.ts:280 | the same for one mkdir |
| `GuestMove.MoveEmpty` | src/guest.ts:323-368 | a run of the move on an empty directory: its mode is what mkdir makes of it, and is kept exactly when it survives |
| `GuestMove.MaskedBitIsLost` | src/guest.ts:94 | the run that loses a mode bit to the mask |
| `GuestMove.InheritedBitIsGained` | src/guest.ts:94 | the run that gains the set-group-ID bit of the destination under an empty mask |
| `GuestTree.CopyHasEveryLeaf` | src/guest.ts:270-305 | every leaf is in the copy at its path |
| `GuestTree.RecordedIsInTree` | src/guest.ts:303-305 | manifest entries are leaves of the source with those identities |
| `TarReplay.Replay.Run` | src/archive-tar-stream.ts:96-130 | success: every member in order and inside the stream, each consumer offered exactly a prefix of its bytes (all, if it asked for all or closed), the stream drained; every failure names the member and its cause; without closing or raising consumers the outcome is a function of the members and the stream length alone |
| `TarReplay.SameUnderAnyChunking` | src/archive-tar-stream.ts:96-130 | two chunkings of one stream give the same outcome, success exactly when all members fit |
| `TarReplay.ClosingDependsOnChunks` | src/archive-tar-stream.ts:119-125 | not so for a consumer that leaves its loop early: same stream, same consumer, one chunking succeeds and the other is "incomplete" |
| `TarReplay.Replay.Serve` | src/archive-tar-stream.ts:121-125 | for such a consumer: it is served if and only if the pieces it pulled were the whole payload; how many bytes that is is given |
| `TarReplay.Replay.One` | src/archive-tar-stream.ts:119-125 | one member, with its gap |
| `TarReplay.Replay.Pull` | src/archive-tar-stream.ts:105-118 | one resumption of the generator |
| `TarReplay.Replay.Drain` | src/archive-tar-stream.ts:120-124 | draining succeeds exactly when the stream is long enough |
| `TarReplay.Replay.Visiting` | src/archive-tar-stream.ts:121-122 | what a consumer that pulls some pieces has got |
| `TarReplay.Verdict` | src/archive-tar-stream.ts:119-125 | the outcome by the first member that does not fit |
| `BoundedRead.ReadBounded` | src/bounded-read.ts:161-189 | for every pattern of short reads and any size hints: exactly what was left if that is in budget, else too large; the one exception is the size shortcut with bytes left, stated as an exact condition; at most maxBytes + 1 bytes are consumed; capacities stay within maxBytes + 1 and only grow |
| `BoundedRead.ReadRest` | src/bounded-read.ts:182-188 | the loop |
| `BoundedRead.ShortcutLosesAByte` | src/bounded-read.ts:173-179 | the input on which the size shortcut returns one of two bytes |
| `BoundedRead.Grow` | src/bounded-read.ts:21-27 | contents kept, capacity as computed |
| `BoundedRead.GrownCapacity` | src/bounded-read.ts:22-23 | strictly larger while in budget, never above maxBytes + 1, at most 64 KiB or double |
| `BoundedRead.InitialCapacity` | src/bounded-read.ts:12-19 | positive and at most 16 MiB + 1 whatever the hint |
| `BoundedRead.Finish` | src/bounded-read.ts:29-37 | the same bytes, keeping at most twice their length alive |
| `FileCopy.CopyDescriptor` | src/file-handle-transfer.ts:27-76 | at every exit the target is its old content overlaid with source[..k], k within the budget; copied means all of it; unless a target stalls or the caller stops it the budget alone decides |
| `FileCopy.WriteChunk` | src/file-handle-transfer.ts:64-74 | one chunk through any short writes |
| `FileCopy.TransferSize` | src/file-handle-transfer.ts:22-24 | at least 64 KiB and what a hint up to 512 KiB asks for, unless the budget is smaller; never above limit + 1 |
| `FileCopy.SameContents` | src/file-contents.ts:11-47 | equals the specified comparison for any short reads and any claimed sizes |
| `FileCopy.ComparedMeans` | src/file-contents.ts:11-47 | with truthful sizes that is: refuse what exceeds the limit, else equality |
| `FileCopy.ComparedIsSound` | src/file-contents.ts:11-47 | whatever the sizes claimed, "same" implies equal and "different" implies unequal |
| `FileCopy.CompareWindow` | src/file-contents.ts:40-44 | one round agrees exactly when the prefixes do |
| `FileCopy.ReadWindow` | src/positional-read.ts:41-52 | fills the window or stops at end of file |
| `FileCopy.CopyThenCompare` | src/file-handle-transfer.ts:27-76 | a copy into an empty file compares equal to its source |
| `HashScratch.AnyBorrowers` | src/file-hash.ts:27-58 | over any interleaving of borrowers the pool holds at most four zeroed buffers sorted by length and no buffer is pooled and borrowed, or borrowed twice |
| `HashScratch.Pool.Take` | src/file-hash.ts:29-32 | first fit is best fit; otherwise a fresh buffer of the exact size |
| `HashScratch.Pool.Return` | src/file-hash.ts:54-56 | the pool keeps the longest four |
| `HashScratch.Scratch.Dispose` | src/file-hash.ts:50-57 | clearing the used view clears the whole buffer |
| `HashScratch.Scratch.Grow` | src/file-hash.ts:43-48 | the larger buffer is taken before the smaller is returned |
| `HashScratch.Scratch.constructor` | src/file-hash.ts:38-41 | a borrowed buffer, exclusive, clear beyond its view |
| `HashScratch.HashDescriptor` | src/file-hash.ts:198-231 | the digest is fed exactly the file's bytes in order across growth, within the budget, and every buffer is back in the pool |
| `HashScratch.HashLoop` | src/file-hash.ts:214-230 | the read loop |
| `HashScratch.InsertedStaysSorted` | src/file-hash.ts:54-55 | pushing and sorting keeps the order |
| `HashScratch.TrimmedKeepsTheLongest` | src/file-hash.ts:56-56 | dropping the first drops a shortest one |
| `Crc32.UpdateCrc32` | src/archive-crc32.ts:13-20 | the table-driven update equals a shift register fed one message bit at a time, from any previous value |
| `Crc32.MakeTable` | src/archive-crc32.ts:5-11 | every entry is eight register steps of its index |
| `Crc32.CrcContinues` | src/archive-crc32.ts:13-20 | update(update(c, a), b) = update(c, a + b) |
| `Crc32.CheckValue` | src/archive-crc32.ts:3-20 | the published check value: the digits "123456789" give 0xcbf43926 |
| `Crc32.OneByte` | src/archive-crc32.ts:15-18 | one shift and one lookup do the work of eight bits |
| `Crc32.EightSteps` | src/archive-crc32.ts:15-18 | eight steps split into a shift of the high bits and a lookup of the low ones |
| `Crc32.StepsAreLinear` | src/archive-crc32.ts:8-8 | register steps distribute over exclusive or |
| `Crc32.FeedBitsIsSteps` | src/archive-crc32.ts:15-18 | feeding a byte bit by bit equals mixing it in at once |
| `ArchivePath.StripAdds` | src/archive-entry.ts:86-100 | stripping a then b components of a validated path equals stripping a + b |
| `ArchivePath.ZeroStripIsIdempotent` | src/archive-entry.ts:86-100 | zero stripping is idempotent on every path, validated or not |
| `ArchivePath.CanonicalExactly` | src/archive-entry.ts:85-100 | its fixed points are exactly the paths without backslashes, empty or "." components, and with parent segments only in front |
| `ArchivePath.RootAcceptsItself` | src/archive-entry.ts:124-140 | the input on which resolution accepts the root itself |
| `ArchivePath.StrippedValidates` | src/archive-entry.ts:16-83 | whatever is stripped from a validated path, the rest validates again, on either platform and for any width measure |
| `ArchivePath.ValidatesExactly` | src/archive-entry.ts:8-83 | which paths validate, character by character: besides "", "." and "./" exactly those without a letter and a colon at the start of a component, a NUL, a leading separator, a ".." component or an overlong component, and on Windows without any colon or a device name |
| `ArchivePath.DrivesExactly` | src/archive-entry.ts:8-10 | a component is a drive exactly if an ASCII letter and a colon stand at a component start |
| `ArchivePath.ParentsExactly` | src/archive-entry.ts:78-83 | a parent component stands exactly where two dots stand between separators or ends |
| `ArchivePath.NormalIsRefusedExactly` | src/archive-entry.ts:52-77 | the tests on the normal form come to: not absolute, no parent, no overlong part |
| `ArchivePath.OutputIsUnderRoot` | src/archive-entry.ts:124-140 | resolving a stripped validated path never raises and gives root + its components |
| `ArchivePath.AcceptedIsUnderRoot` | src/archive-entry.ts:124-140 | any path resolution accepts is strictly below the root, component by component, and nothing below it is refused; only a root of "/" also accepts itself |
| `ArchivePath.PrefixMeansUnder` | src/path.ts:141-144 | the textual prefix test means containment |
| `ArchivePath.StripDrops` | src/archive-entry.ts:86-100 | without parent segments stripping drops components and nothing else |
| `ArchivePath.NormalizeOfNormal` | src/archive-entry.ts:54-54 | a normal path is its own normal form |
| `ArchivePath.SplitOfJoin` | src/archive-entry.ts:94-96 | joined components split again |
| `ArchivePlan.PlanAll` | src/archive-plan.ts:61-90 | over any manifest, even past rejections: outputs pairwise distinct under the collision key, valid and under the root, from at most maxEntries entries; each is the file or directory it was, at its stripped path and declared size, let through by the filter; every planned file, and outside ZIP every directory, is at most maxEntryBytes, and their sizes sum to at most maxExtractedBytes; a manifest that fits (ZIP directories of any size) is planned whole |
| `ArchivePlan.Planner.Plan` | src/archive-plan.ts:66-89 | the exact decision for every entry in every state, and what a planned entry takes from the registers |
| `ArchivePlan.Planner.Select` | src/archive-plan.ts:39-57 | the exact selection; the second validation and the containment test never decide |
| `ArchivePlan.Planner.Decide` | src/archive-plan.ts:72-88 | links, sparse and blocked members are rejected, unsupported ones skipped, sizes charged |
| `ArchivePlan.StaysSound` | src/archive-plan.ts:66-89 | one more decision keeps the manifest sound |
| `ArchivePlan.DecidedIsGood` | src/archive-plan.ts:40-57 | a planned entry is valid, contained, new and affordable |
| `ArchivePlan.DecidedIsFaithful` | src/archive-plan.ts:66-89 | a planned entry is the file or directory it was, at its stripped path, with its size, and the filter extracts it |
| `ArchivePlan.TotalIsPlanned` | src/archive-plan.ts:83-86 | the charged total is the sum over planned files in ZIP and over everything planned in the other formats |
| `ArchivePlan.AcceptableIsPlanned` | src/archive-plan.ts:66-89 | an acceptable entry with a new key that the budget can pay is planned as it is; a ZIP directory costs nothing |
| `ArchivePlan.NextIsPlanned` | src/archive-plan.ts:66-89 | so is the next entry of a manifest that fits |
| `ArchivePlan.TargetIsStripped` | src/archive-plan.ts:42-45 | stripping the canonical path is stripping the entry path, and the result is its own collision identity |
| `ArchiveLimits.MeterIsExact` | src/archive-limits.ts:73-91 | the saturated computation gives the exact minima of all four limits, though every product and sum it forms is a safe integer |
| `ArchiveLimits.ByteBudget.AddBytes` | src/archive-limits.ts:148-161 | both counters, and which limit is exceeded |
| `ArchiveLimits.ByteBudget.AddEntrySize` | src/archive-limits.ts:168-175 | charged exactly when both limits allow it, whatever was added before |

## Left out

- Native and WASM bindings, JSZip and the TAR header parser: the decoded TAR stream and its admitted members are inputs.
- File identity is exact inode identity; realpath, symlink, ACL, Windows alias and unverifiable-identity checks are not modelled, nor are error classes and wording beyond accept, reject and the kinds the properties name.
- fsync and power loss: crashes are process crashes between atomic metadata steps, so directory syncs do nothing.
- Links outside the queue are only ever added, and nothing outside it removes a failed or delivered file.
- The queue's transfer lock, retries and timers: queue operations exclude each other; migration of entry content is left out, and a claim and its processing file share a directory.
- Lock receipts, snapshots and what the filesystem answers are inputs of each lock operation (`World`), a receipt being current or not for the whole operation; nothing calls back between the unlink and the end of `removeFileLockSyncRootFile`, and one record is modelled, so the registry loop of exit cleanup is its body.
- Acquisition beyond the reuse of a held record (creating the sidecar, stale reclaim, waiting): easier facts.
- Text decoding, Unicode normalisation, case folding, digests and the width of a path component are parameters: any functions. `Replies` to the ZIP scan depend only on the requested range, the archive being immutable.
- In `ZipNames` buffers are immutable values, so the shared-memory tests that disable reuse are always passed.
- AdmitWritten: asks that no checksum equals the descriptor's signature where a descriptor follows, and with something prepended that no second ZIP64 end signature stands at the unadjusted place of the locator, because the scan refuses some such archives as ambiguous; ZIP64 offsets and sizes stand in front of other extra fields (`Zip64RoundTrip` has them anywhere).
- The creator system, external attributes and kind that an emitted ZIP entry also carries, and the entry's opening and decompression.
- The guest's other operations, and the moves of a single file or link: the directory move contains the harder case. The source changes only after it was copied, and the destination directory is not disturbed; entry identities determine mode and content, as a device, inode, size and times are meant to. Permissions are owner bits: an unprivileged process owns both trees; group and other bits, ACLs and sticky bits grant and deny nothing here, and `fchmod` sets every bit it is given, as for a process in the file's group.
- RemoveCopied: does not claim, for other processes that act between the identity check and the unlink, that only recorded leaves are deleted, because the code does not ensure it.
- A TAR consumer passes on the errors it gets from its payload; swallowing one turns "truncated" into "incomplete".
- The asynchronous twins of the read, copy and hash loops: the synchronous loops are proved; other borrowers of the hash pool are modelled between its operations.
- Clamping and defaults of the extraction limits (any resolved limits are allowed), Windows path resolution, entry modes, non-integer entry sizes, and the Transform stream that charges portable ZIP payload.
- Names in ArchivePath are strings of characters; POSIX `path.resolve` starts from a clean absolute working directory.
