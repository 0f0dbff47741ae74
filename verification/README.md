# Verification of go-fs

A model in Dafny of the parts of go-fs where a mistake would cost data: the locks on disk images and the clones that
work under them, the Cryptomator vaults, the garbage collection of the container registry, uploads that arrive in
pieces, background jobs, and the header of Digest authentication. `dafny verify dfyconfig.toml` checks all of it.

## What is modelled

**Disk images** (`Locks`, `DiskProtocol`, `DiskRuns`, `DiskSteps`, `Disks`, `Sparse`, `DiskUpload`). `Locks.Registry` is
the lock registry as its critical sections change it, with the retry loop of a writer that takes over; what the others
make of the registry while it waits is a parameter. `DiskProtocol` is everything that works on the images of a folder at
once, as a state machine whose steps are one critical section or one change of a file each, and `DiskRuns` says what
every run of it keeps: who may hold what, that a clone which ends done leaves the target as the source was when it took
its hold, that a hold freezes an image, and that taking over ends. `DiskSteps` says what the steps achieve: who is
granted what, that a clone nothing stops completes, and that the operations on images are steps. `Disks` is create,
resize, rename, delete and the start of a clone on the registry, `Sparse` writing around blocks of zeros, and
`DiskUpload` the chunked upload of an image.

**Vaults** (`Bytes`, `Numbers`, `KeyWrap`, `Siv`, `ContentSize`, `Content`, `Base32`, `Crc32`, `Recovery`, `Vault`,
`KnownAnswers`). The loops over buffers are methods proved against what RFC 3394, RFC 4493 and RFC 5297 define, and the
properties a vault rests on are proved of those: unwrapping and opening accept exactly what wrapping and sealing make,
files read back exactly what was written, recovery keys open the same vault. AES is any family of permutations of 16
bytes, AES-GCM any pair of sealing and opening that accepts exactly what was sealed under the same key, nonce and data;
each comes with a toy instance that shows the laws can be met. scrypt, HMAC, JSON Web Tokens, URL-safe base64 and
Unicode normalization are functions with the few laws that are used. Randomness is a parameter.

**Registry** (`RegistryMark`, `RegistryGc`, `RegistryJobs`, `JobRuns`). Marking from the manifests of a repository down
through indexes, the sweep of links and blobs, and the background jobs with the one answer an import is given.

**Uploads and requests** (`ContentRange`, `ChunkedPut`, `DigestHeader`). The handler of a PUT with a Content-Range on
the staging file and the target, with the failures of the file system and of the body as part of a request, and the
parser of a Digest header.

## Where the code and its description differ

- `CleartextSize` wraps around within a header's length of the lowest 64-bit number, and then reports a size for a
  length that is negative (`ContentSize.NegativeLengths`).
- A recovery key is written for any vault, but is only taken back when both keys have 32 bytes
  (`Vault.RecoveryUnlocksSameVault`). `Unlock` opens vaults with other keys too
  (`Vault.RecoveryOfShortKeysIsRefused`).
- The body of a chunk that is found to be stored already is not looked at: a request that names the end of what is
  staged as the end of the file puts the first part of the file in place, whatever it carries. This is so of PUTs with a
  Content-Range (`ChunkedPut.HarmExactlyIfCutShort`, `ChunkedPut.EmptyChunkCutsShort`) and of the uploads of disk images,
  where the chunk is reported as the last and the upload is finished with the length that it names
  (`DiskUpload.HarmExactlyIfCutShort`, `DiskUpload.EmptyChunkCutsShort`).
- Marking stops at what is marked already and eight steps down, so a manifest that is named as a config or a layer as
  well, or that is nine steps down, may lose what it refers to (`RegistryMark.ChildNamedAsConfigIsNotFollowed`,
  `RegistryMark.NineStepsDownIsNotMarked`, `RegistryMark.MarksAreInReach`). `RegistryMark.MarksExactlyReached` gives a
  condition on the manifests under which nothing is lost; it is sufficient and not necessary, since what is lost beyond
  it depends on the order in which manifests are met.
- A collection that cannot read a repository logs that nothing is collected, but has already removed links of the
  repositories before it (`RegistryGc.SweptLinks`, `RegistryGc.LinkGoesBeforeAnUnreadableRepository`).
- A key of a Digest parameter with an equals sign in it, space around it or a comma before it is not read back as it was
  printed (`DigestHeader.PrintedAreParsedExactlyIfPlain`, `DigestHeader.SpacedKeyIsNotReadBack`).

## Model

| member | source | states |
|---|---|---|
| Locks.HasExactlyIfOn | internal/disks/locks.go:141-151 | an entry shows a lease of a mode exactly if an unreleased lease of that mode is on the image |
| Locks.DecideChecksEveryMode | internal/disks/locks.go:185-202 | the switch grants exactly if the mode asked for may be held beside every mode the entry shows |
| Locks.GrantedExactlyIfCompatible | internal/disks/locks.go:185-202 | a lease is granted exactly if it may be held beside every lease on the image that is not released |
| Locks.GrantKeepsConsistent | internal/disks/locks.go:224-239 | a grant keeps exclusion, and the tables showing exactly the unreleased leases and their sessions |
| Locks.ReleaseKeepsConsistent | internal/disks/locks.go:243-268 | so does a release, which leaves no empty entry behind |
| Locks.ReleaseUndoesGrant | internal/disks/locks.go:224-268 | releasing what was just granted restores the tables exactly |
| Locks.EmptyExactlyIfUnused | internal/disks/locks.go:149-151 | an entry is empty exactly if no lease on its image is left |
| Locks.TakenOverFromWriter | internal/disks/locks.go:194-199 | only a writer takes over, and only from the writer of the image; TakesOverExactlyFromOwn says when |
| Locks.TakesOverExactlyFromOwn | internal/disks/locks.go:194-199 | the writer of an image is closed for another exactly if both came with one certificate and nothing is exclusive |
| Locks.RefusalsAreTrue | internal/disks/locks.go:185-202 | the reason of a refusal is what the entry shows |
| Locks.AttemptsEndWithTheLast | internal/disks/locks.go:174-241 | every attempt but the last closes the writer in its way, which lets go in time; the last is granted, refused for its reason, or waits in vain |
| Locks.WriterHoldsLease | internal/disks/locks.go:194-199 | the writer that an entry shows holds a writer lease on it |
| Locks.AttemptsTakeOverInTurn | internal/disks/locks.go:174-241 | over all retries: granted only when every session closed on the way let go, none closed twice, everything stays consistent |
| Locks.Registry.constructor | internal/disks/locks.go:166-169 | an empty registry is consistent |
| Locks.Registry.Section | internal/disks/locks.go:177-239 | one pass under the lock decides as Decide, whose meaning GrantedExactlyIfCompatible and TakesOverExactlyFromOwn give, and changes the tables only where it grants |
| Locks.Registry.Acquire | internal/disks/locks.go:174-241 | the retry loop returns, closes and leaves what the attempts come to, for everything the others may do meanwhile; AttemptsTakeOverInTurn and AttemptsEndWithTheLast say what that is |
| Locks.Registry.Release | internal/disks/locks.go:243-268 | takes exactly the lease out of the tables, and its session has let go for good |
| Locks.Handle.Release | internal/disks/locks.go:124-129 | lets go once, however often it is called |
| DiskProtocol.GivenKeepsGood | internal/disks/locks.go:224-239 | a grant in the middle of everything keeps the invariant of leases, waits, held images and clones |
| DiskProtocol.TakenBackKeepsGood | internal/disks/locks.go:243-268 | so does releasing a lease no clone works under |
| DiskProtocol.ChangeKeepsGood | internal/disks/disks.go:213-376 | so does any change of an image by the holder of its writer or exclusive lease |
| DiskProtocol.AloneOn | internal/disks/locks.go:185-202 | beside a writer or exclusive lease nobody has a hold or an exclusive lease |
| DiskProtocol.AskedKeepsGood | internal/disks/locks.go:174-181 | a first request keeps the invariant, and its lease is then nobody's yet |
| DiskProtocol.VictimInTheWay | internal/disks/locks.go:194-223 | the session that is closed holds the image, is not the one asking and waits for nobody |
| DiskProtocol.WaitingKeepsGood | internal/disks/locks.go:210-223 | waiting for it keeps the invariant |
| DiskProtocol.StoppedWaitingKeepsGood | internal/disks/locks.go:216-221 | so does giving up at the deadline |
| DiskProtocol.RetryKeepsGood | internal/disks/locks.go:216-223 | so does trying again after the session let go |
| DiskProtocol.BeginKeepsGood | internal/disks/jobs.go:85-110 | so does starting a clone under its two leases |
| DiskProtocol.SourceIsSnapshot | internal/disks/jobs.go:112-117 | while a clone copies, its source is what it was when the hold was granted |
| DiskProtocol.OpenKeepsGood | internal/disks/jobs.go:112-117 | the staging file a copy starts with keeps the invariant |
| DiskProtocol.CopyKeepsGood | internal/disks/jobs.go:112-117 | copying any piece keeps the staging file a prefix of the snapshot, and never fails for the source |
| DiskProtocol.GivenUpKeepsGood | internal/disks/jobs.go:130-132 | failing or being cancelled keeps the invariant |
| DiskProtocol.PutInPlaceKeepsGood | internal/disks/jobs.go:118-129 | renaming the finished copy keeps the invariant; FinishedCopyIsPutInPlace says that it is renamed |
| DiskProtocol.FinishedCopyIsPutInPlace | internal/disks/jobs.go:118-129 | a copy that is finished is always put in place: the target holds the snapshot, the clone is done, and nothing is staged |
| DiskProtocol.FreeHoldKeepsGood | internal/disks/jobs.go:135 | releasing the source first keeps the invariant |
| DiskProtocol.FreeTargetKeepsGood | internal/disks/jobs.go:136 | so does releasing the target |
| DiskProtocol.EndKeepsGood | internal/disks/jobs.go:138-145 | so does saying that the job is over |
| DiskProtocol.StepKeepsGood | internal/disks/jobs.go:74-148 | every step of sessions, downloads, clones, operations and uploads keeps the invariant |
| DiskRuns.EveryStateIsGood | internal/disks/jobs.go:74-148 | the invariant holds in every state of every run |
| DiskRuns.LeasesExcludeInEveryRun | internal/disks/locks.go:174-268 | in every run at most one writer of an image, none beside a hold, nothing beside an exclusive lease, and tables that say exactly which leases there are |
| DiskRuns.NobodyWaitsInCircles | internal/disks/locks.go:210-223 | only writers wait, for a session with their own certificate; a waiter holds nothing, and whom it waits for does not wait |
| DiskRuns.GoneForGood | internal/disks/locks.go:124-129 | a lease that was released never comes back |
| DiskRuns.HeldAllAlong | internal/disks/locks.go:124-129 | a lease that is held twice in a run is held all the time between |
| DiskRuns.TakenOnce | internal/disks/locks.go:224-239 | every lease was granted in exactly one step |
| DiskRuns.HeldImageStays | internal/disks/disks.go:379-397 | an image does not change while a hold on it lasts: a download is of one moment |
| DiskRuns.SnapshotIsOfGrant | internal/disks/jobs.go:85-117 | the snapshot of a clone is what its source held in the step that granted the hold |
| DiskRuns.LeftByClone | internal/disks/jobs.go:118-136 | what is under the target name when the clone lets go of it |
| DiskRuns.CloneIsOfOneMoment | internal/disks/jobs.go:74-148 | in every interleaving a clone that is over let go of both images first; done, it left the target as the source was when its hold was granted, and otherwise no target |
| DiskRuns.NotDoneOnlyIfFailed | internal/disks/jobs.go:112-145 | in every run a clone that is over and not done failed or was cancelled in a step of its own, or had no source when its hold was granted |
| DiskRuns.TakeoverAfterLettingGo | internal/disks/locks.go:210-223 | a session that had to wait for another has a lease only after that one let go of its own |
| DiskRuns.EveryRetryIsCounted | internal/disks/locks.go:176-223 | every retry of a waiting session was for another session |
| DiskRuns.RetriesEnd | internal/disks/locks.go:176-223 | so it retries at most once for every other session there has been |
| DiskRuns.RunsAreWhatAcquireAssumes | internal/disks/locks.go:210-223 | what a waiting writer of a run finds of the registry is what the retry loop assumes that the others may make of it |
| DiskSteps.RequestIsDecided | internal/disks/locks.go:174-241 | in every good state a first request is possible, is granted exactly if the lease may be held beside all on its image, and waits exactly for a writer of its own certificate |
| DiskSteps.WaiterGetsItsTurn | internal/disks/locks.go:210-239 | a writer whose own session let go is granted the image exactly if nothing else is in its way, and then waits no longer |
| DiskSteps.LettingGoIsPossible | internal/disks/locks.go:243-268 | letting go and giving up are always possible and leave everything else alone |
| DiskSteps.CloneCompletes | internal/disks/jobs.go:85-148 | from every good state the steps of a clone lead to its end: the target is what the source was, both leases are free, it is done, and nothing else has changed |
| DiskSteps.CopyCompletes | internal/disks/jobs.go:118-145 | so do the steps after the copy, from any state in which it is finished |
| DiskSteps.FailingLeavesNothing | internal/disks/jobs.go:130-132 | a clone that fails or is cancelled leaves no staging file and no target |
| DiskSteps.OperationsAreSteps | internal/disks/disks.go:213-331 | create, resize, rename and delete, where they succeed, are steps of the protocol with the same images after them |
| DiskSteps.RefusedShrinkIsNoChange | internal/disks/disks.go:279-281 | where shrinking is refused the step changes nothing |
| DiskSteps.ContentIsReplaced | internal/disks/upload.go:131-156 | a write and an upload that is put in place leave what they give under the name and all else alone |
| DiskSteps.FinishingIsAStep | internal/disks/upload.go:131-156 | finishing an upload under its exclusive lease is a step of the protocol with the same image after it |
| Disks.RoundUp | internal/disks/disks.go:100-102 | sizes are rounded up to whole sectors |
| Disks.Folder.Take | internal/disks/locks.go:174-241 | an exclusive lease or a hold is taken or refused in one pass, and releasing it restores the registry |
| Disks.Folder.Create | internal/disks/disks.go:215-249 | makes an image of zeros or says why not, and leaves the registry as it was |
| Disks.Folder.Resize | internal/disks/disks.go:254-290 | changes the size or says why not, and leaves the registry as it was |
| Disks.Folder.Rename | internal/disks/disks.go:295-318 | renames under both leases, or one for a change of case, or says why not, and leaves the registry as it was |
| Disks.Folder.Delete | internal/disks/disks.go:321-331 | deletes or says why not, and leaves the registry as it was |
| Disks.Folder.Clone | internal/disks/jobs.go:74-98 | a clone starts with its hold and its exclusive lease, or says why not and leaves the registry as it was |
| Disks.FreedUnderAnother | internal/disks/jobs.go:94-98 | the source may be let go of before the target, as each restores its own image only |
| Disks.OtherNameIsAsBefore | internal/disks/disks.go:415-429 | taking the first of two names does not change what is in the way of the second |
| Disks.FreeExactlyIfUnused | internal/disks/locks.go:185-192 | an image may be taken exclusively exactly if nobody has a lease on it |
| Disks.UsedImagesStay | internal/disks/disks.go:213-331 | no operation changes an image anybody has a lease on, nor one it does not name |
| Disks.NamesStayFit | internal/disks/disks.go:138-148 | every image stays under the key of its name |
| Disks.RenamedBack | internal/disks/disks.go:295-318 | renaming back restores the folder |
| Disks.CreatedAndDeleted | internal/disks/disks.go:215-331 | deleting what was made restores the folder |
| Disks.GrownAndShrunk | internal/disks/disks.go:254-290 | growing an image of whole sectors is never refused for its size, and shrinking it back restores it |
| Disks.CreatedExactlyIf | internal/disks/disks.go:215-249 | creating succeeds exactly if the name is valid and free, nobody has a lease on it and the size is above zero and at most 1 PiB, and makes zeros of the size in whole sectors |
| Disks.ResizedExactlyIf | internal/disks/disks.go:254-290 | resizing succeeds exactly if nobody has a lease on the image and it does not get smaller without being asked to; what was there stays up to the new size, and zeros follow |
| Disks.RenamedExactlyIf | internal/disks/disks.go:295-318 | renaming succeeds exactly if both names are valid and nobody has a lease on either, and the new one is free but for a change of case |
| Disks.RenamedKeepsContent | internal/disks/disks.go:295-318 | a renamed image holds what it held, and no other changes |
| Disks.DeletedExactlyIf | internal/disks/disks.go:321-331 | deleting succeeds exactly if there is an image nobody has a lease on, and removes it alone |
| Disks.CloneStartsExactlyIf | internal/disks/jobs.go:74-98 | a clone starts exactly if nobody writes to the source or has it exclusively, and the target is free and nobody has a lease on it |
| Disks.SameKeyExactly | internal/disks/disks.go:138-148 | two names are of one image exactly if they are the same, but for case where the file system ignores it |
| Disks.ValidNamesStayInside | internal/disks/disks.go:62-76 | a valid name has letters, digits, dots, dashes and underscores only, starts with a letter or digit and is no longer than 200 characters |
| Disks.DevicesAreRefused | internal/disks/disks.go:56-76 | what Windows takes for a device is refused in any case and with any extension |
| Sparse.File.WriteAtSparse | internal/sparse/sparse.go:72-98 | the file reads as after a dense write, and exactly the positions in blocks with something but zeros were written |
| Sparse.DataRun | internal/sparse/sparse.go:79-87 | a run of blocks written in one call holds data in each of them |
| Sparse.PieceIsBlock | internal/sparse/sparse.go:74-77 | the piece up to the next boundary is all that is written of its block |
| Sparse.PieceInData | internal/sparse/sparse.go:78-78 | a piece counts as data as a whole, exactly if it is not all zeros |
| Sparse.File.CopyExtents | internal/sparse/sparse.go:168-205 | a copy that leaves out holes and blocks of zeros is the same file |
| DiskUpload.Upload.WriteChunk | internal/disks/upload.go:44-126 | stores a chunk behind what is staged, finds it there, or refuses it and undoes it, and needs no more than space and a body that is long enough; UploadCompletes and OutOfSyncTellsWhere say which |
| DiskUpload.Upload.Receive | internal/disks/upload.go:98-114 | the loop leaves what was staged alone and the body behind it |
| DiskUpload.Upload.FinishUpload | internal/disks/upload.go:131-156 | puts the image in place or says why not |
| DiskUpload.RunsTurnRightExactlyIfNotCutShort | internal/disks/upload.go:44-156 | over all calls that do not overlap, if every chunk that is long enough is of one image, what is staged is always a prefix of it, and nothing else is ever put in place exactly if no call that finishes names less than its length |
| DiskUpload.OnlyTheImageIsPutInPlace | internal/disks/upload.go:44-156 | then what is under the name is as it was or exactly the image, under an exclusive lease and where it may replace what is there |
| DiskUpload.NamingTheLengthIsEnough | internal/disks/upload.go:131-156 | so it is where every call that finishes names the length of the image |
| DiskUpload.HarmExactlyIfCutShort | internal/disks/upload.go:44-156 | one call puts something else in place exactly if it finishes with what is staged as the whole image while that is less |
| DiskUpload.EmptyChunkCutsShort | internal/disks/upload.go:66-68 | a chunk with nothing in it that is found to be staged is said to be the last, and two of three bytes are put in place |
| DiskUpload.FailedChunkIsUndone | internal/disks/upload.go:94-122 | a chunk that failed leaves what was staged, or nothing of it if it started at 0, and may be sent again |
| DiskUpload.StoredChunkIsFound | internal/disks/upload.go:61-76 | a chunk that was stored and is sent again is found and changes nothing |
| DiskUpload.UploadCompletes | internal/disks/upload.go:44-156 | the rest of an image in order, from where what is staged ends or from the start, and then finishing, puts exactly the image in place where there is none or it may be replaced |
| DiskUpload.OutOfSyncTellsWhere | internal/disks/upload.go:64-80 | a chunk that does not fit is told where one would have, and one that starts there does |
| DiskUpload.RefusedForSize | internal/disks/upload.go:47-58 | a chunk is refused for its numbers exactly if they are out of order or beyond 1 PiB, and else exactly if another upload of the name runs |
| DiskUpload.UnfinishedForAReason | internal/disks/upload.go:131-156 | why an upload is not finished is so, and then nothing changes |
| KeyWrap.WrapPass | internal/cryptomator/keywrap.go:36-43 | one pass of the indexed loop is n steps of the shifting registers of section 2.2.1 of RFC 3394 |
| KeyWrap.WrapKey | internal/cryptomator/keywrap.go:22-47 | the in-place loops compute the wrapping of section 2.2.1 for keys of every length, and refuse the others |
| KeyWrap.UnwrapPass | internal/cryptomator/keywrap.go:66-73 | one pass of the unwrapping loop undoes n steps |
| KeyWrap.UnwrapKey | internal/cryptomator/keywrap.go:51-79 | the in-place loops compute the unwrapping of section 2.2.2 with the check of section 2.2.3 |
| KeyWrap.StepAtIndex | internal/cryptomator/keywrap.go:36-42 | a step on register i in place is a step of the shifting registers |
| KeyWrap.UnstepAtIndex | internal/cryptomator/keywrap.go:66-72 | so is undoing one |
| KeyWrap.UnstepsOfSteps | internal/cryptomator/keywrap.go:35-74 | undoing all steps restores the registers |
| KeyWrap.StepsOfUnsteps | internal/cryptomator/keywrap.go:35-74 | and the other way round |
| KeyWrap.UnwrapExactlyUndoesWrap | internal/cryptomator/keywrap.go:22-79 | something unwraps to a key exactly if the key wraps to it |
| KeyWrap.UnwrapLength | internal/cryptomator/keywrap.go:59-78 | a key is 8 bytes shorter than what it was wrapped to |
| KeyWrap.WrapsExactlyWholeWords | internal/cryptomator/keywrap.go:24-34 | exactly keys of whole words, two at least, are wrapped, under a key that AES has |
| Siv.DoubleIsTimesX | internal/cryptomator/siv.go:40-49 | doubling bytes is multiplying by x in GF(2^128), of section 2.3 of RFC 5297 |
| Siv.DoubleInjective | internal/cryptomator/siv.go:40-49 | no two blocks have the same double |
| Siv.Dbl | internal/cryptomator/siv.go:41-49 | the loop over the bytes doubles |
| Siv.NewCmac | internal/cryptomator/siv.go:31-38 | derives the two subkeys of section 2.3 of RFC 4493 |
| Siv.Sum | internal/cryptomator/siv.go:51-74 | computes the CMAC of section 2.4 of RFC 4493 for messages of every length |
| Siv.SyntheticIv | internal/cryptomator/siv.go:96-118 | computes S2V of section 2.4 of RFC 5297 for every list of associated data |
| Siv.CtrXorTwice | internal/cryptomator/siv.go:122-127 | running the counter mode twice restores the text |
| Siv.CounterStaysInLowBytes | internal/cryptomator/siv.go:120-126 | a counter whose top bit is clear does not carry out of its low bytes within half their range |
| Siv.NarrowCounterAgrees | internal/cryptomator/siv.go:120-126 | after clearing the two bits, adding in the low 64 or 32 bits agrees with adding in 128, below 2^63 and 2^31 blocks |
| Siv.ClearedBits | internal/cryptomator/siv.go:122-127 | exactly the 32nd and the 64th bit from the right are cleared |
| Siv.NewSiv | internal/cryptomator/siv.go:82-92 | takes exactly the AES key lengths |
| Siv.Seal | internal/cryptomator/siv.go:130-136 | the synthetic IV and the ciphertext of section 2.6 of RFC 5297 |
| Siv.Open | internal/cryptomator/siv.go:138-151 | the decryption and check of section 2.7 of RFC 5297 |
| Siv.OpenExactlyUndoesSeal | internal/cryptomator/siv.go:130-151 | a ciphertext opens to a plaintext exactly if that is sealed to it |
| Siv.SealInjective | internal/cryptomator/siv.go:130-136 | different plaintexts have different ciphertexts |
| KnownAnswers.MacOfNothing | internal/cryptomator/siv.go:51-74 | under XOR with 0...01, nothing has the MAC that RFC 4493 gives it by hand: padded, under the second subkey |
| KnownAnswers.MacOfBlock | internal/cryptomator/siv.go:51-74 | so has every block of zeros but for its ends: under the first subkey |
| KnownAnswers.MacAfterZeros | internal/cryptomator/siv.go:51-74 | so has what follows a block of zeros |
| KnownAnswers.S2vOfNothing | internal/cryptomator/siv.go:96-118 | S2V of nothing: doubled, padded and summed once |
| KnownAnswers.S2vOfTwo | internal/cryptomator/siv.go:96-118 | S2V of nothing beside nothing, where doubling carries |
| KnownAnswers.S2vOfLonger | internal/cryptomator/siv.go:96-118 | S2V of 17 zeros, which the value is mixed into the end of |
| KnownAnswers.SealedNothing | internal/cryptomator/siv.go:130-136 | what nothing is sealed to beside a block of zeros, which comes first |
| KnownAnswers.SealedZeros | internal/cryptomator/siv.go:130-136 | what 32 zeros are sealed to: one key makes the synthetic IV, the other the two blocks of the stream |
| KnownAnswers.WrappedPlainly | internal/cryptomator/keywrap.go:24-52 | under a key that changes nothing, a key of 16 bytes wraps to itself behind the initial value with the numbers of twelve steps mixed in |
| ContentSize.CiphertextSizeIsFileSize | internal/cryptomator/content.go:38-44 | in 64-bit arithmetic the size is right exactly while there is such a length |
| ContentSize.CleartextSizeInvertsFileSize | internal/cryptomator/content.go:48-62 | the cleartext size is n exactly for the length a file of n bytes has, and -1 for lengths no file has |
| ContentSize.SizesUndoEachOther | internal/cryptomator/content.go:38-62 | the two sizes undo each other |
| ContentSize.NegativeLengths | internal/cryptomator/content.go:48-52 | a negative length gives -1 exactly down to a header above the lowest number |
| Content.EncryptedLength | internal/cryptomator/content.go:38-44 | a written file has the length that is computed for it |
| Content.NewWriter | internal/cryptomator/content.go:146-155 | the file starts with the nonce and the sealed key behind eight reserved bytes, or there is no Writer for want of randomness or because the header was not taken |
| Content.Writer.Write | internal/cryptomator/content.go:157-176 | takes all of it, keeps whole chunks sealed in order and the last one back, and fails as it failed before |
| Content.Writer.Flush | internal/cryptomator/content.go:178-188 | what is buffered becomes the next chunk of the file, which FileFormat describes, or the Writer fails |
| Content.Writer.Close | internal/cryptomator/content.go:191-200 | what was written is then all there |
| Content.BodyAt | internal/cryptomator/content.go:178-188 | where a chunk is in a file, and that it is that chunk of the content, sealed |
| Content.Reader.Load | internal/cryptomator/content.go:255-272 | loads exactly what opens in the place of the chunk, with the number of the chunk and the nonce of the file, which AadTellsChunk tells apart |
| Content.Reader.Read | internal/cryptomator/content.go:240-253 | gives the bytes at the offset up to the end of the chunk, through the cache or not, and moves on by as many |
| Content.Reader.Seek | internal/cryptomator/content.go:274-289 | goes where it is told from the start, here or the end, or says why not and stays |
| Content.NewReader | internal/cryptomator/content.go:221-235 | opens exactly if the length is one of a file and the header opens |
| Content.HeaderOpens | internal/cryptomator/content.go:79-116 | a sealed header opens to its nonce and key |
| Content.AadTellsChunk | internal/cryptomator/content.go:127-132 | what a chunk is sealed with beside its text is its number in 8 bytes and the nonce of the file, so no two chunks of a file have the same |
| Content.MovedChunkCollides | internal/cryptomator/content.go:265-269 | a chunk that opens in the place of another or in another file has the ciphertext of two texts with different data beside them |
| Content.FileFormat | internal/cryptomator/content.go:14-23 | what is where in a written file: its nonce, the sealed key, and every 32 KiB of the content under a nonce of its own with its number and the nonce of the file |
| Content.LoadsWhatWasWritten | internal/cryptomator/content.go:255-272 | every chunk of a written file loads as that chunk of the content |
| Content.LoadedWasSealed | internal/cryptomator/content.go:178-272 | chunks that load are what a Writer makes of what they hold |
| Content.DecryptsExactlyWhatIsEncrypted | internal/cryptomator/content.go:146-272 | a file loads whole exactly if it is what a Writer makes of some content |
| Content.EncryptParts | internal/cryptomator/content.go:146-200 | however the content is cut into writes, the file is that of all of it, of the computed length |
| Content.MoveOn | internal/cryptomator/content.go:240-289 | one seek or read in a written file gives what the content has there, through the cached chunk or not |
| Content.DecryptAlong | internal/cryptomator/content.go:221-289 | so does any sequence of seeks and reads |
| Content.ReadingOnGivesTheRest | internal/cryptomator/content.go:240-253 | reading on to the end gives all of the content from there, in pieces of whatever size |
| Content.PieceOfChunk | internal/cryptomator/content.go:244-251 | a piece of a chunk is that piece of the content |
| Content.SeekLands | internal/cryptomator/content.go:274-289 | seeking goes to an offset, so far on from here, or so far before the end, and never before the start |
| Base32.DecodeOfEncode | internal/cryptomator/recovery.go:28-47 | base32 without padding decodes to what was encoded |
| Base32.DecodedElsewhere | internal/cryptomator/recovery.go:47-47 | one symbol only changes the bytes that its bits are in |
| Crc32.RunInjective | internal/cryptomator/recovery.go:52-52 | different states stay different whatever follows |
| Crc32.CatchesTwoBytes | internal/cryptomator/recovery.go:52-52 | the checksum tells apart texts that differ in two neighbouring bytes |
| Crc32.CatchesLastBits | internal/cryptomator/recovery.go:52-52 | a change of the last two bits of the keys changes the sum beyond its first three bits |
| KnownAnswers.SumOfDigits | internal/cryptomator/recovery.go:27 | the digits 1 to 9 have the sum CBF43926 that the polynomial is known by |
| KnownAnswers.LetterOf | internal/cryptomator/recovery.go:28 | the letters in order, then the digits from 2 |
| KnownAnswers.FooInBase32 | internal/cryptomator/recovery.go:28 | the first bytes of foobar in base32, as section 10 of RFC 4648 has them |
| KnownAnswers.GroupsOfSix | internal/cryptomator/recovery.go:27-35 | fifteen characters in groups of six, and four bytes of a sum from the highest |
| Recovery.RecoveryKey | internal/cryptomator/recovery.go:25-36 | the loop writes the keys with their sum in groups of six |
| Recovery.NormalOfWritten | internal/cryptomator/recovery.go:41-46 | what is typed is read without its dashes |
| Recovery.HowItIsTypedDoesNotMatter | internal/cryptomator/recovery.go:41-46 | dashes and white space anywhere and small letters make no difference to what a key recovers |
| Recovery.RecoveredExactlyFullKeys | internal/cryptomator/recovery.go:25-54 | a recovery key gives back its keys exactly if they are 64 bytes |
| Recovery.ChangedSymbolKeepsKeys | internal/cryptomator/recovery.go:47-54 | if one symbol is changed and the key is still taken, the keys are the same |
| Recovery.MistypedNeverYieldsOtherKeys | internal/cryptomator/recovery.go:40-54 | with one character replaced by a base32 character a key is refused or yields the same keys |
| Vault.UnlockedToken | internal/cryptomator/vault.go:153-202 | a vault that unlocks has a current token of this format and cipher that its own keys signed |
| Vault.UnlocksExactlyIf | internal/cryptomator/vault.go:153-202 | a vault unlocks to two keys exactly if the key file holds them wrapped under the password, asks for no more work than allowed and has the MAC of its version, and the vault file is a current token of this format and cipher signed by them |
| Vault.KeyFileAsksFor | internal/cryptomator/vault.go:218-244 | a key file that is written holds the keys of the vault and asks for the work of a new one |
| Vault.KeyFileOpens | internal/cryptomator/vault.go:153-244 | a key file that a vault writes unlocks every vault file of that vault, while its token is current |
| Vault.MasterkeyFileUnlocks | internal/cryptomator/vault.go:153-244 | so it unlocks the vault it was unlocked with |
| Vault.AnyKeysUnlock | internal/cryptomator/vault.go:153-202 | for any two keys of lengths AES has there is a vault that unlocks to them |
| Vault.RecoveryUnlocksSameVault | internal/cryptomator/recovery.go:25-60 | the recovery key makes a key file that unlocks the same vault, while its token is current, exactly if both keys have 32 bytes |
| Vault.RecoveryOfShortKeysIsRefused | internal/cryptomator/recovery.go:47-49 | a vault with keys of 16 bytes unlocks, and its recovery key is refused |
| Vault.NamesComeBack | internal/cryptomator/vault.go:265-286 | a name decrypts to its normal form, and two names have one node exactly if those agree |
| Vault.DecryptsOnlySealedNames | internal/cryptomator/vault.go:272-286 | a node decrypts to a name exactly if it is what the name is sealed to |
| Vault.IvComesOfMacKey | internal/cryptomator/vault.go:265-268 | the synthetic IV of a name comes of the MAC key alone |
| RegistryMark.Mark | internal/httpd/registry_gc.go:184-210 | marks only grow, and a manifest is marked down to eight steps |
| RegistryMark.Marks.MarkManifest | internal/httpd/registry_gc.go:184-210 | the recursion that changes the marks computes Mark |
| RegistryMark.MarksAreInReach | internal/httpd/registry_gc.go:184-210 | nothing is marked but manifests at most eight steps down, and what they refer to |
| RegistryMark.MarksAreReached | internal/httpd/registry_gc.go:111-126 | nothing is marked but what the manifests of the repository reach |
| RegistryMark.OnlyAcceptedIsFollowed | internal/httpd/registry_gc.go:204-209 | a digest that is not accepted is only marked as a config, a layer or a manifest of the repository |
| RegistryMark.DirectlyReferredIsMarked | internal/httpd/registry_gc.go:184-210 | the config, the layers and the children of each manifest are always marked |
| RegistryMark.MarkIsWhole | internal/httpd/registry_gc.go:184-210 | what one call marks is marked with all it refers to |
| RegistryMark.MarksExactlyReached | internal/httpd/registry_gc.go:111-210 | what is marked is exactly what is reached, unless a child the repository does not hold is named as config or layer too, or leads on where it is met eight steps down |
| RegistryMark.HeldChildrenAreMarked | internal/httpd/registry_gc.go:111-210 | so where the repository holds every child |
| RegistryMark.ShallowIndexesAreMarked | internal/httpd/registry_gc.go:111-210 | so where ways down without repeats have at most eight steps and no such child is a config or layer |
| RegistryMark.ChildNamedAsConfigIsNotFollowed | internal/httpd/registry_gc.go:185-201 | a child that is named as a config too loses its layers |
| RegistryMark.NineStepsDownIsNotMarked | internal/httpd/registry_gc.go:185-187 | what is nine steps down is not marked |
| RegistryMark.MarksAgree | internal/httpd/registry_gc.go:184-210 | marks depend only on what is marked |
| RegistryGc.Collector.MarkAll | internal/httpd/registry_gc.go:113-123 | marks what all the manifests of a repository refer to |
| RegistryGc.Collector.SweepLinks | internal/httpd/registry_gc.go:127-138 | exactly the links that are neither referred to nor young go; LinkStaysExactlyIfNeeded says it of a whole collection |
| RegistryGc.Collector.SweepBlobs | internal/httpd/registry_gc.go:141-175 | exactly the blobs that are neither marked nor young go, and what is freed is the bytes that are missing then |
| RegistryGc.Collector.Collect | internal/httpd/registry_gc.go:102-180 | the whole collection, which counts what it removed and conserves bytes; LinkStaysExactlyIfNeeded and GoesExactlyIfUnneeded say what it leaves |
| RegistryGc.SweptLinks | internal/httpd/registry_gc.go:112-139 | the links of a repository are swept exactly if it and all repositories before it can be read; LinkStaysExactlyIfNeeded says which of them go |
| RegistryGc.LinkStaysExactlyIfNeeded | internal/httpd/registry_gc.go:112-139 | where all repositories can be read a link stays exactly if it is no digest, its repository refers to it, or it is young |
| RegistryGc.ReachedLinksStay | internal/httpd/registry_gc.go:102-210 | so exactly if the manifests of the repository reach it or it is young, where marking finds all that is reached |
| RegistryGc.PushedImageStaysWhole | internal/httpd/registry_gc.go:102-210 | a manifest that a repository holds keeps its config, its layers and its accepted children, and the links to them, whatever else there is |
| RegistryGc.OnlyManifestsRefer | internal/httpd/registry_gc.go:188-196 | what is larger than 4 MiB or no manifest refers to nothing |
| RegistryGc.LinkGoesBeforeAnUnreadableRepository | internal/httpd/registry_gc.go:112-138 | a link goes although a later repository cannot be read |
| RegistryGc.SweptMarks | internal/httpd/registry_gc.go:111-139 | what is marked in the end is exactly what some repository refers to or has a young link to, if all can be read |
| RegistryGc.GoesExactlyIfUnneeded | internal/httpd/registry_gc.go:102-180 | a blob goes exactly if all repositories can be read, none refers to it or has a young link to it, and it is old |
| RegistryGc.NoLinkIsLeftDangling | internal/httpd/registry_gc.go:127-163 | a link that stays does not lose its blob |
| RegistryGc.ReachedBlobsStay | internal/httpd/registry_gc.go:102-210 | what manifests reach stays, where marking finds all of it |
| RegistryGc.CollectingAgainChangesNothing | internal/httpd/registry_gc.go:102-180 | a second collection changes nothing |
| RegistryJobs.Job.Choose | internal/httpd/registry_jobs.go:260-272 | takes an answer exactly if the job is ready and none was taken, and then sends it once |
| RegistryJobs.Table.Count | internal/httpd/registry_jobs.go:330-347 | counts exactly the jobs at work of one sort, and leaves out exactly those that ended long ago |
| RegistryJobs.OldExactly | internal/httpd/registry_jobs.go:335-346 | a job is left out exactly if it is over for more than an hour |
| RegistryJobs.Table.Start | internal/httpd/registry_jobs.go:319-361 | starts a job exactly below the limit of its sort |
| JobRuns.SteppedIsGood | internal/httpd/registry_jobs.go:225-290 | offering, answering, waiting and ending keep a job active exactly until its goroutine is over, and its channel at the one answer it was given |
| JobRuns.EveryStateIsGood | internal/httpd/registry_jobs.go:225-395 | the limits, the stages and the channels of all jobs, in every state of every run |
| JobRuns.LimitsHold | internal/httpd/registry_jobs.go:328-351 | never more than four jobs of the registry and eight of the listing are running or ready |
| JobRuns.EndedStaysEnded | internal/httpd/registry_jobs.go:334-347 | a job that ended never runs again, and none is forgotten before it ended |
| JobRuns.SendingNeverBlocks | internal/httpd/registry_jobs.go:260-272 | the send under the lock always finds room |
| JobRuns.AnsweredOnce | internal/httpd/registry_jobs.go:260-272 | at most one answer is ever taken for a job |
| JobRuns.ReceivedWasAnswered | internal/httpd/registry_jobs.go:276-290 | what an import receives is the answer that was taken |
| JobRuns.ImportIsAnswered | internal/httpd/registry_jobs.go:249-290 | an import that is ready takes the first answer, goes on with it, and takes no other |
| JobRuns.JobsMayEnd | internal/httpd/registry_jobs.go:225-235 | a job at work may end done, and one that was stopped or waited in vain only cancelled or failed |
| JobRuns.StartsExactlyBelowLimit | internal/httpd/registry_jobs.go:328-358 | a job starts exactly below four of its sort, eight of the listing, and exactly the jobs over for more than an hour are forgotten |
| ContentRange.ParsesExactlyRanges | internal/httpd/handlers.go:365-382 | a header is taken exactly if it writes three numbers that are in order and fit 64 bits |
| ContentRange.PrintedRangeIsRead | internal/httpd/handlers.go:370-382 | a range that is printed in decimal is read back, if it is one |
| ContentRange.ReadInDecimal | internal/httpd/handlers.go:365-382 | ranges are read in decimal, and exactly those in order below 2^63 |
| ChunkedPut.Handler.Put | internal/httpd/handlers.go:408-502 | the answer and the two files after any request, whatever fails |
| ChunkedPut.Handler.WriteRangeChunk | internal/httpd/handlers.go:510-598 | a chunk is appended whole, found to be there, or undone |
| ChunkedPut.Handler.FinalizeUpload | internal/httpd/handlers.go:651-659 | the staging file becomes the target by its name or by its bytes |
| ChunkedPut.Handler.CopyFile | internal/httpd/handlers.go:664-680 | copies, leaves the target, or removes it when the copy broke off |
| ChunkedPut.RequestStays | internal/httpd/handlers.go:408-598 | one request that does not cut the file short keeps what is staged a prefix of it, changes the target only to it where that is allowed, and says created only when it is there |
| ChunkedPut.RunsTurnRightExactlyIfNotCutShort | internal/httpd/handlers.go:408-598 | over all requests to one target, in any order and whatever fails, if all whole chunks are of one file, what is staged is always a prefix of it, and the target never becomes anything else exactly if no request cuts the file short |
| ChunkedPut.OnlyTheFileIsPutInPlace | internal/httpd/handlers.go:408-598 | then the target is as it was, exactly the file, or gone because copying the file to it broke off |
| ChunkedPut.NamingTheLengthIsEnough | internal/httpd/handlers.go:515-527 | so it is where every request names the length of the file |
| ChunkedPut.HarmExactlyIfCutShort | internal/httpd/handlers.go:515-527 | one request turns the target wrong exactly if it is found to be stored already, names its end as the end of the file while that is more, and finishing changes the target |
| ChunkedPut.EmptyChunkCutsShort | internal/httpd/handlers.go:515-527 | two of three bytes are put in place by such a chunk with nothing in it |
| ChunkedPut.StoredAgain | internal/httpd/handlers.go:515-527 | a chunk that was stored may be sent again and changes nothing |
| ChunkedPut.UnstoredIsUndone | internal/httpd/handlers.go:527-594 | a chunk that is not stored leaves the staging file as it was, or empty if it started over, and is told where it would have fitted |
| ChunkedPut.UploadCompletes | internal/httpd/handlers.go:408-502 | the rest of a file in order, from where the staging file ends or from the start, puts exactly the file in place |
| ChunkedPut.OnlyWithinLimits | internal/httpd/handlers.go:408-452 | nothing is stored beyond either limit or of a body that is not the file, and nothing starts over a name that is taken |
| ChunkedPut.StagedWithinLimit | internal/httpd/handlers.go:427-430 | neither the staging file nor a file put in place grows beyond the limit of an upload |
| ChunkedPut.RefusalsAreTrue | internal/httpd/handlers.go:408-459 | what a request is refused for before anything is stored is so |
| ChunkedPut.OnlyWholeBodiesGetThrough | internal/httpd/handlers.go:527-598 | a chunk gets through only if it is there already, or its body was as long as it said and written whole |
| ChunkedPut.LongBodyIsTooLarge | internal/httpd/handlers.go:551-594 | a body that is longer than its chunk is said to be too large |
| DigestHeader.ReadQuoted | internal/httpd/auth.go:912-928 | the loop reads a quoted value to the next quote that is not escaped |
| DigestHeader.ParseDigest | internal/httpd/auth.go:894-935 | ends on every header with the parameters the specification finds |
| DigestHeader.ItemIsFound | internal/httpd/auth.go:904-933 | one printed parameter is found, whatever a quoted value holds and whatever follows it, and a bare one before a comma or the end |
| DigestHeader.ValuedOfBare | internal/httpd/auth.go:929-932 | a value without quotes is read up to the comma or the end |
| DigestHeader.PrintedAreParsedExactlyIfPlain | internal/httpd/auth.go:894-935 | parameters printed with bare values, or quoted ones escaped in any way, are read back exactly if their keys are plain |
| DigestHeader.SpacedKeyIsNotReadBack | internal/httpd/auth.go:904-911 | a key that is printed with a space before it is found without |
| DigestHeader.EscapedEscapes | internal/httpd/auth.go:916-919 | a backslash before every quote and backslash is one way to write a value |
| DigestHeader.EveryValueIsThere | internal/httpd/auth.go:932-932 | with keys told apart every value is found under its key |

## Left out

- DiskUpload.OnlyTheImageIsPutInPlace: calls for one name do not overlap, since FinishUpload does not take the upload lock.
- Content.DecryptsExactlyWhatIsEncrypted: rests on the law that opening accepts exactly what was sealed, so it says what a damaged file is refused for, not how hard forging one is.
- Locks.Registry.Acquire: what happens while it waits is given as the registry found after each wait, and its deadline as where that ends; RunsAreWhatAcquireAssumes shows that the runs of the protocol keep to what is assumed.
- Locks.AttemptsTakeOverInTurn: the same.
- Disks.Folder.Create: opening, truncating and syncing do not fail, so neither does the file get removed again.
- Disks.Folder.Resize: opening, truncating and syncing do not fail.
- Disks.Folder.Rename: looking for the target and renaming do not fail.
- Disks.Folder.Delete: removing the image does not fail.
- Disks.Folder.Clone: looking for the target does not fail.
- Sparse.File.CopyExtents: extents are given, reading does not fail, and the copy is not cancelled.
- DiskUpload.Upload.WriteChunk: looking for the staging file, opening it and syncing it do not fail.
- DiskUpload.Upload.FinishUpload: looking for the image and renaming do not fail.
- RegistryGc.Collector.SweepLinks: removing a link does not fail.
- RegistryGc.Collector.SweepBlobs: removing a blob does not fail.
- RegistryGc.Collector.Collect: removals do not fail and the repositories can be listed; where they cannot, nothing is changed.
- DigestHeader.ParseDigest: works on characters rather than bytes, so headers that are not UTF-8 are not covered.
- AES, GCM, scrypt, SHA, HMAC, JSON Web Tokens, JSON, base64 and Unicode normalization themselves, which are library code.
- `DirPath`, `Shorten`, `NewDirID` and `Create` of the vault: straight calls of hashes and randomness.
- Attaching and downloading as operations of their own: they are the requests, writes and releases of the disk protocol. A rename that only changes case is in `Disks` and no step of the protocol, since it changes nothing under the key.
- `Jobs`, `Job` and `Dismiss` of the disk folder, `List`, `Sessions` and the order sessions are shown in: listings.
- `Sweep`, `sweepStaging` and the cleanup of registry uploads: they look at a file and then remove it without the lock of the upload.
- Other processes that write to the folders: the leases and locks cover one process only.
- Failures of file operations on disk images but for a copy or a write that is cut short, symbolic links and permissions; removals and truncations whose errors the code ignores succeed.
- Sharing blocks between files (`cloneFile`), punching holes and asking the file system for extents: extents are given.
- Sums of bytes freed are unbounded, and so are the counters of holds and jobs.
- Progress, rates, logging, events and dismissing of background jobs; the clock is a parameter.
- FTP, Jellyfin, discovery, fetch clients, configuration, admin forms, page templates, listing and MIME tables.
