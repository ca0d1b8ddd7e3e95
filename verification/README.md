# Formal model of IsaacSteamSynciOS

IsaacSteamSynciOS keeps the saves of an iOS game in step with Steam Cloud. This project models its
delicate parts in Dafny and proves what they promise.

* **The save codec.** `Bytes`, `BitVectors`, `IsaacCrc`, `Lz4`, `SaveGrammar`, `IsaacFormat`,
  `SaveLayout`, `SaveIntegrity`, `SaveAchievements`: the raw LZ4 decoder and the section validator as loops
  over bytes, each equal to the parser of a printed syntax, what decoded and accepted bytes hold position by
  position, and what the unusual checksum detects, exactly.
* **The synchronization engine.** `SyncEngine` decides one slot. `SyncModel` gives every engine operation
  as a function of a world (live saves, Steam objects, persisted state, backups, permission) and of a fault
  oracle that may make any action fail. `Engine` is the engine as it runs, a class whose methods update its
  fields and are proved equal to those functions. `SyncSafety` says what one operation may change,
  `SyncMachine` and `SyncRuns` what holds in every interleaving with the game, other devices, the user,
  account changes, crashes and faults, `SyncChoices` what is achieved when nothing fails, `SyncFaults` exactly
  when an operation succeeds, `SyncBackups` what each one stores and as what, `SyncRepeats` when an approved
  action is applied twice, and `SyncRecovery` where repeated runs come to rest. `Backups`, `AtomicFile` and
  `StateStore` are the storage beneath, and `FileRefinement` and `BackupFiles` prove the model's actions on
  live saves and backups to be those sequences of file operations. `Prelaunch` is the thread-level barrier;
  `SaveIdentity` ties the engine's view of a file to the codec.
* **The Mach-O patcher** (`MachO`, `Utf8`), in place on an array.
* **Achievements** (`AdditiveStats`, in the file of that name with `StatBits`) and the **chunked memory
  scan** (`PlayerScan`).

Loops and in-place updates of the program are methods with invariants here; each is proved against a
function, and the theorems are about the functions. A crash inside an operation is the case in which every
later action of that operation fails, so the theorems "whatever fails" cover it.

`dafny verify dfyconfig.toml` checks the whole project.

## Assumptions

* SHA-1 and SHA-256 identities are injective, so contents stand for their own hashes.
* Listing and downloading a Steam object is one observation; no other device writes it between the
  unchanged check and the commit of an upload.
* The game does not write a save while one slot is being compared and transferred. It may write between
  discovery and that moment: such a version may be replaced, and is then in the backups.
* A file operation that reports success has done what it says: read-backs may fail, but find no silent
  corruption.
* Creation times of backups strictly increase, and deleting an old backup succeeds.
* Local saves have unique slots. The program's own check compares adjacent entries of a list that is sorted
  by path (`src/core/src/engine.rs:793-803`, `src/core/src/local.rs:190`).
* Only one synchronization or choice is under way at a time (`src/core/src/engine.rs:605-653`), so no other
  one saves the state between its load and its save. The prelaunch step may come between them; its own load
  and save of the state are one step (`src/core/src/engine.rs:549-603`).
* `usize` has 64 bits, and memory regions do not wrap around the address space.

## Where the code does not do what is written

* `README.md:184` promises that the canonical SHA-256 of a replaced save is checked; `pull_one` compares the
  identity of the bytes in the file (`src/core/src/engine.rs:1425-1446`). For a pull these coincide, since it
  writes canonical bytes (`SaveIdentity.ContentReadsBack`).
* The comment in `preflight` gives the barrier once the lock is acquired
  (`src/core/src/engine.rs:538-540`). The branch in which no operation was started returns without acquiring
  it (`src/core/src/engine.rs:528-531`); `Prelaunch.BarrierIffStarted` proves that this branch, and no other,
  lets a save be replaced after the return, and `Prelaunch.NotStartedCanReplace` is one such run.

## Limits of the code, exactly

* The checksum detects every burst of three bytes but not of four: `IsaacFormat.FourByteMissed` and
  `SaveIntegrity.FourByteAccepted` are exact, and `SaveIntegrity.DamagedAccepted` is an example.
* The patcher extends the command list by one only when the old commands fill their declared size
  (`MachO.PatchExtends`, with the image of `MachO.UnfilledIsPatched`), and finds its own command again only
  when the name has no NUL and is valid UTF-8 (`MachO.SecondRun`, `MachO.NulNameIsAddedAgain`); a name from
  the command line has no NUL, and one that is not valid UTF-8 cannot be encoded by the patcher.
* An installed restore is queued again exactly when the state file was not replaced after it, or when a
  synchronization in progress that had loaded it saves its older state later
  (`SyncRepeats.RestoreQueuedAgain`; `SyncRepeats.RestoreRevived` is such a run without faults). The next
  prelaunch step then installs it again (`SyncRepeats.RestoreAppliedTwice`). A queued pull is applied again
  exactly when its run failed or did not replace the state file (`SyncRepeats.PinAppliedTwice`).
* A restore first backs up the live save, and the retention of that backup may delete the version about to
  be restored (`src/core/src/backups.rs:108-123`). A restore without faults fails exactly then: its version
  comes from an earlier restore of the slot and is not among the newest eleven of those (`SyncSafety.RestoreInstallsIff`,
  `SyncChoices.QueuedRestoreIsInstalled`, and `SyncChoices.RestoreDestroysItself` as an example).
* A queued pull installs with certainty what the user approved exactly when Steam listed a SHA-1 for it
  (`SyncChoices.PinInstallsChosenIff`).

## Model

| member | source | states |
|---|---|---|
| IsaacCrc.IsaacCrc32 | src/core/src/isaac_format.rs:266-273 | The table-driven loop computes the recursive checksum: complemented seed, one step a byte, complemented result |
| IsaacCrc.ChecksumEmpty | src/core/src/isaac_format.rs:266-273 | The checksum of no bytes is its start value |
| IsaacCrc.ChecksumConcat | src/core/src/isaac_format.rs:266-273 | The checksum of `a ++ b` is the checksum of `b` started from that of `a`, so checksums can be resumed |
| IsaacCrc.ChecksumZeros | src/core/src/isaac_format.rs:266-273 | Zero bytes, however many, leave the all-ones checksum as it is |
| IsaacCrc.FoldConcat | src/core/src/isaac_format.rs:266-273 | Checksumming `a ++ b` is checksumming `b` from the state after `a` |
| IsaacCrc.TableXor | src/core/src/isaac_format.rs:23-56 | The 256-entry table is linear: the entry at `i ^ j` is the exclusive or of the entries at `i` and `j` |
| IsaacCrc.StepXor | src/core/src/isaac_format.rs:266-273 | One step is linear in state and byte together |
| IsaacCrc.StepTop | src/core/src/isaac_format.rs:266-273 | The top three bits of the state agree after every step, whatever the state before |
| IsaacCrc.StepSmall | src/core/src/isaac_format.rs:266-273 | From a state whose top bits agree, a step to a state below 2^16 met table entry 0, so it only shifted |
| IsaacCrc.ZeroKeeps | src/core/src/isaac_format.rs:266-273 | Equal bytes never merge two different reachable states, although the top bytes of the table are not a permutation |
| IsaacCrc.FourBytes | src/core/src/isaac_format.rs:23-56 | Of all four-byte errors exactly three non-zero ones leave the checksum unchanged |
| IsaacCrc.BurstMissed | src/core/src/isaac_format.rs:266-273 | An error confined to four consecutive bytes of any string is missed exactly when it is one of those three |
| IsaacCrc.FoldDifference | src/core/src/isaac_format.rs:266-273 | The states of two equally long strings differ by the checksum state of their bytewise difference |
| Lz4.ExtendedLength | src/core/src/isaac_format.rs:188-203 | The length loop reads exactly a length of the block syntax and stops behind it, or fails where the syntax has none; no overflow check fires |
| Lz4.AppendMatch | src/core/src/isaac_format.rs:180-183 | The byte-by-byte copy loop, overlapping or not, computes the match |
| Lz4.CopyMatchPeriodic | src/core/src/isaac_format.rs:180-183 | Appended byte k equals the old output at `len - offset + k mod offset`, and the old output stays |
| Lz4.MeaningSpells | src/core/src/isaac_format.rs:129-186 | What a block means after earlier output is the one continuation of that output that spells the block |
| Lz4.SequenceBytes | src/core/src/isaac_format.rs:143-184 | Whatever was decoded before a sequence and whatever follows it, its literals come next and then its match, byte k being the byte at `k mod offset` of the last `offset` bytes before the match |
| Lz4.MatchDecoded | src/core/src/isaac_format.rs:129-186 | A block of one match between literals decodes to the literals with the match between them, byte by byte |
| Lz4.MatchExample | src/core/src/isaac_format.rs:155-183 | "ab" and a match of four at distance two decode to "ababab", the low byte of the offset coming first |
| Lz4.LongMatchExample | src/core/src/isaac_format.rs:163-183 | A match nibble of 15 is extended by the byte behind the offset: "a" and a match of nineteen |
| Lz4.DecodeMatch | src/core/src/isaac_format.rs:159-184 | The second half of the loop body: the match decoded, or failure, exactly as the syntax and the bounds say |
| Lz4.DecodeRawLz4 | src/core/src/isaac_format.rs:129-186 | The decoder terminates without reading out of range and computes `Decoded` |
| Lz4.ParsePrint | src/core/src/isaac_format.rs:129-186 | Parsing the printing of a well-formed block gives the block back |
| Lz4.PrintParse | src/core/src/isaac_format.rs:129-186 | What parses is well-formed and prints back to the same bytes |
| Lz4.DecodedIffPrinted | src/core/src/isaac_format.rs:129-186 | The decoder accepts exactly the bounded printings of well-formed sequence lists, and its result is the one string the list spells: each literal as written, each match byte equal to the one `offset` places before it |
| Lz4.EncodesUnique | src/core/src/isaac_format.rs:129-186 | An accepted input has one sequence list (the ignored low nibble of a last literal-only token included) and one meaning |
| Lz4.MeaningSize | src/core/src/isaac_format.rs:129-186 | A block's meaning is at most 255 times as long as its printing |
| Lz4.DecodedSize | src/core/src/isaac_format.rs:129-186 | Decoded output is at most 32 MiB and at most 255 times its input |
| Lz4.LiteralOnlyLz4 | src/core/src/isaac_format.rs:328-338 | The literal-only encoder prints the block of one literal sequence |
| Lz4.LiteralOnlyRoundTrip | src/core/src/isaac_format.rs:328-355 | Decoding the literal-only encoding gives back the bytes if and only if the encoding fits in 32 MiB |
| SaveGrammar.ParsePrint | src/core/src/isaac_format.rs:205-264 | Parsing a printed section list gives the list back |
| SaveGrammar.PrintParse | src/core/src/isaac_format.rs:205-264 | What parses as sections 1 to 11 is well-formed and prints back to the same bytes |
| IsaacFormat.ReadU32 | src/core/src/isaac_format.rs:282-291 | Reads the little-endian word at the cursor if and only if all four bytes are there |
| IsaacFormat.Advance | src/core/src/isaac_format.rs:293-302 | Moves the cursor if and only if the amount was computed and stays inside the bytes |
| IsaacFormat.ReadBestiary | src/core/src/isaac_format.rs:223-238 | The loop over subsections 4, 2, 3, 1 reads what the grammar reads: their payload and what follows them |
| IsaacFormat.ValidateSections | src/core/src/isaac_format.rs:209-252 | The cursor loop over sections 1 to 11 succeeds exactly when the bytes behind the stamp parse |
| IsaacFormat.ValidateCanonical | src/core/src/isaac_format.rs:205-264 | The validator accepts exactly the language `Accepts` |
| IsaacFormat.AcceptsIffRepresents | src/core/src/isaac_format.rs:205-264 | Bytes are accepted if and only if they are the printing of an abstract save, at most 32 MiB, with the right checksum |
| IsaacFormat.RepresentsUnique | src/core/src/isaac_format.rs:205-264 | No bytes are the printing of two saves |
| SaveLayout.AcceptsIffLaidOut | src/core/src/isaac_format.rs:205-264 | Bytes are accepted if and only if there are positions for the magic, eleven sections from byte 20 on, four bestiary subsections and the trailer such that each header word, each size by section type and the bestiary's sum are right, and the checksum is |
| IsaacFormat.BurstDetected | src/core/src/isaac_format.rs:205-273 | Changing one, two or three consecutive bytes of an accepted save anywhere, across magic, covered region and stored checksum, gives rejected bytes |
| IsaacFormat.FourByteChange | src/core/src/isaac_format.rs:205-273 | Two strings with matching checksums that differ in four consecutive bytes, stored checksum included, differ by an invisible error |
| IsaacFormat.FourByteMissed | src/core/src/isaac_format.rs:205-273 | A change within four consecutive bytes is missed by the checksum if and only if it is one of the three invisible errors, also where it reaches into the stored checksum; a change of the stored checksum alone is never missed |
| SaveIntegrity.SealedOnce | src/core/src/isaac_format.rs:205-264 | Every stamp and list of well-formed sections that fits in 32 MiB is accepted with exactly one stored checksum |
| SaveIntegrity.FourByteAccepted | src/core/src/isaac_format.rs:205-273 | Of all changes of an accepted save within four consecutive bytes, anywhere, the validator accepts exactly the invisible ones, outside the magic and not of the stored checksum alone, that leave the sections readable |
| SaveIntegrity.BlotUnnoticed | src/core/src/isaac_format.rs:205-273 | Every accepted save whose first section holds at least four bytes has a different accepted save that agrees with it outside those four bytes |
| SaveIntegrity.DamagedAccepted | src/core/src/isaac_format.rs:205-273 | There are two different accepted saves that agree outside four bytes |
| IsaacFormat.CanonicalizeSave | src/core/src/isaac_format.rs:76-92 | The two-branch reader computes `Canonical` |
| IsaacFormat.MagicIsNotLz4 | src/core/src/isaac_format.rs:76-92 | Nothing that starts with the magic decodes as LZ4, so the two encodings are disjoint |
| IsaacFormat.CanonicalIdempotent | src/core/src/isaac_format.rs:76-92 | A canonical result is a valid save, is its own canonical form, and the reported encoding says which form was read |
| IsaacFormat.CanonicalOfLz4 | src/core/src/isaac_format.rs:76-92 | Every valid save is read back from its literal-only LZ4 form, if that fits |
| SaveAchievements.UnlockedAchievementIdsFromCanonical | src/core/src/save_achievements.rs:30-70 | The loop over identifiers computes the marked ones, or fails on a short, misplaced or mismatched section |
| SaveAchievements.UnlockedAchievementIds | src/core/src/save_achievements.rs:25-28 | Reading raw bytes is reading their canonical form |
| SaveAchievements.UnlockedOfSave | src/core/src/save_achievements.rs:25-70 | On a valid save the reader fails only on a size/count mismatch of section 1 and otherwise returns exactly the identifiers 1 to 637 marked in that section's data |
| SaveAchievements.MarkUnlocks | src/core/src/save_achievements.rs:55-70 | Marking one byte of the section with 1 unlocks exactly its achievement, if it is one of 1 to 637, and any other mark locks it |
| SaveAchievements.UnlockedThroughLz4 | src/core/src/save_achievements.rs:25-70 | The unlocks read from either encoding are those of the abstract save it stands for |
| Backups.RetentionExact | src/core/src/backups.rs:140-157 | After any history of backups each slot and source holds exactly its newest min(n, 12) versions, in order |
| Backups.KeepVersions | src/core/src/backups.rs:140-157 | Retention leaves the newest `budget` versions of its own slot and source |
| Backups.KeepOthers | src/core/src/backups.rs:140-157 | Retention for one slot and source leaves the versions of every other pair as they were |
| Backups.AddKeeps | src/core/src/backups.rs:47-80 | A backup just made is stored, nothing is invented, and no other pair loses a version |
| Backups.DeletingStale | src/core/src/backups.rs:140-157 | Deleting, by identifier, what comes after the twelfth newest is the same as keeping the newest twelve |
| Backups.OutlivesAdd | src/core/src/backups.rs:140-157 | A stored version is still there after another backup if and only if it is of another slot or source or one of the newest eleven of its own |
| Backups.BackupManager.List | src/core/src/backups.rs:82-106 | The listing is the store, newest first |
| Backups.BackupManager.Matching | src/core/src/backups.rs:140-147 | The filtered, sorted listing is the versions of the slot and source, newest first |
| Backups.BackupManager.DeleteAll | src/core/src/backups.rs:148-156 | The deletion loop removes exactly the given records |
| Backups.BackupManager.ApplyRetention | src/core/src/backups.rs:140-157 | The loop leaves the store that keeps the newest twelve of the slot and source, and stays in chronological order |
| Backups.BackupManager.BackupBytes | src/core/src/backups.rs:47-80 | The new store is the old one with the record added and retention applied |
| AtomicFile.Directory.Stage | src/core/src/atomic.rs:14-31 | While the staging file is created, prepared and filled, possibly in part, nothing else changes; success leaves the whole data in it, with the old file's mode |
| AtomicFile.Directory.WriteBytes | src/core/src/atomic.rs:10-40 | At every moment the destination holds the complete old or the complete new file and no other file has changed; a failure up to the rename leaves the old file, anything later the new one; success is exactly no failing operation; no staging file is left unless its removal fails |
| FileRefinement.WriteLocalRefined | src/core/src/atomic.rs:10-45 | The engine model's two-fault replacement of a live save is that sequence of operations: for every outcome it reports the same and shows the live saves the codec reads in the files |
| BackupFiles.StoreBackup | src/core/src/backups.rs:56-77 | A backup's manifest is there exactly when its data was written without failure and the manifest renamed, and then its complete data lies beside it; no other file changes |
| BackupFiles.DeleteFiles | src/core/src/backups.rs:148-156 | Deleting stale records file by file leaves manifests and data of exactly the others, with the deleted data gone and no other file changed |
| BackupFiles.ListedOnce | src/core/src/backups.rs:82-106 | The files determine the listing: no two chronological stores lie in the same files |
| BackupFiles.WriteBackup | src/core/src/backups.rs:47-80 | The engine model's two-fault backup is the two replacements followed by retention: for every outcome of every operation it reports the same, the manifests list exactly its records with their complete data, and the data of every dropped record is gone |
| BackupFiles.RestoreFiles | src/core/src/backups.rs:108-129 | The engine model's restore is what the file operations do, for every outcome of them: same report, same live saves, same listing, also where the backup it makes first deletes the file about to be restored |
| StateStore.StateStore.Load | src/core/src/state.rs:19-43 | A missing file gives the empty state; schema 2 loses BASE records and change number and nothing else; other schemas and other applications are errors |
| StateStore.StateStore.Save | src/core/src/state.rs:45-48 | Whichever file operation fails, the next load sees the whole old document or the whole new one, and the new one whenever the save reported success |
| StateStore.SaveStateRefined | src/core/src/state.rs:45-48 | The two-fault save of the engine model is the replacement of the state file: same report, same state in the file, for every outcome of every file operation |
| StateStore.SavedLoads | src/core/src/state.rs:19-48 | What is saved is loaded, and a migrated document migrates no further |
| StateStore.MigratedLaunchOk | src/core/src/state.rs:26-35 | Whatever BASE records a schema-2 file holds, the launch that migrates it satisfies the invariant every run keeps, so each BASE found later was seen on both sides after the migration |
| SyncEngine.DecideSafe | src/core/src/sync_engine.rs:13-29 | Each decision is given exactly when its reading holds: a side is replaced only if it holds BASE and the other differs; agreement never asks for a choice |
| SyncEngine.DecideSymmetric | src/core/src/sync_engine.rs:13-29 | Exchanging the sides exchanges upload and download and changes no other decision |
| SyncSafety.UpsertOneSlot | src/core/src/engine.rs:1572-1583 | Updating a slot leaves one record for it and every other slot's record unchanged |
| SyncSafety.BackupEffect | src/core/src/backups.rs:47-80 | With any step failing a backup changes only the store; success stores the data; no version of another pair is lost |
| SyncSafety.RestoreEffect | src/core/src/backups.rs:108-129 | With any step failing, a restore that succeeds ends with exactly the stored version, and one that fails leaves the old or the stored version in the file; whenever the file changed, the replaced version is stored |
| SyncSafety.RestoreInstallsIff | src/core/src/backups.rs:108-129 | Without faults a restore installs its version if and only if that version outlives the backup of the live save made first; otherwise the live save stays and the version is no longer stored |
| SyncSafety.RollBackRestores | src/core/src/engine.rs:1394-1464 | The version a pull has just stored always outlives the backup made by its rollback, so a fault-free rollback puts it back |
| SyncSafety.PullEffect | src/core/src/engine.rs:1394-1464 | Pull atomicity with any step of backup, write, read-back and rollback failing: success means live bytes equal the Steam bytes and BASE is recorded; failure leaves BASE and the complete old save, or one complete version if the rollback itself failed |
| SyncSafety.PullSucceeds | src/core/src/engine.rs:1394-1464 | Without faults an allowed pull of an existing save succeeds |
| SyncSafety.UnchangedMeans | src/core/src/engine.rs:1365-1391 | Whether compared by the listed SHA-1s or by downloading, an object passes as unchanged only if it is still there under its name with exactly the bytes seen before, and without faults it then passes |
| SyncSafety.PushEffect | src/core/src/engine.rs:1287-1339 | A push changes no live save, replaces only the object it compared, after storing it, by the canonical form of the live save, and records BASE only on success |
| SyncSafety.ChangedRemoteIsNotOverwritten | src/core/src/engine.rs:1365-1391 | An object that is gone, renamed or changed since it was compared, or that appeared meanwhile, is not overwritten, and the push fails without any other effect |
| SyncSafety.PushNewEffect | src/core/src/engine.rs:1233-1284 | The same for a slot Steam does not have |
| SyncSafety.PushSucceeds | src/core/src/engine.rs:1287-1391 | Without faults a push of a valid save over an unchanged object succeeds |
| SyncSafety.BackupBothEffect | src/core/src/engine.rs:1466-1485 | Backing up both sides changes only the store and on success holds both versions |
| SyncBackups.BothAs | src/core/src/engine.rs:1466-1485 | Backing up both sides stores each under its own label |
| SyncBackups.PullAs | src/core/src/engine.rs:1394-1424 | A pull stores the live save it replaces, as the version before a pull |
| SyncBackups.PushAs | src/core/src/engine.rs:1287-1339 | A push stores the Steam object it may replace, as the version before a push |
| SyncBackups.PushNewAs | src/core/src/engine.rs:1233-1284 | An upload to a slot Steam lacks first stores the live save, as that of a first synchronization |
| SyncBackups.RestoreAs | src/core/src/backups.rs:108-123 | A restore stores the live save it replaces, as the version before a restore |
| SyncBackups.SlotStores | src/core/src/engine.rs:872-1085 | A slot's step that does not fail has stored, under the labels of its decision, both sides before a choice and the replaced side before a transfer |
| SyncBackups.InvalidStores | src/core/src/engine.rs:893-907 | An invalid Steam object fails the slot after its bytes are stored as invalid |
| SyncBackups.ChoiceStores | src/core/src/engine.rs:1124-1231 | A choice that reports success has stored both sides, and has replaced and recorded, or pinned, the chosen side alone |
| SyncBackups.ChoosingNothingFails | src/core/src/engine.rs:1124-1231 | Choosing Steam for a slot Steam lacks reports failure and changes nothing |
| SyncSafety.SyncingSlotOk | src/core/src/engine.rs:872-1085 | Whatever fails, one slot's step replaces the live save only for BASE or a queued pull and the Steam object only in a manual run for BASE or the observed local content, each after storing what it replaces, and every BASE it records is on both sides |
| SyncRuns.UpsertOk | src/core/src/engine.rs:1572-1583 | Recording a BASE one operation saw on both sides keeps the invariant of persisted states |
| SyncRuns.BoundOk | src/core/src/engine.rs:762-781 | Binding another account forgets every BASE record and queued pull and nothing else; binding the same one forgets nothing; either keeps the invariant |
| SyncRuns.StepKeepsInv | src/core/src/engine.rs:762-1120 | Every event (game, other devices, account change, run steps, choices, restores, crashes, faults) keeps the invariant |
| SyncRuns.RunKeepsInv | src/core/src/engine.rs:762-1120 | So does every run of events |
| SyncRuns.StepExplained | src/core/src/engine.rs:872-1085 | Each event changes a live save or a Steam object only for one of the permitted reasons |
| SyncRuns.NoSilentLoss | src/core/src/engine.rs:872-1231 | In any interleaving with any faults, each replaced live save was seen as BASE, or chosen by the user, or restored by the user, inside the window; each replaced Steam object was BASE or the observed content in a manual run, or chosen; every replaced version is in the backups when it is replaced |
| SyncRuns.BaseInvariant | src/core/src/engine.rs:762-781 | In every reachable persisted state a slot has at most one record, and its BASE is a content one operation saw on both sides under the account now bound |
| SyncRuns.FirstLaunchOk | src/core/src/state.rs:19-22 | The empty state of a first launch satisfies the invariant with any saves and backups present |
| SyncRuns.ChoosingSteamIsQueued | src/core/src/engine.rs:1173-1183 | Choosing Steam, or queueing a restore, changes no live save and no Steam object |
| SyncRuns.ChangedPinIsDropped | src/core/src/engine.rs:926-950 | A queued pull whose name or listed SHA-1 Steam no longer lists is dropped and the slot is decided as if none had been queued |
| SyncRuns.PinWaitsForWindow | src/core/src/engine.rs:926-956 | A queued pull whose name and listed SHA-1, or absence of one, Steam still lists installs what Steam holds under an open window and otherwise only asks for a restart |
| SyncRuns.ApplyingRestoreOk | src/core/src/engine.rs:549-603 | A queued restore changes one live save, to the approved backup, under an open window, after storing what was there |
| SyncRuns.ApprovedIff | src/core/src/engine.rs:555-576 | A queued restore is applied only, and always, if its record is stored as approved and valid, its slot has a live save, and the window is open |
| SyncRuns.SnapshotRefreshed | src/core/src/engine.rs:579-592 | After an installed restore the prelaunch snapshot lists every old entry of another slot, one entry of the restored slot with the approved content, and nothing else; otherwise it is as it was |
| SyncRuns.SnapshotStaysAccurate | src/core/src/engine.rs:579-592 | A snapshot that was accurate stays accurate after an installed restore |
| SyncRecovery.TouchedAgrees | src/core/src/engine.rs:872-1085 | Wherever a run stops, every slot it changed holds the same content on both sides |
| SyncRecovery.AgreedSettles | src/core/src/engine.rs:872-1085 | A completed run leaves a slot that agreed with BASE equal to both sides and asks no choice for it |
| SyncRecovery.FailedRunRecovers | src/core/src/engine.rs:872-1088 | After a run that failed before its state was saved, the next completed one finds each changed slot without a queued pull Unchanged or Converged, asks nothing, and BASE ends equal to both sides |
| SyncRecovery.FreshRunTransfersNothing | src/core/src/state.rs:26-35 | Without BASE records and queued pulls, as after a migration or an account change, a run replaces no live save and changes the content of no Steam object |
| SyncRecovery.SynchronizedIsTrue | src/core/src/engine.rs:1090-1096 | When a run ends with no pending choice and no waiting upload, the case reported as synchronized, local content, Steam content and BASE of each of its slots are equal |
| SyncRecovery.ManualRunNeverWaits | src/core/src/engine.rs:806 | A manual run never leaves an upload waiting |
| SyncRecovery.WaitingCounts | src/core/src/engine.rs:958-1096 | A completed run reports as many waiting uploads as there are slots with something to upload, and none if it may upload |
| SyncRecovery.RepairRun | src/core/src/engine.rs:964-980 | A manual run over slots at rest changes no live save and puts every Steam object in canonical form |
| SyncRecovery.IdleRun | src/core/src/engine.rs:872-1120 | A run over canonical slots at rest changes nothing at all |
| SyncRecovery.FixedPoint | src/core/src/engine.rs:872-1120 | A fault-free manual run without pending choices, then one more, reach a state that every further run leaves as it is |
| SyncChoices.SlotAchieves | src/core/src/engine.rs:872-1085 | Without faults and queued pulls one slot's step is decided by three contents alone: agreement becomes BASE; a side that still holds BASE gets the other's content, or waits for the window or for a manual run; any other difference stores both versions, changes nothing and asks a first-sync or conflict choice |
| SyncChoices.UnusableIsKept | src/core/src/engine.rs:872-907 | A slot missing on Steam asks for a choice after the live save is stored; an invalid Steam object fails the slot after its exact bytes are stored; nothing else changes |
| SyncChoices.RunAchieves | src/core/src/engine.rs:866-1088 | A completed fault-free run over any number of slots leaves each slot without a queued pull exactly as its own three contents call for, in live save, Steam object, BASE and pending choice |
| SyncChoices.ChosenSteamIsInstalled | src/core/src/engine.rs:1150-1183 | Choosing Steam queues exactly the version Steam holds, and the next step of that slot under an open window installs it, makes it BASE and empties the queue |
| SyncChoices.ChosenLocalIsPublished | src/core/src/engine.rs:1150-1218 | Choosing the local side publishes its canonical form under the object's name, or a new one, after storing what Steam held, and makes it BASE at once |
| SyncChoices.PinMatches | src/core/src/engine.rs:926-941 | A listed object passes as the approved one if and only if it has the same name and both listings have the same SHA-1 or neither has one |
| SyncChoices.PinInstallsChosenIff | src/core/src/engine.rs:926-956 | What a queued pull installs is certain to be the approved content if and only if Steam listed a SHA-1 when it was queued; otherwise any content under the name without a SHA-1 is installed |
| SyncChoices.QueuedRestoreIsInstalled | src/core/src/engine.rs:485-577 | A stored valid version that is queued is installed by the next prelaunch step under an open window if and only if it outlives the backup that step makes first; otherwise the live save stays, the restore stays queued and its version is gone; the live save is stored either way |
| SyncChoices.RestoreDestroysItself | src/core/src/backups.rs:108-123 | A store of twelve versions kept from restores whose oldest, approved and queued, is deleted by its own restore |
| SyncFaults.SlotClean | src/core/src/engine.rs:872-1085 | A slot that did not fail performed no failing action |
| SyncFaults.RunClean | src/core/src/engine.rs:833-1088 | A run that reports success had a slot to compare, and no action it performed failed |
| SyncFaults.OperationsClean | src/core/src/engine.rs:1124-1231 | The same for a choice, a queued restore and the prelaunch step |
| SyncFaults.PullIff | src/core/src/engine.rs:1394-1464 | A pull succeeds if and only if it is allowed, there is a live save, and none of its five actions fails: two of the backup, two of the replacement, one read-back; a failing backup is reported as such and anything later is rolled back |
| SyncFaults.RestoreIff | src/core/src/backups.rs:108-129 | A restore succeeds if and only if its record is stored and outlives the backup of the live save, and none of the listing, the backup, the replacement and the read-back fails |
| SyncFaults.UnchangedIff | src/core/src/engine.rs:1365-1391 | The unchanged check succeeds if and only if the object has the same name and bytes and none of its actions fails: one if both listings have a SHA-1, two otherwise |
| SyncFaults.PushIff | src/core/src/engine.rs:1287-1339 | A push succeeds if and only if the live save is valid, the object is unchanged, and none of its actions fails |
| SyncFaults.PushNewIff | src/core/src/engine.rs:1233-1284 | An upload to a new slot succeeds if and only if the live save is valid, Steam lacks the slot, and none of its six actions fails |
| SyncFaults.QueueingIff | src/core/src/engine.rs:485-513 | A restore can be queued if and only if its record is stored and valid and none of three actions fails |
| SyncFaults.ForcingIff | src/core/src/engine.rs:1124-1231 | A choice succeeds if and only if the live save is valid, the chosen side exists, and none of its actions fails |
| SyncRepeats.RestoreQueuedAgain | src/core/src/engine.rs:549-603 | In every run of events, an installed restore is in the persisted queue later, until another is queued or applied, exactly when the state file was not replaced after it or a synchronization in progress that had loaded it saved its state since |
| SyncRepeats.RestoreAppliedTwice | src/core/src/engine.rs:549-603 | In every run of events the next prelaunch step installs the restore again exactly when it is so queued and still installable, storing what it replaces, and otherwise replaces no live save |
| SyncRepeats.RestoreRevived | src/core/src/engine.rs:549-603 | A fault-free run of four events in which a synchronization in progress puts an installed restore back into the queue and the next prelaunch step installs it again over what the game wrote |
| SyncRepeats.RevivableMachine | src/core/src/engine.rs:549-603 | A state that keeps the invariant and from which that run starts |
| SyncRepeats.PinStays | src/core/src/engine.rs:926-941 | A queued pull a run has dealt with stays in the persisted queue exactly when a slot failed or the state file was not replaced |
| SyncRepeats.PinAppliedTwice | src/core/src/engine.rs:926-1088 | Exactly then the next window installs the approved Steam version again over what the game wrote since, which is stored first; otherwise the live save is replaced only if it is BASE |
| Prelaunch.StepKeepsInv | src/core/src/engine.rs:519-547 | Every atomic action of preflight, workers and callers keeps: one operation, the guard has its holder, the window is open only inside a preflight |
| Prelaunch.OneActiveOperation | src/core/src/engine.rs:605-653 | In every interleaving at most one operation is active and the flag says whether one is |
| Prelaunch.PrelaunchBarrier | src/core/src/engine.rs:519-547 | Once a preflight that started its own operation has returned, no live save is replaced until the next preflight begins |
| Prelaunch.BarrierIffStarted | src/core/src/engine.rs:528-547 | After a preflight some continuation replaces a save before the next one begins if and only if it found the operation flag set and so did not start its own operation |
| Prelaunch.NotStartedBreaches | src/core/src/engine.rs:528-531 | That continuation exists from every reachable state of a preflight that did not start its operation, whatever the other operation is doing, even if it has ended |
| Prelaunch.NotStartedCanReplace | src/core/src/engine.rs:528-531 | A run in which a preflight that found another operation active returns while that operation replaces a save |
| SaveIdentity.ClassifyFaithful | src/core/src/engine.rs:893-912 | The engine's view of a file determines its bytes, and its content is the canonical save |
| SaveIdentity.ContentReadsBack | src/core/src/engine.rs:1341-1363 | What pulls write and pushes upload reads back as the canonical form of the same content |
| SaveIdentity.PreparedIsCanonical | src/core/src/engine.rs:1341-1363 | What a push uploads is the canonical form of the live bytes in either encoding, a valid save in Steam's encoding, the live bytes themselves exactly when they start with the magic; there is nothing to upload exactly when they are no save |
| SaveIdentity.DamagedIsNeverTransferred | src/core/src/engine.rs:893-907 | A save damaged in up to three consecutive bytes, with its magic, is never pulled and never pushed, whatever BASE and queued pulls say |
| Engine.UpsertState | src/core/src/engine.rs:1572-1583 | The loop over stale records leaves the map with the slot's records replaced by the entry |
| Engine.Engine.PullOne | src/core/src/engine.rs:1394-1464 | Pull atomicity of the running method: success leaves the Steam bytes live and BASE recorded; failure leaves BASE and the complete old save, or one complete version if the rollback failed; what was replaced is stored |
| Engine.Engine.AssertRemoteUnchanged | src/core/src/engine.rs:1365-1391 | Both comparisons, by listed SHA-1 or by download, succeed only for the same bytes under the same name, and without faults always for those |
| Engine.Engine.PushOne | src/core/src/engine.rs:1287-1339 | The running method changes no live save, replaces only the object it compared, after storing it, by the canonical live save, and records BASE only on success |
| Engine.Engine.PushNew | src/core/src/engine.rs:1233-1284 | The same for a slot Steam lacks |
| Engine.Engine.BackupBoth | src/core/src/engine.rs:1466-1485 | Both backups in order, as `BackingUpBoth` says |
| Engine.Engine.Compare | src/core/src/engine.rs:957-1085 | The six decisions with the compatibility repair, as `Comparing` says |
| Engine.Engine.SyncSlot | src/core/src/engine.rs:872-1085 | One turn of the running loop keeps to the justifications of a slot step, whatever fails, and leaves the persisted state alone |
| Engine.Engine.RunSync | src/core/src/engine.rs:866-1088 | The loop over the slots with its pending choices and waiting uploads, and one save of the state at the end, as `RunningSync` says |
| Engine.Engine.ForceSlot | src/core/src/engine.rs:1124-1231 | The running method replaces no live save, a Steam object only for the local side after storing it, and leaves in the persisted state at most the pushed record or the pin |
| Engine.Engine.BindStateToAccount | src/core/src/engine.rs:762-781 | Binding an account, clearing records and queued pulls exactly when it changed |
| Engine.Engine.InstallRestore | src/core/src/engine.rs:555-577 | Installs the queued backup only if it is still the approved, valid one and the window is open, and looks for it again after backing up the live save |
| Engine.Engine.ApplyPendingRestore | src/core/src/engine.rs:549-603 | The whole prelaunch step: nothing queued is a success; an installed restore leaves in the prelaunch snapshot the old entries of all other slots and one new entry of its own, and then empties the queue if the state can be saved; a restore that fails, its version gone included, keeps queue and snapshot |
| StatBits.SetBit | src/core/src/achievements.rs:327 | Setting one bit sets that bit and no other |
| StatBits.BitsInOrder | src/core/src/achievements.rs:327 | Bit 0 is the lowest bit, and each further one is the one before it of half the value |
| AdditiveStats.IndexOfIff | src/core/src/achievements.rs:300-303 | The index holds of each name exactly its last definition in the list |
| AdditiveStats.ValuesOfIff | src/core/src/achievements.rs:304-307 | The current values are exactly the last ones listed of each group; entries without a group or a value are skipped, never taken as 0 |
| AdditiveStats.PlanForIff | src/core/src/achievements.rs:295-341 | What a plan for index and values is, said of the two lists themselves |
| AdditiveStats.ProblemOfIff | src/core/src/achievements.rs:309-325 | A name has no problem exactly when its last definition has one of 32 bits and its group a value, and its problem says which of these is missing |
| AdditiveStats.BuildAdditiveStats | src/core/src/achievements.rs:295-341 | Succeeds exactly when every name is usable: defined last with one of 32 bits, in a group with a value. The plan then holds, in ascending order, each group that changes, with its last listed value and the wanted bits added and no other; a failure names the first offending name's problem |
| AdditiveStats.PlanAddsExactly | src/core/src/achievements.rs:292-341 | Storing a plan keeps every old bit, sets every requested bit and no other, and touches no other group |
| AdditiveStats.PlanUnique | src/core/src/achievements.rs:295-341 | There is one plan for a set of names: order and repetition do not matter, and each changed group appears once |
| AdditiveStats.ReplanIsEmpty | src/core/src/achievements.rs:295-341 | Planning the same names again after storing the plan asks for nothing |
| AdditiveStats.EnsureNoExistingUnlocksLost | src/core/src/achievements.rs:416-432 | Succeeds if and only if every earlier unlock is in the read-back |
| AdditiveStats.StoreMissingUnlocks | src/core/src/achievements.rs:160-276 | The only stats ever sent are what the names call for over the lists just read; an answer is reported only after an accepted store or when nothing is to be stored |
| AdditiveStats.VerifyStore | src/core/src/achievements.rs:259-275 | Up to four answers are read, ending with the first that has every name achieved |
| AdditiveStats.ReadBackEnds | src/core/src/achievements.rs:259-275 | A first answer that is missing or complete is read back; of four that are neither, the last is |
| AdditiveStats.AchievedIff | src/core/src/achievements.rs:263-268 | A list has a name achieved exactly when some entry says so |
| AdditiveStats.CacheOfIff | src/core/src/achievements.rs:404-410 | The cache says of each name what its last entry says |
| AdditiveStats.HonestSteamPasses | src/core/src/achievements.rs:85-158 | If Steam stores the plan and answers with what it holds, the read-back keeps every earlier unlock, has every requested one, and nothing is unlocked unasked |
| AdditiveStats.AchievementSync.SyncFromLocalSaves | src/core/src/achievements.rs:85-158 | Requests exactly the locally unlocked names Steam knows and has locked, sends exactly their plan, and succeeds if and only if the read-back keeps every earlier unlock and has every requested one |
| MachO.PatchSlice | tools/macho-add-dylib.py:35-87 | The in-place patch returns the planned outcome and leaves the patched bytes, the old file, or, when a count does not fit its word, the command written without the header |
| MachO.PatchedIff | tools/macho-add-dylib.py:35-87 | A slice is patched if and only if it is an image, its commands parse, none loads the library or says that a part is encrypted, all section headers lie in their commands, the slice and every section whose offset is not zero leave room for the new command, that room is zero, and the new size fits its word |
| MachO.PresentIff | tools/macho-add-dylib.py:45-58 | The library is reported as present if and only if a command of the image loads it and nothing before that command is malformed, encrypted or truncated |
| MachO.UnpackableIff | tools/macho-add-dylib.py:29-32 | A size that does not fit its word is the only cause of a packing failure, after everything else was in order |
| MachO.UnpackedKeeps | tools/macho-add-dylib.py:75-86 | After such a failure the header is as it was; at most the zeros behind the commands have become the new command |
| MachO.DylibWords | tools/macho-add-dylib.py:29-32 | The new command holds its type, its size, where its name starts, and the name with its NUL and padding |
| MachO.DylibVersions | tools/macho-add-dylib.py:32 | Its time stamp and versions are zero |
| MachO.WalkCommands | tools/macho-add-dylib.py:45-73 | The cursor loop over the commands computes the recursive walk |
| MachO.ExamineCommand | tools/macho-add-dylib.py:53-72 | What is done with one command: found by its decoded name, refused, or the first section's offset |
| Utf8.LossyValid | tools/macho-add-dylib.py:57 | Decoding with replacement gives valid UTF-8, which decodes to itself |
| Utf8.NoNul | tools/macho-add-dylib.py:57 | Decoding with replacement never brings in a NUL |
| Utf8.ValidIffEncoded | tools/macho-add-dylib.py:57 | What decoding leaves as it is are exactly the UTF-8 encodings of sequences of Unicode scalar values |
| Utf8.PrefixIsLongest | tools/macho-add-dylib.py:57 | What is read or replaced as a whole is the longest start of the bytes that starts the encoding of some scalar value |
| MachO.MinSection | tools/macho-add-dylib.py:63-72 | The loop over section headers finds the smallest non-zero file offset, or fails on a truncated one |
| MachO.SectionsIff | tools/macho-add-dylib.py:63-72 | The offset found is at least some bound if and only if the headers all fit and no section with a non-zero offset starts below that bound; sections without data do not count |
| MachO.PlanRoom | tools/macho-add-dylib.py:75-86 | A planned patch fits in the slice, before the first section, over zero bytes, and its counts fit their words |
| MachO.PatchedLayout | tools/macho-add-dylib.py:82-86 | A patch changes only the two header words and a zero-filled window in the slice, which then holds the new command |
| MachO.WindowBeforeSections | tools/macho-add-dylib.py:63-81 | The window ends before the data of every section of every segment command |
| MachO.PatchedIsDecryptedAndNew | tools/macho-add-dylib.py:53-62 | An image with an encrypted part, or one that already loads the library under the name, is never patched |
| MachO.PatchExtends | tools/macho-add-dylib.py:35-87 | The parsed command list becomes the old one plus the new command if and only if the old commands filled the declared size |
| MachO.UnfilledIsPatched | tools/macho-add-dylib.py:35-87 | An 80-byte image that declares eight unused command bytes is patched, and its patched command list cannot be read |
| MachO.SecondRun | tools/macho-add-dylib.py:53-58 | Patching again with the same name finds the command and changes nothing if and only if the name has no NUL and is valid UTF-8 |
| MachO.NulNameIsAddedAgain | tools/macho-add-dylib.py:53-58 | A 96-byte image to which a second patch adds a name holding a NUL again |
| PlayerScan.RegionResult.ScanCopy | src/isaac/IsaacGameState.mm:292-318 | The loop counts and locates the players at the aligned positions below its limit |
| PlayerScan.RegionResult.ScanRegion | src/isaac/IsaacGameState.mm:320-339 | Succeeds if and only if the region is plausible and each chunk can be read; with complete reads it finds what one pass over the whole region finds |
| PlayerScan.ScanCounts | src/isaac/IsaacGameState.mm:292-318 | A scan counts each aligned position once, and its first address is the lowest valid player's |
| PlayerScan.OneEntity | src/isaac/IsaacGameState.mm:292-318 | Memory of one entity's size counts as a reference and as a player by its words at 0, 0x38, 0x3C, 0x40 and 0x310 |
| PlayerScan.NothingBeyond | src/isaac/IsaacGameState.mm:292-318 | No aligned position behind the scanned ones holds an entity |
| PlayerScan.VisitChunk | src/isaac/IsaacGameState.mm:320-339 | A chunk with its overlap shows each of its own positions as the whole region does |
| PlayerScan.ChunksReadable | src/isaac/IsaacGameState.mm:324-336 | With complete reads every chunk is readable if and only if no last chunk of one to seven bytes is left over |

## Left out

- MachO.PatchSlice: the slice lies inside the file, and the name is given as its UTF-8 bytes.
- AdditiveStats.AchievementSync.SyncFromLocalSaves: Steam's lists, values and answers are parameters.
- SyncSafety.RestoreEffect: the hash check of the stored copy and the read-back are among the actions that may fail.
- BackupFiles.WriteBackup: the listing is what the manifests hold, in order of creation; manifests that cannot be read are not part of this model.
- Engine.Engine.ApplyPendingRestore: the refreshed prelaunch snapshot is not sorted; no operation depends on its order.
- Engine.Engine.RunSync: starts from discovered saves; listing them, status text and logging are not part of this model.
- SyncSafety.PushEffect: a local change found after an upload is one of the failures after the commit.
- Backups.RetentionExact: deletions that fail are ignored by the program and would leave more than twelve versions.
- StateStore.StateStore.Load: JSON is any encoding that decodes what it encoded.
- Sizes, modification times, last-seen identities and relative paths of a slot's record, and Steam's change number outside `StateStore`.
- Steam network, login, Guard, presence and transfer: an upload either has the given bytes afterwards or fails.
- Walking the file system, and waiting for a stable copy of a save: discovery is a list, a stable copy one observation.
- FAT headers of universal binaries: each slice is patched on its own.
- Parsing Steam's binary achievement schema, protobuf, the Keychain, the interface and the package scripts.
- Searching for virtual tables, task memory calls and float comparison in the memory scan: parameters.
