# KerPlace: a verified model

KerPlace is an S3-compatible object store. This project models the state machines and
loops its guarantees rest on, and proves those guarantees for all inputs, runs and
interleavings. `dafny verify dfyconfig.toml` checks everything.

| files | what they model |
|---|---|
| `Versions.dfy`, `VersionAnswers.dfy` | one versioned key of the file store: slot, archive and history refine a plain list of versions; what callers see around each operation |
| `LockTable.dfy`, `QuorumLock.dfy`, `QuorumExamples.dfy`, `LocalKeyLocks.dfy` | leases, fencing tokens and slot collection on a node; quorum locks of many gateways; the in-process key mutexes |
| `Codec.dfy`, `Sharding.dfy`, `ErasureStore.dfy`, `ErasureAnswers.dfy`, `MirrorDrives.dfy` | the Reed-Solomon block codec, the layout on the drives, sharded write, read and heal |
| `HistoryRegister.dfy`, `FileWrites.dfy` | the version history replicated to all drives without a quorum; the ways a small write can end |
| `Aead.dfy`, `Kpe1.dfy`, `Ranges.dfy`, `Sio.dfy` | the encrypted object container, buffered and streamed; range reads; the admin payload stream |
| `Keys.dfy`, `Listing.dfy`, `Lifecycle.dfy`, `LifecycleRules.dfy` | listing with delimiters and continuation tokens; the pass that deletes while it pages |
| `Unicode.dfy`, `AwsChunked.dfy`, `CanonicalQuery.dfy` | UTF-8 and white space; the upload framing decoder; the canonical query of a signed request |
| `Streams.dfy`, `Wrappers.dfy` | streams read in arbitrary fragments; `Option` and `Result` |

What is taken as given:

- **Reed-Solomon** is any systematic code in which K of the N shards determine the rest
  (`Codec.Mds`). `XorCode` is such a code for every K with one parity shard.
- **BLAKE3** is any injective digest.
- **AEAD ciphers** are symbolic: a ciphertext octet is one cell, a tag is sixteen cells
  that name key, nonce, associated data and text. Lengths are the real ones, and cells
  open exactly when they were sealed. A header is read only from cells stored in the clear.
- **The key provider** is any function from algorithm and wrapped key to a data key or an error.
- **Lossy UTF-8 decoding** is any idempotent function.
- **Random values** (ids, owners, nonces, data keys) and **clocks** are inputs; generated ids
  are new and not empty.
- 32-bit counters wrap, as the release build lets them; 64-bit counters are unbounded.

Where the code does not do what its comments or names suggest:

- `should_expire` is documented as "age at least `days`". With `days` 0 it also expires
  objects stamped less than a day in the future, and a threshold of 2^63 or more is cast to
  a negative one and expires everything (`Lifecycle.DaysAsDocumentedIff`).
- A dry-run heal can announce a repair that then fails (`ErasureStore.DryRunMispredictsIff`,
  `MirrorDrives.DryRunMispredicts`), and a heal keeps a part file that has bytes behind its
  stream (`ErasureStore.HealedExactIff`, `MirrorDrives.ExtraByteStays`).
- Rewriting a metadata or history file truncates it first, so a write that fails half way
  destroys the old copy. A heal that stops there loses the object, part files and all, when
  that was drive 0 and the only copy (`ErasureStore.InterruptedMeta`,
  `MirrorDrives.TornRewriteLosesObject`), and an edit that fails with an error can lose the
  history (`HistoryRegister.FailedEditLosesIff`, `HistoryRegister.TornEditLosesHistory`).
- Fencing stops a superseded gateway at nodes that granted it a token and a higher one since,
  and nowhere else. With tokens of bare majorities it can still reach a write quorum
  (`QuorumLock.TwoGrantsReach`, `QuorumExamples.StaleReachesTwo`). A resource name with a
  character outside ASCII is not read by the nodes and one with a blank at its end is read as
  another, so that fencing does nothing for them (`QuorumExamples.StaleReachesAll`,
  `QuorumExamples.UnfenceableNames`).
- The history epoch is said to keep a drive that missed a write from serving stale history.
  That holds exactly for operations that reach a drive which took the last write
  (`HistoryRegister.ReadIsLastIff`, `HistoryRegister.LateEditLoses`).
- The lifecycle pass skips locked objects, but on an unversioned bucket of the erasure store
  deleting a key removes its directory and every key below it: "a" expired takes "a/b" with
  it, new and under legal hold (`Lifecycle.LeftIsClearedIff`, `Lifecycle.HeldGoesWithParent`).
- `encrypting_reader` logs a source that fails mid-object, but the reader of its output gets a
  well-formed container of the whole chunks and no error (`Kpe1.EncryptingReader`,
  `Kpe1.StreamThere`); likewise a container cut on a chunk boundary decrypts without error
  (`Kpe1.DecryptContainer`).
- A listing with `max_keys` 0 returns a token that never gets anywhere (`Listing.ProgressIff`).
- A bucket set back to unversioned mode lets the id of a version return the bytes of a later
  object, or promise an object that is gone (`Versions.OffWriteRewritesVersion`,
  `Versions.OffDeleteBreaksVersion`).

## Model

| member | source | states |
|---|---|---|
| `Versions.KeyFiles.SeedLegacyHistory` | src/storage/fs.rs:554-572 | a key that has an object but no history gets the one-entry "null" history; the list of versions the files represent is unchanged |
| `Versions.KeyFiles.DemoteCanonicalToArchive` | src/storage/fs.rs:577-598 | the slot's payload and sidecar move under the archive id, the slot is empty; with an empty slot an error and no change |
| `Versions.KeyFiles.PromoteArchiveToCanonical` | src/storage/fs.rs:603-624 | the archived payload and sidecar move into the slot and leave the archive; a missing payload is an error and no change |
| `Versions.KeyFiles.DiscardCanonical` | src/storage/fs.rs:627-630 | slot and sidecar are gone, nothing else changes |
| `Versions.KeyFiles.RemoveArchive` | src/storage/fs.rs:633-639 | exactly the named archived payload and sidecar are gone |
| `Versions.KeyFiles.FreeSlot` | src/storage/fs.rs:645-683 | preparing a versioned write drops the "null" version in suspended mode, archives a real head, never fails on coherent files, and leaves exactly the kept versions archived with the slot free |
| `Versions.KeyFiles.WriteObject` | src/storage/fs.rs:832-908 | put, copy and complete-multipart (also 1681-1714) act on the files as "new head on the kept list" acts on the plain list, in all three modes, and return the new version id |
| `Versions.KeyFiles.DeleteObject` | src/storage/fs.rs:1012-1063 | delete acts as a marker on the kept list, or empties the list of an unversioned key |
| `Versions.KeyFiles.RemovePayload` | src/storage/fs.rs:1168-1175 | the payload of the removed version, and no other, is deleted from the slot or the archive |
| `Versions.KeyFiles.SettleHistory` | src/storage/fs.rs:1178-1197 | after a removal the next real version is promoted into a freed slot and the files again represent the remaining list; an empty history removes its file |
| `Versions.KeyFiles.DeleteObjectVersion` | src/storage/fs.rs:1150-1202 | removes exactly the named version from the list, reports an unknown id and whether a marker was removed |
| `Versions.KeyFiles.GetObject` | src/storage/fs.rs:911-928 | returns the head of the list, bytes and metadata, or that there is no object |
| `Versions.KeyFiles.GetObjectVersion` | src/storage/fs.rs:1084-1119 | on any files, coherent or not, the answer with its four kinds of error, bytes and all metadata; the files change by seeding only |
| `Versions.VersionAnswerIsListed` | src/storage/fs.rs:1084-1119 | on coherent files that answer is what the list has under the id: bytes and metadata of a version, a refusal for markers and for unknown ids |
| `Versions.KeyFiles.Replay` | src/storage/fs.rs:832-1202 | any run of operations within the environment's rules, from any coherent files, ends with coherent files that represent what the same run makes of the plain list |
| `Versions.VersionsAreImmutable` | src/storage/fs.rs:641-701 | over every run ids stay distinct (at most one "null"), and a version keeps bytes and metadata until an operation entitled to touch it |
| `Versions.SpecStep` | src/storage/fs.rs:641-701 | one step keeps ids distinct and every version it may not touch as it was |
| `Versions.OffWriteCoherent` | src/storage/fs.rs:876-900 | an unversioned write over a key with history keeps files and history in agreement exactly when the head is real and has the same etag, size and time |
| `Versions.OffDeleteCoherent` | src/storage/fs.rs:1051-1061 | an unversioned delete of a key with history keeps them in agreement exactly when there is no current object |
| `Versions.OffWriteAnswers` | src/storage/fs.rs:876-900 | after an unversioned write over a history, the id of the current object answers with the new bytes, every other id as before |
| `Versions.OffDeleteAnswers` | src/storage/fs.rs:1051-1061 | after an unversioned delete the listed id of the current object has no object, every other id answers as before |
| `Versions.OffWriteRewritesVersion` | src/storage/fs.rs:832-1119 | from any coherent state: write with versioning on, switch it off, write again; the first version's id returns the second object |
| `Versions.OffDeleteBreaksVersion` | src/storage/fs.rs:832-1119 | likewise with a delete: the version stays in the history and its object is gone |
| `VersionAnswers.WriteThenRead` | src/storage/fs.rs:832-1119 | after a write, in every mode, the current object and the version of the returned id are the upload, byte for byte and field for field; every id from before but the replaced "null" answers as before |
| `VersionAnswers.DeleteThenRead` | src/storage/fs.rs:1012-1119 | after a delete there is no current object; in the versioned modes the returned id names a delete marker and every other id answers as before, in unversioned mode no id is left |
| `VersionAnswers.RemoveThenRead` | src/storage/fs.rs:1084-1202 | removing an id that answers reports what it was, version or marker, and an unknown id is an error; afterwards the id is unknown, and every other id answers as before |
| `VersionAnswers.MakeThenRemove` | src/storage/fs.rs:1150-1202 | removing the version or delete marker just made by its id restores the list of versions and the current object, byte for byte |
| `LockTable.LockTable.Acquire` | src/cluster/lock.rs:139-163 | refused exactly when somebody else's lease has not ended, and then the slot stays; otherwise the slot has the caller, the new end and the token returned |
| `LockTable.LockTable.Release` | src/cluster/lock.rs:170-179 | only the holder frees the slot; its token and end stay |
| `LockTable.LockTable.IsCurrent` | src/cluster/lock.rs:187-193 | a write is current if its token is not below the slot's, or there is no slot |
| `LockTable.AcquiredMeaning` | src/cluster/lock.rs:139-163 | the effect of an acquire slot by slot: refusal, same token for a live holder, next token for everyone else, first token for a new or collected slot, and exactly the long-idle free slots of a large table collected |
| `LockTable.ReleasedMeaning` | src/cluster/lock.rs:139-179 | a released slot goes to whoever asks next, under the next token; all other slots stay |
| `LockTable.AcceptedIffCurrent` | src/cluster/lock.rs:139-193 | while the slot is not collected, a holder's token is accepted if and only if it was not superseded |
| `LockTable.SupersededFenced` | src/cluster/lock.rs:146-193 | an accepted superseded token means the slot was collected ten lease times after that lease ended |
| `LockTable.RunSound` | src/cluster/lock.rs:139-193 | every interleaving of acquires, releases and clock steps keeps the log of leases ordered and remembered by the slots |
| `LockTable.LeasesTakeTurns` | src/cluster/lock.rs:139-179 | in every run of a node, of two leases of one resource with different owners the later is granted no earlier than the end of the earlier or its release; no two owners hold unexpired, unreleased leases at once |
| `LockTable.FencingAcrossCollection` | src/cluster/server.rs:187-195 | both statements together for every run from a fresh node, slot collection included |
| `QuorumLock.QuorumsMeet` | src/cluster/lock.rs:268-271 | two sets of at least half plus one of the same nodes share a node |
| `QuorumLock.QuorumExclusion` | src/cluster/lock.rs:277-306 | in every run, two calls for one resource never hold leases at the same node that are unexpired by its clock and unreleased; so never at a quorum each, and never both all the leases of their tokens once granted |
| `QuorumLock.RunSound` | src/cluster/lock.rs:277-306 | in every interleaving of gateways, nodes, lost replies, retries, releases and clocks, a token in hand is backed by a lease at its node, and a concluded call holds a quorum |
| `QuorumLock.TwoGrantsMeet` | src/cluster/lock.rs:277-298 | two calls granted the same resource share a node where one of them has lost it; there its writes are refused unless the slot was collected since its grant, if the name reaches the node as it is, and pass if the node cannot read the name |
| `QuorumLock.LostIsFenced` | src/cluster/server.rs:187-195 | where a holder lost the resource and the name reaches the node as it is, its writes pass only after the slot was collected, ten lease times after its lease; a name that is not readable always passes, one that arrives as another is judged by that one's slot |
| `QuorumLock.StepKeepsLost` | src/cluster/lock.rs:277-306 | no step gives a lost resource back |
| `QuorumLock.LostForever` | src/cluster/remote.rs:167-193 | from then on, whatever happens, that remains so: the node refuses all writes of that holder, collection and names that do not reach it excepted |
| `QuorumLock.RefusedIff` | src/cluster/server.rs:187-195 | in every reachable state a write does not take effect at a node if and only if the holder has a token of it and the name cannot be sent (src/cluster/remote.rs:83-91), or the node reads a name for which it has granted a higher token since its last collection |
| `QuorumLock.AdmittingSize` | src/cluster/server.rs:187-195 | the nodes that let a holder's writes through and those that refuse it make up all nodes |
| `QuorumLock.TwoGrantsReach` | src/cluster/lock.rs:277-298 | over every run without collections in between, two calls granted the same resource are refused on at least as many nodes as their tokens exceed the node count, so both can reach w nodes only when tokens + 2w is at most three times the nodes, if the name reaches the nodes as it is; with a name they cannot read both reach all nodes |
| `QuorumExamples.StaleReachesTwo` | src/cluster/lock.rs:277-298 | a run of three nodes, for any name that is sent as it is, where two calls hold two tokens each and the superseded one still passes at exactly two nodes |
| `QuorumExamples.StaleReachesAll` | src/cluster/server.rs:187-195 | the same run with any name that does not reach the nodes as it is: the superseded call passes at every node, without any collection |
| `QuorumExamples.UnfenceableNames` | src/cluster/remote.rs:83-91 | such names: one with an accented letter, one with a blank at its end |
| `LocalKeyLocks.LocalKeyLocks.Prune` | src/cluster/lock.rs:97-99 | pruning drops exactly the mutexes that no task refers to |
| `LocalKeyLocks.LocalKeyLocks.Enter` | src/cluster/lock.rs:92-101 | a task gets a reference to the map's current mutex of its key, whether or not the map was pruned; who holds what does not change |
| `LocalKeyLocks.LocalKeyLocks.Lock` | src/cluster/lock.rs:102-103 | the task gets into the critical section exactly when no task holds its key, and nobody else's hold changes |
| `LocalKeyLocks.LocalKeyLocks.Leave` | src/cluster/lock.rs:92-104 | dropping a guard frees the mutex, dropping a wait frees nothing; all other tasks hold what they held |
| `LocalKeyLocks.LocalKeyLocks.AtMostOneHolder` | src/cluster/lock.rs:92-104 | at most one task is inside the critical section of a key, in every reachable state |
| `LocalKeyLocks.LocalKeyLocks.WaitsForHolder` | src/cluster/lock.rs:92-104 | a waiting task waits for the very mutex the holder of its key has locked |
| `Codec.ShardLen` | src/erasure/codec.rs:79-82 | the shard length is the least that lets K shards cover the block, and at least 1 |
| `Codec.EncodeBlock` | src/erasure/codec.rs:91-113 | the filled buffers are the K padded pieces and the parity, N shards of equal length |
| `Codec.ReconstructBlock` | src/erasure/codec.rs:122-149 | result and error cases of reconstruction: a wrong number of slots, fewer than K shards, wrong lengths, or the joined data cut to length |
| `Codec.JoinDataShards` | src/erasure/codec.rs:138-148 | the pieces joined are the block and zeros behind it, for every K and length |
| `Codec.RoundTrip` | src/erasure/codec.rs:91-149 | encode then reconstruct is the identity with any K surviving shards, and refused with fewer |
| `XorCode.SingleIsMds` | src/erasure/codec.rs:54-60 | exclusive-or parity is a code in which any K shards determine the data, for every K: the law asked of the library can be met |
| `Sharding.NBlocks` | src/erasure/store.rs:1010-1016 | the number of blocks is the least that covers the stored bytes, one for an empty object |
| `Sharding.BlockLen` | src/erasure/store.rs:1014-1022 | all blocks are full but the last, which holds exactly the rest |
| `Sharding.OffsetClosed` | src/erasure/store.rs:1010-1042 | the running offset of reader and healer is block number times full shard length |
| `Sharding.StreamLayout` | src/erasure/store.rs:498-523 | the writer's byte position of a block on a drive is that offset, and the shard is found there |
| `Sharding.ValidShardsAreOriginal` | src/erasure/store.rs:1024-1034 | whatever is on the drives, a shard that matches its digest is the one written |
| `Sharding.ReadsNeverWrong` | src/erasure/store.rs:1001-1043 | output is a prefix of the stored bytes, made of whole blocks unless it is all of them, and it is all of them if and only if every block keeps K valid shards |
| `Sharding.VerifiesIffStream` | src/erasure/store.rs:867-900 | a drive verifies on all blocks if and only if its file starts with the stream that was written |
| `Sharding.VerifiedDrivesSuffice` | src/erasure/store.rs:1014-1042 | K drives that verify read back everything, whatever the others hold |
| `ErasureStore.ErasureStore.AppendBlock` | src/erasure/store.rs:510-521 | digests are recorded for every drive, shards only appended on writers still alive |
| `ErasureStore.ErasureStore.Publish` | src/erasure/store.rs:524-571 | per drive, what close, rename and metadata write leave behind under each fault, a metadata write that tears the old copy included, and which drives confirmed everything |
| `ErasureStore.ErasureStore.RollBack` | src/erasure/store.rs:573-584 | the object directory is removed on exactly the drives that can be reached |
| `ErasureStore.ErasureStore.StreamBody` | src/erasure/store.rs:495-524 | for any fragmentation the surviving writers hold the shard streams of the whole body; a body that fails is reported |
| `ErasureStore.ErasureStore.WriteSharded` | src/erasure/store.rs:448-600 | success if and only if K + 1 drives confirmed every step; the state of every drive after success, after a failed quorum and after a failing body |
| `ErasureStore.PutThenGet` | src/erasure/store.rs:448-600 | after a successful write of a fresh key K + 1 drives are complete and all metadata copies are the object's; after any later losses and corruptions that leave a metadata copy, a reader finds it and reads back the stored bytes if and only if every block keeps K valid shards |
| `ErasureStore.ConfirmedDrivesSuffice` | src/erasure/store.rs:573-584 | K of the drives that confirmed the write are enough for that, whatever becomes of the other part files |
| `ErasureAnswers.StepsLeave` | src/erasure/store.rs:524-571 | what each failing step of a write leaves of the old part and metadata, and which drives count as confirmed |
| `ErasureAnswers.OverwrittenReads` | src/erasure/store.rs:524-600 | whatever was there before, a drive that confirmed holds exactly the new stream and metadata, and K + 1 of them read back the new body by the new metadata |
| `ErasureAnswers.PutThenGetBack` | src/erasure/store.rs:448-600 | a put over whatever the drives hold: when nothing goes wrong it succeeds, and the get returns exactly the body, its size and attributes; when drives fail, a successful put is read back whenever the first drive confirmed it |
| `ErasureStore.ErasureStore.ReconstructInto` | src/erasure/store.rs:1001-1043 | the loop emits block after block until one cannot be rebuilt |
| `ErasureStore.ErasureStore.Get` | src/erasure/store.rs:1194-1205 | a get rebuilds by the first metadata copy, and finds no key when there is none |
| `Sharding.FirstMetaAt` | src/erasure/store.rs:396-405 | the metadata gone by is the copy of the first drive that has one, none exactly when no drive has |
| `ErasureStore.ErasureStore.ReadXl` | src/erasure/store.rs:396-405 | the first readable metadata copy is taken |
| `ErasureStore.ErasureStore.Scan` | src/erasure/store.rs:865-897 | the scan marks exactly the drives that fail on some block and returns the smallest number of good shards of a block |
| `ErasureStore.ErasureStore.Rebuild` | src/erasure/store.rs:914-959 | the rebuild yields the original streams of the bad drives, or fails exactly when fewer than K drives are good throughout |
| `ErasureStore.ErasureStore.Stage` | src/erasure/store.rs:914-928 | the rebuilt streams are written aside exactly when no bad drive refuses |
| `ErasureStore.ErasureStore.Install` | src/erasure/store.rs:960-983 | each drive's exact part and metadata after the steps of the installation, to the end or to the first error, an error in the middle of a metadata write included; success exactly when no bad or damaged drive refuses |
| `ErasureStore.ErasureStore.HealObject` | src/erasure/store.rs:834-983 | outcome and exact resulting drives of a heal, dry or not, going by the first metadata copy, for every way the steps of the repair can fail |
| `ErasureStore.HealedVerify` | src/erasure/store.rs:926-983 | after a repair every drive verifies and has metadata, a reader goes by the object's, and a second heal finds nothing to do |
| `ErasureStore.HealedExactIff` | src/erasure/store.rs:865-983 | a drive then holds exactly the stream and metadata of the write if and only if its part did not start with the whole stream and go on |
| `ErasureStore.InterruptedParts` | src/erasure/store.rs:914-975 | a heal stopped by an error leaves every drive that verified verifying and the object's blocks as readable as before |
| `ErasureStore.InterruptedMeta` | src/erasure/store.rs:960-983 | the metadata gone by stays, unless the heal stopped by tearing the copy of drive 0, where the next copy takes its place; so a heal loses the object, for readers and later heals, if and only if it tore the copy of drive 0 and no other drive has one |
| `ErasureStore.HealWithoutError` | src/erasure/store.rs:914-983 | a repair in which no step fails ends with the rebuilt drives: bad parts written anew, metadata wherever it was missing or the part was bad |
| `ErasureStore.HealRestores` | src/erasure/store.rs:834-983 | after a repair any later loss or corruption of the parts of M drives, with or without their metadata, leaves a reader finding the metadata and reading back the stored bytes |
| `ErasureStore.HealRepairsIff` | src/erasure/store.rs:878-947 | a heal repairs if and only if metadata survives, something is damaged, and K drives verify on every block or only metadata is missing |
| `ErasureStore.DryRunMispredictsIff` | src/erasure/store.rs:878-947 | dry run and repair disagree if and only if every block keeps K good shards but fewer than K drives are good on all blocks |
| `ErasureAnswers.HealAnswers` | src/erasure/store.rs:878-947 | exactly when a heal answers healthy, unrecoverable, healed with which number, or an error, in terms of verifying drives, metadata copies and good shards per block |
| `ErasureAnswers.HealThenGet` | src/erasure/store.rs:834-983 | when a heal reports an object healthy or healed, however its steps may fail, a get returns the stored bytes |
| `MirrorDrives.DryRunMispredicts` | src/erasure/store.rs:878-947 | two mirrored drives, each with another damaged block: the dry run announces two rewritten shards, the repair fails |
| `MirrorDrives.ExtraByteStays` | src/erasure/store.rs:865-983 | one mirrored drive with a byte behind its stream, the other empty: the heal rebuilds the empty one exactly and leaves the extra byte |
| `MirrorDrives.TornRewriteLosesObject` | src/erasure/store.rs:960-983 | two mirrored drives, the only metadata on the first, whose part is bad: the repair rebuilds the part, tears the metadata, and leaves two good parts of an object that no reader and no later heal finds |
| `HistoryRegister.Register.ReadHistory` | src/erasure/store.rs:633-646 | the copy with the highest epoch is read, the first drive winning ties |
| `HistoryRegister.Register.WriteHistory` | src/erasure/store.rs:308-322 | the copy goes to every drive it reaches with the epoch one higher, a torn write destroys the drive's copy; an error exactly when no drive acknowledged (also 650-654) |
| `HistoryRegister.Register.Edit` | src/erasure/store.rs:729-764 | read, edit and write back as one step on all drives |
| `HistoryRegister.Register.Purge` | src/erasure/store.rs:1574-1584 | removing a key's directory drops the history on exactly the reached drives |
| `HistoryRegister.BestIsNewest` | src/erasure/store.rs:633-646 | no readable copy is newer than the one read and none before it as new |
| `HistoryRegister.ReadIsLastIff` | src/erasure/store.rs:633-646 | a read returns the last write if and only if it reaches a drive that took it; otherwise a strictly older epoch |
| `HistoryRegister.EpochGrowsIff` | src/erasure/store.rs:650-654 | an operation's epoch exceeds the last one if and only if it read a drive that took the last write |
| `HistoryRegister.RunReadsLast` | src/erasure/store.rs:633-654 | over every run in which each operation overlaps the write before it, failed writes tearing copies included, reads that reach a drive that took the last write and still has it return it, all others an older epoch; the epoch counts the writes |
| `HistoryRegister.FailedEditLosesIff` | src/erasure/store.rs:308-322 | an edit that lands nowhere is an error, and yet loses the last history for every later read if and only if it tore every drive that had it |
| `HistoryRegister.TornEditLosesHistory` | src/erasure/drive.rs:150-152 | the last write on one drive, whose copy a failing edit tears: the history then reads as empty |
| `HistoryRegister.EditReadIff` | src/erasure/store.rs:633-654 | a read returns what an edit wrote if and only if it reaches a drive that has it and none whose older copy, not torn by the edit, has a higher epoch, or the same on an earlier drive |
| `HistoryRegister.LateEditLoses` | src/erasure/store.rs:633-654 | an edit that missed the last write is not read where the last write is also reached, unless the epochs are equal and the edit is on an earlier drive |
| `HistoryRegister.DisjointEdits` | src/erasure/store.rs:633-654 | two acknowledged edits on disjoint drives: a read of both drives returns the first, a read of the second drive alone the second |
| `HistoryRegister.PurgeIsFinalIff` | src/erasure/store.rs:1574-1584 | a purge is final for all later reads if and only if it reached every drive with a copy |
| `Streams.Reader.ReadFull` | src/erasure/store.rs:1060-1070 | a full buffer, or all there is, however the source fragments; an error only from a failing source |
| `Streams.Reader.Skip` | src/erasure/store.rs:1046-1057 | exactly the first n items are gone, or all there are |
| `Octets.FourOctets` | src/crypto/mod.rs:392-397 | 32-bit counters encode alike, in either byte order, exactly when they agree modulo 2^32 |
| `Aead.OpenIff` | src/crypto/mod.rs:460-475 | cells open to a text if and only if they are that text sealed under the same key, nonce and associated data |
| `Aead.CutIsRejected` | src/crypto/mod.rs:460-475 | no proper prefix of a sealed text opens under any key, nonce or associated data |
| `Kpe1.EncryptObject` | src/crypto/mod.rs:502-523 | the buffered writer produces the container |
| `Kpe1.EncryptingReader` | src/crypto/mod.rs:705-764 | for every fragmentation the stream is the same container; a failing source yields, without any error, the container of its whole chunks |
| `Kpe1.DecryptObject` | src/crypto/mod.rs:548-581 | the buffered reader: format errors, provider errors, and the plaintext only if every chunk opens |
| `Kpe1.OpenStreamHeader` | src/crypto/mod.rs:818-839 | for every fragmentation header, base nonce and unwrapped key as the buffered reader finds them, the stream left behind the header |
| `Kpe1.StreamChunks` | src/crypto/mod.rs:846-880 | for every fragmentation exactly the plaintext of the leading chunks that open, as in the buffered reader |
| `Kpe1.StreamThere` | src/crypto/mod.rs:705-880 | encrypting a stream and decrypting the stored stream gives the plaintext for every fragmentation on both sides; of a source that failed, its whole chunks without any error |
| `Kpe1.PlaintextLenInverts` | src/crypto/mod.rs:614-627 | the size computed from a container's length is the plaintext's, at every length |
| `Kpe1.TruncatedBody` | src/crypto/mod.rs:846-880 | a cut body gives the plaintext of its whole chunks and looks complete exactly when the cut is on a chunk boundary |
| `Kpe1.AcceptedIff` | src/crypto/mod.rs:564-580 | a body decrypts completely to a plaintext if and only if it is its sealed body, or that and one sealed empty text |
| `Kpe1.HeaderParsesIff` | src/crypto/mod.rs:549-562 | a header parses back to its fields if and only if the wrapped key fits the 16-bit length |
| `Kpe1.DecryptContainer` | src/crypto/mod.rs:548-581 | decrypting a container whole or cut behind its header: never wrong bytes, an error unless the cut is on a chunk boundary |
| `Kpe1.HeaderFoundIff` | src/crypto/mod.rs:549-562 | a header is found if and only if the data starts with one, magic, any version octet, algorithm, length, wrapped key and base nonce |
| `Kpe1.DecryptedExactly` | src/crypto/mod.rs:548-581 | for every buffer: a format error if it does not start with a header, the provider's error if the key is refused, the plaintext exactly for its sealed body and the one unnoticed addition, else a decryption error |
| `Kpe1.NonceRepeatsIff` | src/crypto/mod.rs:392-397 | two chunks share a nonce exactly when their numbers agree modulo 2^32 |
| `Kpe1.NoncesDistinctIff` | src/crypto/mod.rs:392-397 | the nonces of an object are distinct if and only if it has at most 2^32 chunks |
| `Ranges.WindowIsSlice` | src/storage/fs.rs:942-947 | the clamped start, end and length describe exactly the octets asked for |
| `Ranges.SliceOctets` | src/storage/fs.rs:942-947 | the slice has exactly the octets from position start to position end, both included, in order |
| `Ranges.BlockIsChunk` | src/storage/fs.rs:975-990 | block i of a sealed body is chunk i sealed under its number |
| `Ranges.SealedRange` | src/storage/fs.rs:959-1003 | the chunk-seeking reader returns exactly the slice and its length for every size, start and end |
| `Ranges.PlainRange` | src/storage/fs.rs:951-957 | seek and take return exactly the slice of an object kept in the clear |
| `Ranges.SkipThenTake` | src/erasure/store.rs:1207-1225 | the slice from a stream that carries the object, for every fragmentation; an error exactly when the stream ends or fails before the window is covered |
| `Sio.EncryptData` | src/madmin.rs:167-198 | the loop produces the blob of the payload, its last package marked |
| `Sio.DecryptData` | src/madmin.rs:208-241 | the loop returns what opening all packages in order gives, with the three kinds of error |
| `Sio.SealedOpens` | src/madmin.rs:219-240 | opening what was sealed gives the payload, at every length |
| `Sio.PrefixRefused` | src/madmin.rs:219-240 | no proper prefix of a sealed stream opens, package boundaries included |
| `Sio.OpensIff` | src/madmin.rs:219-240 | a stream opens to a payload if and only if it is its sealed stream, or the variant that closes a full last package with an empty one |
| `Sio.BlobRoundTrip` | src/madmin.rs:167-241 | round trip for each of the three ids, any other id refused by name, every proper prefix of a blob an error |
| `Sio.RefusedBlobs` | src/madmin.rs:208-241 | a blob shorter than its header or without room for a tag is a format error, an unknown scheme is named, another password is a decryption error |
| `Sio.NoncesDistinctIff` | src/madmin.rs:90-95 | the nonces of a stream, reference tag included, are distinct if and only if it has fewer than 2^32 packages |
| `Keys.FindIsLocal` | src/erasure/store.rs:1347-1349 | the first occurrence of a delimiter depends only on the text up to its end |
| `Keys.LessIff` | src/erasure/store.rs:1332-1333 | the order of keys: a proper prefix first, else the smaller octet at the first difference |
| `Keys.FindIsFirst` | src/erasure/store.rs:1347-1349 | the place found is an occurrence and none is before it; nothing is found exactly when there is none |
| `Listing.ListObjects` | src/storage/fs.rs:1327-1356 | the loop over the sorted keys yields exactly the first maxKeys items and the first key behind them as the token |
| `Listing.ItemsOrdered` | src/storage/fs.rs:1334-1352 | keys in order have their items in order, so the common prefixes come out sorted |
| `Listing.CommonConvex` | src/storage/fs.rs:1334-1347 | keys with one common prefix are neighbours |
| `Listing.ListingMeaning` | src/erasure/store.rs:1333-1375 | exactly the listed keys without a further delimiter are objects, exactly the groups of the others are common prefixes, all strictly in order |
| `Listing.ListingByKeys` | src/storage/fs.rs:1327-1356 | objects are exactly the keys under the prefix, at or behind the token and strictly behind the start key, that have no delimiter behind the prefix; common prefixes exactly the others cut behind their first delimiter |
| `Listing.RestartAtGroup` | src/erasure/store.rs:1335-1370 | starting over at the first key of a group gives the remaining groups; no common prefix comes back |
| `Listing.NextPage` | src/erasure/store.rs:1335-1370 | the token continues exactly where the page ended |
| `Listing.PagingExact` | src/erasure/store.rs:1333-1375 | with maxKeys at least 1 following the tokens ends, and the pages together are the unpaged listing; every page but the last is full |
| `Listing.ProgressIff` | src/erasure/store.rs:1352-1370 | following a token leaves less if and only if maxKeys is not 0; with 0 the same empty page comes back for ever |
| `Lifecycle.DaysAsDocumentedIff` | src/lifecycle.rs:230-248 | the day rule decides as documented for all ages if and only if the threshold is at least 1 and fits a signed 64-bit number |
| `LifecycleRules.ExpiresIff` | src/lifecycle.rs:230-248 | exactly when an object is due: by days, with the thresholds the casts give; without days from the date on, if it parses; days take precedence |
| `Lifecycle.ClearedExact` | src/lifecycle.rs:122-169 | what a pass is meant to leave: in order, exactly the entries not under the prefix, not expired, locked, or whose deletion fails |
| `Lifecycle.LeftExact` | src/erasure/store.rs:1270-1279 | what a pass leaves: in order, exactly the entries that are neither doomed nor, in an unversioned bucket of the erasure store, below a doomed one |
| `Lifecycle.LeftIsClearedIff` | src/lifecycle.rs:122-169 | the two agree if and only if the bucket is no such tree, or nothing that is to stay lies below a doomed entry |
| `Lifecycle.HeldGoesWithParent` | src/lifecycle.rs:186-219 | "a" old, "a/b" new and under legal hold: in a tree the pass removes both, elsewhere "a/b" stays |
| `Lifecycle.PlainPage` | src/lifecycle.rs:131-138 | a page without delimiter is the first thousand visible keys and the next one as token |
| `Lifecycle.VisibleLeft` | src/lifecycle.rs:129-168 | the listing behind a token, from the shrunken bucket, shows exactly the keys that no deletion covers, in order |
| `Lifecycle.DeletionsHiddenIff` | src/lifecycle.rs:129-168 | deletions leave the listing behind a token as it was if and only if they cover none of its keys; outside a tree those before the token never do |
| `Lifecycle.PageCovers` | src/lifecycle.rs:129-168 | a page covers exactly the keys between its token and the next, the last one all behind its token |
| `Lifecycle.Bucket.ExpirePage` | src/lifecycle.rs:144-161 | of one page, judged by the listing and by the locks found at that moment, exactly the expired and unlocked objects and what they cover are gone, objects included that an earlier deletion of the page already took along |
| `Lifecycle.Bucket.ExpireObjects` | src/lifecycle.rs:122-169 | the pass ends, having left exactly the entries that no doomed one covers, although later pages are listed after earlier deletes, which may reach behind the token |
| `Lifecycle.Bucket.ExpireBucket` | src/lifecycle.rs:76-107 | all enabled rules in turn leave exactly the entries not covered by an entry that some rule dooms |
| `LifecycleRules.StaysIff` | src/lifecycle.rs:186-219 | the same of the entries a pass leaves, for every bucket and pass |
| `LifecycleRules.ExpireThenLook` | src/lifecycle.rs:122-219 | after a pass an entry is there exactly if it is on legal hold in any case of letters, retained, not under the prefix, not due, or cannot be deleted, and no deleted key above it takes it along |
| `LifecycleRules.ExpireBucketThenLook` | src/lifecycle.rs:76-107 | the rules of a bucket: an entry stays unless an enabled rule with an expiration removes it, or one above it in a tree |
| `AwsChunked.Pump` | src/auth/chunked.rs:42-68 | the loop yields the decoded body and whether it stopped at a bad size line |
| `AwsChunked.SizeLineReads` | src/auth/chunked.rs:49-58 | a size line announces its size, whatever extension follows the semicolon, and without one |
| `Unicode.Utf8Iff` | src/auth/chunked.rs:45-46 | lines accepted as text are exactly the encodings of sequences of Unicode scalar values |
| `Unicode.SpaceLenIff` | src/auth/chunked.rs:51 | white space trimmed at either end is exactly the encodings of the characters with that property |
| `AwsChunked.LineText` | src/auth/chunked.rs:49-51 | the text in the size's place is what is read as the size, among blanks, with an extension or without |
| `AwsChunked.FramedDecodes` | src/auth/chunked.rs:42-68 | any framed body decodes to the data of its chunks, whatever octets they hold, and stops at the zero chunk |
| `AwsChunked.TruncationYieldsPrefix` | src/auth/chunked.rs:42-68 | truncating any body, well framed or not, yields a prefix of what the whole body yields |
| `AwsChunked.BadSizeStops` | src/auth/chunked.rs:49-58 | likewise a size line whose number has another character than a digit, or is 2^64 or more |
| `AwsChunked.BadTextStops` | src/auth/chunked.rs:42-58 | a size line that is not the encoding of any text stops decoding with an error, the chunks before it delivered |
| `AwsChunked.LenientEnds` | src/auth/chunked.rs:42-68 | a body without the zero chunk is taken as complete, and blank lines between chunks are passed over |
| `CanonicalQuery.UnescapeEscape` | src/auth/sigv4.rs:151-154 | decoding undoes encoding |
| `CanonicalQuery.CanonicalIdempotent` | src/auth/sigv4.rs:170-196 | canonicalising is idempotent |
| `CanonicalQuery.NormalFormIff` | src/auth/sigv4.rs:170-196 | two queries, empty or not, have one canonical form if and only if they mean the same pairs equally often, in any order and spelling |
| `CanonicalQuery.EscapedInPrint` | src/auth/sigv4.rs:130-154 | letters, digits, hyphen, full stop, low line and tilde stay, every other octet becomes a percent sign and two upper-case digits |
| `CanonicalQuery.CanonicalInPrint` | src/auth/sigv4.rs:170-196 | the canonical query, character by character: the pairs meant, each as often as it comes, as key, equals sign, value, joined by ampersands, lower encoded keys first, then lower values |
| `CanonicalQuery.SpellingIrrelevantIff` | src/auth/sigv4.rs:134-154 | a character raw or percent-encoded makes no difference anywhere in a query if it neither delimits there nor becomes part of an escape; when decoding loses nothing, only then (sections 2.1 and 2.3 of RFC 3986) |

## Left out

- The versioned state machine of `src/erasure/store.rs` (lines 661-764, 1231-1281, 1551-1591) moves payloads by the same steps on every drive; it is not modelled a second time, so drives that miss a move are not covered. Two of its steps differ from the file store: `complete_multipart` writes the current slot without touching the history, and a delete in an unversioned bucket (1270-1279) removes the key's directory with `.v`, so all archived versions, the history and the keys below go with it. Its replicated history is `HistoryRegister`.
- Versions.KeyFiles.Replay: a bucket that goes back to unversioned mode under a key with history is outside the runs; what such a step does is stated by the `Off` lemmas and methods.
- Versions: a history file that does not parse, local I/O errors, and crashes in the middle of an operation; every locked operation is one step.
- QuorumLock: the sixty tries and the backoff of `DistLock::acquire` are not counted; the state machine allows any order of requests, releases and retries. Gateways share one node list. A gateway that goes on without a quorum is not a holder.
- LockTable: leases all have the fixed lease time the client sends; a body that is still streaming when its fence check has passed is not modelled. A node that restarts loses its table, which is in memory, and then accepts a superseded token at once; nodes here do not restart.
- LocalKeyLocks: the order in which waiting tasks are served.
- ErasureStore.PutThenGet: metadata copies are later lost or intact, not replaced by others. An overwrite is covered when the copy a reader takes first is the new one (`OverwrittenReads`); one that the first drive misses, or a stale drive that returns later, is not, because readers take the first metadata copy they can parse.
- ErasureStore.ErasureStore.HealObject: stated when the first metadata copy is the object's own; other copies may disagree, and are left alone as the code leaves them. `HealRestores` asks all copies to agree, since a later reader may come upon any of them first.
- ErasureStore: MD5 and multipart ETags, audit fields, and the size recorded for an encrypted object when the provider's advertised key length is not that of the wrapped key.
- Ranges.SealedRange: for a file that is not the container of the recorded size only the length bound is stated.
- Kpe1: a key provider whose wrapped key has 64 KiB or more does not round-trip (`HeaderParsesIff`); a reader that goes away early.
- Sio: key derivation is a symbolic key per id, password and salt.
- Listing: the directory walk that collects the keys, and loading each object's metadata; the keys arrive sorted and distinct. Listing of versions and its markers.
- Lifecycle.Bucket.ExpireObjects: listing and lock queries succeed and nobody else writes; deletions may fail, for any set of keys, and then on all drives; archived versions and history that go with an unversioned key.
- AwsChunked: errors of the underlying reader; chunk signatures, which the decoder does not check either.
- CanonicalQuery: header canonicalisation and the signature itself.
- Network, HTTP routing, TLS, the console and command line, IAM and STS tables, KMS calls, XML and JSON: I/O or easy.
