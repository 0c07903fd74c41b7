# Distributed-JBOD: a verified model

Distributed-JBOD is a masterless, erasure-coded object store. This project
models the parts of it that have to be right together and proves what they
promise, in Dafny. `dafny verify dfyconfig.toml` checks everything.

| files | what they model |
|---|---|
| `ClusterDocument`, `DocumentAgreement`, `DocumentProposal` | the cluster document and how nodes agree on it without a quorum: a state machine over every message of proposals, syncs, joins, restarts and adoptions, and the methods that run on it |
| `Ulid`, `KeyHash`, `ByteOrder` | version identifiers and key hashes, their text and their order |
| `Geometry`, `Erasure`, `Stripe`, `ShardFile` | stripes, padding, the Reed-Solomon wrapper, the shard file on disk, its writer and reader |
| `ObjectWrite`, `ObjectRead` | a body to stripes to shard files, and the two-phase degraded read back to the body |
| `Records`, `Replacement`, `MoveAndRepair` | metadata records, which copies are trusted, and moving and repairing shards as a machine that may stop after any write |
| `ObjectRepair`, `RepairPlacement`, `RepairScrub`, `RepairCases`, `Scrub` | judging a version from its copies, rebuilding its files in two passes, and what a repair, finished or stopped, leaves for the scrub to find |
| `Listing`, `MergedListing`, `ListingCases` | node pages, the horizon merge, and the client's walk over pages |
| `CursorWalk`, `Merge`, `DeviceInventory`, `Availability` | the directory walk from a cursor, its pages and streams, the k-way merge and its counts |
| `PutDurability` | replacing an object under every failure of every request |

Sockets and disks are maps and byte sequences. Clocks, randomness and the
network's answers are parameters, over which every statement quantifies.

## What the results rest on

These appear as hypotheses of the statements, never as axioms.

- The Reed-Solomon library recovers a codeword from any k of its blocks
  (`RecoversFromAnyK`), and keeps the shapes its interface declares (`WellFormed`).
- A block that passes its checksum is the block that was written (`Genuine`,
  `Holding`).
- Agreement: a proposal never skips the first active node of the document it
  builds on, and a document saved straight to disk is never older than the one
  there (`Disciplined`). Two lemmas show that each is needed.
- Moves and repairs: one coordinator at a time for a key, whose lookups see every
  device. `MoveWithDevicesOut` says exactly when a move with devices out is safe.
- Files and lengths fit 64 bits (`Addressable`, and the length bounds on
  `ReceiveShard`, `PutThenGet` and `Describes`).
- Record copies read from a device are valid, since reading validates them
  (`Group`, `SourcesOk`, `RepairObject`).
- Repair: the record the copies agree on is that of a body that was put (`WasPut`).
- Counting unread devices: no device is listed twice, as in a valid document
  (`OneOwnerEach`). Without it the listings are as stated, and the count is of the
  list with repetitions.
- The walk: a readable record lies in the directory of its own key hash, in a file
  named for its own version in upper case (`KeyDirOk`). Writing puts it there;
  `walk_records_from` checks neither
  (`crates/djbod-core/src/device.rs:648-676`). Nor are there stray directories:
  every directory is named for the part of a key hash its level calls for
  (`BucketOk`), where the walk enters directories of any name.

## Where code and description differ

The model follows the code.

- `propose_with_retry` and `add_devices` save the document they work from over
  whatever is on disk (`crates/djbod-node/src/membership.rs:213-245`). An older
  document can replace a newer one that way; `RegressingSaveForks` shows where
  that leads.
- `repair_object` lists stale copies before it relocates and removes them after
  (`crates/djbod-node/src/coordinator.rs:2546-2554`), so a relocation onto a device
  with a stale copy is undone. `CleanAfterRepair` gives the exact condition and
  `InterruptedMoveThenLoss` a case.
- The repair of an empty object ends before the test that k shards are whole
  (`crates/djbod-node/src/coordinator.rs:2375-2394`), so it goes ahead with more than m
  of them lost. With the removals above it can succeed and leave fewer than k copies,
  too few to find the object by. `RepairedLeavesRecord` and `StoppedShort` give the
  exact condition, which an object with a body always meets; `LosesEmptyObject` is a
  case.
- `damaged_shards` holds version and shard index without the device
  (`crates/djbod-node/src/coordinator.rs:3762-3776`, `:4695`). A damaged file of a
  shard on a device the record does not list keeps the shard counted as unavailable
  after a successful repair. `DamageLeft` gives the exact condition, and
  `OrphanKeepsCountLow` is a case.
- `sync` is described as moving nodes one version at a time; the code pushes the
  newest document found. When it asks a longer member list the second time it does
  not look for a newer document again.
- A read is described as reconstructing around up to m lost blocks of each stripe. A
  block that its device fails to read ends the shard's stream
  (`crates/djbod-node/src/local_ops.rs:910-926`), and a stream that ends early fails
  the read (`crates/djbod-node/src/coordinator.rs:1195-1202`), though a missing shard
  does not. `OneBadSector` shows it; `GetObject` gives the exact condition.
- A listing page may end between two versions of one key, and the next page starts
  after the key. `CutBetweenVersions` shows the newest one never listed, with a limit
  or with none; `NewestUnlessCutOff` gives the exact condition, key by key.
- A proposal whose failed node accepted, and only whose reply was lost, reports one
  node fewer than hold the successor (`crates/djbod-client/src/admin.rs:352-373`).
- An empty object has no shard files. The availability count takes all of its shards
  as out (`ScrubAfterRepair`), and the inventory calls it unreadable
  (`NoFilesUnreadable`), though a read delivers it.

## Model

| member | source | states |
|---|---|---|
| `ClusterDocument.Validate` | crates/djbod-core/src/cluster.rs:260-382 | accepts exactly the valid documents: ids, live addresses and labels each free of repetitions, every node with an address, every device on a listed node |
| `ClusterDocument.CheckAddresses` | crates/djbod-core/src/cluster.rs:285-320 | the address loop accepts exactly when every node lists one and no active node repeats another's |
| `ClusterDocument.SuccessorDescends` | crates/djbod-client/src/admin.rs:667-681 | every change makes a document one version on whose node list extends the old one position by position, no removed node revived |
| `ClusterDocument.SuccessorEdits` | crates/djbod-client/src/admin.rs:441-770 | what each command changes, entry by entry: the one device's state or label, the one node's label or addresses, a removed node and its devices' states, a joining node and each of its unlisted devices once, in service; every other entry and field stays |
| `ClusterDocument.ActiveInOrder` | crates/djbod-core/src/cluster.rs:390-392 | the members are the active nodes in the order the document lists them |
| `ClusterDocument.SuccessorHasActive` | crates/djbod-client/src/admin.rs:1018-1047 | no change leaves a valid cluster without an active node |
| `ClusterDocument.RemovalKeepsValidity` | crates/djbod-client/src/admin.rs:1037-1047 | removing a node keeps a valid document valid, whatever the node |
| `ClusterDocument.DocumentWithNodeRemoved` | crates/djbod-client/src/admin.rs:1037-1047 | exactly the node's entry is entombed and exactly its devices are retired, all else is as it was, and the clone is valid if the original was |
| `ClusterDocument.DocumentWithThisNode` | crates/djbod-node/src/node.rs:534-561 | the node is appended if it is not listed and its unlisted devices once each, in service on it; every entry before them stays, tombstones too |
| `DocumentAgreement.StepKeeps` | crates/djbod-client/src/admin.rs:269-433 | each single message of a proposal, sync, join, restart or adoption keeps the agreement invariant, the chosen line of documents growing at most at its end |
| `DocumentAgreement.StepTouches` | crates/djbod-node/src/node.rs:462-502 | every step leaves all nodes but one as they were, and a node never comes to serve a document that is not the one on its disk |
| `DocumentAgreement.ReachableInvariant` | crates/djbod-node/src/node.rs:224-260 | the invariant holds after every run from a founded cluster |
| `DocumentAgreement.AtMostOneDocumentPerVersion` | crates/djbod-client/src/admin.rs:269-350 | over all runs at most one document ever exists per version |
| `DocumentAgreement.NodesAgree` | crates/djbod-node/src/node.rs:462-502 | in every reachable state two nodes at one version hold one document |
| `DocumentAgreement.BoundedLag` | crates/djbod-client/src/admin.rs:276-333 | in every reachable state beyond the founding document the newest document is the successor of an accepted proposal, and for every such proposal each running member of its base, but for one it skipped, holds the base or the newest |
| `DocumentAgreement.TombstonesAreForever` | crates/djbod-client/src/admin.rs:1018-1047 | over all runs node ids are append-only and a removed node is never active again |
| `DocumentAgreement.OvertakenAtTheFirstMember` | crates/djbod-client/src/admin.rs:387-433 | a document that is not the newest has been overtaken at its own first active member, so a sync that reaches it finds something newer |
| `DocumentAgreement.SkippingTheFirstMemberForks` | crates/djbod-client/src/admin.rs:269-333 | the hypothesis is needed: skipping the first active node, from any state where two or more members all hold the document and for any two changes with different successors, some run leaves the first two with different documents at one version |
| `DocumentAgreement.RegressingSaveForks` | crates/djbod-node/src/membership.rs:213-245 | the other hypothesis is needed: for any document whose other members still hold it and any change, saving it over a newer one at its first member leads to a second document, different from the newer one, at that one's version |
| `DocumentProposal.ClusterNode.ApplyDocument` | crates/djbod-node/src/node.rs:462-502 | accepts exactly a valid, strictly newer document of the same cluster its transport can serve; saves it before serving it; otherwise nothing changes |
| `DocumentProposal.CheckSameContent` | crates/djbod-client/src/admin.rs:337-350 | names two nodes exactly when two hold different documents at one version |
| `DocumentProposal.FetchAll` | crates/djbod-client/src/admin.rs:276-300 | asking the targets in document order, any request or reply of which may be lost, is a run of the machine and brings back what each holds, or names the first not heard |
| `DocumentProposal.Compare` | crates/djbod-client/src/admin.rs:294-306 | clears a proposal exactly when all targets hold one document of the base version; otherwise says whether they are at another version, at several, or at the base version with two different documents |
| `DocumentProposal.ApplyInOrder` | crates/djbod-client/src/admin.rs:307-333 | applying stops at the first target not heard to accept, every one before it heard; the nodes that hold and have saved the successor are exactly those, and the failed one if and only if it accepted and its reply was lost; all others are untouched |
| `DocumentProposal.ProposeSkipping` | crates/djbod-client/src/admin.rs:269-373 | whichever requests and replies are lost the call is a run of the machine; each refusal before applying is given exactly when it is so; after that the result gives exactly the nodes that took the successor, one more than reported if and only if the failed node accepted and only its reply was lost |
| `DocumentProposal.Sync` | crates/djbod-client/src/admin.rs:387-433 | pushes the newest document among the seed's and its members' answers; refused, naming the two, exactly when two members asked hold different documents at one version; otherwise each member is reported by its fate: current if it answered with that version, updated if and only if request and reply arrived and it accepts, unreachable in every other case; and after it exactly the members the push reached and that accept hold the document, heard or not |
| `DocumentProposal.MembersTakeOnce` | crates/djbod-client/src/admin.rs:416-431 | a valid document names each member once, so a push is never met by one before it |
| `Ulid.DecodeChar` | crates/djbod-core/src/version.rs:22-32 | the digit whose letter the character is in upper case, or none if no digit has it |
| `Ulid.ToText` | crates/djbod-core/src/version.rs:34-44 | the 26-digit base-32 text |
| `Ulid.FromText` | crates/djbod-core/src/version.rs:48-61 | returns exactly the value whose text is the argument in upper case; refuses exactly the texts no 128-bit value has |
| `Ulid.TextOrder` | crates/djbod-core/src/version.rs:34-61 | text order is numeric order and text is injective |
| `Ulid.TextIsReadable` | crates/djbod-core/src/version.rs:48-61 | every value's text is accepted and is its own upper case |
| `Ulid.VersionGenerator.Next` | crates/djbod-node/src/ulid.rs:32-55 | the upper 48 bits are the later of the clock and the last, the lower 80 the bytes drawn if the clock advanced and else one on from the last; the identifier exceeds the last if and only if the 80-bit part did not wrap |
| `Ulid.GeneratorOrder` | crates/djbod-node/src/ulid.rs:32-55 | over any clock readings, backward steps included, the identifiers strictly increase if and only if the random part never wraps |
| `Ulid.IssuedTime` | crates/djbod-node/src/ulid.rs:32-55 | the time in an identifier is the latest the clock has shown over all calls so far |
| `Geometry.CeilDivMeans` | crates/djbod-core/src/shardfile.rs:114-130 | the ceiling is the one number of pieces that reaches and would not with one fewer |
| `Geometry.ShardHoldsItsShare` | crates/djbod-core/src/shardfile.rs:114-130 | for every size the blocks of one shard total exactly ceil(size / k), the last of 1 to B bytes |
| `Erasure.NewScheme` | crates/djbod-core/src/erasure.rs:56-74 | a scheme is accepted exactly within the limits; the last refusal is unreachable |
| `Erasure.ComputeParity` | crates/djbod-core/src/erasure.rs:170-198 | refuses exactly a wrong number or unequal or empty blocks; otherwise gives the parity of the codeword |
| `Erasure.LayOut` | crates/djbod-core/src/erasure.rs:207-237 | lays present blocks out by index, refusing exactly out-of-range or repeated indices and unequal lengths |
| `Erasure.Reconstruct` | crates/djbod-core/src/erasure.rs:202-276 | refuses exactly when an index or length is wrong or fewer than k blocks are present for a missing one; otherwise, from genuine blocks, gives the wanted blocks; no `expect` in it can fail |
| `Stripe.DataBlocksJoin` | crates/djbod-core/src/stripe.rs:134-144 | joining the padded data blocks and cutting to length gives the stripe back |
| `Stripe.StripeWordShape` | crates/djbod-core/src/stripe.rs:108-145 | k + m blocks, all of length ceil(len / k) |
| `Stripe.EncodeStripe` | crates/djbod-core/src/stripe.rs:116-158 | refuses exactly the empty and the oversized stripe; otherwise the labelled codeword of the padded stripe |
| `Stripe.NoteRequested` | crates/djbod-core/src/stripe.rs:187-197 | refuses exactly out-of-range or repeated requests |
| `Stripe.IndexReceived` | crates/djbod-core/src/stripe.rs:199-212 | refuses exactly unrequested or repeated blocks |
| `Stripe.DecodeStripe` | crates/djbod-core/src/stripe.rs:175-273 | the outcome follows the set of blocks with right length and checksum alone; exactly the other shards asked for are the faults, each with what is wrong with it; too few always leave one to name; data delivered is the stripe written |
| `ShardFile.NumberOf` | crates/djbod-core/src/shardfile.rs:194-212 | little-endian words read back |
| `ShardFile.EncodeHeader` | crates/djbod-core/src/shardfile.rs:225-244 | the page written field by field in place is the header page of the layout, checksum over itself with its own bytes zeroed |
| `ShardFile.HeaderRoundTrip` | crates/djbod-core/src/shardfile.rs:223-287 | every header reads back from its page |
| `ShardFile.EncodeFooter` | crates/djbod-core/src/shardfile.rs:296-319 | the buffer filled in place is the footer, table and trailer of the layout |
| `ShardFile.TableRoundTrip` | crates/djbod-core/src/shardfile.rs:311-344 | every checksum table reads back |
| `ShardFile.FooterRoundTrip` | crates/djbod-core/src/shardfile.rs:296-352 | every footer reads back |
| `ShardFile.ShardFileWriter.AppendBlock` | crates/djbod-core/src/shardfile.rs:415-446 | takes exactly a block of this shard, of 1 to B bytes, after whole blocks only, with a matching checksum; otherwise nothing changes |
| `ShardFile.ShardFileWriter.Finish` | crates/djbod-core/src/shardfile.rs:455-498 | refused exactly when the blocks are not what an object of this size leaves on a shard; otherwise the file is the finished layout, of exactly the reserved length even over a preallocation |
| `ShardFile.FinishedFileOpens` | crates/djbod-core/src/shardfile.rs:512-597 | a finished file passes every check `open` makes and gives header and footer back |
| `ShardFile.OpenedIsSound` | crates/djbod-core/src/shardfile.rs:512-597 | whatever opens passes the checksums of header and footer, is filled exactly by header, blocks, footer and trailer, and holds the blocks an object of the recorded size leaves on a shard |
| `ShardFile.FinishedBlockReadsBack` | crates/djbod-core/src/shardfile.rs:612-637 | `read_block(i)` of a finished file is the i-th block with its checksum |
| `ShardFile.FinishedLength` | crates/djbod-core/src/shardfile.rs:102-112 | the finished length is the reserved length, so the trailer invariant holds on a preallocated file |
| `ObjectWrite.Stripes` | crates/djbod-node/src/coordinator.rs:2004-2036 | the body cut into full stripes and a last one of at least a byte; joined they are the body |
| `ObjectWrite.CutUnique` | crates/djbod-node/src/coordinator.rs:2004-2036 | there is only one such cut, so the framing cannot matter |
| `ObjectWrite.GeometryAgrees` | crates/djbod-node/src/coordinator.rs:2004-2036 | for every body the blocks of each shard are exactly those the geometry predicts, so `finish` never refuses a correct coordinator |
| `ObjectWrite.BufferFrame` | crates/djbod-node/src/coordinator.rs:2004-2016 | one frame's bytes through the stripe buffer: whole stripes sent, the rest kept |
| `ObjectWrite.StreamBody` | crates/djbod-node/src/coordinator.rs:1956-2079 | succeeds exactly on a complete body of the declared size, however framed; then every shard was sent its blocks and the checksum is the body's |
| `ObjectWrite.ReceiveShard` | crates/djbod-node/src/local_ops.rs:627-835 | accepts exactly a stream that makes up a whole shard of the announced size, and then the file is the finished one for those blocks |
| `ObjectRead.OpenShards` | crates/djbod-node/src/coordinator.rs:1230-1283 | partitions the indices into open and unreadable; fails exactly when a node answers wrongly |
| `ObjectRead.OpenFirst` | crates/djbod-node/src/coordinator.rs:1372-1417 | at least k streams are open or the read is refused, and why; parity is opened exactly when a data shard does not open |
| `ObjectRead.ReadStripeBlocks` | crates/djbod-node/src/coordinator.rs:1160-1211 | one block from each stream under the stream's index, or the failure of one that ended early |
| `ObjectRead.DecodeFrom` | crates/djbod-node/src/coordinator.rs:1444-1531 | decoding what the streams gave is never refused, and too few good blocks always leave a fault to index |
| `ObjectRead.ReadStripe` | crates/djbod-node/src/coordinator.rs:1435-1531 | delivers if and only if every stream held has its block and either all are good, or parity answers where it was not held yet and at least k of all shards have a good block; parity is opened exactly at the first damage, and the data is the stripe written |
| `ObjectRead.GetObject` | crates/djbod-node/src/coordinator.rs:1321-1620 | whatever is delivered has the recorded size and checksum; the body is delivered if and only if every stripe has at least k good shards, no data stream ends early or without its end, and no parity stream does from the first damaged stripe on; and then it is the body written; otherwise the error names what went wrong at some stripe |
| `ObjectRead.FinishedFileServes` | crates/djbod-node/src/local_ops.rs:852-940 | a finished file is served as the blocks it was made of |
| `ObjectRead.StreamCompletes` | crates/djbod-node/src/coordinator.rs:2081-2106 | what the coordinator sends each node makes up a whole shard, its blocks the shard's column |
| `ObjectRead.LossLeavesEnough` | crates/djbod-node/src/coordinator.rs:1413-1417 | at most m lost blocks in a stripe leave k good ones |
| `ObjectRead.UntouchedSurvive` | crates/djbod-node/src/local_ops.rs:852-940 | shards nothing has happened to meet the conditions of the round trip, and their streams hold out |
| `ObjectRead.OneBadSector` | crates/djbod-node/src/local_ops.rs:895-935 | for every code with parity: all shards as written but for one data block its device fails to read is a single lost block, and the read fails |
| `ObjectRead.OneShardGone` | crates/djbod-node/src/coordinator.rs:1230-1283 | the same shard missing altogether is read around |
| `ObjectRead.ShortFileFails` | crates/djbod-node/src/local_ops.rs:852-940 | a data shard whose file opens with fewer blocks than the object fails the read; one whose file does not open is a missing shard |
| `ObjectRead.PutThenGet` | crates/djbod-node/src/coordinator.rs:1956-2106 | for every body, framing, scheme and block size, put stores every shard, and from any shards left after at most m losses per stripe get delivers exactly the body, if and only if the streams hold out to their ends |
| `Records.Validate` | crates/djbod-core/src/record.rs:258-308 | accepts exactly the valid records: one entry per index, one per device, the scheme, block size and key hash right |
| `Records.LookupsInverse` | crates/djbod-core/src/record.rs:317-334 | on a valid placement `device_for` and `shard_on` are inverse |
| `Records.FindMissing` | crates/djbod-node/src/coordinator.rs:532-551 | the listed devices without a current copy, once each as the record lists them, each with whether an older one is there and its highest revision |
| `Records.TrustVersion` | crates/djbod-node/src/coordinator.rs:486-566 | succeeds exactly when the copies name the key and those at the highest revision are one record on devices it lists; another key is told from disagreement; the vouching count is the number of copies of the record's own body |
| `Records.VouchersExactly` | crates/djbod-node/src/coordinator.rs:557-560 | exactly the copies of the record's body vouch, whatever their revision, and never one of another body |
| `Records.AgreementUnique` | crates/djbod-node/src/coordinator.rs:505-531 | at most one record can be agreed on, in whatever order the copies come |
| `Records.TrustedVersions` | crates/djbod-node/src/coordinator.rs:475-568 | every version there is a copy of, newest first, or a refusal exactly if one of them does not agree |
| `Records.VersionsExcluding` | crates/djbod-node/src/coordinator.rs:437-469 | also requires every listed copy from the devices that were read |
| `Records.NewestReadable` | crates/djbod-node/src/coordinator.rs:628-723 | succeeds exactly when the copies of every version agree and at least k vouch for the newest; too few copies exactly when fewer do; nothing in view is not found, or an outage once k + m devices are out |
| `Replacement.StepKeeps` | crates/djbod-node/src/coordinator.rs:2997-3068 | every single write of a move, a repair or a crash keeps the placement invariant |
| `Replacement.WriteAllowed` | crates/djbod-core/src/device.rs:465-486 | no record write of a move or repair is ever refused by a device |
| `Replacement.CoreReadable` | crates/djbod-node/src/coordinator.rs:628-723 | under the invariant, with any m devices out and copies in any order, read trust finds a record, at least k vouching copies and at least k of its shards |
| `Replacement.ReplacementSafety` | crates/djbod-node/src/coordinator.rs:2919-3068 | so it is after every step of every run of moves and repairs, complete or interrupted anywhere |
| `Replacement.VouchersCounted` | crates/djbod-node/src/coordinator.rs:557-560 | distinct devices that vouch are each counted |
| `Replacement.MoveWithDevicesOut` | crates/djbod-node/src/coordinator.rs:2919-2925 | why a move must see every device: begun with some out, its first record copy leaves the copies agreeing if and only if no unfinished move was hidden, or the same one is repeated |
| `MoveAndRepair.Cluster.RewriteCopies` | crates/djbod-node/src/coordinator.rs:2278-2313 | writes the record to each device in turn, as many as the coordinator lives to write and no other change; a run of the machine that, finished, has settled the placement |
| `MoveAndRepair.Cluster.DeleteVersion` | crates/djbod-core/src/device.rs:557-587 | record first, then each shard file, as many as the coordinator lives to delete; done exactly when it lives for all, and then nothing of the version is left there; no other device changes |
| `MoveAndRepair.Cluster.MoveShard` | crates/djbod-node/src/coordinator.rs:2919-3068 | refused exactly on an unfinished placement, a bad index or a listed destination; finished exactly when the coordinator lives to make every write, and then the record is the old one but for the one shard's place and the revision, each device of the placement has it, the destination the shard, the source nothing, and no other device changed |
| `MoveAndRepair.Cluster.RepairRecords` | crates/djbod-node/src/coordinator.rs:2316-2345 | never refused; finished exactly when the coordinator lives to make every write, and then the record at the highest revision is settled and on each of its devices, no other device has a copy, and those that had one have no shard either |
| `Scrub.ClassifyGroup` | crates/djbod-node/src/coordinator.rs:4172-4208 | inconsistent exactly when the copies do not agree on a record whose expected copies are all there; otherwise whole exactly when every shard is on a device read, unreadable when fewer than k are, and degraded in data or in parity alone by whether a data shard is not |
| `Scrub.CheckGroup` | crates/djbod-node/src/coordinator.rs:4649-4741 | a count exactly when the copies agree, of exactly the shards neither out nor damaged; each finding reported exactly when it is so; none exactly when the version is clean |
| `Scrub.DegradedIsReadable` | crates/djbod-node/src/coordinator.rs:4187-4208 | no worse than degraded means at least k vouching copies and at least k shards on devices read |
| `Scrub.JudgeBoth` | crates/djbod-node/src/coordinator.rs:4172-4208 | inventory and scrub agree on every group: inconsistent is no count, otherwise the count is of the shards on devices read and the state follows from which those are; whatever is not unreadable has k copies that vouch |
| `Scrub.NoFilesUnreadable` | crates/djbod-node/src/coordinator.rs:4187-4208 | a version whose devices have its record and no shard files, as every empty object is put, is called unreadable |
| `ObjectRepair.ReadRepairStripe` | crates/djbod-node/src/coordinator.rs:3557-3607 | one block from each live stream; a stream that ends early is let go of, not an error |
| `ObjectRepair.SurveyShards` | crates/djbod-node/src/coordinator.rs:2414-2503 | the first pass, when it succeeds, knows exactly which shards are whole and that their streams ended cleanly; it succeeds whenever at least k are, every stream ends cleanly and the object's checksum is the body's |
| `ObjectRepair.RebuildRows` | crates/djbod-node/src/coordinator.rs:2783-2826 | the second pass, from the whole shards alone, gives exactly the rows of blocks put sent when at least k are whole and their streams end cleanly, and fails otherwise |
| `ObjectRepair.RebuildFiles` | crates/djbod-node/src/coordinator.rs:2742-2872 | rebuilding succeeds exactly when at least k shards are whole and the streams of the whole ones end cleanly, and every file it makes is byte for byte the one put wrote |
| `ObjectRepair.FreshIsWhole` | crates/djbod-core/src/scrub.rs:395-520 | such a file is whole, and a node's own scrub finds nothing damaged in it |
| `RepairPlacement.RelocateLost` | crates/djbod-node/src/coordinator.rs:2583-2640 | the lost shards as listed go to the best ranked devices that hold no shard of the version, none passed over; refused exactly when there are too few |
| `RepairPlacement.RelocatedPlaced` | crates/djbod-node/src/coordinator.rs:2621-2640 | the relocated record is a proper placement on devices in service |
| `Records.RepairableRecord` | crates/djbod-node/src/coordinator.rs:2159-2275 | finds the record exactly when the copies agree, at least k vouch and every older one is of the same body; otherwise the refusal says which of these fails, and it does |
| `RepairScrub.Prepare` | crates/djbod-node/src/coordinator.rs:2349-2540 | everything before the first write: succeeds exactly when there is such a record, at least k of its shards are whole on devices in service and read, and there is a device for every lost one; each error is given only for its own cause |
| `RepairScrub.RepairObject` | crates/djbod-node/src/coordinator.rs:2349-2576 | succeeds exactly when that is so and every write is answered; the files written are the ones put wrote, the record is the agreed one in every field but placement and revision, the revision one on exactly when a shard was lost, and no device refuses; before the first write nothing changes, and stopped at a write exactly the writes that arrived are made |
| `RepairScrub.StoppedShort` | crates/djbod-node/src/coordinator.rs:2540-2556 | wherever a repair stops no whole shard is lost; stopped at a removal there is a record for the next repair to complete towards if and only if at least k of the copies written are not on a device already cleared, and stopped before there always is; an object with a body keeps one wherever it stops |
| `RepairPlacement.RepairableAmong` | crates/djbod-node/src/coordinator.rs:2159-2275 | after every copy was written and any stale devices were cleared, a record can be completed towards if and only if k copies are on devices not cleared |
| `RepairScrub.RepairedLeavesRecord` | crates/djbod-node/src/coordinator.rs:2375-2556 | after a successful repair there is such a record if and only if at most m of the devices chosen for lost shards held a stale copy; an object with a body always meets that |
| `RepairCases.LosesEmptyObject` | crates/djbod-node/src/coordinator.rs:2375-2394 | an empty object coded 2+0, one shard moved with its source left behind and the target lost: the repair succeeds and no record is left to complete towards |
| `RepairPlacement.CleanAfterRepair` | crates/djbod-node/src/coordinator.rs:2530-2556 | after a successful repair the version is clean for the scrub if and only if none of the best ranked eligible devices, one for each lost shard, holds a stale copy |
| `RepairPlacement.InterruptedMoveThenLoss` | crates/djbod-node/src/coordinator.rs:2530-2556 | such a device is real: after an interrupted move and the loss of its target a repair rebuilds onto the source and then removes what it rebuilt |
| `RepairScrub.DamageLeft` | crates/djbod-core/src/scrub.rs:163-330 | after a repair the nodes find a shard index damaged if and only if, before it, some device in service that is neither cleared of the version nor written that shard held a damaged file of it |
| `RepairScrub.ScrubAfterRepair` | crates/djbod-node/src/coordinator.rs:4649-4741 | then `check_group` reports no finding; with a body all k + m shards are available if and only if no such device held a damaged file of a listed shard before the repair; an empty object has no files and none available |
| `RepairCases.OrphanKeepsCountLow` | crates/djbod-node/src/coordinator.rs:3762-3776 | every listed shard whole and a cut-short file of one of them on a third device: the repair succeeds, the scrub has no finding, and yet not all shards count as available |
| `Listing.PageOfKeys` | crates/djbod-node/src/local_ops.rs:592-610 | the longest prefix within the count and byte limits, never empty for a non-empty list, a limit of zero read as one |
| `Listing.Collect` | crates/djbod-node/src/local_ops.rs:532-578 | the node's entries under the prefix, sorted, each key and version once, as the flat definition has them |
| `Listing.LocalList` | crates/djbod-node/src/local_ops.rs:532-590 | a sorted page of matching entries, the first part of all of them; whatever matches and is not on it comes after its last |
| `MergedListing.MergePages` | crates/djbod-node/src/coordinator.rs:1002-1045 | every entry on a page is covered by the merged map, which holds only such, and the horizon is past no page that has more |
| `MergedListing.CutLosesNothing` | crates/djbod-node/src/coordinator.rs:1046-1056 | cutting at the horizon and at the page end loses no key that the next page will not ask for |
| `MergedListing.LeavesOutIff` | crates/djbod-node/src/local_ops.rs:592-610 | a page leaves out a version of its last key if and only if the next entry has that key |
| `MergedListing.NewestUnlessCutOff` | crates/djbod-node/src/coordinator.rs:1034-1056 | the entry listed for a key is the newest version seen if and only if no node in reach, its page ending inside the key, leaves out one newer than all on a page |
| `MergedListing.NewestWithOneVersionEach` | crates/djbod-node/src/coordinator.rs:1034-1056 | where every node has at most one version of each key the entry listed is the newest seen, whatever the page sizes |
| `MergedListing.ListKeys` | crates/djbod-node/src/coordinator.rs:994-1065 | a page of keys in order, each once, with no gap before its last key; truncated exactly when a node has more or a key is still to come, and never empty then; it ends where it is full or a node's page ends; each entry the newest seen exactly under that condition; exactly the unread devices named, each once, and complete exactly when fewer than k + m are |
| `MergedListing.ListAll` | crates/djbod-client/src/client.rs:458-486 | for any limit the loop ends and returns exactly the sorted union of the keys seen under the prefix, each once, the newest seen exactly under that condition at its page; every unread device is named once, and it is complete exactly when fewer than k + m are, when every key with k + m copies is there |
| `MergedListing.CompleteSeesEveryKey` | crates/djbod-node/src/coordinator.rs:1057-1058 | while fewer devices are unread than a version has copies every key is seen |
| `ListingCases.CutBetweenVersions` | crates/djbod-node/src/coordinator.rs:994-1065 | for any key with more versions on one node than a page holds, by count or, with no limit as `list_all` sends it, by bytes: `list_keys` and `list_all` give an older one and never the newest |
| `KeyHash.DirectoryOrder` | crates/djbod-core/src/keyhash.rs:13-39 | directory names in hex sort as the hashes and as the numbers they spell |
| `CursorWalk.WalkOrdered` | crates/djbod-core/src/device.rs:612-688 | the directory walk is strictly increasing in key hash, then version |
| `CursorWalk.ParseRecordFileName` | crates/djbod-core/src/layout.rs:54-58 | gives a version exactly for its text in either case followed by the suffix |
| `CursorWalk.NamesOrderVersions` | crates/djbod-core/src/layout.rs:35-38 | record files sorted by name are sorted by version |
| `CursorWalk.VisitFiles` | crates/djbod-core/src/device.rs:648-683 | the innermost loop takes exactly the readable records past the cursor, stopping only where a page is full |
| `CursorWalk.VisitKeys` | crates/djbod-core/src/device.rs:641-684 | skipped key directories hold nothing past the cursor |
| `CursorWalk.VisitSeconds` | crates/djbod-core/src/device.rs:634-685 | so do skipped second-level directories |
| `CursorWalk.LocalRecords` | crates/djbod-node/src/local_ops.rs:431-487 | a page is what the full walk has past the cursor or a non-empty first part of it, within the frame, truncated exactly when something is left, and then only where the next record does not fit |
| `CursorWalk.DeviceStream.Next` | crates/djbod-node/src/coordinator.rs:4267-4299 | one by one the records of the full walk, then nothing more |
| `CursorWalk.ReadAll` | crates/djbod-node/src/coordinator.rs:4254-4299 | fetching page after page ends and concatenates to the full walk, every readable record once |
| `Merge.TakeGroup` | crates/djbod-node/src/coordinator.rs:4097-4114 | the group at the smallest head has exactly one copy from each source that holds the version |
| `Merge.Turn` | crates/djbod-node/src/coordinator.rs:4090-4144 | one turn judges the next version of the flat order and moves exactly its streams on |
| `Merge.MergeStreams` | crates/djbod-node/src/coordinator.rs:4069-4144 | the merge ends having visited every distinct version exactly once in increasing order; a failed stream is unread only for versions after its failure |
| `Merge.MergeInventory` | crates/djbod-node/src/coordinator.rs:4069-4162 | and the counts are the numbers of versions in each state, adding up to the versions checked |
| `Merge.InventoryCounts.Note` | crates/djbod-node/src/coordinator.rs:4034-4045 | each count is the number of versions noted in that state |
| `Merge.CountsAddUp` | crates/djbod-node/src/coordinator.rs:4034-4059 | the five counts always sum to the versions checked |
| `DeviceInventory.SourcesMeetMerge` | crates/djbod-node/src/coordinator.rs:4061-4096 | the streams of any devices, whole or failing part way, are in the order the merge needs |
| `DeviceInventory.Inventory` | crates/djbod-node/src/coordinator.rs:4020-4162 | from the devices' directories: every version of which a stream yields a record is visited once, in order, and counted in one state; unread are exactly the devices not opened or failed |
| `Availability.CrossCheckOutcome.Count` | crates/djbod-node/src/coordinator.rs:4568-4578 | a version is counted in its bucket; each bucket counts at least the damaged keys mapped to it |
| `Availability.CrossCheckOutcome.NoteRepaired` | crates/djbod-node/src/coordinator.rs:4360-4375 | one version moves to whole, no count underflows and the total stays |
| `Availability.CrossCheckOutcome.NoteAllRepaired` | crates/djbod-node/src/coordinator.rs:4360-4375 | so for any sequence of repairs, and exactly the keys not among them stay damaged |
| `PutDurability.Put.DeleteVersion` | crates/djbod-node/src/local_ops.rs:1003-1043 | deleting removes the version from the device in full and keeps every state on the way safe |
| `PutDurability.Put.WriteRecords` | crates/djbod-node/src/coordinator.rs:2108-2132 | once every copy is written the new version is durable; the first request that does not go well ends it and leaves the others untouched |
| `PutDurability.Put.Abort` | crates/djbod-node/src/coordinator.rs:1689-1703 | an abort touches only the new version, goes on after failures, and removes it exactly where every request went through |
| `PutDurability.Put.Run` | crates/djbod-node/src/coordinator.rs:1705-1789 | after every single write, whatever fails or wherever it stops, the previous versions are untouched or the new one is on all its devices; stored exactly when every request goes well, and then the older ones are gone from every device not removed; aborted exactly when a write fails, and cleanup failed exactly when a deletion does, the coordinator living on |

## Left out

- Forced removal or address adoption that skips the first listed node: the agreement
  theorems do not cover it; `SkippingTheFirstMemberForks` shows why.
- ClusterDocument.Validate: does not model the syntax of names, labels and addresses
  nor the headroom fraction; the uniqueness and reference rules are whole.
- The choice of devices by free space: eligible devices come ranked as an input.
- Concurrent puts of one key, and reading the old version after a coordinator died
  part way through the new records.
- The order in which nodes finish their shards of one put: `PutDurability` finishes
  them device by device, and a node that finishes after an abort is not modelled.
- The `remove_device` race with a write in flight, and reviving a device.
- SHA-256, XXH3, CBOR and JSON: hashes and encoded sizes are functions given as
  parameters.
- Arithmetic in `GF(2^8)`.
- TLS, sockets, timeouts, rate limits, fsync and tracing.
- The reconstruction list, progress and per-key events in the ends of streams, and
  the exposure counts.
- `merge_sources`, the scrub's own merge loop: it differs from `merge_inventory` in
  stopping at a failure other than an unavailable device; its per-group check and its
  counting are modelled.
- Replacement.StepKeeps: a shard is whole or absent; damage inside a shard file and
  rebuilding it belong to `RepairScrub`, and devices lost for good to its relocations.
- RepairScrub.RepairObject: nothing changes on the devices between its two passes;
  losing the nodes while they are read is one flag, without saying which.
- DocumentProposal.ProposeSkipping: nothing happens between the messages of one call;
  calls interleaved in every way are the runs of `DocumentAgreement`.
- CursorWalk.LocalRecords: directories with records that lie elsewhere than their hash
  and version say, or under a lower-case name, and stray directories of other names,
  are not covered.
- ClusterDocument.CheckAddresses: does not model the parsing of addresses.
- PutDurability.Put.Run: starts once the body is complete; an upload abandoned
  before that has written only temporary files.
- Listing.Collect: sorting is insertion with duplicates dropped, in place of the
  library sort followed by a pass that drops them.
- MoveAndRepair.Cluster.RepairRecords: the record part only, with every device in
  service.
- Drain, device contents, rebalancing and the other commands built on these.
