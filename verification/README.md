# A model of a Snapchain node in Dafny

The project models the parts of a Snapchain (Farcaster) node where order, quorums and bookkeeping
decide correctness, and proves what holds of them on all inputs and over all runs.

- **Consensus and commit.** `ValidatorSets` builds the sorted validator list, picks the list that governs a
  height and rotates the proposer. `Certificates` is the quorum check on commit signatures.
  `ReadValidator` is a read node: values arrive in any order, are checked, buffered past a gap and
  committed by height. `Delivery` gives a reference for what such a node must hold, `Agreement` relates
  two nodes. `ProposedValues` is the proposer's pair of maps, `ShardValidator` a validator that crashes
  and proposes again from its local store.
- **Mempool and block-event feed.** `MempoolKeys` holds the keys, their order and the routing,
  `Mempool` the pools with insert, pull, remove and poll, `MempoolRuns` what holds over every run of them.
  `BlockReceiver` is the feed that fetches missing block events before it submits a block.
- **Indexers and API.** `SocialKeys`, `SocialPaging`, `SocialEffects`, `SocialGraph`, `SocialHistory` and
  `SocialCounts` are the follow indexer: key bytes, pages, what a link message does to a store, the indexer that
  does it through a write batch, what rows and counters tell about past messages, and when counters are exact. `Channels` is the channel indexer, `Backfill` the block replay that
  feeds indexers from their checkpoints, `Conversations` the reply tree.
- **Shared.** `Orders`, `Bytes`, `Heights`, `Options` and `Txn` hold strict orders and sorted listings,
  byte order with big-endian and decimal text, block heights, options, and the write batch laid over a store.

Objects that the node updates in place are classes; their methods are proved against functions on values, and the
run-level lemmas are about those functions. Some promises of the code do not hold on every input. For
most of them the exact condition under which they hold is proved, as an if-and-only-if:

- the validator list depends on the order of addition unless records agree (`ValidatorSets.AnyOrder`);
- the governing set can be one that is not in force for the shard (`ValidatorSets.GoverningInForce`);
- a full buffer loses deliveries (`Delivery.LongestRun`);
- a value proposed again at a later height is lost (`ProposedValues.FoundIff`, and for one lookup `ProposedValues.LookupIff`);
- a proposal is repeated after a crash only if it was recorded (`ShardValidator.RepeatsIffRecorded`);
- block events order by decimal text, so 10 comes before 9 (`MempoolKeys.BlockEventRank`);
- different messages can share a key and then exclude each other (`MempoolKeys.SharedKeyIff`, `MempoolRuns.DuplicateIff`);
- a comment says revocations are never rate limited; the quota limiter can refuse them (`Mempool.RevocationLimited`);
- a poll can take the pool past its capacity (`MempoolRuns.WithinCapacityIff`), by at most a bound that some run reaches (`MempoolRuns.NeverOverBound`, `MempoolRuns.BoundReachable`);
- the feed walks on past a block that fails validation (`BlockReceiver.GapFreeIff`, and over runs `BlockReceiver.RunGapFreeIff`);
- counters drift on repeated follows and on long or repeating compact lists (`SocialCounts.CountersExactIff`);
- a page limit of zero yields no cursor (`SocialPaging.PagingComplete`);
- the block replay loses blocks to the store's exclusive stop height, to the batch a checkpoint cuts and
  to the first failed read, and sets all checkpoints past them (`Backfill.CompleteIff`, `Backfill.LastBlockMissed`);
  the `inclusive` parameter of the replay is false for the store as it is;
- `total_replies` counts replies that are not shown once the limit is reached (`Conversations.GrowWithinLimits`).

One promise lacks a check in the node: nothing compares a value's commits with its header, although the node holds
both. For values whose commits and header agree (`Agreement.Bound`), `Agreement.Divergence` proves that two nodes can
commit different hashes at a height only if more than a third of its validators precommitted both.
`Agreement.UnboundDivergence` shows that without that agreement every certified value and every other hash give a divergence.

## Model

| member | source | states |
|---|---|---|
| `ValidatorSets.ValidatorSet.constructor` | src/core/types.rs:323-330 | Built from any list, the set has one shard and strictly ascending addresses, so no address twice. |
| `ValidatorSets.ValidatorSet.Add` | src/core/types.rs:332-346 | Keeps that invariant; reports true exactly when the validator is newly in the list; refuses a known address or another shard. |
| `ValidatorSets.AddedWellFormed` | src/core/types.rs:332-346 | One addition keeps the invariant, and the members afterwards are the old ones plus the new one if it was acceptable. |
| `ValidatorSets.FromListWellFormed` | src/core/types.rs:323-330 | For every list the result is well formed, holds only listed validators and always the first one. |
| `ValidatorSets.ConsistentKeepsAll` | src/core/types.rs:323-346 | When records agree on shard and address, exactly the listed validators are kept. |
| `ValidatorSets.AnyOrder` | src/core/types.rs:323-346 | Every reordering of a list gives the same set if and only if no two records differ in shard or share an address while differing elsewhere. |
| `ValidatorSets.ConfiguredKeys` | src/consensus/validator.rs:53-71 | A configured set lists each configured key once in ascending order, whatever the order and repetition in the configuration. |
| `ValidatorSets.GetValidatorSet` | src/consensus/validator.rs:33-44 | Returns the set that decides for the shard and height, told by the fields of the sets: the latest in force, with the first set standing in where none later than it is. |
| `ValidatorSets.ChosenBounds` | src/consensus/validator.rs:33-44 | The choice is the first set or an eligible later one, and no eligible set seen took effect later. |
| `ValidatorSets.ChosenDecides` | src/consensus/validator.rs:33-44 | For all sets, shards and heights exactly one set decides, and it is the chosen one. |
| `ValidatorSets.GoverningInForce` | src/consensus/validator.rs:33-44 | The chosen set is the latest one in force for the shard if and only if the first set is in force for it or some set in force took effect after the first. |
| `ValidatorSets.FairRotation` | src/core/types.rs:518-538 | Any n consecutive rounds at one height, and any n consecutive heights at one round, select each of the n validators exactly once. |
| `ValidatorSets.ResidueOnce` | src/core/types.rs:518-538 | A window of n consecutive numbers meets each residue exactly once. |
| `ValidatorSets.TurnPasses` | src/core/types.rs:518-538 | The first validator proposes at height 1 in round 0, and each further round or height passes the turn to the next of the list, in a circle. |
| `Certificates.Contains` | src/core/util.rs:102-142 | The consuming search stops right after the first match or at the end of the keys. |
| `Certificates.VerifySignatures` | src/core/util.rs:102-142 | Accepts exactly when there is a quorum of the validators of the set that decides for the certificate's height: more than two thirds, ascending, all members, each with a verified precommit. |
| `Certificates.AcceptedIff` | src/core/util.rs:102-142 | Against a sorted list, acceptance means: signers strictly ascending, hence distinct, all members, more than two thirds, all with valid precommits for the value. |
| `Certificates.FoundMembers` | src/core/util.rs:102-142 | Signers found in turn in an ascending list are ascending members. |
| `Certificates.AscendingFound` | src/core/util.rs:102-142 | Ascending members are always found in turn. |
| `Certificates.QuorumIff` | src/core/util.rs:102-142 | Against the addresses of any well-formed validator list, acceptance and a quorum of that list are the same. |
| `Certificates.AcceptedByQuorum` | src/core/util.rs:102-142 | Against all configured sets, acceptance is a quorum of the one set that decides for the certificate's height. |
| `Certificates.AcceptedSigners` | src/core/util.rs:102-142 | The signers of an accepted certificate are more than two thirds of the list as a set, each with a verified precommit. |
| `Certificates.QuorumsIntersect` | src/core/util.rs:102-142 | Two certificates accepted against one list share more than a third of it, and those validators precommitted both values. |
| `ReadValidator.ReadNode.constructor` | src/consensus/read_validator.rs:34-40 | Starts at the confirmed height with an empty buffer. |
| `ReadValidator.ReadNode.CommitDecidedValue` | src/consensus/read_validator.rs:49-79 | Appends the value to what the engine holds and moves the last height to it. |
| `ReadValidator.ReadNode.ProcessBufferedBlocks` | src/consensus/read_validator.rs:81-95 | The pop loop drains the buffer as the reference does and counts what it commits. |
| `ReadValidator.ReadNode.ProcessDecidedValue` | src/consensus/read_validator.rs:152-194 | Keeps the node's invariant, takes it to the state the reference step gives, and returns how many heights it advanced. |
| `ReadValidator.DrainRun` | src/consensus/read_validator.rs:81-95 | Draining commits exactly the unbroken run of buffered heights above the last one and leaves exactly the rest. |
| `ReadValidator.SafeRun` | src/consensus/read_validator.rs:34-194 | Over every run with restarts: committed heights are consecutive, the buffer stays beyond the gap and within its limit, and everything held was delivered and passed the checks. |
| `ReadValidator.AppendOnly` | src/consensus/read_validator.rs:49-79 | Later events only extend what was committed. |
| `Delivery.StillStep` | src/consensus/read_validator.rs:152-194 | A delivery that does not fill the gap leads to the reference state if and only if it does not overflow the buffer. |
| `Delivery.NextStep` | src/consensus/read_validator.rs:152-194 | A delivery that fills the gap leads to the reference state. |
| `Delivery.LongestRun` | src/consensus/read_validator.rs:152-194 | After every prefix of deliveries in any order the node has committed the longest unbroken run and buffers the latest delivery of every later height, if and only if no delivery overflows the buffer. |
| `Delivery.OnlyPassingCount` | src/consensus/read_validator.rs:109-194 | Values that fail the checks have no effect at all. |
| `Delivery.AdmitCases` | src/consensus/read_validator.rs:152-194 | By shard and block number: a checked value at or below the last height or of a lower shard is dropped, the next one is committed, one further on or of a higher shard is buffered while there is room. |
| `Agreement.Divergence` | src/consensus/read_validator.rs:109-119 | If two nodes with the same validator sets commit different hashes at one height, each bound to its certificate, more than a third of the set that decides for that height precommitted both. |
| `Agreement.Agree` | src/consensus/read_validator.rs:49-119 | Without such a double vote, any two runs agree on the hash of every height both committed. |
| `Agreement.CommittedCertified` | src/consensus/read_validator.rs:109-194 | Over every run, whatever a node commits was delivered with a quorum of the set that decides for its certificate's height, and blocks with the protocol version of their time and chain. |
| `Agreement.NextCommittedIff` | src/consensus/read_validator.rs:109-194 | After every run, the value the node waits for is committed on delivery if and only if it is so certified. |
| `Agreement.ChecksIgnoreContent` | src/consensus/read_validator.rs:109-150 | The checks do not depend on the header height, hash or payload. |
| `Agreement.UnboundDivergence` | src/consensus/read_validator.rs:109-194 | For every certified next value and every other hash, another node commits a value with that hash on the same certificate. |
| `ProposedValues.Values.AddProposedValue` | src/consensus/proposer.rs:75-87 | Records the value under its hash and the hash under its height. |
| `ProposedValues.Values.GetByShardHash` | src/consensus/proposer.rs:89-91 | After any history a lookup finds the latest proposal of the hash not decided past, unless a decision at a lower height took it along, and never anything else. |
| `ProposedValues.Values.DecideHeight` | src/consensus/proposer.rs:93-110 | Drops every height up to the decided one and every hash listed there. |
| `ProposedValues.HeightsUpTo` | src/consensus/proposer.rs:93-110 | The ordered traversal that stops early yields exactly the heights not above the decided one. |
| `ProposedValues.ListedIffOpen` | src/consensus/proposer.rs:62-110 | A hash is listed at a height exactly when it was proposed there and no decision since reached it. |
| `ProposedValues.MapsAgree` | src/consensus/proposer.rs:62-110 | After every sequence of operations each stored value is filed under its hash and its hash is listed at its height. |
| `ProposedValues.NothingLeftBelow` | src/consensus/proposer.rs:93-110 | After a decision neither map holds anything at or below it. |
| `ProposedValues.DecideStep` | src/consensus/proposer.rs:93-110 | One decision keeps exactly the values above it if and only if no such value's hash is also open at or below it. |
| `ProposedValues.FoundIff` | src/consensus/proposer.rs:62-110 | After every prefix the store finds exactly the values not decided past, if and only if no decision meets such a collision. |
| `ProposedValues.LookupIff` | src/consensus/proposer.rs:62-110 | For every history and hash, what is stored is the latest undecided proposal, and it is missing exactly when a decision since met the hash open at or below its height. |
| `ProposedValues.OneHeightFound` | src/consensus/proposer.rs:62-110 | Nothing is lost when each hash is proposed at one height only. |
| `ProposedValues.ReproposedValueLost` | src/consensus/proposer.rs:93-110 | A value proposed again one height later is lost when its first height is decided. |
| `Bytes.IncrementPrefix` | src/api/social_graph.rs:385-397 | The carry loop computes the increment of the same length; a prefix of only 255s wraps to zeros. |
| `Bytes.IncrementVec` | src/storage/util.rs:33-58 | The carry loop that grows: agrees with the other increment unless all bytes are 255, where it puts a one in front of zeros. |
| `Bytes.ExtendedVal` | src/storage/util.rs:33-58 | It is the next big-endian number for every input. |
| `Bytes.IncrementedVal` | src/api/social_graph.rs:385-397 | Unless all bytes are 255, the increment is the next big-endian number of the same length. |
| `Bytes.PrefixRange` | src/api/social_graph.rs:385-397 | Unless all its bytes are 255, the range from a prefix to its increment holds the keys that extend it and, besides, exactly the shorter keys that are the increment of a head of it followed only by 255s. |
| `Bytes.LongKeyInRange` | src/storage/util.rs:33-58 | Among keys at least as long as the prefix the range holds exactly those that extend it. |
| `ShardValidator.KeysDistinct` | src/storage/store/node_local_state.rs:73-84 | Proposal keys tell heights and rounds apart and extend only their own height's prefix. |
| `ShardValidator.RangeExact` | src/storage/store/node_local_state.rs:95-112 | The byte range scanned for a height holds that height's proposals and no others. |
| `ShardValidator.Validator.ProposeValue` | src/consensus/validator.rs:293-324 | Returns the proposal stored for the height and round, whatever would be built, if the store can be read; else, or if none is stored, the built one, which it stores if it can. |
| `ShardValidator.Validator.Decide` | src/consensus/validator.rs:198-246 | Forgets the decided height's proposals, as many as can be deleted, and resets the round. |
| `ShardValidator.Validator.DeleteProposals` | src/storage/store/node_local_state.rs:95-112 | Deletes the proposals of the height and no others, in key order up to the first failed deletion. |
| `ShardValidator.DiskWellKept` | src/storage/store/node_local_state.rs:86-112 | In every run each stored proposal lies under the key of its own height and round. |
| `ShardValidator.StaysOnDisk` | src/consensus/validator.rs:293-324 | A recorded proposal is what is stored until its height is decided. |
| `ShardValidator.NoEquivocation` | src/consensus/validator.rs:293-324 | Across crashes, a validator never emits two values for one height and round before deciding it, given that the first was recorded, no unread overwrite came between, and the later read succeeds. |
| `ShardValidator.RepeatsIffRecorded` | src/consensus/validator.rs:293-324 | After any proposal, also one made after a failed read, asking again yields the same value whatever would be built, if and only if the proposal was written or already on disk. |
| `ShardValidator.DecisionForgets` | src/consensus/validator.rs:198-246 | A decision leaves all other heights' proposals and forgets its own height's if and only if as many deletions succeed as there are entries. |
| `MempoolKeys.LessStrictTotal` | src/mempool/mempool.rs:199-210 | The derived key order is a strict total order. |
| `MempoolKeys.BlockEventRank` | src/mempool/mempool.rs:263-268 | Of two block events with one timestamp the smaller number comes first if and only if it is at most the larger cut to as many digits. |
| `MempoolKeys.TenBeforeNine` | src/mempool/mempool.rs:263-268 | Event 10 is ordered before event 9. |
| `MempoolKeys.SharedKeyIff` | src/mempool/mempool.rs:231-330 | Two messages of any kinds share a key if and only if they share an origin: user hash and time, transaction hash, log index and time, or number and time; so an event and its migration twin do, and a name transfer and a block event can. |
| `MempoolKeys.HexInjective` | src/mempool/mempool.rs:231-245 | Hexadecimal text determines the bytes. |
| `MempoolKeys.LogIsNoNumber` | src/mempool/mempool.rs:248-268 | The identity of an on-chain event is never that of a name transfer or block event. |
| `MempoolKeys.RouteFid` | src/mempool/routing.rs:11-20 | A user is routed to one of the shards 1 to n. |
| `MempoolKeys.Route` | src/mempool/mempool.rs:445-486 | Every message has a shard, at most max(2, n) of them, all existing. |
| `MempoolKeys.OneHome` | src/mempool/mempool.rs:445-486 | Every user has one home shard, the same for equal ids on disk: user messages go there except loans and keys, on-chain events there and to shard 0, names there or to all shards. |
| `Bytes.DecimalOrder` | src/mempool/mempool.rs:263-268 | Decimal texts compare like their numbers exactly under the digit-cutting condition. |
| `Mempool.Mempool.MessageExceedsRateLimits` | src/mempool/mempool.rs:603-632 | Which limiters are asked, in which order, and the verdict. |
| `Mempool.Mempool.MessageIsValid` | src/mempool/mempool.rs:669-717 | The rejection that comes first, and that tokens are spent at admission only and only after all other checks pass. |
| `Mempool.Mempool.InsertIntoShard` | src/mempool/mempool.rs:749-796 | The message is pooled under its key exactly if the key is new, the message is not stale and every limiter it owes a call allows it; otherwise the pools stay as they are. |
| `Mempool.RejectedIff` | src/mempool/mempool.rs:669-717 | A message is turned away exactly if it is merged already, for keys before gasless signers, a block event of shard 0 or one not above the highest number, and with which error. |
| `Mempool.AdmissionIff` | src/mempool/mempool.rs:603-796 | Admission told by message fields: when there is no error and which calls it then spends, that a duplicate or stale message spends none, and one refused for rate the calls up to the first refused. |
| `Mempool.Mempool.Insert` | src/mempool/mempool.rs:719-747 | Every routed shard is tried in order and the first error is reported. |
| `Mempool.NoErrorIff` | src/mempool/mempool.rs:719-747 | An insertion reports no error if and only if no routed shard, tried after the ones before it, answers with one. |
| `Mempool.ErrorReported` | src/mempool/mempool.rs:719-747 | Otherwise it reports the answer of the first shard that does. |
| `Mempool.Mempool.PullMessages` | src/mempool/mempool.rs:639-667 | From a pool with messages under their own keys, as every run leaves it, returns at most `max` messages, none stale, validators' first and then by age, fewer only if the pool is then empty; leaves only what comes later, drops only what was stale, and spends no token. |
| `Mempool.PopsFirstLive` | src/mempool/mempool.rs:639-667 | What is popped is the shortest prefix that yields the first `max` valid messages. |
| `Mempool.Mempool.RemoveCommittedTxns` | src/mempool/mempool.rs:798-829 | Exactly the committed keys leave the shard's pool, and each storage purchase, however it had entered, renews its owner's limiter. |
| `Mempool.RenewedIff` | src/mempool/mempool.rs:798-829 | With quotas on, exactly the owners of committed storage purchases are renewed. |
| `Mempool.Mempool.TotalMessages` | src/mempool/mempool.rs:880-881 | The sum of the sizes of all pools, in whatever order they come. |
| `Mempool.Mempool.Poll` | src/mempool/mempool.rs:874-914 | With the total taken once, handles up to 256 queued requests in order, or none if the pool is limited and full, answers each, and leaves the rest queued. |
| `Mempool.Mempool.Handle` | src/mempool/mempool.rs:885-905 | An added message is answered without an error if and only if every routed shard takes it, a size request with the size of every pool. |
| `Mempool.RevocationLimited` | src/mempool/mempool.rs:603-632 | A revocation that passes the other checks is refused for rate if and only if quotas are on and the quota limiter refuses. |
| `MempoolRuns.InsertSize` | src/mempool/mempool.rs:749-796 | An insertion adds one message to the total exactly when it reports no error. |
| `MempoolRuns.HandledSize` | src/mempool/mempool.rs:874-914 | Handling requests never shrinks the total and grows it by at most max(2, n) each. |
| `MempoolRuns.PullShrinks` | src/mempool/mempool.rs:639-667 | A pull never grows the total. |
| `MempoolRuns.NeverOverBound` | src/mempool/mempool.rs:874-914 | Over every run of polls, pulls and removals the total stays within capacity - 1 + 256 * max(2, n), and at zero for capacity zero. |
| `MempoolRuns.OnlyShards` | src/mempool/mempool.rs:445-486 | Over every run of valid steps pools exist only for shards 0 to n, and the total is their sum. |
| `MempoolRuns.FillSize` | src/mempool/mempool.rs:719-796 | New, distinct, unlimited messages of routing width w grow the total by exactly w each. |
| `MempoolRuns.BoundReached` | src/mempool/mempool.rs:874-914 | One poll over a pool one below capacity can end exactly at the bound. |
| `MempoolRuns.BoundReachable` | src/mempool/mempool.rs:874-914 | For every limited configuration with positive capacity some run of valid steps from the empty pool ends exactly at the bound. |
| `MempoolRuns.WithinCapacityIff` | src/mempool/mempool.rs:874-914 | No queue of n requests takes a pool past its capacity if and only if the pool is exactly full or has room for min(n, 256) messages of the widest routing. |
| `MempoolRuns.AlwaysKeyed` | src/mempool/mempool.rs:749-829 | Over every run each pooled message lies under its own key, and what holds of all added messages holds of it. |
| `MempoolRuns.DuplicateIff` | src/mempool/mempool.rs:749-796 | After any run a message is refused as a duplicate if and only if the pool holds one of the same origin. |
| `MempoolRuns.OldestFirst` | src/mempool/mempool.rs:199-224 | After any run, what a pull returns and leaves is in order of kind and then of message time: nothing left is due before anything returned. |
| `MempoolRuns.RemovedIff` | src/mempool/mempool.rs:798-829 | After any run, a removal leaves exactly the messages that share no origin with a committed one. |
| `MempoolRuns.ValidatorsFirst` | src/mempool/mempool.rs:199-210 | After any run, a pull that returns a user message leaves nothing but user messages in the pool. |
| `BlockReceiver.Receiver.ValidateBlockEvents` | src/mempool/block_receiver.rs:56-87 | Accepts exactly blocks without events, or whose event data hash to the event hashes, these to the events hash, with a certificate accepted for the height. |
| `BlockReceiver.Receiver.SubmitBlock` | src/mempool/block_receiver.rs:115-136 | Sends all events of a block in order if their hashes are right and its certificate has a quorum of the set that decides for its height, else nothing. |
| `BlockReceiver.AttestedIff` | src/mempool/block_receiver.rs:56-87 | A block with events is valid if and only if its hashes are right and its certificate has a quorum of the set that decides for its height. |
| `BlockReceiver.ForwardedIff` | src/mempool/block_receiver.rs:115-136 | An event is sent if and only if it is in a handled block so attested. |
| `BlockReceiver.DueIff` | src/mempool/block_receiver.rs:158-172 | In the walk a confirmation is awaited exactly when a block ends a whole number of batches after the start or reaches the stop. |
| `BlockReceiver.Receiver.RequestBlock` | src/mempool/block_receiver.rs:146-174 | One request submits the served block, awaits a confirmation exactly at a batch end or the end of the walk, and goes on after the block, or asks again after one without events. |
| `BlockReceiver.Receiver.SyncMissingBlockEvents` | src/mempool/block_receiver.rs:138-179 | Ends with the whole walk from start to stop submitted, exactly when all confirmations came, else with a non-empty beginning of it; at least one confirmation is awaited. |
| `BlockReceiver.Receiver.HandleBlock` | src/mempool/block_receiver.rs:181-231 | A block is skipped exactly if it has no events or its last number is below what is stored; otherwise the walk over the gap and the block are submitted and the block's last number is awaited, or the turn breaks off in the walk on a missing confirmation. |
| `BlockReceiver.Receiver.Run` | src/mempool/block_receiver.rs:181-231 | Over any sequence of received blocks, what is sent is in order the events of the handled blocks with right hashes and a quorum; where blocks partition the numbers, nothing is ever submitted across a hole if and only if every turn is covered. |
| `BlockReceiver.WalkContiguous` | src/mempool/block_receiver.rs:138-179 | Every beginning of a walk over a partition of the numbers is a chain without holes. |
| `BlockReceiver.WalkEnds` | src/mempool/block_receiver.rs:138-179 | A walk up to the number before a block ends right before that block. |
| `BlockReceiver.WalkThenBlock` | src/mempool/block_receiver.rs:195-216 | The walk followed by the received block is a chain without holes. |
| `BlockReceiver.TurnContiguous` | src/mempool/block_receiver.rs:181-231 | When the received block is numbered, blocks partition the numbers of the gap and the received block is one of them, whatever a turn handles is a chain without holes after the stored events. |
| `BlockReceiver.AcrossHole` | src/mempool/block_receiver.rs:115-179 | Once a block was left out, any later submission comes from across the hole. |
| `BlockReceiver.GapFreeIff` | src/mempool/block_receiver.rs:115-216 | A chain of handled blocks submits nothing across a hole if and only if no valid block follows an invalid one. |
| `BlockReceiver.GapFreeFrom` | src/mempool/block_receiver.rs:115-216 | To a consumer at or past the store, a chain submits nothing across a hole if and only if whatever an invalid block before a valid one would have brought is already known. |
| `BlockReceiver.RunGapFreeIff` | src/mempool/block_receiver.rs:181-231 | Over every run of chains, with a store that may also be fed from elsewhere, nothing ever comes from across a hole if and only if every turn meets that condition at what the consumer has when the turn begins. |
| `BlockReceiver.GenuineTurns` | src/mempool/block_receiver.rs:181-231 | So it is enough that in each turn no valid block follows an invalid one. |
| `BlockReceiver.ReceivedChains` | src/mempool/block_receiver.rs:181-231 | The turns of a run over a partitioned feed are chains. |
| `BlockReceiver.SentGapFree` | src/mempool/block_receiver.rs:181-231 | For a store fed by this receiver alone, this is to say that the whole of what is sent is free of gaps. |
| `BlockReceiver.GenuineRun` | src/mempool/block_receiver.rs:115-216 | When all handled blocks are valid the submission is one unbroken run of numbers. |
| `SocialKeys.KeyInRange` | src/api/social_graph.rs:617-671 | The byte range of an owner holds exactly that owner's rows from the start on, of all keys of the index. |
| `SocialKeys.EncodeInjective` | src/api/social_graph.rs:617-671 | Different keys have different bytes. |
| `SocialKeys.ScanIsRows` | src/api/social_graph.rs:161-212 | The byte-ordered scan is the numerically ordered list of the owner's rows. |
| `SocialKeys.RowKeyDecodes` | src/api/social_graph.rs:161-212 | The counterpart is read back from its row key. |
| `SocialPaging.GetPage` | src/api/social_graph.rs:161-274 | Returns as many of the smallest ids past the cursor as the limit allows, ascending, with a cursor, the largest of them, exactly if more remain and the limit is not zero. |
| `SocialPaging.PageIsPage` | src/api/social_graph.rs:161-274 | The page of any set of ids, cursor and limit is that, told by the set alone. |
| `SocialPaging.ListingAfter` | src/api/social_graph.rs:161-212 | Past an element of the listing lie exactly the elements after it. |
| `SocialPaging.NextCursor` | src/api/social_graph.rs:161-212 | A returned cursor never wraps, and the rows past it are what the page left out. |
| `SocialPaging.PagesFrom` | src/api/social_graph.rs:161-274 | With a positive limit the pages from any cursor on are together the listing past it. |
| `SocialPaging.PagingComplete` | src/api/social_graph.rs:161-274 | Following cursors from the start yields every row once in order if and only if the limit is positive or there are no rows. |
| `SocialGraph.Indexer.GetCount` | src/api/social_graph.rs:595-615 | Reads the counter as it will be after the batch commits. |
| `SocialGraph.Indexer.IncrementCount` | src/api/social_graph.rs:473-519 | Raises the counter in the view and changes nothing else. |
| `SocialGraph.Indexer.DecrementCount` | src/api/social_graph.rs:473-519 | Lowers the counter unless it is zero and changes nothing else. |
| `SocialGraph.Indexer.ProcessCompactFollowState` | src/api/social_graph.rs:526-593 | Replaces the first page of the source's rows by the new targets, with counters. |
| `SocialGraph.Indexer.ProcessLinkMessage` | src/api/social_graph.rs:400-471 | Through the batch, has the effect of the message on the store; fails exactly on malformed messages. |
| `SocialGraph.Indexer.ProcessEvent` | src/api/social_graph.rs:779-815 | One message, committed on its own; rows and counters then tell the message. A malformed one changes nothing. |
| `SocialGraph.Indexer.ProcessBatch` | src/api/social_graph.rs:817-858 | A batch leaves the store that one-at-a-time processing leaves, whose rows and counters tell the messages; at a malformed message it keeps exactly the messages before the last compact one. |
| `SocialEffects.WellFormedIff` | src/api/social_graph.rs:400-471 | Malformed are exactly messages without data and follow links whose type is invalid. |
| `SocialEffects.FlushedAt` | src/api/social_graph.rs:817-858 | What survives a failed batch ends at its last compact message. |
| `SocialHistory.HistoryTold` | src/api/social_graph.rs:400-593 | From every store and after every sequence of messages, each user follows whom the messages' fields say, since when they say, and each counter is what they add up to. |
| `SocialHistory.EdgesTold` | src/api/social_graph.rs:400-593 | The rows of one source are what its messages say. |
| `SocialHistory.CounterTold` | src/api/social_graph.rs:400-593 | One counter is what the messages add up to, never below zero. |
| `SocialHistory.LastWord` | src/api/social_graph.rs:400-593 | A user follows a target if and only if the last message of theirs about it adds it: lists and links by type and sender, a list leaving those behind 100,000 smaller ids. |
| `SocialHistory.FollowersTold` | src/api/social_graph.rs:400-593 | The followers' side of each edge says the same. |
| `SocialCounts.AlwaysMirrored` | src/api/social_graph.rs:400-593 | After every sequence of messages each edge is stored on both sides with one timestamp. |
| `SocialCounts.FollowStep` | src/api/social_graph.rs:400-471 | A follow keeps all counters exact if and only if the edge is new. |
| `SocialCounts.UnfollowStep` | src/api/social_graph.rs:400-471 | An unfollow keeps all counters exact if and only if the edge exists or both counters are at zero. |
| `SocialCounts.ReplacedRows` | src/api/social_graph.rs:526-593 | The rows a compact state leaves on every side. |
| `SocialCounts.ReplacedCounts` | src/api/social_graph.rs:526-593 | The counters a compact state leaves, with repeated targets counted repeatedly. |
| `SocialCounts.ReplaceStep` | src/api/social_graph.rs:526-593 | A compact state keeps all counters exact if and only if its targets are distinct and the old rows fit one page. |
| `SocialCounts.ExactStep` | src/api/social_graph.rs:400-593 | The same for every kind of message, from its condition before the call. |
| `SocialCounts.CountersExactIff` | src/api/social_graph.rs:400-593 | Counters equal row counts after every prefix of a message sequence if and only if every message meets its condition. |
| `Channels.Indexer.IsMember` | src/api/channels.rs:173-192 | Tells membership as of the batch. |
| `Channels.Indexer.GetStats` | src/api/channels.rs:155-170 | Reads statistics as of the batch, and fails exactly if they do not decode. |
| `Channels.Indexer.ProcessCastMessage` | src/api/channels.rs:323-396 | Has the effect of the cast on the view; fails exactly on malformed messages and on casts to channels whose statistics do not decode. |
| `Channels.Indexer.ProcessBatch` | src/api/channels.rs:890-914 | A batch leaves what one-at-a-time processing leaves, or the store untouched if some message is refused, which can be told from the store before the batch. |
| `Channels.RefusedIff` | src/api/channels.rs:323-396 | Refused are exactly messages without data, cast bodies of invalid type, and casts to channels whose statistics do not decode. |
| `Channels.PostedConsistent` | src/api/channels.rs:323-396 | One cast keeps member counts equal to member rows and the two membership rows paired. |
| `Channels.AlwaysConsistent` | src/api/channels.rs:323-396 | So does every sequence of messages, refused or not. |
| `Channels.CastsCounted` | src/api/channels.rs:323-396 | A channel's cast count grows by exactly the casts addressed to it. |
| `Channels.MembersAreCasters` | src/api/channels.rs:323-396 | A user is a member afterwards exactly if it was before or cast in the channel while its statistics decode. |
| `Channels.ActivityNoted` | src/api/channels.rs:323-396 | After every sequence of messages a channel's last activity is the time of the last cast to it. |
| `Channels.MembershipNoted` | src/api/channels.rs:323-396 | A member row made on the way holds the time of the user's first cast there; others keep what they held. |
| `Channels.LabelsNoted` | src/api/channels.rs:323-396 | A name leads to the channel of the last cast that spells it, and a channel to the URL of its last cast. |
| `Backfill.ReadMessages` | src/storage/store/shard.rs:178-188 | Reads the messages of the batch's blocks in order, without the last block under exclusive reads. |
| `Backfill.MinCheckpoint` | src/api/mod.rs:755-777 | The least checkpoint of the enabled indexers. |
| `Backfill.RunBatch` | src/api/mod.rs:806-870 | One batch extends every concerned indexer's log by the batch and advances the checkpoints. |
| `Backfill.BatchesOf101` | src/api/mod.rs:806-816 | Batches hold 101 blocks from the start on, the last one cut at the maximum. |
| `Backfill.StopAtFirst` | src/api/mod.rs:806-870 | A run that stops early stops at the first batch that fails. |
| `Backfill.ReplayOne` | src/api/mod.rs:806-870 | A replay over one block is its messages, if it is stored and picked. |
| `Backfill.DisabledGetsNothing` | src/api/mod.rs:844-847 | An indexer that is switched off gets nothing. |
| `Backfill.RunBlockBackfill` | src/api/mod.rs:739-934 | Each indexer receives exactly the blocks handed to it, in order, up to the first batch that cannot be read; all checkpoints end past the maximum regardless. |
| `Backfill.NothingBelowCheckpoint` | src/api/mod.rs:806-870 | Nothing of a block below its checkpoint reaches an indexer: whatever those blocks hold, what a run hands out is the same. |
| `Backfill.MissedStaysMissed` | src/api/mod.rs:806-914 | After a run, whose checkpoints all end past the maximum, no later run depends on any block up to it, so what was missed stays missed. |
| `Backfill.CompleteIff` | src/api/mod.rs:806-914 | What a run hands to an indexer is every block from its checkpoint on, once and in order, if and only if no non-empty block lies in the batch its checkpoint cuts, last in its batch under exclusive reads, or at or after the first batch that cannot be read. |
| `Backfill.AlignedComplete` | src/api/mod.rs:806-870 | With inclusive reads and a checkpoint on a batch boundary the run is complete if and only if no non-empty block lies at or after the first failed batch. |
| `Backfill.StopAtEnd` | src/api/mod.rs:806-816 | The run goes through to the end if and only if no batch on the way fails to read. |
| `Backfill.UnfailingComplete` | src/api/mod.rs:806-870 | Without failed reads only the cut batch and the bound of the reads can cost blocks, exactly as stated. |
| `Backfill.LastBlockMissed` | src/api/mod.rs:806-870 | With exclusive reads nothing of the last block reaches an indexer: whatever it holds, what is handed out is the same, and incomplete if it holds messages. |
| `Conversations.BuildTree` | src/api/conversations.rs:220-291 | The recursive loop with its shared counters computes the reference tree and counters. |
| `Conversations.GetConversation` | src/api/conversations.rs:107-142 | The error answers, with a failing lookup told from a missing cast, and for a found cast a tree within all limits, its depth within the smaller of the asked and the configured one. |
| `Conversations.GrowShape` | src/api/conversations.rs:220-291 | Nodes sit at their level within the depth limit, children come from the replies in order, and the reported depth is the tree's. |
| `Conversations.GrowCount` | src/api/conversations.rs:220-291 | The counter covers the shown replies, shown replies stay below the limit, and below the limit the counter is exact. |
| `Conversations.GrowComplete` | src/api/conversations.rs:220-291 | A tree whose count stays below the limit is the complete one. |
| `Conversations.GrowBound` | src/api/conversations.rs:193-291 | With pages of the limit's size the count never reaches twice the limit. |
| `Conversations.GrowSucceeds` | src/api/conversations.rs:220-291 | The tree is built whenever replies can be read. |
| `Conversations.GrowWithinLimits` | src/api/conversations.rs:220-291 | The response obeys all these limits together, and its count equals the replies shown exactly below the limit or for limit zero. |
| `Heights.LessStrictTotal` | proto/src/lib.rs:40-76 | Heights are totally ordered, by shard first. |

## Left out

- Width of counters and heights: block numbers, sequence numbers and counters are unbounded; only user ids, key bytes, cursors and the buffer length are modelled with their widths.
- Signatures and hashes: Ed25519, Blake3 and SHA-256 are arbitrary functions; nothing is assumed about them.
- RocksDB: a store is a map with ordered scans; failing reads, writes and deletions are modelled in `ShardValidator`, failing reads in `Backfill`, other store errors are not.
- The shard and block engines: what they commit is a list; merging, tries and replication are not part of this model.
- Malachite's voting rounds, gossip, timers and the network.
- Rate limiters: which calls are made is modelled, whether a call is allowed is an arbitrary function of the calls before it.
- Mempool.Mempool.RemoveCommittedTxns: the committed messages are one list in the order the code visits them; transactions as a grouping are not modelled.
- BlockReceiver.Receiver.WaitForConfirmation: whether a confirmation comes before the timeout is an arbitrary function of what was awaited before.
- BlockReceiver.Receiver.RequestBlock: the count of events processed wraps below zero, as in builds without overflow checks; builds with them panic there.
- BlockReceiver.Receiver.SyncMissingBlockEvents: a requested block that does not exist, on which the code panics, and a served block without events or short of the requested number, after which the code asks again without end, are outside the model; numbering and partition are assumed only where a lemma says so.
- ReadValidator.ReadNode.ProcessDecidedValue: the panic of the code on committing a value of the wrong kind for the engine is required away; wrong-kind values that are stale or beyond the gap are modelled.
- ValidatorSets.FairRotation: heights start at 1, since the code subtracts one from an unsigned height.
- Messages without data in the mempool, on which the code panics.
- Clock-dependent and chain-dependent choices (protocol versions and feature switches) are parameters.
- Channel names and URLs: extraction and the hash of a URL are parameters; channel listing and search pages are not modelled.
- Backfill.RunBlockBackfill: one shard is modelled; checkpoints saved along the way for a process that dies in the middle are not, and an indexer that fails on a batch is not told apart from one that accepts it.
- Clearing and rebuilding an index, schema versions, the timestamped listing variants, author hydration, and the HTTP and gRPC layers are not part of this model.
