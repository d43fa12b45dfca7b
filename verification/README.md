# Models and proofs for calf, BIP-340, the fee cache and the EVM assembler

This project models the stateful cores of the repository and proves what they keep over
every run. `dafny verify dfyconfig.toml` checks it with Dafny 4.11.

* **calf primary.** `Dag` and `DagProcessor` are classes that change their fields as the
  source does. Each method is tied to a function of the old state, and the theorems are
  about every run of those functions: the round frontier, causal closure, the ancestor
  theorem, equal ancestry at two primaries, which deliveries are stored and when two
  primaries converge, the announcements on the rounds channel, and the certificate that
  `HeaderBuilder` makes of one. `Admission` says by votes and parent lists alone what is
  accepted, reported and forwarded. `Committee` has the quorum arithmetic.
* **calf synchronisation.** `SyncTracker` is one pass of the loop as a function and the
  class that runs it in place. `ParkedHeaders` and `FetchBookkeeping` say over whole runs
  which headers wait, how often each is sent back, how many requests name an id and whom
  they ask;
  `SyncStatus` says which missing data is tracked and what the published status means.
  `Fetch` composes the peer-by-peer loop with peers that answer as `Feeder` does.
* **calf worker.** `QuorumWaiter` refines a map from a digest to its distinct ackers.
  `BatchMaker` conserves the transactions. `CircularBuffer` is a queue of the last items.
* **BIP-340.** `Primes` goes from Euclid's lemma to Fermat's theorem, because the reference
  code inverts and takes roots with `pow`. `Curve` is `point_add` and `lift_x`, `ScalarMul`
  is double-and-add in any group, `Schnorr` is signing against verification over an
  interface, and `Secp256k1` shows that the curve code implements that interface.
* **Fee cache.** `FeeCache` is a transition system in which any number of calls of
  `get_effective_base_fee` interleave at their lock, read, fetch and store steps.
* **Assembler.** `Opcodes` and `Assembler` have the opcode table, the assembler as it is
  (sizes and widths unchecked), and a decoder in both directions.

## How the source is read

* Hashes are arbitrary functions. Where two objects must not share a digest, the theorem
  says so (`CollisionFree`, over the certificates the run has seen). A vote is valid,
  invalid, or made by something that is no public key, as an arbitrary function decides.
* Channels are sequences of events, the database is a map, clocks are parameters. Integers
  are unbounded, except that the casts to `u32` in the quorum threshold and the quorum
  waiter, the cast to `u64` in a tracked object's age, the 256-bit scalar loop and the
  256-bit fee product are written out.
* Three facts about secp256k1 are hypotheses of the results of `Secp256k1` and of nothing
  else: its prime is prime; point addition is associative and no point has y = 0; the
  generator has order n. `VerifiesIff` takes a fourth, that the n-fold sum of every point
  is infinity. Congruences of the constants and that the generator is on the curve are
  proved, and so is what `point_add` computes (`ChordLaw`, `TangentLaw`).
* The contracts that say what an operation computes write its formulas out, with the time
  limits and factors of the source as numbers, and do not rest on the functions they are about.
* Sets iterate in an arbitrary order, as `HashSet` does.

## Where the code and its comments or intentions differ

The code is modelled as it is. A property that fails comes with the exact condition under
which it holds, and with a concrete input where the failure is in calf or the assembler.

* `try_fetch_from` says that a subset provided by a peer is saved; a later Success returns
  only its own data (`SuccessDropsSaved`, `KeepsAllIff`).
* The sync status is meant to be Incomplete while a certificate is missing; after a time-out
  the id is no longer tracked and the status can be Complete (`CompleteWhileMissing`,
  `StatusRightIff`).
* A drain reads the clock twice for every object and can drop an id without reporting it
  (`LostBetweenReadings`, `LostIff`, `DrainSplitsIff`).
* `extend` does not look whether a batch is tracked already, so a batch can have several
  entries, and a drain can report it and keep it (`BatchTrackedTwice`, `DoubledIff`).
* A comment on orphan certificates says that they are inserted even if parents are missing.
  They are not, and nothing submits them again: one that comes before its parents is stored
  only if it is delivered once more (`TooEarlyIsLost`, `StoredIff`, `ConvergeIff`).
* The own vote of a committee of one is a quorum, but the wait for votes takes one message
  before it looks (`EnoughFromTheStart`).
* A batch time-out leaves `current_batch_size` as it is, so a batch sent for its size can be
  smaller than the maximum (`SmallSizedBatch`, `SizedBatchesFullIff`).
* `enough_parents` counts list entries, so a repeated parent can lift a certificate past
  the round frontier (`RepeatedParentPassesFrontier`, `RunAtFrontierIff`).
* `new_with_root` takes any base layer "(can be anything)" but panics unless it is 0.
* The quorum threshold guarantees an honest member in every overlap only for some committee
  sizes (`HonestOverlapIff`), the same for which f + 1 silent members stop every quorum
  (`AnyBlockIff`), and is a majority only while its cast cuts nothing
  (`MajorityIffNoTruncation`).
* `point_add` has no case for doubling a point with y = 0 (`AddClosed`); secp256k1 has none.
* verify subtracts e P as (n - e) P, so what it accepts satisfies R + e P = s G + n P
  (`VerifyExact`). That is the equation R + e P = s G of the standard exactly when n P is
  infinity (`StandardIffOrder`), which holds of every generated key (`GeneratedKeyOrder`).
* The comment on the fee cache says that other callers "get stale or wait"; none ever gets
  a stale fee (`ReturnedFee`).
* The assembler takes a push of any size with any value (`WidePush`, `RoundTripIff`).

## Model

| member | source | states |
|---|---|---|
| Committee.ThresholdExact | calf/src/settings/parser.rs:34-39 | two for a committee of two, else the one odd number q with 2n-1 <= 3q <= 2n+3, cut to 32 bits |
| Committee.MajorityIffNoTruncation | calf/src/settings/parser.rs:34-39 | for n >= 1 the threshold is between 1 and n, and a majority exactly while the cast to u32 cuts nothing |
| Committee.QuorumReachable | calf/src/settings/parser.rs:34-39 | the members outside any (n-1)/3 faulty ones are still a quorum |
| Committee.QuorumsOverlap | calf/src/settings/parser.rs:34-39 | two quorums share at least 2q-n members |
| Committee.LeastOverlap | calf/src/settings/parser.rs:34-39 | some two quorums share no more than that |
| Committee.HonestOverlapIff | calf/src/settings/parser.rs:34-39 | every two quorums share a member outside every faulty set of at most (n-1)/3 exactly when n mod 3 is not 2 or n is 2, and the cast cuts nothing |
| Committee.AvoidableIff | calf/src/settings/parser.rs:34-39 | a quorum without any of a set of silent members exists exactly when there are at most n-q of them |
| Committee.AnyBlockIff | calf/src/settings/parser.rs:34-39 | f+1 silent members stop every quorum exactly for the sizes of HonestOverlapIff |
| Dag.Dag.NewWithRoot | calf/src/types/dag.rs:52-57 | the panic for a base layer other than 0, and the one-root DAG otherwise |
| Dag.Dag.CheckParents | calf/src/types/dag.rs:59-80 | layer 0 passes; otherwise parents must be listed exactly one layer below, and a missing layer below refuses even no parents |
| Dag.Dag.Insert | calf/src/types/dag.rs:82-92 | the vertex is stored whatever the check says; table, index and height after it |
| Dag.Dag.InsertChecked | calf/src/types/dag.rs:94-97 | refused vertices leave the DAG unchanged |
| Dag.Dag.LayerSize | calf/src/types/dag.rs:106-111 | the number of ids listed in a layer |
| Dag.Dag.LayerVertices | calf/src/types/dag.rs:99-104 | as many entries as the layer has stored ids, and exactly their vertices |
| Dag.Dag.LayerData | calf/src/types/dag.rs:113-118 | the data of those vertices, and as many entries |
| DagIndex.InsertAgreesIff | calf/src/types/dag.rs:82-92 | an insertion keeps layer index, vertex table and height in agreement exactly when it does not move a stored id to another layer |
| DagIndex.RunAgrees | calf/src/types/dag.rs:82-97 | they agree over every run of plain and checked insertions whose ids fix their layers; the height is the largest layer |
| DagIndex.LayerSizeCountsVertices | calf/src/types/dag.rs:99-111 | layer_size is the length of what layer_vertices returns, which is exactly the vertices stored in that layer |
| DagIndex.AcceptedParentsBelow | calf/src/types/dag.rs:59-92 | an accepted vertex keeps all parents listed exactly one layer below |
| DagIndex.CheckedStep | calf/src/types/dag.rs:94-97 | a checked insertion opens no gap and loses no listed id |
| DagIndex.CheckedRunGapless | calf/src/types/dag.rs:52-97 | from a root at layer 0 no layer up to the height is empty, and none above exists |
| DagProcessor.DagProcessor.constructor | calf/src/primary/dag_processor.rs:43-49 | the start of the loop |
| DagProcessor.DagProcessor.HandleOwn | calf/src/primary/dag_processor.rs:57-73 | admission of an own certificate, then the round check |
| DagProcessor.DagProcessor.HandlePeer | calf/src/primary/dag_processor.rs:74-111 | the branch for a peer's certificate refines the pass of the theorems: early refusals, insertion with the database, or an orphan report; forwarding. Admission says which certificates take which way |
| DagProcessor.DagProcessor.AdvanceRound | calf/src/primary/dag_processor.rs:115-129 | the single if that closes a round and announces its certificates |
| DagProcessor.DagProcessor.Handle | calf/src/primary/dag_processor.rs:55-130 | the loop over any events refines the run the theorems are about |
| Frontier.AcceptKeepsFrontierIff | calf/src/primary/dag_processor.rs:57-137 | an accepted certificate keeps the frontier exactly when its round is not past it |
| Frontier.AcceptedNotPastFrontier | calf/src/primary/dag_processor.rs:134-137 | a repeat-free parent list is enough for that |
| Frontier.StepKeepsFrontier | calf/src/primary/dag_processor.rs:55-130 | every pass keeps the frontier |
| Frontier.RunAtFrontierIff | calf/src/primary/dag_processor.rs:42-137 | every state of a run is at the frontier exactly when no certificate is accepted whose round is past the current one at that moment |
| Frontier.RoundFrontier | calf/src/primary/dag_processor.rs:42-137 | if accepted certificates name no parent twice, after every pass current_round is the least round >= 1 below quorum; earlier rounds are complete, later ones empty, and the height is current_round or one less |
| Frontier.RepeatedParentPassesFrontier | calf/src/primary/dag_processor.rs:74-137 | a peer's certificate with a quorum of valid votes and a repeated parent breaks the frontier |
| Causality.CausalClosure | calf/src/primary/dag_processor.rs:55-113 | in every reachable DAG each certificate of round L >= 1 has all parents stored at exactly L-1, at least quorum list entries from round 2 on, and the database holds the same certificates |
| Causality.AncestryDescends | calf/src/types/dag.rs:59-97 | ancestry stays in the DAG, goes down one round a step, never returns and is at most L deep |
| Causality.QuorumOfParents | calf/src/primary/dag_processor.rs:134-137 | from round 2 on, the parents of a stored certificate that names none twice are a quorum of the round below |
| Causality.SharedParents | calf/src/primary/dag_processor.rs:134-137 | two such certificates of one round >= 2 share at least 2q-n >= 1 parents |
| Causality.SupportedIsAncestor | calf/src/primary/dag_processor.rs:134-137 | n-q+1 supporters in the next round make a certificate an ancestor of everything two or more rounds above, if the stored certificates of the round two above it name no parent twice |
| Causality.AncestorTheorem | calf/src/primary/dag_processor.rs:42-137 | both, for every state the processor reaches, if no certificate it accepts names a parent twice; refused ones may be anything |
| Causality.SameAncestry | calf/src/primary/dag_processor.rs:42-137 | a certificate in the DAGs of two primaries has the same ancestors in both, at the same distances, whatever else they received |
| Delivery.AcceptedIffInOrder | calf/src/primary/dag_processor.rs:57-108 | an event is accepted exactly when it is admissible and its parents were delivered in order before it, one round below |
| Delivery.LayerExact | calf/src/primary/dag_processor.rs:55-113 | at every moment a round lists exactly the ids delivered in order for it |
| Delivery.StoredIff | calf/src/primary/dag_processor.rs:55-113 | at the end an id is stored exactly when it is the root or some event delivered its certificate in order |
| Delivery.SameDagIff | calf/src/primary/dag_processor.rs:42-132 | two primaries hold the same DAG exactly when the same ids were delivered to both in order |
| Delivery.HoldsAllIff | calf/src/primary/dag_processor.rs:42-132 | a primary holds every certificate that some order would get stored exactly when each is delivered in order, if need be again after its parents |
| Delivery.ConvergeIff | calf/src/primary/dag_processor.rs:42-132 | of two primaries with the same admissible certificates, one of them complete in this sense, both hold the same DAG exactly when the other is complete, too |
| Delivery.TooEarlyIsLost | calf/src/primary/dag_processor.rs:89-107 | a certificate that comes before its parent is not stored, in the other order it is |
| Admission.VerifyVotesExact | calf/src/types/certificate.rs:123-144 | a derived certificate passes exactly with at least quorum list entries that are all valid for its header; too few entries are reported first |
| Admission.AdmissibleIff | calf/src/primary/dag_processor.rs:57-88 | an event gets to the check on parents exactly when it is a derived certificate with at least quorum parent entries or of round 1, and, from a peer, with such votes |
| Admission.AcceptedExact | calf/src/primary/dag_processor.rs:57-111 | in every run an event of either kind is accepted exactly when it is so formed and each parent entry came in order before, one round below; round 0 is not checked |
| Admission.StoredVotes | calf/src/primary/dag_processor.rs:55-113 | over every run a stored certificate is the root, or came as an own one, or carries at least quorum votes that are all valid for its header; its parent list is long enough or it is of round 1 |
| Admission.ReportsExact | calf/src/primary/dag_processor.rs:95-111 | over every run there is one orphan report for each well-formed peer's event that came too early, with exactly the parents that had not come and its sender; every well-formed certificate of a peer is forwarded |
| HeaderBuilder.WaitForQuorum | calf/src/primary/header_builder.rs:133-162 | the loop gives what Wait says of the own vote and the stream |
| HeaderBuilder.WaitExact | calf/src/primary/header_builder.rs:144-161 | the wait ends with a quorum exactly when a prefix of the stream has one and no bad key in it, and returns the own vote and the valid ones of the shortest such prefix |
| HeaderBuilder.WaitWithoutQuorum | calf/src/primary/header_builder.rs:144-161 | without a quorum the wait fails exactly on a stream with a bad key and otherwise goes on with all valid votes |
| HeaderBuilder.ValidVotesCount | calf/src/primary/header_builder.rs:150-156 | no valid vote is left out of that list |
| HeaderBuilder.EnoughFromTheStart | calf/src/primary/header_builder.rs:144-161 | with enough votes from the start the wait still needs one message, valid or not |
| HeaderBuilder.BuildHeader | calf/src/primary/header_builder.rs:59-68 | the header takes the drained digests and the ids of the published certificates, each once |
| Publication.PublishedInRuns | calf/src/primary/dag_processor.rs:47-129 | each round is announced once and in order, with at least quorum certificates that stay in the DAG one round below |
| Publication.AnnouncedExact | calf/src/primary/dag_processor.rs:115-129 | the set announced after a round is exactly the certificates of that round delivered in order up to the event that completed it |
| Publication.PublishedIds | calf/src/primary/header_builder.rs:63-68 | the parent list of a built header is repeat-free, in its round and long enough |
| Publication.BuiltCertificateAccepted | calf/src/primary/header_builder.rs:59-110 | a certificate built from any announcement has its round, the author, votes, header hash and parent list it was built from; it is accepted at its own primary at any later time, and by a peer with verified votes exactly when that peer holds its parents |
| Publication.CollectedVotesVerify | calf/src/types/certificate.rs:123-144 | votes collected by the wait pass verify_votes (made explicit in VerifyVotesExact) in the same committee |
| CircularBuffer.CircularBuffer.Push | calf/src/utils/mod.rs:58-66 | a push writes at the head or rotates |
| CircularBuffer.CircularBuffer.RotateLeft | calf/src/utils/mod.rs:60 | the rotation in place |
| CircularBuffer.CircularBuffer.Drain | calf/src/utils/mod.rs:68-72 | the filled slots in order; an empty buffer with the head where it was |
| CircularBuffer.DrainsLastItems | calf/src/utils/mod.rs:49-73 | over every interleaving each drain returns exactly the last min(size, k) of the k items pushed since the one before |
| CircularBuffer.NewBuffer | calf/src/utils/mod.rs:50-56 | the same from a new buffer |
| TrackedSet.TrackedSet.Insert | calf/src/types/sync.rs:51-60 | an id already tracked is not tracked again and the answer says so |
| TrackedSet.TrackedSet.Drop | calf/src/types/sync.rs:86-92 | retain with "is not this id" |
| TrackedSet.TrackedSet.Extend | calf/src/types/sync.rs:93-96 | no uniqueness check; each id with its own reading of the clock |
| TrackedSet.TrackedSet.DrainTimedOut | calf/src/types/sync.rs:65-77 | reported and kept ids, with the clock read for every object while collecting and again while removing |
| TrackedSet.LostIff | calf/src/types/sync.rs:65-121 | for any clock and any number of entries, an id is neither reported nor kept exactly when all its entries are up to date at their first reading and out of date at their second |
| TrackedSet.DoubledIff | calf/src/types/sync.rs:65-121 | and it is both exactly when it has an entry out of date at the first reading and one up to date at the second |
| TrackedSet.DrainSplitsIff | calf/src/types/sync.rs:65-121 | a forwards drain splits the ids into reported and kept ones exactly when every id has an entry outside its two cut-offs and none has an entry before its first beside one not before its second |
| TrackedSet.OneReading | calf/src/types/sync.rs:65-77 | with one reading per object no id is lost, and one is reported and kept exactly when it has an entry that times out beside one that does not |
| TrackedSet.OneEntryOneReading | calf/src/types/sync.rs:65-77 | with one entry per id the split is exact |
| TrackedSet.OneEntryForwards | calf/src/types/sync.rs:65-121 | with one entry and a forwards clock the id is lost exactly when its timestamp falls between the cut-offs |
| TrackedSet.OneEntryBackwards | calf/src/types/sync.rs:65-121 | with one entry, the losses and doublings when the clock goes back between the readings |
| TrackedSet.OneEntryTooYoung | calf/src/types/sync.rs:65-121 | an entry younger than the first reading is reported, and kept exactly when the second reading finds it up to date |
| TrackedSet.LostBetweenReadings | calf/src/types/sync.rs:65-121 | an id is lost by readings at ages 1000 and 1001 |
| SyncTracker.SyncTracker.PublishSyncStatus | calf/src/primary/sync_tracker.rs:294-321 | Complete exactly when nothing is tracked |
| SyncTracker.SyncTracker.RetryTimedOutFetch | calf/src/primary/sync_tracker.rs:154-213 | timed-out ids leave the tracked sets and are asked for again, in the order certificates, headers, batches |
| SyncTracker.SyncTracker.FetchCertificatesChecked | calf/src/primary/sync_tracker.rs:222-250 | only untracked ids are asked for; all are tracked after it |
| SyncTracker.SyncTracker.FetchHeadersChecked | calf/src/primary/sync_tracker.rs:222-250 | the same for headers |
| SyncTracker.SyncTracker.ProcessIncompleteHeaders | calf/src/primary/sync_tracker.rs:323-345 | headers that miss nothing are sent back in order and leave the list |
| SyncTracker.SyncTracker.HandleEvent | calf/src/primary/sync_tracker.rs:80-149 | the five branches of the select refine the pass of the theorems; HeaderParks says what a header is found to miss |
| SyncTracker.SyncTracker.Loop | calf/src/primary/sync_tracker.rs:56-151 | the loop produces a run in the sense of the theorems |
| ParkedHeaders.HeaderParks | calf/src/primary/sync_tracker.rs:253-292 | a received header is parked exactly when a listed certificate or batch is not stored, with exactly those that are not |
| ParkedHeaders.ParkedExact | calf/src/primary/sync_tracker.rs:92-147 | after every pass the parked list is exactly the headers still waiting, oldest first, each with its list entries that were neither stored on its arrival nor received since, never both empty |
| ParkedHeaders.RedispatchExact | calf/src/primary/sync_tracker.rs:92-147 | a pass sends back exactly the headers whose last missing piece it delivers |
| ParkedHeaders.WaitsOnce | calf/src/primary/sync_tracker.rs:92-147 | a header waits without interruption |
| ParkedHeaders.SentBackOnce | calf/src/primary/sync_tracker.rs:92-147 | a header is sent back in exactly one pass if all its data arrived before a reset, and in none otherwise |
| ParkedHeaders.CompletesExact | calf/src/primary/sync_tracker.rs:92-147 | a pass sends a header back exactly when with it every list entry was stored on arrival or has been received since, not before it, and no reset came |
| FetchBookkeeping.TrackedAfter | calf/src/primary/sync_tracker.rs:80-149 | after an event an id is tracked exactly if the event names it as missing or it was tracked and neither arrived nor was reset |
| FetchBookkeeping.PassAccounted | calf/src/primary/sync_tracker.rs:63-150 | in one pass an id is asked for once if the event asks and once if it times out, and leaves only in a drain, by arrival or by a reset |
| FetchBookkeeping.OneRequestOnEntry | calf/src/primary/sync_tracker.rs:222-250 | a certificate or header is tracked at most once and asked for by an event exactly when it starts being tracked |
| FetchBookkeeping.OneReadingReissues | calf/src/primary/sync_tracker.rs:154-213 | with one reading per object a drain takes out exactly the ids it asks for again |
| FetchBookkeeping.CommandsAreAskedAndTimeOuts | calf/src/primary/sync_tracker.rs:63-150 | over every run the requests that name a certificate, header or batch are those its events ask for plus its time-outs |
| FetchBookkeeping.CommandsAreEntriesAndTimeOuts | calf/src/primary/sync_tracker.rs:154-250 | for certificates and headers they are the entries plus the time-outs |
| FetchBookkeeping.EntriesBalance | calf/src/primary/sync_tracker.rs:63-150 | each entry ends in one forgetting drain, one arrival or one reset, or goes on |
| FetchBookkeeping.AtMostTwice | calf/src/primary/sync_tracker.rs:154-250 | with one reading per object a certificate or header is asked for at most twice for every event that names it as missing |
| FetchBookkeeping.StoredNotAsked | calf/src/primary/sync_tracker.rs:100-142 | no pass asks for an id that its event finds in the database; only a time-out can name it |
| FetchBookkeeping.PassSendsDue | calf/src/primary/sync_tracker.rs:63-250 | a pass first sends one status, Complete exactly when nothing is tracked; then requests to all peers name exactly the ids that time out, requests to one peer go to the sender of the event and name exactly what it asks for, and batches are asked of the workers |
| SyncStatus.TrackedExact | calf/src/primary/sync_tracker.rs:63-150 | at every head of every run, whatever the clock says, the tracked certificates, headers and batches are exactly the missing ones (named since by an orphan report, certificate or parked header, not arrived, not reset) that no drain has forgotten since they were last entered |
| SyncStatus.ForgetsExact | calf/src/primary/sync_tracker.rs:165-167 | a drain forgets an id exactly when all its entries are older than 1000 milliseconds at the removal |
| SyncStatus.StatusExact | calf/src/primary/sync_tracker.rs:294-321 | the status is Complete exactly when every missing certificate, header and batch has been forgotten since it was last entered |
| SyncStatus.StatusRightIff | calf/src/types/sync.rs:26-31 | Incomplete whenever a certificate is missing holds at a head exactly when none is missing or something missing has not been forgotten |
| SyncStatus.RightWithoutTimeOuts | calf/src/types/sync.rs:26-31 | it holds at every head up to which no certificate has timed out in a drain |
| SyncStatus.StampsExact | calf/src/primary/sync_tracker.rs:63-150 | the timestamps under which an id is tracked at a head, computed from the events and clock readings alone |
| SyncStatus.StatusByClock | calf/src/primary/sync_tracker.rs:294-321 | the status is Complete exactly when no id has such a timestamp left |
| SyncStatus.StatusRightByClock | calf/src/types/sync.rs:26-31 | the intention holds exactly when no certificate is missing or some id has a timestamp left |
| SyncStatus.EntryTime | calf/src/primary/sync_tracker.rs:238-240 | the entry of a certificate or header has the reading of the last pass that entered it |
| SyncStatus.CompleteWhileMissing | calf/src/primary/sync_tracker.rs:80-149 | a run that ends in Complete with a missing certificate, for any orphan report or header that names it; the header is still parked |
| SyncStatus.OrphanAndHeader | calf/src/primary/sync_tracker.rs:82-90 | there are such events of both sorts, with other list entries stored |
| SyncStatus.BatchTrackedTwice | calf/src/primary/sync_tracker.rs:131-135 | two headers that name one absent batch 900 ms apart give it two entries, and a drain with a single reading reports it and keeps it |
| SyncStatus.HeaderNamesBatch | calf/src/primary/sync_tracker.rs:125-132 | there is such a header |
| Fetch.TryFetchFrom | calf/src/synchronizer/mod.rs:81-173 | the loop over the sources gives what FetchFrom says of their answers |
| Fetch.TryRetrieveData | calf/src/synchronizer/feeder.rs:98-130 | the data found, classified by its length against the request's |
| Fetch.WithoutFinal | calf/src/synchronizer/mod.rs:81-173 | if no answer is a broken channel or a Success, the partial replies are returned with the peers asked, or a time-out if they brought nothing |
| Fetch.FirstFinal | calf/src/synchronizer/mod.rs:81-173 | otherwise the first such answer decides, a Success with its own data and sender |
| Fetch.RequestsAskForMissing | calf/src/synchronizer/mod.rs:87-158 | whatever peers answer, each request sent holds exactly the original keys not received before, in order |
| Fetch.OnePeer | calf/src/synchronizer/mod.rs:143-158 | a partial reply makes the request strictly shorter, keeps saved and missing keys adding up, and leaves exactly the keys that peer lacks |
| Fetch.FetchResult | calf/src/synchronizer/mod.rs:81-173 | without a Success the returned ids and the keys no peer has partition the request; with one the returned ids are exactly the keys not received before, in order |
| Fetch.ReturnedFromFirstHolder | calf/src/synchronizer/mod.rs:81-173 | each returned object was asked for, and is what the first answering peer that has its key stores under it, with that peer as sender |
| Fetch.KeepsAllIff | calf/src/synchronizer/mod.rs:77-80 | everything the peers provided is returned exactly when some key is had by none of them or a single peer brings all keys |
| Fetch.SuccessDropsSaved | calf/src/synchronizer/mod.rs:128-142 | a Success after a Partial returns only the last peer's object |
| QuorumWaiter.QuorumWaiter.Handle | calf/src/worker/quorum_waiter.rs:50-85 | one turn of the select loop on the list of waiting batches, a failing send to the primary included |
| QuorumWaiter.StepRefines | calf/src/worker/quorum_waiter.rs:50-85 | every event keeps digests distinct and below the threshold and does to the list what the map does; the cast to u32 never cuts |
| QuorumWaiter.PairwiseDistinct | calf/src/worker/quorum_waiter.rs:59-63 | waiting digests are pairwise distinct |
| QuorumWaiter.StayAckers | calf/src/worker/quorum_waiter.rs:47-86 | the ackers of a waiting digest are the distinct peers that acknowledged it since its stay began, and its batch and timestamp are those the stay began with |
| QuorumWaiter.SentExactly | calf/src/worker/quorum_waiter.rs:67-79 | a digest goes to the primary exactly with the threshold-th distinct acknowledgment of its stay, which ends there and stores the batch of that stay |
| QuorumWaiter.DroppedIff | calf/src/worker/quorum_waiter.rs:64-65 | a waiting digest is dropped exactly by an arriving batch that reads the clock the time-out or more after the creation of the batch of its stay; any other end is a send |
| QuorumWaiter.EntersIff | calf/src/worker/quorum_waiter.rs:50-66 | a digest starts to wait exactly when a batch with it arrives that is not that late already |
| QuorumWaiter.StaysBalance | calf/src/worker/quorum_waiter.rs:47-86 | each stay ends in one send or one time-out, or goes on |
| BatchMaker.BatchMaker.Handle | calf/src/worker/batch_maker.rs:26-57 | one turn of the select loop; a failing send loses the batch and ends the loop |
| BatchMaker.BatchMaker.Loop | calf/src/worker/batch_maker.rs:19-59 | the loop gives the run the theorems are about, up to its end or the first failing send |
| BatchMaker.BytesExact | calf/src/worker/batch_maker.rs:29-39 | a batch takes eight bytes for each transaction and one for each byte of data |
| BatchMaker.SendsIff | calf/src/worker/batch_maker.rs:41-52 | a batch follows a transaction exactly when it serialises and brings pending bytes and those the timer sent since to the maximum, and the timer exactly when something is pending |
| BatchMaker.CounterExact | calf/src/worker/batch_maker.rs:37-56 | the counter is the pending bytes plus those the timer sent since the last sized batch, and stays below the maximum |
| BatchMaker.Conserved | calf/src/worker/batch_maker.rs:19-59 | sent batches and the pending one are the accepted transactions in order |
| BatchMaker.SentAreTight | calf/src/worker/batch_maker.rs:41-52 | no sent batch is empty, and each is under the maximum without its last transaction |
| BatchMaker.SizedBatchesFullIff | calf/src/worker/batch_maker.rs:41-56 | the next sized batch is sure to have the size exactly when the timer sent nothing since the last one |
| BatchMaker.SmallSizedBatch | calf/src/worker/batch_maker.rs:48-56 | a sized batch of 16 bytes under a maximum of 20 |
| Primes.Inverse | kips/kip-0005/reference.py:39-41 | pow(a, p - 2, p) is the inverse of a |
| Primes.SquareRoot | kips/kip-0005/reference.py:66 | pow(c, (p + 1) // 4, p) is a square root of every square |
| Curve.ChordLaw | kips/kip-0005/reference.py:31-43 | for different x, point_add is the one reduced pair with (r.x + a.x + b.x)(b.x - a.x)^2 = (b.y - a.y)^2 and (r.y + a.y)(b.x - a.x) = (b.y - a.y)(a.x - r.x) modulo p |
| Curve.TangentLaw | kips/kip-0005/reference.py:31-43 | a point added to itself, with y not 0, is the one reduced pair with (r.x + 2 a.x)(2 a.y)^2 = (3 a.x^2)^2 and (r.y + a.y)(2 a.y) = 3 a.x^2 (a.x - r.x) modulo p |
| Curve.DegenerateSums | kips/kip-0005/reference.py:31-43 | infinity is neutral, the sum is infinity exactly for opposite points and two infinities, and (x, 0) doubles to (-2x, 0) |
| Curve.AddClosed | kips/kip-0005/reference.py:31-43 | point_add stays on the curve, with reduced coordinates, for all calls but doubling a point with y = 0; its value is ChordLaw and TangentLaw |
| Curve.AddCommutes | kips/kip-0005/reference.py:31-43 | point_add, pinned by the same laws, is commutative |
| Curve.SameX | kips/kip-0005/reference.py:36-37 | two points with the same x are equal or opposite |
| Curve.LiftXExact | kips/kip-0005/reference.py:62-69 | lift_x gives a point exactly when x < p and x^3 + 7 is a square; it is on the curve with even y |
| Curve.LiftXOfPoint | kips/kip-0005/reference.py:62-69 | lift_x recovers an even-y point from its x |
| ScalarMul.PointMul | kips/kip-0005/reference.py:45-51 | the 256-step loop computes Mul |
| ScalarMul.MulIsTimes | kips/kip-0005/reference.py:45-51 | Mul is the (n mod 2^256)-fold sum, for every integer n, in any group |
| Schnorr.BytesRoundTrip | kips/kip-0005/reference.py:53-72 | reading the bytes of a number gives it back when it fits |
| Schnorr.BytesInjective | kips/kip-0005/reference.py:71-72 | equal-length bytes with the same value are equal |
| Schnorr.BigEndian | kips/kip-0005/reference.py:53-72 | the first byte weighs most |
| Schnorr.XorBytesExact | kips/kip-0005/reference.py:59-60 | as long as the shorter argument, and a bit is set exactly when one of the two has it |
| Schnorr.PubkeyExact | kips/kip-0005/reference.py:81-87 | an error exactly for keys out of range, and otherwise 32 bytes with the x of that multiple of G |
| Schnorr.SignExact | kips/kip-0005/reference.py:89-110 | with the secret scalar d, nonce k and challenge e written out with their tags and hash inputs, the halves of the signature are the x of k G and k + e d modulo n, and the nonce error occurs exactly for a zero nonce |
| Schnorr.SigningValuesExist | kips/kip-0005/reference.py:93-105 | every key in range has such values |
| Schnorr.SignVerifies | kips/kip-0005/reference.py:81-129 | for every key in range, message and 32-byte aux input with a nonzero nonce, sign returns a signature that verify accepts under the generated key; SignExact says which, VerifyExact what else is accepted |
| Schnorr.SignErrors | kips/kip-0005/reference.py:89-110 | the two argument errors occur exactly on bad arguments; the assertions and the final self-check never fail |
| Schnorr.VerifyExact | kips/kip-0005/reference.py:112-129 | the two argument errors occur exactly on them; accepted are exactly 64 bytes with first half below p, second half s below n and a key that lifts to P, such that a point R with even y and that first half as x has R + e P = s G + n P, for e the tagged hash of first half, key and message modulo n |
| Schnorr.StandardIffOrder | kips/kip-0005/reference.py:124 | that equation is R + e P = s G exactly when n P is infinity |
| Schnorr.VerifyStandard | kips/kip-0005/reference.py:112-129 | acceptance by R + e P = s G for every key with n P = infinity |
| Schnorr.GeneratedKeyOrder | kips/kip-0005/reference.py:81-87 | every generated key is one |
| Schnorr.SecondHalfUnique | kips/kip-0005/reference.py:112-129 | verify, whose challenge VerifyExact spells out, accepts at most one second half for a first half, key and message |
| Secp256k1.CurveIsSound | kips/kip-0005/reference.py:31-69 | the curve code meets all that Schnorr asks of its interface |
| Secp256k1.VerifiesIff | kips/kip-0005/reference.py:62-129 | verify over the curve accepts exactly the signatures of a point R with even y and an s below n with R + e P = s G, P the point with even y of the 32-byte key |
| Secp256k1.Constants | kips/kip-0005/reference.py:5-10 | p = 2^256 - 2^32 - 977, n as a distance from 2^256, their congruences and sizes, and that G is on the curve with even y |
| Secp256k1.Secp256k1SignVerifies | kips/kip-0005/reference.py:81-129 | signing correctness for secp256k1 from the three known facts; the one failure is a nonce of zero, and it occurs exactly then |
| FeeCache.FloorNeverOverflows | igra-rpc-provider/src/services/gas_price.rs:55-61 | the overflow error of the floor cannot occur for a u64 setting |
| FeeCache.GasPriceService.GetEffectiveBaseFee | igra-rpc-provider/src/services/gas_price.rs:65-109 | an undisturbed call returns a value stored less than a second before either reading, fails when the network does, and else returns and stores the larger one of the network's fee and the floor; as the corresponding steps do |
| FeeCache.StepValid | igra-rpc-provider/src/services/gas_price.rs:65-109 | every step of every call keeps: the holder of the lock is the one call inside it, nobody fetches or stores over a fresh value, fees are at least the floor |
| FeeCache.NoDeadlock | igra-rpc-provider/src/services/gas_price.rs:77-109 | a call that is not over, or the one holding the lock, can always go on; errors and dropped calls release it |
| FeeCache.OneFetchInFlight | igra-rpc-provider/src/services/gas_price.rs:76-90 | at most one fetch is in flight |
| FeeCache.FetchStartsWhenStale | igra-rpc-provider/src/services/gas_price.rs:79-90 | a fetch starts only when nothing was stored within the last second |
| FeeCache.ReturnedFee | igra-rpc-provider/src/services/gas_price.rs:66-108 | a returned fee is that of the last store, made by the call itself or less than a second before it read; it is at least what the fetch before that store brought, at least the floor of 10^9 wei per gwei, and one of the two |
| FeeCache.ReadReturnsIff | igra-rpc-provider/src/services/gas_price.rs:66-87 | a call that looks at the cache returns exactly when something was stored less than a second before, and otherwise goes on to the lock or the fetch |
| FeeCache.FailsIff | igra-rpc-provider/src/services/gas_price.rs:90-91 | a call fails exactly when its fetch does |
| FeeCache.StoresApart | igra-rpc-provider/src/services/gas_price.rs:100-106 | stores are at least a second apart |
| FeeCache.StoreRate | igra-rpc-provider/src/services/gas_price.rs:100-106 | n stores take at least n - 1 seconds |
| FeeCache.FetchBalance | igra-rpc-provider/src/services/gas_price.rs:90 | each fetch started ends once or is the one in flight |
| Opcodes.NameOf | igra-eip4788-modifications/scripts/bytecode-to-hex.py:11-37 | reading the opcode table backwards gives a name with that opcode |
| Opcodes.NameOfOpcode | igra-eip4788-modifications/scripts/bytecode-to-hex.py:11-37 | no two names share an opcode, and none has a push opcode |
| Opcodes.TableInOrder | igra-eip4788-modifications/scripts/bytecode-to-hex.py:11-37 | the table once more as lists of names in the order of their bytes |
| Opcodes.AfterGaps | igra-eip4788-modifications/scripts/bytecode-to-hex.py:11-37 | the names with a gap before them |
| Assembler.BytecodeToHex | igra-eip4788-modifications/scripts/bytecode-to-hex.py:63-113 | the loop gives Assemble, an error for the first bad line included |
| Assembler.FailsIff | igra-eip4788-modifications/scripts/bytecode-to-hex.py:93-111 | the script fails exactly on programs with a malformed push, another word, or a name the table does not have |
| Assembler.OperandExact | igra-eip4788-modifications/scripts/bytecode-to-hex.py:53-55 | the padded operand has the value, and 2N digits exactly when the value is below 256^N |
| Assembler.RoundTripIff | igra-eip4788-modifications/scripts/bytecode-to-hex.py:39-113 | decoding the output gives back the program exactly when all names are in the table and every push has 1 to 32 bytes and a value that fits |
| Assembler.Reassembles | igra-eip4788-modifications/scripts/bytecode-to-hex.py:39-113 | whatever decodes is a well-formed program that assembles to the same digits |
| Assembler.WidePush | igra-eip4788-modifications/scripts/bytecode-to-hex.py:57-60 | push33 is accepted and reads as dup1 |

## Left out

- Causality.SharedParents: assumes at most n certificates a round; the source assumes it in a comment (calf/src/types/dag.rs:129) and does not enforce it.
- Causality.CausalClosure: says nothing of the listed parents of certificates of round 0 that are not genesis; the source never looks at them.
- Schnorr.VerifyStandard: asks that n P is infinity; StandardIffOrder says that the equation is another one otherwise.
- Admission.StoredVotes: certificates of the primary's own are not asked for votes, as in the source.
- Publication.CollectedVotesVerify: counts votes, not distinct voters, as the source does.
- HeaderBuilder.WaitForQuorum: the time-out, the repeated broadcast and the cancellation at the next round are not modelled, and neither is waiting for the sync status.
- DagProcessor.DagProcessor.Handle: failing sends and failing database writes, which end the loop, are not modelled.
- SyncTracker.SyncTracker.Loop: failing sends and database errors, which end the loop, are not modelled; up to them a run is one of the modelled ones. The previous status is kept for logging only and is left out.
- FetchBookkeeping.CommandsAreEntriesAndTimeOuts: does not hold of batches, which are asked for whether tracked or not; CommandsAreAskedAndTimeOuts covers them.
- FetchBookkeeping.OneReadingReissues: asks for one entry per id and the same reading of an object while collecting and removing; LostIff and DoubledIff say what happens otherwise.
- TrackedSet.LostIff: ages are within the range of the cast to u64, here and in the lemmas after it; outside of it an age wraps around.
- Fetch.TryFetchFrom: requests carry keys but not their kind (certificates, headers, batches); a request of the fourth kind is never answered and looks like a silent peer.
- Fetch.FetchResult: objects are stored under their own digest in every peer's database.
- BatchMaker.CounterExact: the counter is unbounded and does not wrap.
- CircularBuffer.CircularBuffer.Push: asks for a size of at least 1; with size 0 the source panics.
- FeeCache.GasPriceService.GetEffectiveBaseFee: runs without other calls; their interleavings are the transition system.
- Schnorr.BytesRoundTrip: writing a number that does not fit raises an error in Python and is cut here; no call the theorems meet does it.
- Assembler.BytecodeToHex: starts from parsed instructions; comments, white space and the pattern for push lines are not modelled.
- `HeaderElector` and `BlockHeader::verify_parents`: acceptance tests of one branch each.
- `Fetcher`, `BatchReceiver`, `SyncRelayer`, `DigestReceiver`, `BatchBroadcaster`: forwarding.
- libp2p, tokio scheduling, RocksDB, logging, the DAG log file, and the internals of blake3, SHA-256 and ed25519.
- The rest of igra-rpc-provider (flooring of JSON replies, proxy, wallet calls), the dns seeder, the graph inspector and the kips other than kip-0005.
