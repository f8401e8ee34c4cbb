# Sovereign workspace: a verified model of its algorithmic core

This Dafny project models the parts of the workspace that compute something, and proves what they are
for. `dafny verify dfyconfig.toml` checks all of it. Each module names the source file it models.

- **Emission ledger** (`Emission`, `EmissionRuns`, `EmissionResults`, `EmissionCalendar`, `EmissionChain`).
  One minute of emission is a class whose methods follow the two loops of `allocate_minute`; it is proved
  against a transition function on the ledger. Everything else is about runs of that function from genesis:
  which keys and results are paid and how often, what the novelty counters count, what a call, an
  epoch minute and a week emit, and what the receipt chain's tip commits to.
- **Commitments** (`Merkle`, `FieldRoots`, `Simulation`, `Osovm`). The recursive Merkle split, roots of
  arbitrary field lists, the receipt of a simulation and the two-phase witness protocol. Binding is always
  stated as "the committed values are equal, or this function returns two different messages with one hash".
  The hash is a parameter and nothing is assumed about it.
- **Conversation trees** (`Conversation`, `ParentPairs`). The explicit-stack walk over parent links,
  on every mapping, cyclic ones included, and the pairing of turns.
- **Point clouds** (`Voxel`, `Merge`, `Ply`, `PlyReading`). The voxel fold, the union and the statistics of a
  merge, and the PLY text format, as it is written and as it may be read.
- **Codecs** (`MeshEnvelope`, `Base64`, `Uuri`). Each with both directions of its round trip.
- **Index and concurrency** (`Registry`, `Swarm`). The DID reverse index, and the swarm monitor that reads
  jobs one by one while they run.
- **Tithe and tile economy** (`Ase`).
- `Wire`, `Text`, `BTree`, `Sequences` and `Wrappers` hold what several modules share: bytes, text encodings,
  the ordered map, lists without repetition, options and results.

## How the source is read

- Floating-point numbers are reals. `1/sqrt(n)` is not computed: the weight is a function parameter that
  is positive, and where its decay matters it satisfies the equations that determine `1/sqrt(n)`. `sin`
  and `cos` are arbitrary functions. PLY coordinates are written from integers counted in millionths and
  read as exact decimal values.
- SHA-256 is an arbitrary function from bytes to 32 bytes. Signing, the JSON text of a policy list, UUIDs
  and clocks are parameters.
- A hash map's iteration order is not fixed: `Conversation.Tree` carries it as a parameter, and
  `Voxel.Downsampled` allows every order.
- Concurrent jobs are a function from moments to job stores in which each status only advances. Every
  interleaving of job steps with the monitor's reads is such a function, and the theorems are about all
  of them.
- The comment in `is_sabbath` numbers the weekdays differently from the expression below it. The expression
  is followed; it holds on Saturdays, as the function promises (`EmissionCalendar.FirstWeek`).

## Where the code does not do what it documents

- A claim is checked against the ledger as it was before its minute. The same claim submitted twice in one
  batch is therefore paid twice (`EmissionRuns.SameClaimTwice`). Keys are paid once exactly when no batch has
  two passing claims with one key (`EmissionRuns.RunPaysOnceIff`).
- A key is meant to stop a simulation result from being claimed in several rounds, but it contains an epoch
  minute that the claim chooses and nobody compares. The same result under another epoch minute is paid again
  (`EmissionResults.SameResultPaidAgain`). Results are paid once exactly when no passing claim shares its
  result with another of its batch or with a key claimed before (`EmissionResults.RunPaysResultsOnceIff`);
  while every result comes with one epoch minute, the condition on keys is enough
  (`EmissionResults.KeysCoverResults`).
- The allocator is said to enforce one million per minute, but it does not remember which minutes it has
  allocated. Each further call for a minute emits another million (`EmissionCalendar.AllocatedAgain`,
  `EmissionCalendar.FirstMinuteTwice`). The ceiling is kept exactly when no two calls outside the Sabbath name
  the same epoch minute (`EmissionCalendar.CeilingKeptIff`).
- The weight of a claim is meant to fall with every earlier submission from its environment. Claims of one batch
  do not count against each other: the second and later ones of an environment are scored too high, except
  that the second of all loses nothing anyway (`EmissionRuns.DecayedScoreIff`).
- Leaves and inner nodes of the commitment tree are hashed alike, so a root does not fix the number of its
  leaves (`Merkle.AnyTwoCounts`). Among fields whose texts do not have 64 bytes it fixes all of them, number
  included (`FieldRoots.MerkleRootBinds`); a text of 64 bytes can stand for two leaves
  (`FieldRoots.NodeAsText`, `FieldRoots.FieldAsNode`).
- The receipt hash concatenates worker DIDs without their lengths. For every hash and every two DID lengths
  there are two runs that pay different workers and end in one tip (`EmissionChain.TwoLengthsOneTip`, and
  with ordinary DIDs `EmissionChain.TipAllowsTwoReadings`). The payments of recorded minutes can be read back
  exactly when all DIDs have one length (`EmissionChain.ReadableIffOneLength`).
- The documentation asks for independent witnesses. The code counts them without comparing them
  (`Osovm.OneWitnessTwice`): a receipt names two different witnesses exactly when two of the given
  attestations do (`Osovm.IndependentIff`). In `prove` a witness whose key cannot sign still counts
  (`Osovm.UnusableKeysCount`): all recorded attestations are signatures exactly when every witness key can
  sign the commitment (`Osovm.AllSignedIff`).
- Re-registering an identity document does not remove addresses it no longer lists
  (`Registry.StaleAddress`). `Registry.AgreesIff` says exactly when index and documents agree, for every
  history.
- The base64 decoder never fails. On text that is not canonical it returns bytes whose encoding is a
  different text (`Base64.LostBits`; exactly when, `Base64.DecodesFaithfullyIff`).
- An address that starts with `nostr:///` is accepted but not printed back as it was
  (`Uuri.EmptyRelayDropped`, `Uuri.KeyBecomesRelay`; exactly when, `Uuri.ReprintIff`, `Uuri.ReparseIff`).
- A tile fee well above 100% hands out more than was minted, hidden by a saturating subtraction
  (`Ase.DoubleFee`; exactly when, `Ase.MintConservesIff`).
- The fingerprint of an envelope joins body and signature without lengths. With signatures of different
  lengths two relay envelopes share one fingerprint (`MeshEnvelope.RelayBoundaryMoves`; exactly when,
  `MeshEnvelope.MessageBindsIff`).
- The PLY reader trims line feeds after the header but not carriage returns. A file whose lines end in both is
  accepted and loses its last vertex (`PlyReading.CarriageReturnsLoseOne`).
- The comment on the balanced objective weighs energy with 0.4 and risk with 0.6. The code multiplies the risk by a
  hundred first, and is followed (`Osovm.ArgminIsBest`).

## Model

| member | source | states |
|---|---|---|
| Wire.LittleEndianAt | twin-protocol/src/emission.rs:139-140 | byte i of a little-endian number counts multiples of 256 to the i |
| Wire.BeU32At | sovereign-types/src/mesh_envelope.rs:208-208 | the four bytes of a big-endian number, the most significant first |
| Text.Utf8CharIs | sovereign-types/src/merkle.rs:15-15 | every character is encoded as section 3 of RFC 3629 says, in the shortest form |
| Text.HexAt | sovereign-types/src/merkle.rs:20-20 | each byte is written as two hexadecimal digits, the high half first |
| Text.BodyReadsBack | sovereign-types/src/merkle.rs:14-14 | a reader of JSON strings after section 7 of RFC 8259 reads every rendered string back |
| Text.DecimalDigits | sovereign-types/src/merkle.rs:14-14 | the k-th decimal digit from the right counts multiples of ten to the k |
| Text.UnicodeWhiteIff | sovereign-pipeline/src/go2_driver.rs:205-205 | the white space that is dropped are the 25 characters with that Unicode property |
| Merkle.CombineSplits | sovereign-types/src/merkle.rs:23-38 | on two or more leaves the node always combines two shorter, non-empty halves: the branch that pads a node with itself is never taken |
| Merkle.CombineLevelUp | sovereign-types/src/merkle.rs:23-38 | replacing the leaves by their first level of parent nodes keeps the root |
| Merkle.AnyTwoCounts | sovereign-types/src/merkle.rs:23-38 | for every hash and any two positive counts there are lists of so many leaves with one root |
| Merkle.CombineIsBottomUp | sovereign-types/src/merkle.rs:23-38 | for every non-empty leaf list the recursive split is the level-by-level tree that pairs neighbours and promotes an odd last node |
| Merkle.RootBinds | sovereign-types/src/merkle.rs:23-38 | equal roots over equally many leaves, whatever the leaves: they are equal, or the finder returns a genuine collision, and it returns none exactly when they are equal |
| FieldRoots.NoClashIff | sovereign-types/src/merkle.rs:13-38 | for lists of texts of any two lengths, none empty or of 64 bytes, walking the two trees down finds no difference exactly when the lists are equal |
| FieldRoots.ClashCollides | sovereign-types/src/merkle.rs:13-38 | below equal roots, over lists of any lengths, whatever the walk finds are two different messages with one hash |
| FieldRoots.FieldTextInjective | sovereign-types/src/merkle.rs:14-14 | a text "key:value" fixes key and value, whatever colons and quotes they contain |
| FieldRoots.MerkleRootBinds | sovereign-types/src/merkle.rs:8-38 | any two field lists with one root and no text of 64 bytes are the same list, the empty one included, or a collision is returned; none is returned exactly when they are the same |
| FieldRoots.NodeAsText | sovereign-types/src/merkle.rs:13-38 | for every hash a 64-byte text made of two leaf digests has the root of those two leaves, with no collision to find |
| FieldRoots.FieldAsNode | sovereign-types/src/merkle.rs:8-38 | for every field with a 64-byte text and any two other fields some hash gives both lists one root |
| Emission.Shares | twin-protocol/src/emission.rs:312-345 | for every non-empty batch of positive weights there is one share per claim and the shares sum to exactly 1,000,000 |
| Emission.OtherShares | twin-protocol/src/emission.rs:318-324 | every worker but the last gets the floor of its proportional share |
| Emission.LastShare | twin-protocol/src/emission.rs:318-324 | the last of n workers gets at least its exact share and less than that plus n-1; a sole worker gets exactly its share |
| Emission.ShareAt | twin-protocol/src/emission.rs:318-345 | what has been distributed never exceeds the minute, so the final subtraction cannot underflow, and what the loop computes for worker i is its share |
| Emission.DailyEmissionAllocator.constructor | twin-protocol/src/emission.rs:187-193 | a new ledger has no claims, no counts and the genesis tip |
| Emission.DailyEmissionAllocator.AllocateMinute | twin-protocol/src/emission.rs:232-372 | the record returned and all three fields afterwards are those of the transition function, on the Sabbath, fallback and paying branches; the authorization carries the receipt hash over the old tip; what the difficulty, the scores and the shares in it are is stated below without that function (`DifficultySchedule`, `MinutePaysIff`, `RecordedDecay`, `RecordedShares`) |
| Emission.DailyEmissionAllocator.FilterClaims | twin-protocol/src/emission.rs:266-283 | the filtering loop yields the eligible claims at the weights of the ledger before the minute, and the ids of all others, in order |
| Emission.DailyEmissionAllocator.PayAll | twin-protocol/src/emission.rs:312-345 | the paying loop records every eligible claim with its share and key, marks every key claimed and advances every counter |
| Emission.DailyEmissionAllocator.Mark | twin-protocol/src/emission.rs:333-342 | one UTXO is marked claimed in this minute and one counter advanced, nothing else changes |
| Emission.ShareOf | twin-protocol/src/emission.rs:319-324 | the loop body's share is the specified one and fits the minute |
| Emission.SumWeights | twin-protocol/src/emission.rs:313-313 | the running sum is the total weight |
| EmissionRuns.EligibleIff | twin-protocol/src/emission.rs:266-283 | a scored claim is paid exactly when it was submitted, meets the difficulty, its key is unclaimed before the minute, and its score is the one the old ledger gives |
| EmissionRuns.RejectedInOrder | twin-protocol/src/emission.rs:266-278 | the rejected ids are those of exactly the claims that do not pass, in the order of submission |
| EmissionRuns.EveryClaimAnswered | twin-protocol/src/emission.rs:232-372 | in every minute each submitted proof id appears, with multiplicity, among the workers or among the rejections |
| EmissionRuns.ClaimedIsPaid | twin-protocol/src/emission.rs:333-339 | after any run the claimed map holds exactly the keys paid so far, each marked claimed |
| EmissionRuns.EntryNamesPayment | twin-protocol/src/emission.rs:333-339 | the entry of a claimed key names the worker and the minute of a payment of that key |
| EmissionRuns.NeverPaidAgain | twin-protocol/src/emission.rs:273-278 | a key recorded as paid in one minute is recorded in no later one |
| EmissionRuns.MinutePaysOnceIff | twin-protocol/src/emission.rs:267-339 | the keys paid in a minute are distinct exactly when no two claims of the batch that pass the filter share a key |
| EmissionRuns.RunPaysOnceIff | twin-protocol/src/emission.rs:267-346 | over any run every key is paid at most once exactly when no minute's batch has such a pair; a key repeated across minutes is harmless |
| EmissionResults.RunPaysResultsOnceIff | twin-protocol/src/emission.rs:72-78 | over any run every simulation result, a veil and a trajectory, is paid at most once exactly when in no minute a passing claim shares its result with another passing claim of the batch or with a key claimed before |
| EmissionResults.KeysCoverResults | twin-protocol/src/emission.rs:61-78 | while every result always comes with one epoch minute, results are paid once exactly when no batch has two passing claims with one key |
| EmissionResults.SameResultPaidAgain | twin-protocol/src/emission.rs:273-278 | after any run, for every hash and weight, a claim and the same claim with another epoch minute are both paid in any two working minutes whose difficulty their score meets, if they were not before, and no batch with two claims of one key is added |
| EmissionResults.FirstResultPaidAgain | twin-protocol/src/emission.rs:273-278 | the first two minutes after genesis already pay one result twice, if its score meets the genesis difficulty |
| EmissionRuns.SameClaimTwice | twin-protocol/src/emission.rs:267-283 | any passing claim submitted twice in one batch is paid twice |
| EmissionRuns.CounterIsHistory | twin-protocol/src/emission.rs:341-342 | after any run an environment's counter is the number of its claims paid in all minutes so far |
| EmissionRuns.RecordedScore | twin-protocol/src/emission.rs:279-282 | each recorded score is the claim's f1 times the weight of the number of payments of its environment in earlier minutes; those of its own batch are not among them |
| EmissionRuns.RecordedDecay | twin-protocol/src/emission.rs:195-282 | with n earlier payments of its environment a recorded score is positive, its square times n is the square of the f1 score, and it is the f1 score itself when n is 0 |
| EmissionRuns.WeightFalls | twin-protocol/src/emission.rs:198-204 | the weight is positive, at most 1, never rises with the count, and is 1 at counts 0 and 1 |
| EmissionRuns.PenalisedIff | twin-protocol/src/emission.rs:195-204 | a repeat is penalised, its weight below 1, exactly from the second earlier payment on, and every further one lowers the weight strictly |
| EmissionRuns.NoveltyNeverRises | twin-protocol/src/emission.rs:198-204 | an environment's weight never rises during a run |
| EmissionRuns.DecayedScoreIff | twin-protocol/src/emission.rs:17-17 | with a earlier payments of its environment in earlier minutes and j in the same batch, a paid claim's recorded score is at least its f1 times the weight of a + j, and equals it exactly when j is 0, or a is 0 and j is 1 |
| EmissionRuns.DifficultyRejectsForever | twin-protocol/src/emission.rs:208-212 | difficulty never falls and stays between its genesis value and its ceiling, so a claim below it once is below it at every later minute |
| EmissionRuns.DifficultySchedule | twin-protocol/src/emission.rs:206-212 | the difficulty is 0.777 below minute 2,016, rises by 0.001 from each minute to the one 2,016 later while that stays within 0.98, is constant within a block of 2,016, and is 0.98 exactly from minute 409,248 on |
| EmissionRuns.MinutePaysIff | twin-protocol/src/emission.rs:267-283 | in any run a minute pays a claim exactly when it is in the batch, it is not the Sabbath, its score reaches 0.98 or 0.777 plus a thousandth per 2,016 minutes, and no claim with its veil, epoch minute and trajectory was paid in an earlier minute |
| EmissionRuns.GenesisScoreExpires | twin-protocol/src/emission.rs:208-271 | a score below 0.778 is paid in no minute from 2,016 on |
| EmissionRuns.RecordedShares | twin-protocol/src/emission.rs:312-331 | the recorded amounts sum to 1,000,000 and each worker but the last gets its score's part of the recorded scores rounded down |
| EmissionRuns.RecordHeader | twin-protocol/src/emission.rs:347-360 | a record carries its minute, its time and the difficulty of the schedule |
| EmissionRuns.MinuteConserves | twin-protocol/src/emission.rs:242-345 | a call outside the Sabbath records 1,000,000 and hands all of it to workers, or all but 640 to the 1,440 wallets when nobody is eligible; a call on the Sabbath hands out nothing |
| EmissionRuns.RunConserves | twin-protocol/src/emission.rs:232-372 | over any run, what reached workers and wallets plus 640 per fallback call is 1,000,000 per non-Sabbath call, whatever minutes the calls name |
| EmissionCalendar.FirstWeek | twin-protocol/src/emission.rs:215-220 | in the first week of the epoch exactly the minutes of its third day, a Saturday, are Sabbath minutes |
| EmissionCalendar.EveryWeek | twin-protocol/src/emission.rs:215-220 | any 10,080 consecutive minutes contain exactly 1,440 Sabbath minutes |
| EmissionCalendar.EmittedIsWorkingCalls | twin-protocol/src/emission.rs:242-291 | over any run the recorded totals sum to 1,000,000 per non-Sabbath call |
| EmissionCalendar.WeekWorks | twin-protocol/src/emission.rs:215-220 | with calls 60 seconds apart from any start, any 10,080 consecutive calls include 8,640 working ones |
| EmissionCalendar.WeekEmits | twin-protocol/src/emission.rs:215-372 | any 10,080 consecutive calls, 60 seconds apart from any start, emit exactly 8,640 million |
| EmissionCalendar.EmittedPerCall | twin-protocol/src/emission.rs:232-372 | what any run emits for one epoch minute is 1,000,000 times its non-Sabbath calls for that minute |
| EmissionCalendar.CeilingKeptIff | twin-protocol/src/emission.rs:167-168 | every epoch minute emits at most 1,000,000 exactly when no two non-Sabbath calls of the run name the same epoch minute |
| EmissionCalendar.AllocatedAgain | twin-protocol/src/emission.rs:232-372 | one more non-Sabbath call for an epoch minute adds 1,000,000 to what that minute has emitted, after any run and whatever was emitted for it before |
| EmissionCalendar.FirstMinuteTwice | twin-protocol/src/emission.rs:232-291 | epoch minute 0 called twice, without claims, emits 2,000,000 |
| EmissionChain.TipIsFold | twin-protocol/src/emission.rs:299-360 | after any run the tip is the fold of the receipt hash from genesis over exactly the non-Sabbath records |
| EmissionChain.BodyParts | twin-protocol/src/emission.rs:136-146 | the hashed bytes fix the minute number, the total and the worker byte string |
| EmissionChain.MessageLayout | twin-protocol/src/emission.rs:136-146 | the hashed bytes are the old tip, eight bytes of the minute and eight of the total, least significant first, and the workers |
| EmissionChain.WorkerLayout | twin-protocol/src/emission.rs:141-144 | each worker's DID stands behind those of all earlier workers, followed by eight bytes of its amount, least significant first |
| EmissionChain.WorkersEnd | twin-protocol/src/emission.rs:141-144 | nothing else is hashed of the workers |
| EmissionChain.FoldBinds | twin-protocol/src/emission.rs:136-146 | two record lists of any lengths with equal folds are equally long and have equal hashed bodies, or walking back from the tip finds a genuine collision or a message that hashes to the start; it finds neither exactly when the lists agree |
| EmissionChain.TipBinds | twin-protocol/src/emission.rs:136-360 | any two runs with equal tips chain equally many minutes and agree on every minute, total, worker byte string, fallback flag and wallet amount, or a collision or a message hashing to the genesis tip is returned |
| EmissionChain.OneLengthReadable | twin-protocol/src/emission.rs:141-144 | among workers whose DIDs have one length, equal byte strings mean equal payments |
| EmissionChain.ReadableIffOneLength | twin-protocol/src/emission.rs:141-144 | for any set of permitted DID lengths, the byte string of a recorded minute determines its payments exactly when the set has at most one length |
| EmissionChain.TwoLengthsOneTip | twin-protocol/src/emission.rs:136-146 | for every hash and every two DID lengths, two one-minute runs of claims with score 0.777 that pay different workers, each with DIDs of one of the lengths, end in one tip |
| EmissionChain.TipBindsPayments | twin-protocol/src/emission.rs:136-360 | with DIDs of one length, equal tips fix every worker and amount of every chained minute, or a collision or a message hashing to the genesis tip is returned |
| EmissionChain.TipAllowsTwoReadings | twin-protocol/src/emission.rs:141-144 | for every hash, two concrete one-minute runs that pay different workers end in one tip |
| BTree.InsertAllEntries | twin-protocol/src/osovm.rs:239-256 | inserting entries with distinct keys gives a list sorted by key with exactly those entries |
| BTree.FindAfterInsert | twin-protocol/src/osovm.rs:239-246 | inserting under a key, present or not, changes what is found under it and nothing else |
| Simulation.FieldsInOrder | twin-protocol/src/simulation.rs:88-95 | the five fields reach the tree in alphabetical order |
| Simulation.CommitmentIs | twin-protocol/src/simulation.rs:83-95 | the commitment written out: five texts "key:value" in alphabetical order, hashed, their hashes joined in pairs and the fifth last, in hexadecimal behind "sha256:" |
| Simulation.CommitmentBinds | twin-protocol/src/simulation.rs:83-95 | equal commitments mean the same twin, engine, robot model, trajectory count and policies, or a collision is returned; none is returned exactly when they are the same |
| Simulation.NoMismatchIff | twin-protocol/src/simulation.rs:97-107 | the loop over witnesses passes exactly when every one of them carries the commitment |
| Simulation.BuildSucceedsIff | twin-protocol/src/simulation.rs:49-130 | a receipt is built exactly for two or more policies containing the selected one, two or more witnesses that all carry the commitment of the inputs, and a usable key; it then records every input, the selected policy and the criteria among them, a signature of the commitment under that key, and keeps every promise that can be read off it |
| Simulation.BuildFails | twin-protocol/src/simulation.rs:63-112 | which error a failing build returns, in the order of the guards: the counts, the missing policy, the first witness with another commitment, the unusable key |
| Simulation.ReceiptsBind | twin-protocol/src/simulation.rs:83-130 | two such receipts with one commitment agree on twin, engine, model, count and policies, or a collision is returned |
| Osovm.MinBy | twin-protocol/src/osovm.rs:365-380 | selection returns the first policy with the least objective, whatever the objective measures |
| Osovm.ArgminIsBest | twin-protocol/src/osovm.rs:365-380 | no candidate has less energy, risk or duration under the objective of that name, nor less of two fifths of energy and three fifths of a hundred times risk under any other |
| Osovm.AbsorbAllSums | twin-protocol/src/osovm.rs:239-246 | for any rollouts the fold holds under each policy id the count and the three sums over its own rollouts, nothing under other ids, in ascending order |
| Osovm.CandidatesAreMeans | twin-protocol/src/osovm.rs:239-256 | for any rollouts each candidate is the mean of those with its id |
| Osovm.PolicyIdsDiffer | twin-protocol/src/osovm.rs:223-227 | different rollouts have different policy ids |
| Osovm.AbsorbAllInserts | twin-protocol/src/osovm.rs:239-246 | for every count the fold over the rollouts never adds two of them up: it is one insertion each |
| Osovm.StubPoliciesAre | twin-protocol/src/osovm.rs:218-256 | the candidate policies are exactly the rollouts' own policies, one each |
| Osovm.RunStub | twin-protocol/src/osovm.rs:213-273 | the loop over trajectories computes the specified run |
| Osovm.StubIsPresentable | twin-protocol/src/osovm.rs:213-273 | for every trajectory count the stub succeeds with max(count, 2) rollouts, one candidate for each of them, and selects a first minimum of the objective |
| Osovm.RolloutBounds | twin-protocol/src/osovm.rs:218-238 | with a twin score in 0..1 every synthetic rollout succeeds, with energy in 90..150, duration in 13..23 and risk at most 0.2, and a better twin lowers the risk by a tenth of the difference |
| Osovm.RunIff | twin-protocol/src/osovm.rs:284-303 | the engine refuses exactly on the Sabbath when it is not told to skip it, and passes on a real engine's answer |
| Osovm.TwoPhases | twin-protocol/src/osovm.rs:456-503 | the commitment of phase 1 is the one phase 2 rebuilds: whatever run the engine returned, phase 2 succeeds exactly for two candidates with the selected one among them, a usable key, and two or more attestations that all carry the commitment, and its receipt shows that run: engine, model, count, candidates, selected policy, objective, attestations, and a signature of the commitment |
| Osovm.StubTwoPhases | twin-protocol/src/osovm.rs:284-303 | on a weekday without a real engine both phases go through from any scenario, and the receipt names a first minimum of its selection criteria among its policies |
| Osovm.ProveIsTwoPhases | twin-protocol/src/osovm.rs:398-448 | the one-call pipeline equals the two phases with local attestations, in which each witness appears under its own name and time, and succeeds exactly for a run with two candidates and the selected one among them, a usable key, and two or more witness keys |
| Osovm.TooFewFirst | twin-protocol/src/osovm.rs:406-490 | fewer than two witnesses are reported before anything is run or built, and the Sabbath ends both the pipeline and phase 1 |
| Osovm.AllSignedIff | twin-protocol/src/osovm.rs:425-434 | every attestation in the receipt is its witness's own signature of the commitment exactly when every witness key can sign that commitment |
| Osovm.UnusableKeysCount | twin-protocol/src/osovm.rs:425-434 | two witnesses without a usable key make a receipt that records no signature |
| Osovm.IndependentIff | twin-protocol/src/osovm.rs:480-503 | a receipt of phase 2 names two different witnesses exactly when two of the given attestations do |
| Osovm.WrongTwin | twin-protocol/src/osovm.rs:480-503 | attestations collected for one twin let phase 2 succeed for another only by a hash collision, which is returned |
| Osovm.OneWitnessTwice | twin-protocol/src/osovm.rs:488-490 | one attestation given twice passes as two witnesses, and the receipt names one witness only |
| Conversation.BuildChildren | mycelium-finetune/src/main.rs:398-411 | on every mapping the loop finds the last root in iteration order and maps every id to its children in that order |
| Conversation.KidsAre | mycelium-finetune/src/main.rs:402-411 | an id's children are distinct and are exactly the non-root ids that name it as parent |
| Conversation.KidsInOrder | mycelium-finetune/src/main.rs:402-411 | an id is a child exactly of the id in the file that it names as parent, and children stand in iteration order |
| Conversation.RootIs | mycelium-finetune/src/main.rs:401-404 | the chosen id is a root, or no id is and the empty id is chosen, which has no children |
| Conversation.LastRootChosen | mycelium-finetune/src/main.rs:401-404 | if any node has no parent in the file, the last such node in iteration order is chosen |
| Conversation.WalkStep | mycelium-finetune/src/main.rs:416-428 | one pop keeps the walk's invariant: nothing is on the stack twice or already visited, and everything but the root was put there by a visited parent |
| Conversation.PreorderStep | mycelium-finetune/src/main.rs:416-428 | the preorder still to come from a stack is the popped id followed by the preorder from its children and the rest |
| Conversation.PushReversed | mycelium-finetune/src/main.rs:423-426 | pushing in reverse puts the children on top of the stack in their own order |
| Conversation.PopAndPush | mycelium-finetune/src/main.rs:416-428 | one turn of the loop pops the top, contributes its message if there is one to collect, and puts its children in its place |
| Conversation.Walk | mycelium-finetune/src/main.rs:413-428 | on every mapping, cycles and dangling parents included, the stack walk ends and collects, in the order of the recursive preorder from the root, role and text of exactly the visited nodes whose role is user or assistant and whose text is not empty |
| Conversation.MessagesAreCollected | mycelium-finetune/src/main.rs:417-422 | over any list of ids there is an ascending list of exactly the positions at which a user or assistant says something, and the messages are what is said there |
| Conversation.WalkVisits | mycelium-finetune/src/main.rs:413-428 | the walk visits no id twice, and visits exactly the ids whose chain of parents ends at the chosen root |
| Conversation.PairsFromAll | mycelium-finetune/src/main.rs:431-439 | skipping two positions after a pair loses none: the scan yields every user message directly followed by an assistant message |
| Conversation.ScanPairs | mycelium-finetune/src/main.rs:486-493 | the loop returns all such adjacent turns in order |
| Conversation.ParseConversation | mycelium-finetune/src/main.rs:398-439 | the result is one pair for each two visited nodes, the first a user's and the second an assistant's, both with a text and with no other speaking node between them in preorder; in order, each with those two texts |
| Conversation.AllTurnsPaired | mycelium-finetune/src/main.rs:431-439 | adjacent turns of the collected messages are exactly those pairs of nodes |
| ParentPairs.IndexUuids | mycelium-finetune/src/main.rs:519-524 | the index maps each uuid to the last line that carries it |
| ParentPairs.LastUserBefore | mycelium-finetune/src/main.rs:535-544 | the backward search finds the nearest user line before i, or none |
| ParentPairs.BuildPairs | mycelium-finetune/src/main.rs:518-559 | the loop returns one pair for each assistant line that answers some user line, in the order of those lines |
| ParentPairs.PairAtIff | mycelium-finetune/src/main.rs:528-557 | a line yields at most one pair, and yields it exactly when it is an assistant line that answers that user line |
| ParentPairs.AllPairsIff | mycelium-finetune/src/main.rs:518-559 | a pair comes out exactly when some assistant line answers its user line: the last line with the uuid it names or, naming none, the nearest user line before it |
| ParentPairs.NamedParent | mycelium-finetune/src/main.rs:546-555 | with unique uuids a named parent is answered exactly when it is a user line |
| Voxel.FillCells | sovereign-pipeline/src/merge.rs:101-114 | after the loop exactly the occupied cells are in the map, each with the sum and count of its own points |
| Voxel.CellIff | sovereign-pipeline/src/merge.rs:103-108 | the cell of a coordinate is k exactly when k cell sizes are at most the coordinate and k + 1 are more, except that the two outermost cells of an i64 also take what lies beyond |
| Voxel.DownsampledIff | sovereign-pipeline/src/merge.rs:94-120 | a result is possible exactly when there is one output for each box of the grid that holds points, the mean of exactly the points in that box; or it is the input when there is nothing to do |
| Voxel.VoxelDownsample | sovereign-pipeline/src/merge.rs:94-120 | the result has one point for each box of the grid that holds points, the mean of exactly those points, in some order; or it is the input when the cell size is not positive or there are no points |
| Voxel.GroupReordered | sovereign-pipeline/src/merge.rs:101-114 | a cell's sum and count do not depend on the order of the input |
| Voxel.PermutationInvariant | sovereign-pipeline/src/merge.rs:94-120 | permuting the input permutes the output, whatever orders the hash map takes |
| Voxel.MassConserved | sovereign-pipeline/src/merge.rs:101-119 | the output means weighted by their counts sum to the sum of the input |
| Voxel.MeanInCell | sovereign-pipeline/src/merge.rs:103-119 | every output lies in the cell it stands for, cells at the limits of i64 included |
| Voxel.InBoundingBox | sovereign-pipeline/src/merge.rs:94-120 | on each axis every output lies between two input points |
| Voxel.Idempotent | sovereign-pipeline/src/merge.rs:94-120 | a second pass with the same cell size returns the same points |
| Voxel.NeverMore | sovereign-pipeline/src/merge.rs:94-120 | there are never more outputs than inputs, and some if there were any |
| Merge.ErrorStays | sovereign-pipeline/src/merge.rs:133-143 | the first splat that does not load decides the error |
| Merge.FirstFailure | sovereign-pipeline/src/merge.rs:133-143 | a failing merge reports the error of the first splat that does not load |
| Merge.LoadSplatIff | sovereign-pipeline/src/merge.rs:133-143 | a splat loads exactly when its data is base64 of UTF-8 text that contains the end marker, and otherwise fails with its device, as bad base64 or as bad PLY |
| Merge.LoadedIsUnion | sovereign-pipeline/src/merge.rs:131-143 | when a merge loads, every splat loads, and the cloud is their points one splat after the other and nothing else |
| Merge.TwoWrittenSplats | sovereign-pipeline/src/merge.rs:131-143 | two written splats load as the points of the first and then those of the second |
| Merge.Statistics | sovereign-pipeline/src/merge.rs:156-171 | the running sums and bounds give the mean and the tight bounding box |
| Merge.Load | sovereign-pipeline/src/merge.rs:133-143 | one splat loads as the real points of its PLY text, or fails as bad base64 or bad PLY with its device |
| Merge.WrittenSplatLoads | sovereign-pipeline/src/merge.rs:51-88 | a splat whose text was written from vertices loads as exactly their points |
| Merge.MergeSplats | sovereign-pipeline/src/merge.rs:124-186 | no splats is an error, the first load error is returned, and otherwise every splat has loaded, the input is their points one splat after the other, counted as the sum of their counts, and the report and its PLY text describe that input downsampled |
| Merge.MergedTextReads | sovereign-pipeline/src/merge.rs:146-174 | the PLY text of every merge reads back as its cloud, point for point, to half a millionth on each axis |
| Merge.ReportIsSane | sovereign-pipeline/src/merge.rs:145-171 | every report's box holds its centroid and lies between two input points on each axis, and its reduction is at least 0 and below 100 percent |
| Ply.WritePlyText | sovereign-pipeline/src/merge.rs:79-88 | the writing loop produces the specified text |
| Ply.ParsePoint | sovereign-pipeline/src/merge.rs:67-73 | a line gives a point exactly when its first three columns are numbers: decimals with or without sign, point and exponent, infinities, or not-a-number |
| Ply.ParseEach | sovereign-pipeline/src/merge.rs:64-74 | the loop returns the points of the lines that parse, in order |
| Ply.ParsePlyPoints | sovereign-pipeline/src/merge.rs:51-76 | the reader is the specified one, a missing end marker included |
| Ply.FixedRoundTrip | sovereign-pipeline/src/merge.rs:85-85 | every coordinate with six decimals, negative ones included, reads back as its value |
| Ply.HeaderCount | sovereign-pipeline/src/merge.rs:56-61 | the reader finds the count the header was written with |
| Ply.FindEnd | sovereign-pipeline/src/merge.rs:53-54 | in a text without underscores before it, the end marker is found where it was written |
| Ply.FindIff | sovereign-pipeline/src/merge.rs:53-53 | the end marker is found exactly when it stands somewhere, at its first place |
| Ply.BodyLines | sovereign-pipeline/src/merge.rs:63-74 | the first lines of a written body read as its vertices, and the lines of whatever follows come after them |
| Ply.RoundTrip | sovereign-pipeline/src/merge.rs:51-88 | reading a written file returns its vertices, for the empty list too, whatever text follows: the announced count stops the reader |
| PlyReading.WrittenText | sovereign-pipeline/src/merge.rs:79-88 | the written text, line by line: magic word, format, count, three properties, end of header, and x, y and z of each vertex |
| PlyReading.SixDecimalsWritten | sovereign-pipeline/src/merge.rs:85-85 | every coordinate has exactly six decimals, and a minus sign exactly below zero |
| PlyReading.NumeralReads | sovereign-pipeline/src/merge.rs:68-70 | every numeral, with or without sign, point and exponent, in either case of the letter, reads as its digits times the power of ten that point and exponent give |
| PlyReading.FiniteIsNumeral | sovereign-pipeline/src/merge.rs:68-70 | whatever reads as a finite number is such a numeral |
| PlyReading.SignedWordsRead | sovereign-pipeline/src/merge.rs:68-70 | inf and infinity read as infinities with their sign, and nan as no number, in any mixture of cases |
| PlyReading.ScaleIs | sovereign-pipeline/src/merge.rs:68-70 | scaling by ten to the k multiplies, and by ten to the -k gives the number that ten to the k multiplies back |
| PlyReading.ColumnsIgnored | sovereign-pipeline/src/merge.rs:67-73 | whatever columns follow the third are ignored |
| PlyReading.WordsAre | sovereign-pipeline/src/merge.rs:59-67 | white space separates words and is dropped, and every other run of characters is one word |
| PlyReading.LinesAre | sovereign-pipeline/src/merge.rs:56-66 | a line feed ends a line together with a carriage return before it, and a text without one is one line |
| PlyReading.BlankLinesSkipped | sovereign-pipeline/src/merge.rs:63-66 | any number of line feeds may follow the header |
| PlyReading.CountIs | sovereign-pipeline/src/merge.rs:56-61 | the announced count is the third word of the element line, with a plus or without, whatever follows it, and 0 if it does not fit 64 bits |
| PlyReading.FirstWithIs | sovereign-pipeline/src/merge.rs:56-58 | of several element lines the first one counts, and without one there is none |
| PlyReading.CarriageReturnsLoseOne | sovereign-pipeline/src/merge.rs:51-76 | a file with carriage returns at its line ends is accepted and loses exactly its last vertex |
| MeshEnvelope.DecodeBody | sovereign-types/src/mesh_envelope.rs:118-142 | a decoded body is of the kind asked for and well formed |
| MeshEnvelope.BodyRoundTrip | sovereign-types/src/mesh_envelope.rs:100-142 | every body decodes to itself, an OrcaRelay payload cut to the budget |
| MeshEnvelope.EncodeFits | sovereign-types/src/mesh_envelope.rs:199-214 | encoding never overflows and never exceeds 136 bytes |
| MeshEnvelope.RoundTrip | sovereign-types/src/mesh_envelope.rs:199-232 | a version-1 envelope with the kind of its body comes back with its signature fitted to 64 bytes and its payload cut to 34 |
| MeshEnvelope.WireLayout | sovereign-types/src/mesh_envelope.rs:199-215 | the wire format byte for byte: version, kind number, four bytes of time with the most significant first, key, signature filled up with zeros or cut to 64 bytes, and the fields of the body in their order |
| MeshEnvelope.RoundTripIff | sovereign-types/src/mesh_envelope.rs:199-232 | an envelope comes back unchanged exactly when it has version 1, the kind of its body, a 64-byte signature and a payload within the budget |
| MeshEnvelope.FingerprintSurvives | sovereign-types/src/mesh_envelope.rs:187-196 | sending keeps what the fingerprint hashes exactly when the signature has 64 bytes; otherwise equal fingerprints are a collision |
| MeshEnvelope.MessageBindsIff | sovereign-types/src/mesh_envelope.rs:170-196 | equal hashed messages mean equal headers, and equal bodies and signatures exactly when the signatures have one length, as they do for every kind but the relay |
| MeshEnvelope.FingerprintBinds | sovereign-types/src/mesh_envelope.rs:170-196 | envelopes with equal fingerprints agree up to that boundary, and on the wire when their signatures have one length, or the hashed messages collide |
| MeshEnvelope.RelayBoundaryMoves | sovereign-types/src/mesh_envelope.rs:187-196 | for every hash, a byte moved from relay payload to signature keeps the fingerprint and changes the envelope on the wire |
| MeshEnvelope.AcceptsIff | sovereign-types/src/mesh_envelope.rs:217-232 | which buffers are accepted: long enough for the header and the body of a known kind, with version 1 |
| MeshEnvelope.RejectsWith | sovereign-types/src/mesh_envelope.rs:217-232 | which error a rejected buffer gives |
| MeshEnvelope.Reencode | sovereign-types/src/mesh_envelope.rs:199-232 | encoding what an accepted buffer decodes to gives a prefix of that buffer |
| MeshEnvelope.ReencodeIff | sovereign-types/src/mesh_envelope.rs:199-232 | it gives the whole buffer exactly for relays of at most 136 bytes and for other kinds with nothing after the body |
| MeshEnvelope.DecodeInjective | sovereign-types/src/mesh_envelope.rs:217-232 | two buffers that decode to one envelope share the header and the encoded body |
| Base64.AlphabetIs | sovereign-pipeline/src/go2_driver.rs:206-206 | the alphabet lists the standard's symbols in order of value |
| Base64.GroupsAre | sovereign-pipeline/src/go2_driver.rs:206-223 | the encoding that the decoder inverts is that of section 4 of RFC 4648: the digits in base 64 of each three bytes, most significant first |
| Base64.TailsAre | sovereign-pipeline/src/go2_driver.rs:216-223 | one or two last bytes are encoded as if filled up with zeros, with padding for the digits they do not reach |
| Base64.BuildTable | sovereign-pipeline/src/go2_driver.rs:207-210 | the filling loop gives every byte its value, and 0 to bytes that are no symbol |
| Base64.Lookup | sovereign-pipeline/src/go2_driver.rs:216-220 | four table reads give the 24-bit number of a group, padding counted as zero |
| Base64.Push | sovereign-pipeline/src/go2_driver.rs:221-223 | one to three bytes of the number are pushed, one fewer for each padding character |
| Base64.DecodeText | sovereign-pipeline/src/go2_driver.rs:201-227 | the loop decodes the cleaned text group by group and ignores an incomplete last group |
| Base64.SpacedIff | sovereign-pipeline/src/go2_driver.rs:205-205 | cleaning a text leaves an ASCII encoding exactly when the text is that encoding with white space put in anywhere |
| Base64.DecodeEncode | sovereign-pipeline/src/go2_driver.rs:212-226 | decoding the padded encoding of section 4 of RFC 4648 returns the bytes, for every byte string |
| Base64.RoundTrip | sovereign-pipeline/src/go2_driver.rs:201-227 | the same with white space put in anywhere |
| Base64.EncodeDecode | sovereign-pipeline/src/go2_driver.rs:212-226 | a canonical text is the encoding of what it decodes to |
| Base64.DecodesFaithfullyIff | sovereign-pipeline/src/go2_driver.rs:201-227 | a text is an encoding of what it decodes to exactly when, without white space, it is full groups of symbols with correct padding and zero unused bits |
| Base64.ForeignIsA | sovereign-pipeline/src/go2_driver.rs:206-220 | a character outside the alphabet decodes as the letter A would in its place |
| Base64.DecodeShortTail | sovereign-pipeline/src/go2_driver.rs:212-226 | what is left after the last full group is ignored |
| Base64.LostBits | sovereign-pipeline/src/go2_driver.rs:201-227 | two texts that differ in unused bits decode to one byte, and the one that is not canonical is not its encoding |
| Uuri.SplitSlashIff | sovereign-types/src/uuri.rs:63-66 | the split happens exactly when there is a slash, at the first one, and loses nothing |
| Uuri.RoundTripIff | sovereign-types/src/uuri.rs:57-124 | a printed address parses back to itself exactly when its Zima server, Nostr relay or relay-less key has no slash and its Web url has an http scheme |
| Uuri.ReprintIff | sovereign-types/src/uuri.rs:57-124 | an accepted text is printed back unchanged exactly when it does not start with an empty relay |
| Uuri.ReparseIff | sovereign-types/src/uuri.rs:57-124 | parsing the printed form gives the same address exactly when the text does not have an empty relay and a key with a slash |
| Uuri.EmptyRelayDropped | sovereign-types/src/uuri.rs:61-72 | an accepted text whose empty relay is missing from its printed form |
| Uuri.KeyBecomesRelay | sovereign-types/src/uuri.rs:61-72 | an accepted text whose printed form parses to another address: part of the key is read as the relay |
| Uuri.UnknownNamesScheme | sovereign-types/src/uuri.rs:101-102 | the error for an unknown scheme names exactly what stands before the first separator, or the whole text |
| Uuri.RejectsIff | sovereign-types/src/uuri.rs:57-103 | which texts are rejected, and with which of the three errors |
| Registry.KeyInjective | dip/src/identity_doc.rs:82-82 | the key of network and address never confuses two pairs |
| Registry.NetworkNameInjective | dip/src/address.rs:17-30 | networks have different names |
| Registry.IdentityRegistry.constructor | dip/src/identity_doc.rs:78-78 | a new registry holds nothing |
| Registry.IdentityRegistry.Register | dip/src/identity_doc.rs:80-86 | the loop enters every equivalence into the index and the document under its DID, as the transition function does |
| Registry.IdentityRegistry.ResolveDid | dip/src/identity_doc.rs:88-90 | the document stored under the DID, if any |
| Registry.IdentityRegistry.ResolveAddress | dip/src/identity_doc.rs:93-98 | the DID of the document that the index entry leads to, if both exist |
| Registry.DocsAre | dip/src/identity_doc.rs:85-90 | after any registrations a DID resolves to the last document registered for it |
| Registry.AddressResolvesToLastLister | dip/src/identity_doc.rs:80-98 | after any registrations an address resolves to the DID of the last document that listed it and to nothing exactly when none did, and the DID it names resolves to a document |
| Registry.AddressForResolves | dip/src/identity_doc.rs:37-98 | right after a registration the address a document gives for a network leads back to its DID |
| Registry.AddressForIsFirst | dip/src/identity_doc.rs:37-41 | the address given for a network is that of the first equivalence of that network |
| Registry.RegisterStep | dip/src/identity_doc.rs:80-98 | one registration changes the answers for its own DID and listed addresses and no others |
| Registry.AgreesIff | dip/src/identity_doc.rs:80-98 | for every history, each resolving address is listed by the document it resolves to exactly when each address ever listed is still listed by the present document of its last lister's DID |
| Registry.AgreementKeptIff | dip/src/identity_doc.rs:80-98 | a registration keeps that agreement exactly when the new document lists all addresses that now resolve to its DID |
| Registry.StaleAddress | dip/src/identity_doc.rs:80-98 | an address dropped by a second document of its DID still resolves to it, and registering the first document again restores the agreement |
| Registry.FreshDidsAgree | dip/src/identity_doc.rs:80-98 | registering documents of different DIDs never breaks that agreement |
| Swarm.JobStore.constructor | sovereign-node/src/jobs.rs:57-59 | a new store is empty |
| Swarm.JobStore.Insert | sovereign-node/src/jobs.rs:61-63 | the job is stored under its id and no other entry changes |
| Swarm.JobStore.Get | sovereign-node/src/jobs.rs:65-67 | a reader learns the job's status as the store holds it at that moment; the monitor reads its children through it |
| Swarm.ReadAfterWrite | sovereign-node/src/jobs.rs:61-79 | after either write the job written reads back with its new status and all others read as before; an update of an unknown id is invisible, and one of a known id keeps the job's other fields |
| Swarm.JobStore.UpdateStatus | sovereign-node/src/jobs.rs:73-79 | only the status of that job changes, and an unknown id changes nothing |
| Swarm.ProgressIsSteps | sovereign-node/src/node.rs:695-721 | the order on statuses is exactly what zero, one or two lifecycle changes can do |
| Swarm.UpdateIsProgress | sovereign-node/src/jobs.rs:73-79 | the unguarded write is a forward step of the store exactly when the new status is one for that job |
| Swarm.InsertIsProgress | sovereign-node/src/jobs.rs:61-63 | storing a job is a forward step exactly when its id is new or its status is a forward step |
| Swarm.WritesAdvanceIff | sovereign-node/src/jobs.rs:61-79 | any sequence of the two writes makes a world in which jobs only advance exactly when each write is guarded at its moment |
| Swarm.DoneIff | sovereign-node/src/swarm.rs:110-132 | the three counts end the polling exactly when every child was found completed or failed |
| Swarm.Aggregate | sovereign-node/src/swarm.rs:133-163 | the loop computes the verdict |
| Swarm.TwinsFollowPlaces | sovereign-node/src/swarm.rs:137-149 | the k-th twin and receipt are those of the k-th completed child |
| Swarm.DevicesFollowPlaces | sovereign-node/src/swarm.rs:137-151 | the k-th failed device is that of the k-th child that did not complete, or empty if no device is listed there |
| Swarm.VerdictPartitions | sovereign-node/src/swarm.rs:133-163 | every child is in exactly one of the two lists, both in order, and the kind of verdict says which are empty and how long they are |
| Swarm.SwarmStore.Insert | sovereign-node/src/swarm.rs:60-62 | the swarm is stored under its id |
| Swarm.SwarmStore.UpdateStatus | sovereign-node/src/swarm.rs:74-80 | only the status of that swarm changes |
| Swarm.WithStatusIs | sovereign-node/src/swarm.rs:74-80 | a status change is seen in that swarm's entry, which keeps its other fields, and nowhere else |
| Swarm.ReadAll | sovereign-node/src/swarm.rs:102-108 | the children are read from the shared store in order, each at a moment of its own, with other tasks going on in between |
| Swarm.ReportsExist | sovereign-node/src/swarm.rs:99-167 | for any behaviour of the jobs there is a record of what each poll sees, as the monitor's contract asks |
| Swarm.PollOnce | sovereign-node/src/swarm.rs:99-167 | one poll publishes how many have finished, and the verdict when all have |
| Swarm.MonitorSwarm | sovereign-node/src/swarm.rs:84-175 | the loop writes the specified trail and leaves its last status in the store, for any behaviour of the jobs |
| Swarm.PollsAdvance | sovereign-node/src/swarm.rs:102-129 | in every interleaving a later poll counts no fewer finished children, never more than there are, and a poll that saw all settled is repeated by every later one |
| Swarm.MonitorTrail | sovereign-node/src/swarm.rs:92-174 | in every interleaving there are at most 450 polls, progress never falls or exceeds the total, and exactly the last status written is final |
| Swarm.ProgressIsTrue | sovereign-node/src/swarm.rs:102-129 | each number published lies between how many children were settled when its poll started and how many when it published, though they were read one by one |
| Swarm.FinishedIsSettled | sovereign-node/src/swarm.rs:110-129 | what a poll counts as finished is the number of children it found completed or failed |
| Swarm.TimesOutOnlyIfUnsettled | sovereign-node/src/swarm.rs:98-174 | if all children have settled when a poll starts, the monitor ends with that poll or earlier; if it ended with a verdict, all of them had settled; and if none of the 450 polls finds them settled, it has written 452 statuses, the last one a failure by timeout |
| Swarm.VerdictIsTrue | sovereign-node/src/swarm.rs:131-167 | a verdict is the verdict over the jobs' true states at one moment, the moment it is written and every later one, though they were read one by one |
| Ase.RouteIff | twin-protocol/src/ase.rs:100-107 | which tithes can be routed without overflow |
| Ase.RouteConserves | twin-protocol/src/ase.rs:100-115 | the eight buckets sum to the tithe, seven are floors of their basis points, and the last gets at least a twentieth and at most 121/20 more |
| Ase.MostDust | twin-protocol/src/ase.rs:108-110 | that bound is met by every tithe that is 19 above a multiple of 20 |
| Ase.TitheIff | twin-protocol/src/ase.rs:141-145 | no product of the tithe or its routing overflows exactly when amount times 369 fits in 64 bits |
| Ase.TitheConserves | twin-protocol/src/ase.rs:141-145 | the net and the eight buckets sum to the amount, and the tithe is 3.69% rounded down |
| Ase.MintBounds | twin-protocol/src/ase.rs:196-201 | better scores never mint less, and scores in 0..1 mint between 1 and 4.5 tokens, both reached, without overflow |
| Ase.MintIs | twin-protocol/src/ase.rs:196-201 | for any scores the mint is a million units plus two for quality, a half for novelty and one for their product, in millions, rounded down and held within 64 bits |
| Ase.FeeBounds | twin-protocol/src/ase.rs:203-207 | within 0..100 percent the fee never falls as the amount or the percentage grows, and runs from 0 to the whole amount |
| Ase.FeeIs | twin-protocol/src/ase.rs:203-207 | within 0..100 percent the fee is that many hundredths of the amount, rounded down |
| Ase.TileEconomy.Update | twin-protocol/src/ase.rs:212-220 | one capture more, the tile's part added, the time set, and no other field touched |
| Ase.MintAse | twin-protocol/src/ase.rs:228-259 | the result is the specified mint: a fee only on a tile with an owner, drawn after the tithe |
| Ase.FeeWithinNetIff | twin-protocol/src/ase.rs:205-207 | the fee does not exceed what it is drawn from exactly when its excess over 100% is worth less than one token |
| Ase.MintConservesIff | twin-protocol/src/ase.rs:205-259 | tile, owner and tithe together get exactly what was minted exactly when the fee passes that test on the net of the request, known before the mint, and otherwise fee and tithe alone exceed the mint |
| Ase.DoubleFee | twin-protocol/src/ase.rs:205-259 | a base capture on an owned tile with a fee of 200% mints one token and hands out 1.9631 |
| Ase.FeeInRangeConserves | twin-protocol/src/ase.rs:203-259 | with a fee in 0..100 every mint conserves |
| Ase.RunConservesIff | twin-protocol/src/ase.rs:205-259 | over any run of mints on one tile, with any owner and fee at each of them, the totals balance exactly when every mint passes the test, and never fall short |
| Ase.RunConserves | twin-protocol/src/ase.rs:205-259 | while every fee is in 0..100 every run balances, and the tile's counter does not overflow while what it held and what was minted fits in 64 bits |

## Left out

- Emission.DailyEmissionAllocator.AllocateMinute: scores and shares are real numbers, so NaN scores and the rounding of f64 are not modelled; novelty counters are unbounded where the code has u64; `runtime_signature`, always empty in the code, is dropped.
- EmissionRuns.RunPaysOnceIff: no claim is made that a batch with a repeated key is rejected, because the code pays it.
- Merkle.CombineIsBottomUp: the empty list is excluded; `merkle_root` answers it before the recursion, which would not end on it.
- Osovm.RunStub: run ids, trajectory ids, wall time and the JSON metrics of a rollout are not kept, apart from the count of rollouts behind a policy.
- Osovm.StubTwoPhases: a configured real engine is any function that may return any run; the HTTP call and the subprocess behind it are not modelled, nor `run_scenario`, which may synthesise a pair of policies from a short answer.
- Simulation.BuildSucceedsIff: witness signatures are not checked by the code and not by the model; the JSON text of the policies is a parameter, so nothing is said about which policy lists render alike.
- Conversation.ParseConversation: reading the file and the JSON text, and how the text of a message is extracted, come before the model's input.
- ParentPairs.BuildPairs: a line stands for a parsed message; the reading of lines is not modelled.
- Voxel.VoxelDownsample: rounding of sums and quotients is not modelled; with it the output would be near the mean instead of equal to it.
- Merge.MergeSplats: the base64 crate and the UTF-8 check are a parameter, and the result's text is given before its base64 encoding; a tiny negative coordinate, which the formatter writes as a negative zero, is written as zero.
- Ply.RoundTrip: coordinates are on the six-decimal grid, so what rounding a finer coordinate loses is not stated.
- Ply.ParsePlyPoints: a number reads as its exact value; the rounding to f64, and the overflow of huge exponents to an infinity, are not modelled; the check that the bytes are UTF-8 comes before it.
- Merge.Load: a point with an infinite or undefined coordinate is read by `Ply` and then left out here, because the clouds of `Voxel` have real coordinates; in the code it takes part and spoils the sums of its cell.
- FieldRoots.MerkleRootBinds: fields have string or natural-number values, as in every commitment; other JSON values are not part of this model.
- MeshEnvelope.RoundTrip: Ed25519 signing and verification of the signing bytes are not modelled.
- Base64.DecodeText: shifts on u32 are written as multiplications and divisions; no group reaches the width where they would differ.
- Swarm.MonitorSwarm: the twin events, the timestamps and the reads and retries of other tasks are not modelled; job retry and cancellation write a status without a guard and are excluded from the job lifecycle; the Sui object id and message count of a completed job are dropped.
- Swarm.VerdictIsTrue: a child that disappears from the store is outside the model, since no code removes jobs.
- Registry.IdentityRegistry.Register: signatures and proofs in documents are stored and not verified, as in the code.
- Ase.MintAse: the transaction digest, the stub flag and the unused network path are not kept.
- Ase.TileEconomy.Update: the counters are unbounded; `Ase.RunConserves` says when the u64 counter cannot overflow.
- The 24-sector split, pool and sector constants, council seats, lifecycle tables and other finite tables have no algorithm.
- HTTP, WebSocket, SSE, MCP and CLI layers, configuration, mDNS, Sui RPC, Nostr publishing and subprocesses are effects with nothing to prove here.
- Receipt files on disk, and the node endpoint that reports a flat hash of joined ids as a root, are not part of this model.
- Record and builder crates without an algorithm are not part of this model.
