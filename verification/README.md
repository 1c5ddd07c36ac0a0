# AeroChat: verified models

Dafny models of the parts of AeroChat where a wrong step costs most, each with the properties the
code is written for. `dafny verify dfyconfig.toml` checks everything. Nothing of the original
program runs here: functions and methods restate what the cited code does, branch by branch, and
the lemmas are about those restatements.

## What is modelled

**The encrypted message lane** (browser, TypeScript). A server gives every encrypted operation of
a conversation (content, edit, tombstone) a sequence number. The client receives operations late,
twice, in any batches, and mutations sometimes before the message they change. It keeps one bounded
timeline.

- `ServerSequence`: the canonical decimal spelling of sequences and their comparison.
- `Projection`, `Merge`: the Map that a merge fills, mutates and sorts, and `slice(-limit)`. One
  `Flavour` parameter covers the direct-message and the group file, which differ in one register.
- `MessageRegisters`, `Log`, `Confluence`: the meaning of a *set* of operations. Each message is the
  outcome of independent last-writer registers, each unresolved mutation and each failed
  decryption is a failure entry; the merge loop computes exactly that.
- `LanePending`, `LaneConfluence`: the memory for mutations that wait for their target; the theorem
  that arrival order, batching and repetition do not matter while everything fits.
- `LaneHeld`, `LaneWindow`, `LaneInOrder`, `LaneSafety`: lanes that outgrow the window. Their exact
  state after any run, exactly when cutting early shows what cutting once would show, how a client
  can tell, and what every delivery keeps anyway. `LogHypotheses`: why the hypotheses are needed.
- `LaneHook`, `LaneNoLoss`, `LaneLive`, `LaneCallbacks`: the React hooks as a state machine of loads in
  flight, realtime deliveries, rebinds, local echoes and scope changes: what may write, what is never
  lost, what does appear; and the same as methods on a class.
- `LocalOutbound`, `LaneEcho`: the buffer of own operations whose echo has not arrived, and that
  buffer running together with the hooks.

**Schema bootstrap and release gate** (Go and Python). `Bootstrap`, `BootstrapOrder`, `BootstrapRuns`
and `SchemaRunner` model the transactional migration runner of a fleet of services that share one
table; `ReleaseGate` and `GateExactly` the script that decides which release may meet that table;
`GateMeetsBootstrap` proves across the two languages that a release that passes rolls forward and its
predecessor rolls back. `SelectionFile` and `SelectionMeaning` model the env file that remembers the
known-good release.

**Crypto-device registry** (TypeScript client, Go server). `DeviceSync` models the registry's
registration, bundle publication and link intents together with the browser's synchronisation,
every call of which may fail before or after the server commits, with other clients at work between
any two calls. `DeviceFixpoint`, `DeviceOutcome`, `DeviceRuns` and `DeviceSettles` prove what a
synchronisation achieves and reports, what any run keeps, and that a browser that is the only writer of
its device settles in one round.

**Smaller parts.** `InlineMarkdown` and `MarkdownMeaning` (safe inline markdown), `AadTimestamp`
(RFC 3339 timestamps in millisecond form), `SessionTokens` (session tokens in unpadded base64url,
RFC 4648 sections 3.5 and 5). `Text`, `Listings` and `Wrappers` hold what several modules share.

## Reading the lane theorems

A *well-formed log* is what the server guarantees: a sequence, an operation id and a content id each
belong to one operation, targets are trimmed, and a mutation is sequenced after its target. The
message tables of the chat service give every operation its own primary key. `Project(f, D)` is the
agreed timeline of a set of operations `D`. `LogHypotheses` shows for three of the hypotheses what
the code does without them.

## Where the code and its description disagree

- `resolveEncryptedLanePageSize` is what keeps the limit at 1 or more; `slice(-0)` alone would keep
  every entry, and `Listings.SliceLast` says so.
- The projection trims a target id, the replay filter does not
  (`LogHypotheses.ReplayNeedsTrimmedTarget`).
- A mutation whose target has left the window turns into a failure entry
  (`LaneInOrder.EvictedTargetDiverges`); `LaneWindow.WindowExactness` says exactly when cutting the
  window early is harmless.
- Publishing the bundle of a pending device expires its link intents on the server, but the browser
  goes on with the list it read before. The next synchronisation then creates an intent that one
  round should have created (`DeviceFixpoint.FixpointExactly`). A browser alone with its device never
  gets there (`DeviceSettles.OneRoundSettles`); it takes another session with the same keys that
  publishes and opens an intent in between (`DeviceSettles.SecondWriterOvertakes`).
- A comment in `encrypted-aad-timestamp.ts` expects `$` to match before a final line feed. In
  JavaScript it does not, so the extra length test changes nothing.
- A migration file that disappears is refused by the release gate but would go unnoticed by the
  bootstrap (`GateMeetsBootstrap.DriftIsChange`).

## Model

| member | source | states |
|---|---|---|
| ServerSequence.AcceptsExactlyThePrints | apps/web/src/gateway/server-sequence.ts:3-20 | a string is accepted iff it is the canonical decimal of a number in 1..2^63-1 (0 too when allowed), and is returned unchanged |
| ServerSequence.LengthCutLosesNothing | apps/web/src/gateway/server-sequence.ts:3-12 | the 19-character cut excludes no value of the range |
| ServerSequence.PrintParseRoundTrip | apps/web/src/gateway/server-sequence.ts:3-20 | every sequence number has an accepted spelling that reads back as itself |
| ServerSequence.DistinctSpellingsDistinctSequences | apps/web/src/gateway/server-sequence.ts:3-20 | accepted spellings are equal iff their numbers are |
| ServerSequence.ComparisonIsLengthThenText | apps/web/src/gateway/server-sequence.ts:22-26 | integer comparison is length first, then string order, and never an error on accepted sequences |
| Projection.KeyTextInjective | apps/web/src/chats/encrypted-v2-projection.ts:232-238 | message and failure keys never collide as text, not within a kind and not across kinds |
| MessageRegisters.RegistersStep | apps/web/src/groups/encrypted-group-projection.ts:206-246 | one mutation moves every register of an entry exactly as adding it to the set of mutations does |
| MessageRegisters.RegisterRefinement | apps/web/src/groups/encrypted-group-projection.ts:143-246 | after any sequence of mutations, repeats included, each field is a function of their set: wording from the newest edit, attachments from the newest edit that decides them, revision from the newest operation, storedAt the greatest |
| MessageRegisters.TombstoneIsTerminal | apps/web/src/chats/encrypted-v2-projection.ts:188-222 | a tombstone anywhere among the mutations applied to any message entry leaves it without text, policy and attachments, also against edits applied later or with later sequences |
| MessageRegisters.RepeatedMutation | apps/web/src/chats/encrypted-v2-projection.ts:188-222 | applying a mutation again changes nothing |
| Merge.StableSort | apps/web/src/chats/encrypted-v2-projection.ts:74-76 | the sort of a batch is ascending, keeps every operation as often as it came, and keeps ties in order |
| Merge.ProjectionMap.Fill | apps/web/src/chats/encrypted-v2-projection.ts:59-72 | the Map holds the last entry of every key |
| Merge.ProjectionMap.ApplyReadyProjection | apps/web/src/groups/encrypted-group-projection.ts:143-246 | the in-place update makes the specified table and reports whether it took effect |
| Merge.ProjectionMap.SortedValues | apps/web/src/groups/encrypted-group-projection.ts:111-113 | the values come out as the one listing by sequence and key |
| Merge.MergeProjection | apps/web/src/groups/encrypted-group-projection.ts:61-114 | the imperative merge equals its specification: fold of the sorted batch over the Map, sorted, cut to the limit |
| Merge.MergedFailures | apps/web/src/chats/encrypted-v2-projection.ts:54-103 | whatever was shown before: every failed entry of a merge was shown before or copies, field for field, an operation of the batch, with the reason unresolved target iff that operation is a readable mutation, and its own failure kind otherwise |
| Log.StepShows | apps/web/src/groups/encrypted-group-projection.ts:82-109 | one iteration keeps the Map showing exactly the applied operations' registers and the failed ones' failures |
| Log.FoldShows | apps/web/src/groups/encrypted-group-projection.ts:82-109 | so does the whole loop, from any table that shows a split of the log |
| Confluence.MergeProjects | apps/web/src/chats/encrypted-v2-projection.ts:54-103 | merging a batch into the timeline of a set gives the timeline of the union, cut to the limit |
| Confluence.FailuresSaid | apps/web/src/groups/encrypted-group-projection.ts:82-204 | the failed entries of the timeline of a set are the failed decryptions and the mutations without content in it, each with that operation's own message id, origin, revision, times and sequence, and no others |
| LanePending.ResolvePageSize | apps/web/src/chats/encrypted-lane-pending.ts:18-20 | the limit is the truncated page size where that is finite and positive once truncated, 50 otherwise, so at least 1 for every number JavaScript can pass |
| LanePending.MergeEncryptedLaneWithPending | apps/web/src/chats/encrypted-lane-pending.ts:22-59 | the imperative delivery equals its specification |
| LanePending.CollectCandidates | apps/web/src/chats/encrypted-lane-pending.ts:40-50 | the loop gathers, by identity, the mutations that are visibly unresolved |
| LanePending.CandidatesElements | apps/web/src/chats/encrypted-lane-pending.ts:40-50 | the candidates are exactly the unresolved ready mutations, one per identity |
| LanePending.SortIsListing | apps/web/src/chats/encrypted-lane-pending.ts:55-57 | sorting them gives the one listing of their set by sequence |
| LaneConfluence.DeliverFaithful | apps/web/src/chats/encrypted-lane-pending.ts:22-59 | a delivery takes a lane that shows a set to one that shows the union, pending memory included |
| LaneConfluence.ArrivalOrderConfluence | apps/web/src/chats/encrypted-lane-pending.ts:22-59 | after any run of deliveries, mutations before their content included, the lane is the sorted projection of the delivered set and the sorted waiting mutations, while entries fit the limit and waiting mutations the memory |
| LaneConfluence.SameOperationsSameLane | apps/web/src/chats/encrypted-lane-pending.ts:22-59 | two clients that received the same operations in different orders and batches hold the same lane |
| LaneConfluence.SameAsOneMerge | apps/web/src/groups/encrypted-group-projection.ts:61-114 | and the same timeline as one merge of everything at once |
| LaneConfluence.RemergeOnlyCuts | apps/web/src/chats/useEncryptedDirectMessageV2Lane.ts:412-418 | merging operations already shown only applies the cut, and changes nothing iff there are at most `limit` entries |
| LaneHeld.DeliverHeld | apps/web/src/chats/encrypted-lane-pending.ts:22-59 | the exact items and pending memory after any delivery to any lane: the operations behind the entries still visible, each applied or failed, and the newest of the visibly unresolved mutations at hand |
| LaneHeld.RunIsHeld | apps/web/src/chats/encrypted-lane-pending.ts:22-59 | so after every run of deliveries, for any limit and any well-formed log |
| LaneHeld.HeldFailures | apps/web/src/chats/encrypted-v2-projection.ts:80-103 | so the failed entries a lane shows copy the held operations that failed, and each of these is shown |
| LaneHeld.NothingForgotten | apps/web/src/chats/encrypted-lane-pending.ts:18-59 | with at most 64 entries to a page, the default 50 among them, every mutation shown as unresolved is remembered for replay: the cap on the memory loses none |
| LaneWindow.WindowExactness | apps/web/src/chats/encrypted-lane-pending.ts:22-59 | a delivery to a lane that shows the window of D, whatever waits and whatever of it is remembered, shows the window of D and the batch iff all it gets wrong lies below that window: entries evicted and not sent again, messages without evicted or forgotten mutations, mutations without their evicted message, waiting mutations not remembered when their message comes |
| LaneWindow.WindowOfRun | apps/web/src/chats/encrypted-lane-pending.ts:22-59 | the lane shows the window of everything delivered after each delivery of a run iff that holds at each delivery |
| LaneInOrder.InOrderExactness | apps/web/src/chats/encrypted-v2-projection.ts:54-103 | with every mutation after its target, merging into a cut window equals cutting the full projection iff every mutation of the batch whose target was evicted lies below that cut itself |
| LaneInOrder.LocalExactness | apps/web/src/chats/encrypted-v2-projection.ts:54-103 | the same said of the shown entries and the batch alone: iff every unresolved failure among the merged entries has `limit` newer ones there; that is, iff the result shows none |
| LaneInOrder.InOrderRun | apps/web/src/chats/encrypted-lane-pending.ts:22-59 | if that holds at every delivery of a run, the lane is the cut projection and nothing waits |
| LaneInOrder.BoundedWindowExactness | apps/web/src/chats/encrypted-v2-projection.ts:54-103 | for contents and failed decryptions it always holds: any order, batching, repetition and limit |
| LaneInOrder.EvictedTargetDiverges | apps/web/src/chats/encrypted-v2-projection.ts:168-186 | the newest operation, when it changes an evicted message, always makes the window differ from the projection |
| Listings.WindowOfWindow | apps/web/src/chats/encrypted-v2-projection.ts:100-102 | the newest `limit` of (newest `limit` of A, and B) are the newest `limit` of A and B |
| LaneSafety.MergeSafe | apps/web/src/groups/encrypted-group-projection.ts:61-114 | from any window, a merge invents no entry and loses an operation only to a full window of newer entries |
| LaneSafety.RetainsNewest | apps/web/src/chats/encrypted-lane-pending.ts:52-58 | the pending memory is the newest min(limit, 64) of the mutations still visibly unresolved |
| LaneSafety.TargetStaysAbsent | apps/web/src/chats/encrypted-lane-pending.ts:30-58 | a mutation still unresolved after a delivery has no target on the timeline |
| LaneSafety.ReplayedIsApplied | apps/web/src/chats/encrypted-lane-pending.ts:30-50 | a remembered mutation whose content arrives in a batch is applied or displaced by a full newer window, and not shown as unresolved |
| LaneSafety.DeliverSafe | apps/web/src/chats/encrypted-lane-pending.ts:22-59 | the lane invariant is kept by every delivery, whatever arrives and whatever the window cuts off |
| LaneHook.VersionsReachable | apps/web/src/groups/useEncryptedGroupLane.ts:94-181 | in every reachable state loads have distinct versions, the current one belongs to the open scope, live deliveries belong to it, and another scope's pending memory is empty |
| LaneHook.OnlyNewestMayCommit | apps/web/src/groups/useEncryptedGroupLane.ts:124-134 | in every reachable state only the newest request's load may write, and only to the open scope |
| LaneHook.KilledIsDead | apps/web/src/groups/useEncryptedGroupLane.ts:94-117 | settling, a newer load or a scope change deprives a load of its right to write |
| LaneHook.DeadLoadsNeverCommit | apps/web/src/groups/useEncryptedGroupLane.ts:124-165 | and it never regains it: in every continuation its result or error changes nothing |
| LaneHook.ScopeIsolation | apps/web/src/chats/useEncryptedDirectMessageV2Lane.ts:89-372 | in every reachable state, what is stored under a request key was made of that scope's operations only, with a sorted, bounded pending memory that is visibly unresolved |
| LaneNoLoss.NoLostUpdate | apps/web/src/groups/useEncryptedGroupLane.ts:124-231 | an operation applied to the open scope, by an envelope, an echo or the result of a load in charge, survives every load already in flight, every later load whose result contains it, every delivery, every error, and leaving the scope and coming back, until `pageSize` newer entries fill the window |
| LaneNoLoss.QuietLoadReplaces | apps/web/src/groups/useEncryptedGroupLane.ts:129-147 | a load during which no update arrived leaves only what it fetched and what still waits |
| LaneLive.FetchedIsShown | apps/web/src/groups/useEncryptedGroupLane.ts:113-148 | a load of the open scope that nothing deprives of its right puts all it fetched on the timeline, whatever was applied while it ran, except what a full window of newer entries displaces |
| LaneLive.UndisturbedLoadReplaces | apps/web/src/groups/useEncryptedGroupLane.ts:129-147 | a load during which no envelope and no echo was applied replaces what was there |
| LaneLive.DisturbedLoadMerges | apps/web/src/groups/useEncryptedGroupLane.ts:129-147 | a load during which one was applied keeps all that was shown, however old, until a full newer window displaces it |
| LaneLive.DisturbedExactly | apps/web/src/groups/useEncryptedGroupLane.ts:128-136 | the update counter differs at the end of a load iff an envelope or an echo was applied while it ran |
| LaneLive.EnvelopeIsShown | apps/web/src/groups/useEncryptedGroupLane.ts:182-231 | an envelope received in a scope that is not left before it is decrypted appears, unless a full newer window displaces it |
| LaneLive.WaitingIsApplied | apps/web/src/chats/encrypted-lane-pending.ts:22-50 | in every reachable state a mutation remembered for the open scope is applied by whatever brings its content, a replacing load too |
| LaneLive.StatusTellsLastWrite | apps/web/src/groups/useEncryptedGroupLane.ts:129-254 | status, scope and entries are always those the last write left: ready after a load, envelope or echo, unavailable or error after a failure |
| LaneCallbacks.EncryptedLane.OnScopeChanged | apps/web/src/groups/useEncryptedGroupLane.ts:94-98 | the cleanup makes the specified transition |
| LaneCallbacks.EncryptedLane.BeginLoad | apps/web/src/groups/useEncryptedGroupLane.ts:113-123 | starting a load captures the versions and makes the specified transition |
| LaneCallbacks.EncryptedLane.OnLoadResolved | apps/web/src/groups/useEncryptedGroupLane.ts:124-148 | committing or dropping a load's result makes the specified transition |
| LaneCallbacks.EncryptedLane.OnLoadRejected | apps/web/src/groups/useEncryptedGroupLane.ts:149-168 | a failed load keeps the scope's items and pending memory, or drops the error |
| LaneCallbacks.EncryptedLane.OnEnvelopeDecrypted | apps/web/src/groups/useEncryptedGroupLane.ts:207-231 | a decrypted envelope makes the specified transition unless its subscription is cancelled |
| LaneCallbacks.EncryptedLane.OnEnvelopeRejected | apps/web/src/groups/useEncryptedGroupLane.ts:232-254 | a failed decryption keeps the scope's items and pending memory |
| LaneCallbacks.EncryptedLane.OnLocalEcho | apps/web/src/groups/useEncryptedGroupLane.ts:360-383 | a local projection makes the specified transition |
| LogHypotheses.MutationBeforeContent | apps/web/src/chats/encrypted-lane-pending.ts:22-59 | with any limit, a mutation that arrives before its content waits visibly, and once the content comes the lane is that message with the mutation applied and nothing pending |
| LogHypotheses.CausalityDecidesAgreement | apps/web/src/groups/encrypted-group-projection.ts:147-204 | content and mutation in two merges agree with one merge iff the content has the smaller sequence |
| LogHypotheses.DecryptStatusMustBeFixed | apps/web/src/groups/encrypted-group-projection.ts:86-108 | a failed decryption repeated successfully is forgotten, the other order keeps the failure |
| LogHypotheses.ReplayNeedsTrimmedTarget | apps/web/src/chats/encrypted-lane-pending.ts:33-35 | a waiting mutation is replayed by its content iff its target id is already trimmed |
| LocalOutbound.ProjectionKeyInjective | apps/web/src/chats/encrypted-v2-local-outbound.ts:71-76 | keys determine message id and revision |
| LocalOutbound.OutboundBuffer.PublishProjection | apps/web/src/groups/encrypted-group-local-outbound.ts:13-28 | publishing stores and notifies unless the key is resolved |
| LocalOutbound.OutboundBuffer.DiscardEchoed | apps/web/src/chats/encrypted-v2-local-outbound.ts:47-64 | echoes are removed from the buffer and remembered, trimmed to 200 in place |
| LocalOutbound.RunKeepsOk | apps/web/src/chats/encrypted-v2-local-outbound.ts:15-64 | over any run buffered and resolved keys stay disjoint and unique, and at most 200 are remembered |
| LocalOutbound.PublishExactly | apps/web/src/chats/encrypted-v2-local-outbound.ts:15-28 | publishing puts the operation in place of an older copy and leaves the others, and changes nothing when its echo was seen |
| LocalOutbound.BlocksForNext199 | apps/web/src/chats/encrypted-v2-local-outbound.ts:47-87 | a newly resolved key blocks republication while fewer than 200 further keys are newly resolved |
| LocalOutbound.UnblockedByThe200th | apps/web/src/chats/encrypted-v2-local-outbound.ts:78-87 | and the 200th is the one that unblocks it |
| LocalOutbound.EchoEndsBuffering | apps/web/src/chats/encrypted-v2-local-outbound.ts:47-64 | after its echo a local copy is gone, its key blocked and every other copy unchanged; an echo with a blank conversation or message id changes nothing |
| LaneEcho.SentSurvivesLoads | apps/web/src/groups/useEncryptedGroupLane.ts:436-486 | hooks and buffer together: from any reachable state, an operation sent into the open conversation stays on the timeline through every load, started before or after it, until the server echoes it or a full window of newer entries displaces it |
| LaneEcho.ListedExactly | apps/web/src/chats/encrypted-v2-local-outbound.ts:32-36 | the listing of a conversation has its buffered operations and no others |
| Bootstrap.CollectPendingMeaning | libs/go/dbbootstrap/runner.go:246-294 | collection fails iff an applied migration has another checksum; otherwise inserting what it returns adds exactly the rows the image lacks |
| Bootstrap.AttemptEffect | libs/go/dbbootstrap/runner.go:112-177 | an attempt adds all the image's rows or none, the former only if its requirements are met and no checksum changed; each error has its exact cause |
| Bootstrap.FaultEffect | libs/go/dbbootstrap/runner.go:112-177 | what each outside failure does: a table changed by an attempt that ends badly was changed by a commit that reached the database, and which error is reported |
| BootstrapOrder.PendingExactly | libs/go/dbbootstrap/runner.go:246-294 | the pending migrations are, strictly by file name, exactly the .sql files of the image the table lacks, with their contents and the digest of these |
| BootstrapOrder.ExecutedInOrder | libs/go/dbbootstrap/runner.go:112-177 | every attempt executes contents of lacking files in strictly ascending order of names and passes none over; one that ends well executes all, and a failing statement is the last sent and names its file |
| BootstrapOrder.FirstChangedReported | libs/go/dbbootstrap/runner.go:268-284 | a checksum refusal names the changed file with the smallest name |
| BootstrapOrder.FirstMissingReported | libs/go/dbbootstrap/runner.go:196-217 | a missing dependency is reported for the first requirement in the list that the table lacks |
| BootstrapRuns.TableOnlyGrows | libs/go/dbbootstrap/runner.go:112-177 | over any interleaving with any failures no row disappears, no checksum changes, and new rows are the fleet's |
| BootstrapRuns.AllAtOnce | libs/go/dbbootstrap/runner.go:153-174 | a service's new rows appear together, after its requirements |
| BootstrapRuns.RunsStayBelow | libs/go/dbbootstrap/runner.go:112-177 | every run stays below every table at rest that grew from the same rows: it is the least fixpoint |
| BootstrapRuns.BootstrapConfluence | libs/go/dbbootstrap/runner.go:61-177 | all runs that have come to rest end in the same table |
| BootstrapRuns.RestIsReachable | libs/go/dbbootstrap/runner.go:61-177 | from every table some run comes to rest |
| SchemaRunner.SchemaDatabase.EnsureRequirements | libs/go/dbbootstrap/runner.go:196-217 | the loop reports the first missing requirement |
| SchemaRunner.SchemaDatabase.CollectPendingMigrations | libs/go/dbbootstrap/runner.go:246-294 | the loop over sorted names equals its specification |
| SchemaRunner.SchemaDatabase.Execute | libs/go/dbbootstrap/runner.go:153-174 | the statements of a transaction are sent in order up to a failing one, and the rows inserted beside them are those of what was sent |
| SchemaRunner.SchemaDatabase.ApplyOnce | libs/go/dbbootstrap/runner.go:112-177 | the transaction equals one attempt, for every failure point, and sends exactly the statements of BootstrapOrder.ExecutedInOrder in that order |
| SchemaRunner.SchemaDatabase.Apply | libs/go/dbbootstrap/runner.go:61-110 | the retry loop equals its specification |
| SchemaRunner.ApplyLoopResult | libs/go/dbbootstrap/runner.go:61-110 | the retry loop is a run of the fleet; success means rows and requirements are in the table, and a missing dependency is never the final error |
| SchemaRunner.ApplyLoopExactly | libs/go/dbbootstrap/runner.go:61-110 | the loop goes on exactly as long as a dependency is missing: its result is that of the first attempt that misses none, at the table others have left by then, or the deadline |
| ReleaseGate.CheckSchemaState | infra/scripts/release_recovery.py:63-78 | the row loop decides as specified, each refusal with its reason |
| ReleaseGate.PathDetermines | infra/scripts/release_recovery.py:25-31 | a five-part path determines service and migration name |
| ReleaseGate.PolicyAcceptsExactly | infra/scripts/release_recovery.py:38-60 | the policy accepts iff no released file changed or went and either none is added or the declaration has exactly the nine keys, version 1, a confirmed image rollback, these two SHAs, the digests of these two inventories and three texts of 1 to 2048 characters; the result is then the set of added paths |
| ReleaseGate.PolicyRefusesExactly | infra/scripts/release_recovery.py:38-60 | which refusal is raised: the first of the five checks that fails, in their order |
| GateExactly.StateAcceptsExactly | infra/scripts/release_recovery.py:63-78 | the state check passes iff the rows are one for every path of the inventory, with its checksum and nothing more in the row, and no other row |
| GateExactly.StateRefusesExactly | infra/scripts/release_recovery.py:63-78 | which refusal: not a list, the first row that is malformed or repeats a path before it, or rows that are all good but another table |
| GateMeetsBootstrap.StatePinsTable | infra/scripts/release_recovery.py:63-78 | a state check that passes means the table and the previous inventory are the same rows |
| GateMeetsBootstrap.MatchingTablePasses | infra/scripts/release_recovery.py:63-78 | and a table that matches passes |
| GateMeetsBootstrap.CandidateMeetsTable | infra/scripts/release_recovery.py:38-60 | an unchanged candidate meets no other checksum and lacks exactly the added paths |
| GateMeetsBootstrap.RollForwardSafety | infra/scripts/release_recovery.py:38-78 | if both checks pass, no attempt in any run of the candidate fleet ends in a checksum error, and a candidate with new files has the approval of this very rollout; the migrations each service has to come are its added paths, and if every path belongs to a service of the fleet, those of the fleet are exactly the added paths |
| GateMeetsBootstrap.RollbackSafety | infra/scripts/release_recovery.py:38-78 | after any run of the candidate fleet the previous image adds nothing, and starts iff its requirements are in the table, as they are when the previous release has the files it requires |
| GateMeetsBootstrap.DriftIsChange | libs/go/dbbootstrap/runner.go:268-284 | on a matching table the bootstrap would stop iff a file present in both releases changed |
| SelectionFile.SplitOfJoin | infra/scripts/release_recovery.py:173-173 | lines joined with line feeds split into the same lines, over all of Python's line boundaries |
| SelectionFile.Selected | infra/scripts/release_recovery.py:101-113 | the loop over the lines, which stops at a repeated key, accepts iff the file assigns each key exactly once, to a SHA and a digest, and tells a repeated key from an unknown selection |
| SelectionMeaning.SelectionExactly | infra/scripts/release_recovery.py:101-113 | lines select a pair iff each of the two keys is set on exactly one line, to a 40-digit commit and a sha256 digest; a repeated key is refused as such iff one key is set on two lines, anything else as unknown |
| SelectionMeaning.SplitLinesExactly | infra/scripts/release_recovery.py:103-103 | splitting a text into lines drops nothing but line ends, and a carriage return with its line feed is one end |
| SelectionMeaning.ReadKeepsLines | infra/scripts/release_recovery.py:103-103 | reading with universal newlines changes no line |
| SelectionFile.EnvFile.SaveSelection | infra/scripts/release_recovery.py:159-178 | the file is replaced as specified or stays as it was; which refusal is raised when |
| SelectionFile.SavedFileLines | infra/scripts/release_recovery.py:165-173 | the saved file reads as the other lines in order, then the pair |
| SelectionMeaning.SavedExactly | infra/scripts/release_recovery.py:159-173 | after a save the lines are those of the old file that are not one of the keys and set neither, each in its place, then the digest, then the commit |
| SelectionFile.KeptLines | infra/scripts/release_recovery.py:165-167 | a line goes iff it is one of the keys alone or assigns to one |
| SelectionFile.ReadBackSaved | infra/scripts/release_recovery.py:101-178 | for any prior text, reading after saving returns the saved pair |
| SelectionFile.LastSaveWins | infra/scripts/release_recovery.py:159-178 | saving twice is saving the second pair |
| DeviceSync.RuntimeCore.SynchronizeSession | apps/web/src/crypto/runtime-core.ts:1197-1357 | the imperative synchronisation equals its specification, for every failing call |
| DeviceSync.RuntimeCore.RegisterFirstCryptoDevice | apps/web/src/crypto/runtime-core.ts:1359-1408 | so does the registration of a first device |
| DeviceSync.RuntimeCore.PublishBundleForLocalMaterial | apps/web/src/crypto/runtime-core.ts:1410-1462 | so does publication with its challenge and proof |
| DeviceSync.PendingOf | apps/web/src/crypto/runtime-core.ts:1281-1285 | the first listed pending intent of the device, none iff there is none |
| DeviceOutcome.ProofAcceptedExactly | services/aero-identity/internal/storage/postgres/crypto_devices.go:202-240 | right after a challenge an active device may publish with exactly the proof over its current bundle and the new digest |
| DeviceOutcome.ChallengeServesOnce | services/aero-identity/internal/storage/postgres/crypto_devices.go:202-291 | a publication uses its challenge up: the next one of an active device needs another |
| DeviceOutcome.OneOpenKept | services/aero-identity/internal/storage/postgres/crypto_devices.go:302-390 | no operation of the registry leaves a device with two open intents |
| DeviceOutcome.ServerRefuses | services/aero-identity/internal/storage/postgres/crypto_devices.go:35-322 | an intent is opened for a pending device only, a pending device is registered beside an active one only, and a first device iff the registry has none |
| DeviceOutcome.ListedExactly | services/aero-identity/internal/storage/postgres/crypto_devices.go:371-390 | listing expires exactly the pending intents past their time |
| DeviceFixpoint.SuccessMeansAgreement | apps/web/src/crypto/runtime-core.ts:1197-1357 | whatever failed on the way, nobody else writing meanwhile: a synchronisation that ends well with a local device leaves a saved record with the registry's current digest, version and status |
| DeviceFixpoint.RegistersFirstExactly | apps/web/src/crypto/runtime-core.ts:1208-1224 | nobody else writing meanwhile, a first device is registered iff keystore and registry are both empty and the call gets through |
| DeviceFixpoint.SucceedsExactly | apps/web/src/crypto/runtime-core.ts:1226-1278 | without failing calls a synchronisation succeeds iff digests agree or the registry accepts a publication from a device of the recorded status; otherwise nothing moves, now and later |
| DeviceFixpoint.WritesExactly | apps/web/src/crypto/runtime-core.ts:1253-1319 | which writes it makes: a publication iff digests differ, an intent iff the device is pending and none was listed |
| DeviceFixpoint.FixpointExactly | apps/web/src/crypto/runtime-core.ts:1197-1357 | the next synchronisation writes nothing iff the first did not publish for a pending device that had an open intent |
| DeviceFixpoint.SecondRoundSettles | apps/web/src/crypto/runtime-core.ts:1197-1357 | two rounds always settle it |
| DeviceFixpoint.NoKeysSettles | apps/web/src/crypto/runtime-core.ts:1197-1357 | without local keys one round settles it, and writes at most the first registration |
| DeviceOutcome.PhaseExactly | apps/web/src/crypto/runtime-core.ts:1197-1357 | nobody else writing meanwhile: attention is required iff the synchronisation ended well, the keystore is empty and the registry has an active device; ready is every other good end; a good end shows the registry as it is then |
| DeviceOutcome.RecordNamesIntent | apps/web/src/crypto/runtime-core.ts:1280-1319 | after a good end for a pending device the saved record names an intent and its expiry: the first open one listed, or the one created, which is then open in the registry; for any other device the record keeps what it named |
| DeviceOutcome.DevicesAfter | apps/web/src/crypto/runtime-core.ts:1226-1278 | a faultless synchronisation gives the one device the rebuilt bundle at the next version if the digests differ, and touches no other device |
| DeviceOutcome.FirstDeviceExactly | apps/web/src/crypto/runtime-core.ts:1359-1408 | the first device is active with the new bundle as version 1, and the saved record says the same |
| DeviceOutcome.PairingExactly | apps/web/src/crypto/runtime-core.ts:121-198 | a browser that joins an account registers one pending device, leaves the others alone and saves the record that names its intent |
| DeviceOutcome.PublishCurrentExactly | apps/web/src/crypto/runtime-core.ts:200-232 | publishing on demand makes exactly one publication if the registry takes it, and otherwise changes nothing |
| DeviceSettles.OneRoundSettles | apps/web/src/crypto/runtime-core.ts:1197-1357 | after any run, with any failures, of a browser that began without keys and whose device nobody else writes to: once a synchronisation ends well the next one writes nothing |
| DeviceSettles.NoLockOut | apps/web/src/crypto/runtime-core.ts:1226-1278 | and if others at most approve the device, a synchronisation without failing calls always ends well, whatever failed before |
| DeviceSettles.SecondWriterOvertakes | services/aero-identity/internal/storage/postgres/crypto_devices.go:280-287 | the exception takes a second writer and is reached by one: a pairing, then another session that publishes for the device and opens an intent; the first round records that intent while expiring it, the second creates another |
| DeviceRuns.RunKeeps | apps/web/src/crypto/runtime-core.ts:116-230 | over any run of the runtime's actions, with any failures and other clients at work between any two calls: devices stay, the kept device stays the kept device, and a first device is registered at most once |
| InlineMarkdown.RenderInline | apps/web/src/chats/SafeMessageMarkdown.tsx:78-131 | the cursor loop equals the recursive parser, and terminates by text length |
| InlineMarkdown.Lossless | apps/web/src/chats/SafeMessageMarkdown.tsx:78-252 | printing the tree gives the input back, for every string |
| InlineMarkdown.ParseInjective | apps/web/src/chats/SafeMessageMarkdown.tsx:78-252 | different texts have different trees |
| InlineMarkdown.NestingBounded | apps/web/src/chats/SafeMessageMarkdown.tsx:158-238 | containers nest at most three deep in any text |
| InlineMarkdown.AllLinksSafe | apps/web/src/chats/SafeMessageMarkdown.tsx:198-270 | every link in the tree leads to an http or https address |
| MarkdownMeaning.SafeHrefExactly | apps/web/src/chats/SafeMessageMarkdown.tsx:255-270 | an address becomes a link target iff, trimmed, it begins with http:// or https:// and the URL parser reads it as such, and the target is what the parser prints |
| MarkdownMeaning.ReadsExactly | apps/web/src/chats/SafeMessageMarkdown.tsx:83-128 | each construct is read iff its span, closed at the nearest mark, is at the cursor; the order of the attempts does not matter |
| MarkdownMeaning.ReadsStrong | apps/web/src/chats/SafeMessageMarkdown.tsx:158-196 | a visible span of double asterisks is read as strong around its parsed inside |
| MarkdownMeaning.ReadsEmphasis | apps/web/src/chats/SafeMessageMarkdown.tsx:158-196 | likewise single asterisks as emphasis |
| MarkdownMeaning.ReadsCode | apps/web/src/chats/SafeMessageMarkdown.tsx:133-156 | a backtick span is code, its inside untouched |
| MarkdownMeaning.ReadsLink | apps/web/src/chats/SafeMessageMarkdown.tsx:198-238 | a labelled, safe address is a link |
| MarkdownMeaning.ReadsPlain | apps/web/src/chats/SafeMessageMarkdown.tsx:116-127 | otherwise one mark, or everything up to the next mark, is text |
| AadTimestamp.CandidateExists | apps/web/src/crypto/encrypted-aad-timestamp.ts:1-37 | a candidate is returned iff the string is a Gregorian UTC time of a whole millisecond not yet in millisecond form |
| AadTimestamp.ShapeExactly | apps/web/src/crypto/encrypted-aad-timestamp.ts:1-24 | the strings of the shape are exactly those printed from a year, month, day, hour, minute, second and up to nine decimals |
| AadTimestamp.MonthTable | apps/web/src/crypto/encrypted-aad-timestamp.ts:25-33 | the lengths of the months, with the leap rule for February |
| AadTimestamp.CandidateIsCanonical | apps/web/src/crypto/encrypted-aad-timestamp.ts:35-36 | the candidate denotes the same instant, is in millisecond form, and has no candidate |
| AadTimestamp.StringOrderIsChronological | apps/web/src/chats/encrypted-v2-projection.ts:240-242 | on millisecond forms string order is chronological order |
| AadTimestamp.SameCandidateSameInstant | apps/web/src/crypto/encrypted-aad-timestamp.ts:1-37 | accepted inputs share a candidate iff they denote the same instant |
| AadTimestamp.GregorianYears | apps/web/src/crypto/encrypted-aad-timestamp.ts:28-30 | the closed count of days before a year is the sum of the year lengths that the leap rule gives |
| AadTimestamp.DayNumberOrder | apps/web/src/crypto/encrypted-aad-timestamp.ts:25-33 | the day count orders valid dates as the calendar does |
| SessionTokens.CanonicalSessionId | libs/go/auth/session_tokens.go:64-81 | the scan accepts exactly the lower-case UUID shape |
| SessionTokens.CanonicalExactly | libs/go/auth/session_tokens.go:64-81 | the accepted ids are five groups of 8, 4, 4, 4 and 12 lower-case hexadecimal digits between hyphens |
| SessionTokens.Issue | libs/go/auth/session_tokens.go:27-39 | the filled buffer is printed as the token, or the reason why not |
| SessionTokens.TokenText | libs/go/auth/session_tokens.go:27-39 | a token is the version, the id and 43 characters of the base64url alphabet, 83 characters in all |
| SessionTokens.AlphabetExactly | libs/go/auth/session_tokens.go:27-39 | each six bits are printed as the character of the base64url alphabet at their value |
| SessionTokens.SameNumber | libs/go/auth/session_tokens.go:36-36 | three bytes and the four sextets printed for them are one number, most significant first |
| SessionTokens.IssuedTokensParse | libs/go/auth/session_tokens.go:27-61 | every issued token parses back to its id and secret hash |
| SessionTokens.AcceptedTokensAreIssued | libs/go/auth/session_tokens.go:41-61 | every accepted string is the print of its id and one 32-byte secret |
| SessionTokens.TokensAreUnique | libs/go/auth/session_tokens.go:27-61 | no two pairs print alike |

## Left out

- Sequences are the bounded integers themselves everywhere but in `ServerSequence`, whose bijection justifies it; that a merge throws on a malformed sequence string is stated there only.
- The tie-break by locale collation in the entry order is replaced by code-unit order of the key text; sequences are unique, so it decides nothing.
- storedAt strings are compared by code unit, as JavaScript does for ASCII timestamps.
- A request key is the record of its parts; that joining them with colons is unambiguous is not shown.
- A state update of a hook is one atomic step with the check before it; the bootstrap and error-message fields, listener sets, envelope deduplication and load descriptors are not modelled.
- A failed decryption carries no target in the model; the pending memory holds readable mutations only, so the replay filter never sees one.
- LaneConfluence.ArrivalOrderConfluence: asks that entries fit the limit and waiting mutations the memory at every delivery; beyond that LaneHeld.RunIsHeld, LaneWindow.WindowOfRun and LaneSafety.DeliverSafe say what holds.
- LaneInOrder.InOrderExactness: asks that every mutation has been delivered with or after its target; LaneWindow.WindowExactness is the statement without that.
- LaneNoLoss.NoLostUpdate: excepts loads started after the update whose result lacks it, because a load that nothing interrupts replaces what was there by what it brings; LaneEcho.SentSurvivesLoads shows that for own operations every result has it.
- LaneEcho.SentSurvivesLoads: the echo is any event that names the operation; that the load which discards it has fetched it from the server is not required.
- Clearing the local outbound buffer, a one-line member.
- GateMeetsBootstrap.RollForwardSafety: equality over the whole fleet asks that every path of the candidate belongs to a service of the fleet, which the gate does not check. A fleet has one image per service, built from the candidate inventory, and digests are an arbitrary function, so equal digests of different files are not excluded.
- Git, Docker, psql output parsing, the recovery record and its stages are not part of this model.
- SelectionFile.EnvFile.SaveSelection: file modes and the encodings of reading and writing are not modelled; both are taken to be UTF-8.
- DeviceFixpoint.FixpointExactly: one action is handled at one server time, and no intent runs out between the two rounds; the rounds are without failing calls and other writers, unlike the run before them in DeviceSettles.OneRoundSettles.
- DeviceSettles.OneRoundSettles: others may change the registry between the browser's actions in any way that leaves its device's bundle alone, opens no intent for it and does not make it pending again; changes between two calls of one action are in DeviceRuns.RunKeeps only.
- Signatures, keys and challenges are reduced to what the server compares: the challenged bundle and the new digest; the immutability of the identity key and expiry of challenges are not modelled.
- Notices, messages and the approval of link intents in the runtime, and its media caches, are not modelled; approvals and revocations are among the changes others may make in DeviceRuns.RunKeeps.
- DeviceRuns.RunKeeps: other clients may change the registry in any way but remove devices, as the server never does while the account exists.
- Markdown blocks, keys and CSS classes of the rendered tree; the URL parser is an arbitrary partial function.
- Randomness and hashing in session tokens are parameters.
- Encryption, decryption, key agreement, media relay, network clients, IndexedDB and the React rendering itself are not part of this model.
