# Mitiflow verification model

A Dafny model of the parts of Mitiflow whose correctness is not visible from any single function: how storage agents
place and move partition stores, how chaos schedules are generated and run, how pipelines are checked for cycles,
how events are framed, and how state is kept under message streams.

Check everything with `dafny verify dfyconfig.toml`.

## What is proved

**Placement.** `StoreMachine` is the store map of one agent as a transition system: every section of code that holds
the lock is one step, and reconciles, shutdowns, recovery tasks and drain timers interleave freely. `NoStuckStore`
proves that no interleaving leaves a store that nobody will finish starting or removing. `Convergence` proves that
work under way always ends, that two rounds of the same reconcile always reach exactly the desired slots, all
active, and that one round is enough in every schedule if and only if no drain timer is pending on a desired slot.
`DrainTimers` follows the timers when recovery tasks and later drains get at their stores: which ones nobody can
stop any more, and what they remove. `HashRing` covers rendezvous placement: replicas on different nodes, as many
racks as possible, and what a leaving node changes: in a plain chain the places behind it all move up by one.
`RackAware` gives the rack-aware selection its closed form, proves that every survivor of a leaving node stays in
the chain, and says exactly which of them keep their place. `RackLabels` says what that means for the labels nodes
publish.

Agents list the same nodes in different orders, and nodes with equal scores keep the order in which they are listed.
`Contention` says, counting racks and nodes ahead of a node and tied with it, exactly which places of the chain a
node has in some listing, so a place is the same in all listings exactly when no two nodes contend for it.
`ChainAgreement` draws the conclusion for whole chains: plain ones agree exactly when every two tied nodes have at
least rf nodes strictly ahead of them, rack-aware ones exactly when no two tied nodes, both outranked in their racks
or both not, have their earliest possible place in the chain. `Placement` proves, for any override table, that no
slot of a topic is claimed twice exactly when every slot has an override or a place nobody contends for; it also
proves that ties occur (nodes of capacity zero) and what they do: agents that list themselves first both claim a
slot, agents that list themselves last leave one unclaimed and all claim another.

`EpochProtocol` proves that an agent holds the newest table delivered to it, whatever was lost, and that agents at
equal epochs hold equal tables; the entries can differ, and two agents can claim one slot, exactly when a failed put
may leak or the manager may restart. `Drain` proves that draining takes every reported slot out of a node's
assignment, and what undraining restores. `OverrideRaces` interleaves the reads and publishes of any number of
callers: an override stays in force exactly as long as every later publish leaves it alone and is based on a later
read, and edits act as if made one after the other, whatever they are, exactly when each is based on what the one
before it left. `Cluster` puts placement together: agents that have caught up to the same epoch and reconciled twice
hold one active store per slot, on its owner. `Reconcilers` is the object itself: its methods are runs of the
machine and keep its invariant, so that none of its stores is ever stuck.

**Chaos.** `ChaosGenerator` proves that the cap on concurrent faults holds at every instant, that the schedule is
the one its draws determine, and its bounds. `ChaosScheduler` proves that a run is the exact sorted merge of all
one-shot and periodic occurrences, each at the position given by how many precede it, and that an occurrence is
certain to fire exactly when no zero-interval event precedes it.

**Pipelines.** `PipelineCheck` proves Kahn's algorithm sound and complete on multigraphs, and that the topics
reported are exactly those on a cycle or downstream of one.

**Framing.** `Attachment` and `KeyExpr` prove round trips in both directions, each with the exact condition for it.

**Streams.** `Lag` and `SchemaStores` prove that results do not depend on the order or repetition of messages (for
schemas, exactly when the newest offers agree). `InvariantChecker` proves that the checker's verdict is its
specification and that hash map order never shows in a report. `Dlq` proves conservation of failures over any run
and exactly when delays double.

Where the code does something a reader may not expect, the model does it too: a recovery that ends marks a draining
store active, whose timer still removes it; drained again, it gets a second timer, and the first can no longer be
cancelled; a timer whose time has passed removes the slot's store even if it was cancelled and the store is a new
one; a slot that becomes desired while it drains is not revived; an agent that receives an override table only
replaces the one it holds, so stores move at the next membership change or explicit recompute
(mitiflow-storage/src/topic_worker.rs:369-373); an agent puts itself first in one list of the nodes and last in
another (mitiflow-storage/src/membership.rs:173-178, mitiflow-storage/src/topic_worker.rs:221-226); a drained
replica mostly lands on a node that already holds another replica of the partition; the backoff multiplier is
truncated to 32 bits, so delays are zero from attempt 32 to 63; ordering violations and events that nobody published
do not affect the checker's verdict; the cycle check reports downstream topics as involved in a cycle.

## Conventions

- The order in which a hash map is walked is a parameter, or an arbitrary choice in a loop; what is proved holds for
  every order.
- Random draws, put failures, failures to open a store and cancellation are inputs.
- Durations are nanoseconds that saturate at the largest representable value.
- Scores are compared by a total order only, so they are integers here and the scoring function is a parameter.
- A membership list names each node once: an agent keys its peers by id and leaves itself out of them
  (mitiflow-storage/src/membership.rs:82, 173-178).
- Where a method reads and then writes under one lock, or is documented as atomic here, it is one step.

## Model

| member | source | states |
|---|---|---|
| StoreMachine.ActionsForMember | mitiflow-storage/src/reconciler.rs:92-134 | the diff starts exactly the desired slots without a live store, drains exactly the live stores neither desired nor draining, and never stops one |
| StoreMachine.ActionsInOrder | mitiflow-storage/src/reconciler.rs:105-131 | first a start for every time a slot without a live store is desired, in that order, then the drains in the order the map is walked |
| NoStuckStore.CompletionsAfterOp | mitiflow-storage/src/reconciler.rs:217-370 | after any caller's lock section, every starting or recovering store still has someone who will mark it active |
| NoStuckStore.CompletionsAfterTask | mitiflow-storage/src/reconciler.rs:265-345 | the same after any step of a recovery task or timer |
| NoStuckStore.InvNext | mitiflow-storage/src/reconciler.rs:137-370 | every step of every interleaving keeps the whole invariant |
| NoStuckStore.NoStoreIsStuck | mitiflow-storage/src/reconciler.rs:252-370 | in every reachable state each store is active, or will be marked active, or has a live timer that will remove it; at quiescence every store left is active |
| Convergence.WorkShrinks | mitiflow-storage/src/reconciler.rs:137-352 | every step of work under way leaves strictly less work |
| Convergence.WorkTerminates | mitiflow-storage/src/reconciler.rs:137-352 | without new callers every run is bounded by the work there is, and one that cannot go on is quiescent |
| Convergence.RoundExists | mitiflow-storage/src/reconciler.rs:92-352 | from every reachable idle state a reconcile can be run to quiescence |
| Convergence.RoundSettles | mitiflow-storage/src/reconciler.rs:92-352 | one reconcile run to quiescence leaves exactly the desired slots, all active, when no drain timer was pending on one of them |
| Convergence.TwoRoundsSettle | mitiflow-storage/src/reconciler.rs:92-352 | two reconciles run to quiescence always do, from any reachable state |
| Convergence.OneRoundIffNoTimer | mitiflow-storage/src/reconciler.rs:108-115 | one round settles in every interleaving if and only if no drain timer is pending on a desired slot |
| Convergence.TimerOnWantedSlot | mitiflow-storage/src/reconciler.rs:309-352 | a run that starts a slot and drops it again reaches an idle state with its timer pending |
| Convergence.OneRoundCanFail | mitiflow-storage/src/reconciler.rs:108-115 | from there a reconcile that wants the slot can run to quiescence and leave it without a store |
| DrainTimers.RecoveryRevivesDraining | mitiflow-storage/src/reconciler.rs:290-294 | in every run, a recovery that ends makes a draining store active with its live timer still pending, and a reconcile that does not want it, which could do nothing before, drains it again |
| DrainTimers.DrainedEarlyIsReached | mitiflow-storage/src/reconciler.rs:265-352 | there are runs in which a store is drained while its recovery is running |
| DrainTimers.SecondDrainOrphans | mitiflow-storage/src/reconciler.rs:323-325 | draining a store that carries the token of a pending timer leaves that timer with a token no store has |
| DrainTimers.OrphanFires | mitiflow-storage/src/reconciler.rs:331-338 | in every run from there nobody can cancel that timer: it stays pending until it fires, and then takes away whatever store the slot has |
| DrainTimers.OrphanIsReached | mitiflow-storage/src/reconciler.rs:290-352 | there are runs with such a timer |
| DrainTimers.LateTimerRemovesNewStore | mitiflow-storage/src/reconciler.rs:331-364 | a timer whose time has passed can fire although it was cancelled, and remove the active store that was started in between |
| Reconcilers.ApplyIsARun | mitiflow-storage/src/reconciler.rs:137-152 | applying actions one after the other, up to the first failure, is one of the machine's runs |
| Reconcilers.StopsAtFirstFailure | mitiflow-storage/src/reconciler.rs:137-152 | applying does all of the actions, or exactly those before the first start that fails to open |
| Reconcilers.StopAllIsApplyAll | mitiflow-storage/src/reconciler.rs:207-213 | shutting down is applying a stop for every store, and so a run as well |
| Reconcilers.ApplyKeepsInv | mitiflow-storage/src/reconciler.rs:137-152 | applying any actions, failures to open included, keeps the machine's invariant |
| Reconcilers.Reconciler.NothingIsStuck | mitiflow-storage/src/reconciler.rs:252-370 | between calls each store of the object is active, or a recovery task will mark it active, or a live timer will remove it; every method keeps this |
| Reconcilers.Reconciler.constructor | mitiflow-storage/src/reconciler.rs:60-89 | a new reconciler is the machine's initial state |
| Reconcilers.Reconciler.ActualSlots | mitiflow-storage/src/reconciler.rs:94-103 | the slots whose store has not stopped, in the order the map is walked |
| Reconcilers.Reconciler.ComputeActions | mitiflow-storage/src/reconciler.rs:92-134 | the two loops compute the diff: started is what is desired without a live store, drained what is live, not desired and not draining, nothing is stopped |
| Reconcilers.Reconciler.StartStore | mitiflow-storage/src/reconciler.rs:217-307 | a new store, starting with recovery on its way or active without, replaces whatever the slot had; nothing changes when the store cannot be opened, and no other store, task or timer ever does |
| Reconcilers.Reconciler.InsertSlot | mitiflow-storage/src/reconciler.rs:241-265 | the first lock section: the new store is starting and carries no token |
| Reconcilers.Reconciler.MarkSlotActive | mitiflow-storage/src/reconciler.rs:298-304 | the second, without recovery: active whatever its state, the token kept |
| Reconcilers.Reconciler.DrainSlot | mitiflow-storage/src/reconciler.rs:309-352 | a store that is there and not draining gets a new token and a live timer, and every other timer goes on; otherwise nothing changes |
| Reconcilers.Reconciler.StopSlot | mitiflow-storage/src/reconciler.rs:354-370 | removes the store and cancels the token it carries, no other |
| Reconcilers.Reconciler.Apply | mitiflow-storage/src/reconciler.rs:137-152 | applies actions in order and stops at the first failure |
| Reconcilers.Reconciler.Reconcile | mitiflow-storage/src/reconciler.rs:155-159 | the diff of the starting state, applied |
| Reconcilers.Reconciler.ShutdownAll | mitiflow-storage/src/reconciler.rs:207-213 | leaves no store when not interrupted |
| Reconcilers.Reconciler.BeginRecovery | mitiflow-storage/src/reconciler.rs:266-272 | the store, if still there, is recovering whatever its state was, and keeps its token; nothing else changes |
| Reconcilers.Reconciler.EndRecovery | mitiflow-storage/src/reconciler.rs:290-294 | the store, if still there, is active whatever its state was, and keeps its token; no other store, timer or token changes |
| Reconcilers.Reconciler.FireTimer | mitiflow-storage/src/reconciler.rs:335-338 | removes whatever store the slot holds by then, whatever its state, and nothing else |
| Reconcilers.Reconciler.CancelTimer | mitiflow-storage/src/reconciler.rs:332-334 | a cancelled timer ends and leaves the stores alone |
| Sorting.OrderIndependentIffNoTies | mitiflow/src/partition/hash_ring.rs:134 | a stable sort gives the same list for every arrangement of its input if and only if no two different elements tie |
| Sorting.SortFilter | mitiflow/src/partition/hash_ring.rs:134 | sorting commutes with removing elements |
| Sorting.SortIsStable | mitiflow/src/partition/hash_ring.rs:134 | elements that compare equal come out in the order they went in |
| HashRing.SelectRackAware | mitiflow/src/partition/hash_ring.rs:148-188 | the two selection loops compute the rack-aware chain |
| HashRing.AssignReplicasShape | mitiflow/src/partition/hash_ring.rs:125-141 | the plain chain names min(rf, nodes) different member nodes |
| HashRing.AssignReplicasRackAwareShape | mitiflow/src/partition/hash_ring.rs:148-188 | so does the rack-aware chain, and it spans min(rf, racks) racks, as many as any choice of at most rf nodes |
| RackLabels.SameRackIff | mitiflow/src/partition/hash_ring.rs:168 | two nodes share a rack if and only if their rack labels have the same value, or neither has the label, or one has none and the other an empty one |
| RackLabels.SpreadOverLabels | mitiflow/src/partition/hash_ring.rs:148-188 | for any at most rf nodes pairwise on different racks by their labels, the chain has as many that are; with labels on all nodes, as many with different label values |
| RackLabels.LabelsSpreadIff | mitiflow/src/partition/hash_ring.rs:163-185 | counting label values alone, the chain has as many as possible if and only if there are fewer values than replicas or no node without the label has fewer than rf values ranked ahead of it |
| RackLabels.IntruderIsChosen | mitiflow/src/partition/hash_ring.rs:168-172 | three nodes with which a chain of two has one label value although there are two |
| HashRing.PrimaryIsBest | mitiflow/src/partition/hash_ring.rs:125-188 | in both chains the primary is a node of highest score for its id, the partition and its capacity |
| HashRing.RankingAgreesIffUntied | mitiflow/src/partition/hash_ring.rs:130-134 | agents that list the same nodes in any order rank them alike if and only if no two nodes tie |
| HashRing.LeavingDisturbsLittle | mitiflow/src/partition/hash_ring.rs:125-141 | when a node leaves, the rest of a chain stays in order and is only added to at the end; a chain without the node is unchanged |
| HashRing.LeavingShiftsPlaces | mitiflow/src/partition/hash_ring.rs:125-141 | place by place: in front of the leaving node all stay, behind it all move up by one, and the last place goes to a node that was not in the chain, if rf is below the number of nodes |
| RackAware.RackAwareChainIs | mitiflow/src/partition/hash_ring.rs:148-188 | the two passes together select the best node of every rack and then the others, by rank, up to rf |
| RackAware.InChainIff | mitiflow/src/partition/hash_ring.rs:162-185 | a node is in the chain exactly when its seat, counted from racks and nodes ahead of it, is below rf |
| RackAware.LeavingKeepsSurvivors | mitiflow/src/partition/hash_ring.rs:148-188 | when a node leaves, every survivor stays in the rack-aware chain; a chain without that node keeps its members |
| RackAware.SurvivorKeepsPlaceIff | mitiflow/src/partition/hash_ring.rs:148-188 | exactly which survivors keep their place: the first of its rack, if the leaver is behind it or shares its rack with another node ahead; another one behind the leaver, if the rest of the leaver's rack is behind it and not empty and is not its own; another one ahead of it, if the leaver's rack still has a node |
| Contention.SeatIsContended | mitiflow/src/partition/hash_ring.rs:148-188 | the seat a node gets from any ranking is within the bounds counted from the nodes above it and those tied with it |
| Contention.ContenderIsGiven | mitiflow/src/partition/hash_ring.rs:130-188 | and for every place within those bounds there is a listing of the nodes whose chain has the node there |
| Contention.GivenIffContends | mitiflow/src/partition/hash_ring.rs:130-188 | so a node is at a place of the chain in some listing if and only if it contends for that place |
| Contention.PlacesAgreeIff | mitiflow/src/partition/hash_ring.rs:130-188 | all listings have the same node at a place of the chain if and only if no two nodes contend for it |
| Contention.OneRackIsPlain | mitiflow/src/partition/hash_ring.rs:125-188 | with all nodes in one rack, or without labels, the rack-aware chain is the plain one |
| Contention.OneRackContends | mitiflow/src/partition/hash_ring.rs:125-141 | and then the contenders for a place are the nodes with the score that belongs there |
| ChainAgreement.PlainChainsAgreeIff | mitiflow/src/partition/hash_ring.rs:125-141 | every listing of the nodes gives the same plain chain if and only if every two tied nodes have at least rf nodes strictly ahead of them |
| ChainAgreement.RackChainsAgreeIff | mitiflow/src/partition/hash_ring.rs:148-188 | every listing gives the same rack-aware chain if and only if no two tied nodes, both outranked in their racks or both not, have their earliest seat in it |
| ChainAgreement.PlainChainsDiffer | mitiflow/src/partition/hash_ring.rs:130-141 | otherwise two tied nodes each take the same place of the chain in the listing that has it first |
| ChainAgreement.RackChainsDiffer | mitiflow/src/partition/hash_ring.rs:153-185 | the same for rack-aware chains |
| ChainAgreement.DecidedChainPlace | mitiflow/src/partition/hash_ring.rs:162-185 | if no rivals have their earliest seat in the chain, no two nodes contend for any place of it |
| ChainAgreement.OneRackDecided | mitiflow/src/partition/hash_ring.rs:125-188 | with all nodes in one rack the two conditions are the same |
| ChainAgreement.ListedLast | mitiflow/src/partition/hash_ring.rs:130-134 | a node listed last ranks behind all nodes with at least its score |
| Overrides.MergeMeaning | mitiflow-orchestrator/src/override_manager.rs:98-104 | merging keeps the untouched old entries in order and appends the new ones in order, of several for one slot the last |
| Overrides.MergeOf | mitiflow-orchestrator/src/override_manager.rs:98-104 | a slot that the new entries mention has the last of them as its only entry; other slots have what they had |
| Overrides.MergeDecides | mitiflow-orchestrator/src/override_manager.rs:98-104 | after a merge the last new entry for a slot decides it, and the old table all others |
| Overrides.OverrideManager.constructor | mitiflow-orchestrator/src/override_manager.rs:23-31 | a new manager holds the default table |
| Overrides.OverrideManager.PublishEntries | mitiflow-orchestrator/src/override_manager.rs:34-61 | a successful put raises the epoch by one and replaces the table; a failed one changes nothing |
| Overrides.OverrideManager.Clear | mitiflow-orchestrator/src/override_manager.rs:69-71 | publishes the empty table |
| Overrides.OverrideManager.RemoveEntriesForNode | mitiflow-orchestrator/src/override_manager.rs:74-88 | publishes the entries that do not name the node, in order, at the next epoch and without expiry |
| Overrides.OverrideManager.AddEntries | mitiflow-orchestrator/src/override_manager.rs:93-107 | publishes the merge of the current and the new entries |
| Placement.ComputeDesiredAssignment | mitiflow-storage/src/topic_worker.rs:315-349 | the nested loops list, by partition and then replica and once each, exactly the slots the node owns |
| Placement.OwnersAgree | mitiflow-storage/src/topic_worker.rs:322-345 | agents with the same nodes, in any order, and the same table agree on the owner of a slot that has an override or a place nobody contends for |
| Placement.OwnersAgreeIff | mitiflow-storage/src/topic_worker.rs:322-345 | all listings of the nodes give a slot the same owner if and only if it is such a slot |
| Placement.TwoOwners | mitiflow-storage/src/topic_worker.rs:335-345 | for any other slot there are listings of the same nodes that give it to different nodes |
| Placement.SingleOwnership | mitiflow-storage/src/topic_worker.rs:315-349 | if nobody contends for the place of a slot without override: no list repeats a slot, no two agents share one, and the slots claimed are exactly those whose owner is an agent |
| Placement.SingleOwnershipIff | mitiflow-storage/src/topic_worker.rs:315-349 | with any overrides, no slot of the topic is claimed by two agents, in whatever orders they list the nodes, if and only if every slot has an override or a place nobody contends for |
| Placement.TieIsClaimedTwice | mitiflow-storage/src/membership.rs:173-178 | if a chain has rivals, two of them, each listing itself first, own the same slot |
| Placement.TieIsClaimedByNobody | mitiflow-storage/src/topic_worker.rs:221-226 | without racks, if every node lists itself last, nobody owns a place that tied nodes contend for, other than the last one their tie reaches |
| Placement.TieIsClaimedByAll | mitiflow-storage/src/topic_worker.rs:221-226 | and all of them own that last one |
| Placement.ZeroCapacityTies | mitiflow/src/partition/hash_ring.rs:118 | two nodes of capacity zero and fewer than rf others, no racks: the chain is undecided and some slot can be claimed twice |
| Placement.ChainIsRackAware | mitiflow-storage/src/topic_worker.rs:335-340 | choosing between the two chains by label makes no difference: it is always the rack-aware one |
| Placement.LeavingMovesSlots | mitiflow-storage/src/topic_worker.rs:335-345 | a slot without override keeps its owner when a node leaves if and only if nobody owned it, or its owner is another node that keeps its place in the chain, racks or not |
| Placement.LeavingMovesLaterReplicas | mitiflow-storage/src/topic_worker.rs:335-345 | without racks, the slots that change owner are those of the node and of later replicas of the same partitions |
| Placement.ChainShape | mitiflow-storage/src/topic_worker.rs:335-340 | whichever chain is chosen names min(rf, nodes) different nodes |
| Placement.ReplicasOnDifferentNodes | mitiflow-storage/src/topic_worker.rs:335-345 | without overrides replica r exists exactly when there are more than r nodes, and replicas are on different nodes |
| EpochProtocol.EpochsNeverDecrease | mitiflow-storage/src/topic_worker.rs:366-374 | in every run, leaks and restarts included, an agent's epoch never goes back |
| EpochProtocol.DeliverIs | mitiflow-storage/src/topic_worker.rs:369-373 | a delivery replaces the table of its agent if the epoch is greater, and changes nothing else |
| EpochProtocol.HoldsFirstOfNewest | mitiflow-storage/src/topic_worker.rs:366-374 | in every run, leaks and restarts included, an agent holds the first delivered of the tables with the greatest epoch delivered to it, and the default if there was none |
| EpochProtocol.CaughtUpIff | mitiflow-storage/src/topic_worker.rs:366-374 | without those, an agent has the manager's table if and only if that was delivered to it or there is none yet; one delivery is enough, however many were lost |
| EpochProtocol.EpochSafety | mitiflow-orchestrator/src/override_manager.rs:34-61 | under any loss, repetition and reordering, agents at equal epochs hold equal tables, the manager's own at its epoch, each the default or a published one, and none is ahead of the manager |
| EpochProtocol.LeakBreaksAgreement | mitiflow-orchestrator/src/override_manager.rs:52-59 | a put that fails after its table got out lets two agents at one epoch each be told that the same slot is its own |
| EpochProtocol.RestartBreaksAgreement | mitiflow-orchestrator/src/override_manager.rs:23-31 | so does a manager that restarts from the default epoch |
| EpochProtocol.TornBreaksAgreement | mitiflow-storage/src/topic_worker.rs:322-334 | two such agents have different entries and both claim the slot, whatever nodes they see |
| EpochProtocol.AgreementIffNoLeakNoRestart | mitiflow-orchestrator/src/override_manager.rs:34-61 | in all runs agents at equal epochs hold equal entries, if and only if neither can happen; and the same for no slot of a topic being claimed twice |
| EpochProtocol.OverrideWatcher.constructor | mitiflow-storage/src/topic_worker.rs:89 | an agent starts with the default table |
| EpochProtocol.OverrideWatcher.OnTable | mitiflow-storage/src/topic_worker.rs:366-374 | a table replaces the one held if and only if its epoch is greater, by however much |
| Drain.OnlineNodesMeaning | mitiflow-orchestrator/src/drain.rs:74-91 | in whatever order the nodes are walked, each one that is online is listed once, with the capacity and labels it published or 100 and none, and no other is |
| Drain.DrainOverridesShape | mitiflow-orchestrator/src/drain.rs:15-60 | with another node, exactly the slots reported on the drained node get one entry each, tagged and naming another node; without one, none |
| Drain.DrainIsEffective | mitiflow-orchestrator/src/drain.rs:43-102 | merged into any table, seen with any membership, the drained node's assignment has none of the moved slots and the target's has all of them |
| Drain.UndrainAfterDrain | mitiflow-orchestrator/src/drain.rs:92-118 | undraining leaves the prior entries that were neither replaced nor tagged, in order; they are all of them if and only if none was |
| Drain.DrainSharesANode | mitiflow-orchestrator/src/drain.rs:43-50 | without racks, a drained replica lands on a node that already holds one of its partition if and only if rf is at least 2 |
| Drain.DrainSharesANodeWithRacks | mitiflow-orchestrator/src/drain.rs:43-50 | with racks, that happens if and only if the replica is not the primary, or the runner-up is in another rack with rf at least 2, or there are fewer racks than replicas |
| Drain.DrainSharesThePrimary | mitiflow-orchestrator/src/drain.rs:43-50 | with or without racks, every drained replica but the primary lands on the primary's node |
| Drain.DrainNode | mitiflow-orchestrator/src/drain.rs:65-102 | every override names an online node other than the drained one; every reported slot gets one if there is such a node, and none otherwise; publishes the merged table, and nothing when there is nothing to move or the put fails |
| Drain.UndrainNode | mitiflow-orchestrator/src/drain.rs:107-118 | publishes the table without the tagged entries |
| OverrideRaces.CopyIsWhatWasRead | mitiflow-orchestrator/src/override_manager.rs:74-98 | in every run a caller's copy is the table as it was at that caller's last read, which it has not used since |
| OverrideRaces.WriteEditsWhatWasRead | mitiflow-orchestrator/src/override_manager.rs:74-107 | in every run a publish leaves its edit of the table its caller last read, whatever others published in between |
| OverrideRaces.EditOf | mitiflow-orchestrator/src/override_manager.rs:34-107 | what each kind of edit makes of the entries for one slot |
| OverrideRaces.EditKeeps | mitiflow-orchestrator/src/override_manager.rs:34-107 | an edit that does not bring an entry leaves it in force if and only if it was in force and the edit spares it |
| OverrideRaces.InForceIffTraced | mitiflow-orchestrator/src/override_manager.rs:34-107 | among additions, removals, undrains and whole new tables of any callers, an override one addition brought is in force in exactly the tables that trace back to it, from publish to read, through edits that spare it |
| OverrideRaces.EntryLastsIff | mitiflow-orchestrator/src/override_manager.rs:93-107 | it is in force in every state from then on if and only if every later publish spares it and is based on a later read |
| OverrideRaces.LeavesDrain | mitiflow-orchestrator/src/orchestrator.rs:191-196 | what does away with a drain's override: a new entry for its slot, the eviction of its target, undraining that very node, or a whole new table |
| OverrideRaces.DrainLastsIff | mitiflow-orchestrator/src/drain.rs:92-99 | so each override that a drain computes stays in force if and only if nobody does one of these, or publishes from a table read before the drain |
| OverrideRaces.StaleIsLost | mitiflow-orchestrator/src/override_manager.rs:74-107 | wherever a publish comes between another one and its read, there are edits with which it leaves no trace |
| OverrideRaces.NothingLostIff | mitiflow-orchestrator/src/override_manager.rs:74-107 | whatever the callers of a schedule write, all tables are as if their edits had been made one after the other, if and only if each that reads does so after the publish before it |
| OverrideRaces.AdditionIsLost | mitiflow-orchestrator/src/override_manager.rs:98-106 | two callers that both read before either publishes: the first one's addition is in force and then gone |
| Cluster.AgentSettles | mitiflow-storage/src/topic_worker.rs:271-293 | an agent that reconciles its assignment twice holds exactly the slots it owns, all active |
| Cluster.ClusterConverges | mitiflow-storage/src/topic_worker.rs:271-349 | agents caught up to one epoch, by any delivery, that reconcile twice hold one active store per owned slot, on its owner and nowhere else |
| ChaosGenerator.DurationMeaning | mitiflow-emulator/src/chaos.rs:203-209 | how long a fault is active: until the restart if one is set, else for the pause, else until the heal, else not at all |
| ChaosGenerator.CappedMeansFew | mitiflow-emulator/src/chaos.rs:115-130 | so the cap on active faults is a cap on targets down, paused and cut off, taken together, at every instant |
| ChaosGenerator.KnownActionsMeaning | mitiflow-emulator/src/chaos.rs:41-57 | the actions used are exactly those with one of the six names, with their configuration |
| ChaosGenerator.KnownActionsInOrder | mitiflow-emulator/src/chaos.rs:38-57 | in the order in which they are configured |
| ChaosGenerator.BuildSamples | mitiflow-emulator/src/chaos.rs:153-200 | every parameter is there if its range is, and within its own; the target is from the pool; a partition cuts it off from exactly the rest of the pool |
| ChaosGenerator.DrawnEvent | mitiflow-emulator/src/chaos.rs:97-138 | the event a draw leads to carries the action, target and parameters drawn, those drawn again if it was postponed |
| ChaosGenerator.ClockCoversWaits | mitiflow-emulator/src/chaos.rs:78-95 | the clock is never behind the sum of the waiting times drawn, whether or not they led to events |
| ChaosGenerator.PushKeepsCap | mitiflow-emulator/src/chaos.rs:117-143 | adding an event while fewer than the cap are tracked keeps the cap at every instant |
| ChaosGenerator.FreeAtEarliest | mitiflow-emulator/src/chaos.rs:122-130 | when the cap is reached, the earliest tracked expiry is the first instant at which a fault may start |
| ChaosGenerator.NextArrival | mitiflow-emulator/src/chaos.rs:78-95 | the next start time is the first that respects the waiting time and the minimum spacing, none if that is after the end |
| ChaosGenerator.Postpone | mitiflow-emulator/src/chaos.rs:122-139 | at the cap the event happens at the first instant at which a tracked fault has expired, or the schedule ends |
| ChaosGenerator.NextEvent | mitiflow-emulator/src/chaos.rs:78-144 | one turn of the loop schedules exactly what its draw asks for, at the first instant allowed, and keeps all bounds on both push paths |
| ChaosGenerator.GenerateRandomEvents | mitiflow-emulator/src/chaos.rs:25-148 | the schedule is the one the draws determine; times are ordered, spaced and within the duration; at every instant at most the cap are down, paused or cut off; every event is a configured action with parameters from its ranges; it fails exactly when no configured name is known |
| ChaosGenerator.ScheduleIsDetermined | mitiflow-emulator/src/chaos.rs:72-148 | the same draws give the same schedule |
| ChaosGenerator.ScheduleIsFinite | mitiflow-emulator/src/chaos.rs:78-95 | with a positive spacing there are at most duration / spacing + 1 events |
| ChaosScheduler.OccurrenceTimes | mitiflow-emulator/src/chaos.rs:281 | an event with a time happens then and every interval after it; one that only repeats happens first after one interval; one with neither at once |
| ChaosScheduler.UnifiedMeaning | mitiflow-emulator/src/chaos.rs:262-294 | all fixed and random events are there as often as listed, earlier ones first, and those that first fire at the same time in the order listed, fixed ones ahead |
| ChaosScheduler.FiringsInOrder | mitiflow-emulator/src/chaos.rs:343-355 | firings come in order of time, and of listing where times are equal |
| ChaosScheduler.EarlierHasFired | mitiflow-emulator/src/chaos.rs:343-423 | when something fires, every occurrence that precedes it has fired |
| ChaosScheduler.FiringOf | mitiflow-emulator/src/chaos.rs:417-422 | firing m of an event is its occurrence m, at first + m times the interval |
| ChaosScheduler.FiredIffPrecedes | mitiflow-emulator/src/chaos.rs:343-423 | what has fired before a firing is exactly what precedes it, except that a zero-interval event fires again at the time it fired |
| ChaosScheduler.PositionIsRank | mitiflow-emulator/src/chaos.rs:343-423 | a firing's position in the log is the number of occurrences that precede it, plus its own repeats if its interval is zero |
| ChaosScheduler.FiresAtItsRank | mitiflow-emulator/src/chaos.rs:343-423 | every run long enough has each occurrence at that position, if no zero-interval event precedes it |
| ChaosScheduler.ZeroIntervalStarves | mitiflow-emulator/src/chaos.rs:420-422 | nothing that a zero-interval event precedes ever fires |
| ChaosScheduler.FiresIffReachable | mitiflow-emulator/src/chaos.rs:343-423 | an occurrence is in every run longer than its rank if and only if no zero-interval event precedes it; such runs exist |
| ChaosScheduler.OneShotFiresOnce | mitiflow-emulator/src/chaos.rs:348-353 | a one-shot event fires at most once |
| ChaosScheduler.ChaosScheduler.constructor | mitiflow-emulator/src/chaos.rs:262-306 | fixed and random events, each due at its first time, in a stable order of that time |
| ChaosScheduler.ChaosScheduler.SelectNext | mitiflow-emulator/src/chaos.rs:344-355 | the first unfinished event with the smallest next firing time, none only when all are finished |
| ChaosScheduler.ChaosScheduler.Run | mitiflow-emulator/src/chaos.rs:339-424 | the log is a run of the specification; it ends early only when nothing is pending |
| PipelineCheck.EdgesMeaning | mitiflow-emulator/src/validation.rs:193-207 | there is an edge from one topic to another exactly if a processor reads the first and writes the second |
| PipelineCheck.CyclesAreLoops | mitiflow-emulator/src/validation.rs:189-207 | so the graph has a cycle exactly if processors feed a topic back to itself |
| PipelineCheck.BuildGraph | mitiflow-emulator/src/validation.rs:193-207 | the adjacency map is the multigraph of processors with both topics, and the node set its ends |
| PipelineCheck.CountInDegrees | mitiflow-emulator/src/validation.rs:213-221 | counts every parallel edge and self-loop, in whatever order the map is walked |
| PipelineCheck.InitialQueue | mitiflow-emulator/src/validation.rs:223-227 | the nodes without incoming edges, once each |
| PipelineCheck.CountDown | mitiflow-emulator/src/validation.rs:233-241 | counting down a target never underflows, and queues it exactly when its last incoming edge goes |
| PipelineCheck.RemovedIsNotBehindCycle | mitiflow-emulator/src/validation.rs:229-243 | no removed node is on a cycle or downstream of one |
| PipelineCheck.SelfFedIsBehindCycle | mitiflow-emulator/src/validation.rs:245-250 | every node left over is on a cycle or downstream of one |
| PipelineCheck.RemoveAll | mitiflow-emulator/src/validation.rs:229-243 | the loop ends; it has removed every node if and only if there is no cycle, and in-degrees stay positive exactly on and behind cycles |
| PipelineCheck.Verdict | mitiflow-emulator/src/validation.rs:245-258 | all nodes are removed if and only if there is no cycle; positive in-degrees mark exactly the nodes on or behind one |
| PipelineCheck.ValidateNoCycles | mitiflow-emulator/src/validation.rs:189-259 | accepts if and only if no processors feed a topic back to itself; otherwise reports exactly the topics that get what comes out of such a loop, those on it included |
| Attachment.ToBytesIsBigEndian | mitiflow/src/attachment.rs:65-69 | numbers are written most significant byte first |
| Attachment.EncodeMetadata | mitiflow/src/attachment.rs:57-71 | filling the buffer field by field gives 50 bytes with every field at its place, numbers in big-endian and the time in two's complement or zero |
| Attachment.EncodeMetadataWithHlc | mitiflow/src/attachment.rs:78-96 | and 62 bytes with the two parts of the clock behind them |
| Attachment.DecodeEncode | mitiflow/src/attachment.rs:57-156 | decoding what was encoded returns every field if and only if the timestamp fits 64 bits of nanoseconds; otherwise all but the timestamp, which is zero |
| Attachment.EncodeDecode | mitiflow/src/attachment.rs:114-156 | exactly the lengths 50 and 62 decode, and encoding the result gives the same bytes |
| KeyExpr.ParseDecimal | mitiflow/src/attachment.rs:163-175 | a decimal partition is read back exactly when it fits 32 bits |
| KeyExpr.ParseU32Meaning | mitiflow/src/attachment.rs:168-171 | a number is read exactly from digits, with a plus sign or not, whose value fits 32 bits |
| KeyExpr.NoPartition | mitiflow/src/attachment.rs:172-174 | without the marker the partition is 0 |
| KeyExpr.PartitionOfAny | mitiflow/src/attachment.rs:163-175 | of any string with the marker, it is the number between the first one and the next slash or the end, and 0 if that is not a number |
| KeyExpr.PartitionRoundTrip | mitiflow/src/attachment.rs:163-175 | every partition is read back under a prefix if and only if the prefix is clean of the partition marker |
| KeyExpr.KeyRoundTrip | mitiflow/src/attachment.rs:195-203 | a key, markers inside it or not, is read back if and only if it is not empty and the prefix is clean of the key marker |
| KeyExpr.UnkeyedHasNoKey | mitiflow/src/attachment.rs:195-203 | an unkeyed expression yields no key if and only if its prefix is clean of the key marker |
| KeyExpr.LayoutsAreInPartition | mitiflow/src/publisher/mod.rs:348 | both published layouts carry the partition where the parser looks for it |
| KeyExpr.ValidIffNoWildcard | mitiflow/src/attachment.rs:181-189 | a key passes validation if and only if it is not empty and its expression has no wildcard |
| KeyExpr.PublishedKeyReadsBack | mitiflow/src/publisher/mod.rs:419-426 | whatever key passes validation is read back with its partition under a clean prefix |
| Lag.RegistersAreHighest | mitiflow-orchestrator/src/lag.rs:113-126 | a register exists exactly for what some message mentions and holds the highest value given |
| Lag.RegistersIgnoreOrder | mitiflow-orchestrator/src/lag.rs:113-164 | message sequences with the same elements give the same registers, whatever their order and repetition |
| Lag.LagMonitor.constructor | mitiflow-orchestrator/src/lag.rs:94-95 | no registers at first |
| Lag.LagMonitor.OnWatermark | mitiflow-orchestrator/src/lag.rs:112-126 | the loop raises every publisher's watermark to the message's, if higher |
| Lag.LagMonitor.OnCommit | mitiflow-orchestrator/src/lag.rs:149-164 | the loop raises every publisher's committed offset likewise |
| Lag.Total | mitiflow-orchestrator/src/lag.rs:204 | the total is the sum over publishers, in whatever order they are walked |
| Lag.LagMonitor.GetGroupLag | mitiflow-orchestrator/src/lag.rs:249-286 | one report for each partition the group committed in, with each publisher's lag and their sum |
| Lag.LagMonitor.AllReports | mitiflow-orchestrator/src/lag.rs:187-216 | the periodic publisher's reports, equal to the group query's for every group and partition |
| Lag.LagIsHighestLessHighest | mitiflow-orchestrator/src/lag.rs:249-286 | a publisher is reported exactly when committed for, with the highest watermark less the highest commit, at least zero |
| Lag.ReportIgnoresOrder | mitiflow-orchestrator/src/lag.rs:113-286 | reports depend only on which messages arrived |
| SchemaStores.SchemaStore.constructor | mitiflow-storage/src/schema_store.rs:25-33 | opening keeps what the directory holds |
| SchemaStores.SchemaStore.Get | mitiflow-storage/src/schema_store.rs:36-49 | the schema stored for a topic |
| SchemaStores.SchemaStore.Put | mitiflow-storage/src/schema_store.rs:52-60 | replaces the schema of its topic and no other |
| SchemaStores.SchemaStore.PutIfNewer | mitiflow-storage/src/schema_store.rs:66-97 | a new topic or a higher version is stored; the same version is accepted if and only if codec, partitions and key format agree, and stores nothing; a lower one is refused; other topics are untouched |
| SchemaStores.HoldsFirstOfNewest | mitiflow-storage/src/schema_store.rs:66-97 | over any offers the register holds the first of the highest version, and nothing only when nothing was offered |
| SchemaStores.VersionsNeverDecrease | mitiflow-storage/src/schema_store.rs:66-97 | stored versions never go back |
| SchemaStores.AcceptedIffInForce | mitiflow-storage/src/schema_store.rs:66-97 | an offer is accepted if and only if the topic is then at its version with its codec, partitions and key format |
| SchemaStores.OrderIrrelevantIffNewestAgree | mitiflow-storage/src/schema_store.rs:78-93 | the final wire contract does not depend on order or repetition if and only if the newest offers agree on it |
| InvariantChecker.FirstByIdMeaning | mitiflow-emulator/src/invariant_checker.rs:68-72 | the entry kept for an id is the first published with it |
| InvariantChecker.CountsMeaning | mitiflow-emulator/src/invariant_checker.rs:83-84 | counts are numbers of occurrences, above one exactly when an id is received twice |
| InvariantChecker.ViolationsMeaning | mitiflow-emulator/src/invariant_checker.rs:86-96 | a violation is reported exactly where an entry's sequence number is below that of the entry before it of its publisher |
| InvariantChecker.ScanReceived | mitiflow-emulator/src/invariant_checker.rs:80-107 | the single pass computes counts, mismatches and violations |
| InvariantChecker.CollectMissing | mitiflow-emulator/src/invariant_checker.rs:109-117 | lists each published id that was not received once, with its first entry's fields |
| InvariantChecker.CollectDuplicates | mitiflow-emulator/src/invariant_checker.rs:119-127 | lists each id received more than once, with its number of occurrences |
| InvariantChecker.Check | mitiflow-emulator/src/invariant_checker.rs:60-156 | the report has exactly the missing, duplicate, misordered and mismatched events, sorted, and the totals |
| InvariantChecker.ReportOrder | mitiflow-emulator/src/invariant_checker.rs:129-136 | lists are in dictionary order of event ids; violations in that of publishers, and by sequence number within one |
| InvariantChecker.ReportIsDetermined | mitiflow-emulator/src/invariant_checker.rs:109-136 | two reports about the same manifests are equal, whatever the map order |
| InvariantChecker.VerdictMeaning | mitiflow-emulator/src/invariant_checker.rs:138-145 | it passes if and only if every published id is received, none twice, and every received one carries its first checksum; no violations are listed if and only if each publisher's sequence numbers never go down |
| InvariantChecker.MismatchesContents | mitiflow-emulator/src/invariant_checker.rs:98-106 | mismatches are exactly the received entries whose checksum differs from the first published, sorted by id |
| InvariantChecker.ViolationsContents | mitiflow-emulator/src/invariant_checker.rs:86-135 | violations are exactly the places where order is broken, sorted by publisher and sequence number |
| Dlq.Multiplier | mitiflow/src/dlq.rs:37-38 | the factor is two to the attempt up to 31, zero from 32 to 63, and the largest 32-bit number after |
| Dlq.DoublingLaw | mitiflow/src/dlq.rs:33-42 | the delay is min(base times two to the attempt, max) exactly up to attempt 31, or with a zero base or cap, or from 64 on where the largest factor reaches the cap |
| Dlq.DelaysNeverShrink | mitiflow/src/dlq.rs:33-42 | delays do not shrink up to attempt 31 and never exceed the cap |
| Dlq.DeadLetterQueue.constructor | mitiflow/src/dlq.rs:91-97 | no counters at first |
| Dlq.DeadLetterQueue.OnFailure | mitiflow/src/dlq.rs:104-121 | counts the failure and retries, or sends and forgets the counter; a failed put leaves it raised |
| Dlq.DeadLetterQueue.AttemptCount | mitiflow/src/dlq.rs:124-126 | the counter, zero when there is none |
| Dlq.DeadLetterQueue.Acknowledge | mitiflow/src/dlq.rs:129-131 | forgets the counter |
| Dlq.FailuresAreAccountedFor | mitiflow/src/dlq.rs:104-131 | over any run, failed puts included, failures since the last acknowledgement are those of the sends plus the counter |
| Dlq.AccountingLaw | mitiflow/src/dlq.rs:104-131 | with successful puts they are the budget times the sends plus the counter, so sends and counter are the quotient and remainder |
| Dlq.DelaysDoubleIff | mitiflow/src/dlq.rs:33-121 | every retry of every run follows the doubling law if and only if the budget is at most 33 or all delays are zero |
| Dlq.OutcomeOfFailure | mitiflow/src/dlq.rs:104-121 | in every run, failed puts included, the failures counted decide: a retry with the next number while the budget lasts, then a send, or an error if the put fails |
| Dlq.FixedDelays | mitiflow/src/dlq.rs:33-36 | with a fixed delay every retry of every run waits just that long |
| Dlq.OthersUntouched | mitiflow/src/dlq.rs:104-131 | an event's counter depends on its own failures and acknowledgements alone |

## Left out

- Zenoh sessions, liveliness, serialization, fjall persistence and file handling: only the messages delivered and the records kept are modelled.
- Event stores, publishers, subscribers, gap detection, watermarks and consumer groups, apart from the key layouts and the lag monitor.
- The floating-point score of weighted rendezvous hashing: only its total order matters, so the score is any function. What `Placement.ZeroCapacityTies` assumes of it holds for all hashes that do not round to one when normalised; ties of other scores are characterised and not computed.
- Placement.TieIsClaimedByNobody: stated without racks; for rack-aware chains only that undecided places can be claimed twice is stated.
- Placement.TieIsClaimedByAll: likewise.
- `worker_for`, `assignments` and `assignments_replicated` of the hash ring: simple traversals around the functions modelled.
- `active_stores`, `partition_statuses`, event counts, timestamps and store paths of the reconciler: they do not affect which stores run.
- Reconcilers.Reconciler.StartStore: runs both lock sections of a start without recovery at once; `StoreMachine` keeps them apart, and the results in `NoStuckStore` and `Convergence` cover every interleaving of the two.
- Overrides.OverrideManager.AddEntries: reads and publishes with no other publish in between, which the source does not enforce; `OverrideRaces` has the two as separate steps.
- Overrides.OverrideManager.RemoveEntriesForNode: likewise.
- Drain.DrainNode: likewise, through the addition of its entries.
- Drain.UndrainNode: likewise.
- The expiry time of an override table is carried and never consulted, as in the source.
- ChaosGenerator.GenerateRandomEvents: bounds and cap are stated for durations below the largest representable one, where saturation can no longer put two events at the same last instant; weights, fault rates and distributions are not modelled, since every sequence of draws is covered.
- ChaosScheduler.ChaosScheduler.Run: times are unbounded, so the panic of a periodic time beyond the largest duration is not modelled, nor is what firing an action does; waiting is left out, since it does not affect the order.
- Lag.LagMonitor.GetGroupLag: leaves out the staleness flag and the timestamp of a report, and the 64-bit overflow of a total; stale entries are not cleared.
- Lag.LagMonitor.AllReports: likewise.
- SchemaStores.SchemaStore.PutIfNewer: one call at a time; two concurrent calls may interleave their read and write in the source.
- Manifest files, their parsing and the split of entries by role: the checker starts from the two lists.
- The 32-bit overflow of a retry counter, which needs 2^32 failures without a send.
