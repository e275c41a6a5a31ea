# heartd: verified model

heartd is a monitor that runs on every node of a cluster: each node samples itself, polls its peers, raises
alerts and agrees with the other nodes who sends them. This project models its stateful core in Dafny and
proves what that core promises. `dafny verify dfyconfig.toml` checks everything.

## What is modelled

**The alert election** (`Election`, `ElectionSilence`, `ElectionSafety`, `ElectionKnowledge`, `ElectionExact`,
`Coordination`).
Every watcher of a dead node runs `ShouldSend`. An n-node transition system has one action per critical
section or message fate; any number of nodes take part, peer lists may be one-sided, messages may be lost,
claims may be handled after their caller gave up, and ledger entries may expire at any moment. An answered
claim is one action, because its caller only merges the answer into what it has gathered. The class
`Coordinator` holds the ledger as the program does and is proved to take exactly these steps.

- *Silence never happens*: once the smallest-named caller is through, somebody has delivered
  (`ElectionSilence.NoSilence`), if the ledgers start without a live entry for the key. Both conditions are
  exact: in a given cluster, no entry at the start may harm a caller that reads it, by being marked as sent or
  by naming a smaller owner (`NeverSilentInExactly`); over all clusters, there may be no live entry at all
  (`NeverSilentExactly`). Entries do remain: a node that delivered is silenced by its own entry when the
  incident returns within the ten minutes (`StaleEntrySilences`).
- *Who delivers* follows from the events alone: with any number of callers, any losses and expiries, a caller
  delivers if and only if neither its own ledger nor a peer that answered it knew of a smaller name or of a
  delivery, and no other delivery overtook it (`ElectionKnowledge.DeliversExactly`).
- *At most one delivery is not guaranteed.* The verdict uses what was gathered outside the lock, and the
  last check only stands down for another owner's "sent" mark. If two nodes that list each other both
  deliver, their calls crossed in one exact order (`DoubleDeliveryCrosses`). Two callers in a cluster of any
  size both deliver if and only if it is that order and no third node that answers passes the news between
  them (`TwoDeliveriesExactly`), and such a run exists (`DoubleDeliveryHappens`). Calls that do not overlap,
  or that both register before either claim is handled, deliver at most once.

**The alert engine and its runner** (`AlertHistory`, `Keys`, `AlertEngine`, `Runner`). The engine keeps a few
fields per (rule, node, entity) in a map keyed by a concatenated string, which the Forget operations parse
again. The specification looks at the whole history of an entity: an alert is due when the present unbroken
streak has lasted long enough. The engine is proved to announce exactly what is due, for rule parameters that
change from call to call. The string map acts like a map keyed by triples, over all calls, if and only if no
node has a `|` in its name (`MirrorsExactly`); names with one are accepted, and then forgetting a node or an
entity misses its own keys (`ForgetFindsExactly`), while keys collide exactly if one node's name continues
another's behind a `|` (`FaithfulExactly`). The severities the engine relies on are what rule validation
leaves in the store (`RulesStaySane`).

**Membership** (`PeerTable`, `Gossip`, `Cluster`, `Convergence`, `Discovery`). `Gossip.Node` is one node's table
with its gossip pass, self-heal, announce handler and secret choice; `Cluster` has the steps of all nodes.
`Convergence` proves that j + 1 rounds, in any order of the nodes, bring together any two nodes at distance up
to 2^j, and the same for rounds whose single messages interleave; `Discovery` proves that cycles of the real
tables, one after the other or interleaved, compute exactly those rounds, and that a cycle is a run of the
cluster's own steps. An announce of a known name overwrites the stored URL, also a hand-set one;
`AnnounceKeepsAddrsDistinct` says exactly when that gives two rows one address, and `AnnounceCollides` gives
such a table. Gossip itself only adds. The dashboard's changes to peers are steps too, and `MeshStep` says
exactly which of them keep the shared-secret mesh.

**Exact arithmetic and loops.** `Forecast`: least squares over exact reals, by way of sums over pairs of
samples. `Downsample`: the bucketed query. The comment at internal/storage/storage.go:446 promises at most
`maxPoints+1` rows; the floor division at line 436 gives up to `2*maxPoints`, and `DocumentedBoundExactly`
says for which windows the comment is right. `Counters`: rates against counter growth. `Scheduler`: at most
one run per name, spacing, bounded lateness. `Settings`, `SettingsRuns`, `StatusCodes`, `Text`: the settings
cache, the seed flags, and the codec of accepted status codes. An interval below one second is accepted but
stored as zero seconds, and the scheduler then never runs the check (`ScheduledExactly`). The dashboard only
sends whole seconds; such an interval comes from the configuration file, whose validation asks for no more
than a positive one (`HalfSecondNeverRuns`).

Strings are sequences of characters; Go compares bytes, which orders valid UTF-8 in the same way. Times are
integers (nanoseconds, or Unix seconds where the program stores those) and come in as parameters, as do the
network's answers and the table contents the runner reads. Maps and concurrent answers are visited in an
arbitrary order. Reading a ledger entry past its time to live is the `Reset` action followed by the access,
so clocks may differ between nodes and even run backwards.

## Model

| member | source | states |
|---|---|---|
| Names.MinNameIsLeast | internal/alert/coordination.go:108-120 | the merge yields the non-empty name that comes first in dictionary order, in whichever order they are given, and "" only for two empty names |
| Names.LessExactly | internal/alert/coordination.go:115-116 | the order on names is dictionary order: one string ends where the other goes on, or has the smaller character where they first differ |
| Names.TenPrecedesTwo | internal/alert/coordination.go:108-120 | "node-10" is elected before "node-2" |
| Names.MinNameAssociative | internal/alert/coordination.go:108-120 | merging candidates in any grouping gives the same name |
| ElectionSilence.GroundedStep | internal/alert/coordination.go:135-222 | from ledgers that harm no caller every step keeps: stored owners are callers or were there at the start, so is every "sent" mark's cause, gathered owners are callers, and whoever stood down had a delivery or a smaller caller |
| ElectionSilence.NoSilence | internal/alert/coordination.go:23-34 | under any loss, one-sided peer lists and expiry: once the smallest-named caller has returned, some node has returned true |
| ElectionSilence.OwnersAreCallers | internal/alert/coordination.go:135-153 | an owner stored at any node is the name of a node that has called |
| ElectionSilence.NeverSilentInExactly | internal/alert/coordination.go:23-34 | in a given cluster, from given ledgers, somebody delivers in every run if and only if no entry is sent, or names a smaller owner, at a node some caller reads |
| ElectionSilence.LoneCall | internal/alert/coordination.go:166-208 | a lone caller that reads such an entry and hears from nobody else stands down |
| ElectionSilence.NeverSilentExactly | internal/alert/coordination.go:23-34 | from given ledgers somebody delivers in every cluster and run if and only if no ledger has a live entry for the key |
| ElectionSilence.StaleEntrySilences | internal/alert/coordination.go:170-177 | a run in which "a" delivers leaves an entry that makes "a" stand down when it is the only caller of the next episode |
| ElectionSafety.PhasesAdvance | internal/alert/coordination.go:157-222 | a call never restarts and its verdict never changes |
| ElectionSafety.ClaimResolved | internal/alert/coordination.go:182-204 | a peer no longer waited for has answered or was given up on |
| ElectionSafety.DeliveryDecided | internal/alert/coordination.go:206-221 | a delivering call decided with no "sent" heard, its own name smallest, and not raced out |
| ElectionSafety.ReplyKept | internal/alert/coordination.go:191-202 | what a peer answered bounds the caller's owner and its "sent" knowledge for the rest of the call |
| ElectionSafety.OwnerStays | internal/alert/coordination.go:135-153 | without expiry the owner at a node never gets larger, unless a larger node commits there |
| ElectionSafety.WonBeforeSmallerRegistered | internal/alert/coordination.go:166-179 | a winner's claim was handled at each smaller caller before that caller registered |
| ElectionSafety.WonBeforeSent | internal/alert/coordination.go:206-208 | no node that answered a winner had a "sent" mark until then |
| ElectionSafety.DoubleDeliveryCrosses | internal/alert/coordination.go:157-222 | in a cluster of any size, if mutually listed a < b both deliver, then b registered, b's claim was handled at a, a registered, a's claim was handled at b, both committed, and no sent-message reached b before its commit |
| ElectionSafety.DisjointCallsDeliverOnce | internal/alert/coordination.go:29-31 | calls that do not overlap deliver at most once |
| ElectionSafety.RegisteredFirstDeliversOnce | internal/alert/coordination.go:169-179 | calls that both register before the larger one's claim is handled deliver at most once |
| ElectionSafety.SmallestIsElected | internal/alert/coordination.go:29 | if candidacies are recorded before the claims arrive, the smallest-named caller delivers and nobody else |
| ElectionKnowledge.EntryKnows | internal/alert/coordination.go:124-153 | at any moment a ledger's owner is the smallest name that reached it since it expired or was overwritten, and it is marked exactly if it was told of a delivery |
| ElectionKnowledge.WarnedExactly | internal/alert/coordination.go:191-208 | an answer harms its caller if and only if that ledger has heard of a smaller name or of a delivery |
| ElectionKnowledge.OvertakenExactly | internal/alert/coordination.go:213 | the last check stands down if and only if a delivery is known and the own name is not the smallest heard |
| ElectionKnowledge.DeliversExactly | internal/alert/coordination.go:157-222 | among any number of callers, a decision delivers if and only if no ledger the call read was warned and it was not overtaken |
| ElectionKnowledge.DeliveredExactly | internal/alert/coordination.go:157-222 | a node has delivered by the end of a run if and only if it made such a decision |
| ElectionKnowledge.KeepsOwnName | internal/alert/coordination.go:179-208 | an open call keeps its own name and hears of nothing sent as long as every answer is harmless |
| ElectionExact.ThirdKnows | internal/alert/coordination.go:135-153 | the entry of a node that does not call says exactly whom it has heard of, and who sent, since it last expired |
| ElectionExact.TwoDeliveriesExactly | internal/alert/coordination.go:206-221 | in any cluster, two mutually listed callers both deliver if and only if their calls crossed in that order, nobody who answered the larger had heard of the smaller, and nobody who answered the smaller had been told that the larger sent |
| ElectionExact.TwoWatchersExactly | internal/alert/coordination.go:206-221 | if each asks only the other: if and only if their calls crossed |
| ElectionExact.DoubleDeliveryHappens | internal/alert/coordination.go:206-221 | a run from empty ledgers, nothing lost or expired, in which both of two nodes deliver |
| Coordination.Coordinator.EntryLocked | internal/alert/coordination.go:122-131 | an entry that is absent or older than 600 seconds is replaced by an empty one, any other is returned untouched |
| Coordination.Coordinator.HandleClaim | internal/alert/coordination.go:133-142 | the whole new ledger; a step of the protocol on the entry, after a Reset exactly if it had expired |
| Coordination.Coordinator.HandleSent | internal/alert/coordination.go:144-153 | the whole new ledger; the protocol's sent-message step on the entry |
| Coordination.Coordinator.Register | internal/alert/coordination.go:166-179 | the protocol's Register step, on the entry and on the call it opens or stops |
| Coordination.Coordinator.Targets | internal/alert/coordination.go:184-188 | the peers asked are those the protocol's calls query: usable, not this node, not the subject |
| Coordination.Coordinator.Aggregate | internal/alert/coordination.go:181-204 | the gathered owner and "sent" knowledge |
| Coordination.AnswersGather | internal/alert/coordination.go:191-202 | gathering one answer, or none, is the protocol's Answered or Lost step on the caller |
| Coordination.GatherIsLeast | internal/alert/coordination.go:191-202 | the gathered owner is the smallest of the own and the answered names; "sent" is known exactly if someone said so |
| Coordination.GatherOfPermutation | internal/alert/coordination.go:189-204 | concurrent answers give one verdict in whatever order they arrive |
| Coordination.Coordinator.Decide | internal/alert/coordination.go:206-221 | the protocol's Decide step: verdict, entry, and peers notified exactly on a delivery |
| Keys.SplitInvertsRuleKey | internal/alert/engine.go:136-140 | the three-way split recovers rule, node and entity, whatever the entity contains |
| Keys.RuleKeyInjective | internal/alert/engine.go:138-140 | different entities have different keys when nodes contain no separator |
| Keys.MatchesExactly | internal/alert/engine.go:279-319 | each Forget test holds of exactly the keys it is about; rule 1 is not rule 12 |
| Keys.SplitInvertsExactly | internal/alert/engine.go:294-319 | the three-way split recovers rule, node and entity if and only if the node has no separator |
| Keys.ForgetFindsExactly | internal/alert/engine.go:279-319 | ForgetNode and ForgetEntity match a key exactly by its node up to the first separator, so they find their own if and only if the node has none; Forget always does |
| Keys.FaithfulExactly | internal/alert/engine.go:138-140 | over a set of nodes all keys are distinct if and only if no node's name is another one's followed by a separator |
| Keys.FaithfulIncidentsExactly | internal/alert/coordination.go:98-106 | the same condition is exact for incident keys of separator-free sources |
| Keys.SeparatorInNodeCollides | internal/alert/engine.go:138-140 | a separator in a node name lets two entities share a key |
| Keys.IncidentKeyInjective | internal/alert/coordination.go:98-106 | an incident key determines source, node, entity and state |
| AlertHistory.TracksStep | internal/alert/engine.go:149-212 | one observation keeps the timers equal to the starts of the present streaks and announces what is due |
| AlertHistory.EngineMeetsHistory | internal/alert/engine.go:142-239 | "firing" and "recovered" are announced exactly when the whole history calls for it, with rule parameters changing between observations |
| AlertHistory.DueIsChange | internal/alert/engine.go:142-148 | outside a seed, something is announced exactly when the state changes |
| AlertHistory.EdgesAlternate | internal/alert/engine.go:142-148 | between seeds announcements strictly alternate, beginning with the one that changes the state found |
| AlertHistory.StillBreachingIsQuiet | internal/alert/engine.go:147-148 | breaching at the seed and ever after announces nothing |
| AlertHistory.FiringIsLastMark | internal/alert/engine.go:158-212 | an entity is firing exactly if its last seed or announcement says so |
| AlertHistory.OriginOfFiring | internal/alert/engine.go:165-189 | a firing state keeps the severity and the breach start of the seed or announcement that made it fire, whatever the rule became since |
| AlertEngine.Engine.Advance | internal/alert/engine.go:150-212 | the branches of Observe compute the specified state and announcement |
| AlertEngine.Engine.Observe | internal/alert/engine.go:149-239 | the call extends the history; state map and recorded alerts follow from it; a seed records nothing |
| AlertEngine.Engine.ActiveAlerts | internal/alert/engine.go:241-265 | one line per firing key and no other, whatever the order of the map |
| AlertEngine.Engine.Forget | internal/alert/engine.go:279-290 | the rule's keys are deleted, nothing is recorded |
| AlertEngine.Engine.ForgetEntity | internal/alert/engine.go:292-306 | the keys of one (node, entity) are deleted |
| AlertEngine.Engine.ForgetNode | internal/alert/engine.go:308-319 | the keys of one node are deleted |
| AlertEngine.Engine.DropMatching | internal/alert/engine.go:281-319 | deleting while walking over the keys deletes exactly the matching ones |
| AlertEngine.ForgetKeepsOthers | internal/alert/engine.go:279-319 | a Forget operation resets its own entities and leaves every other one alone |
| AlertEngine.KeysRepresentTriples | internal/alert/engine.go:138-319 | over any calls the map holds exactly the entities observed since they were last forgotten, each with the replay of its own history |
| AlertEngine.MirrorsExactly | internal/alert/engine.go:138-319 | for a set of nodes, over all calls, the string-keyed map holds each entity's own history if and only if no node has a separator in its name |
| AlertEngine.ActiveExactly | internal/alert/engine.go:241-265 | an entity is listed as active exactly when its own history leaves it firing, grace included |
| AlertEngine.ActiveShows | internal/alert/engine.go:253-262 | an active alert shows where it was observed, the rule and detail last observed, and the severity and breach start of the seed or announcement that made it fire |
| AlertEngine.RecordedExactly | internal/alert/engine.go:214-237 | an alert is recorded exactly if some observation made its transition due, and it carries that observation's rule, node, entity, detail, time, and the rule's severity or else "warning" |
| AlertEngine.LogAlternates | internal/alert/engine.go:214-239 | over any calls that neither seed nor forget an entity, what is recorded of it alternates, beginning with the transition that changes the state it was in |
| AlertEngine.RecordsEveryEdge | internal/alert/engine.go:214-239 | the recorded alerts are the due announcements, one each, in order, with rule, node, entity, severity and time |
| Runner.Runner.Evaluate | internal/alert/runner.go:46-53 | a pass makes exactly the engine calls of the enabled rules, in order, each from the tables as it finds them; the seed pass records nothing |
| Runner.Runner.EvalRule | internal/alert/runner.go:59-140 | one rule makes exactly one report for each thing its source selects, met by the raw value, comparator and threshold, or by the raw status |
| Runner.Runner.EvalPeers | internal/alert/runner.go:109-138 | the calls made are, in order, those of the peer list, and an observation is among them exactly if it is of an enabled peer that matches |
| Runner.ComparesExactly | internal/alert/runner.go:167-178 | a numeric condition is met exactly if the value lies on the comparator's side of the threshold; an unknown comparator means at least |
| Runner.CompareSides | internal/alert/runner.go:167-178 | above the threshold exactly the comparators other than < and <= are met, below it exactly those two, at it all but < and > |
| Runner.Runner.DisksSelected | internal/alert/runner.go:78-85 | disk rules read exactly the matching mounts, met when the percentage crosses the threshold |
| Runner.Runner.ChecksSelected | internal/alert/runner.go:86-108 | check rules read exactly the matching checks, met when failing, or when the latency crosses the threshold |
| Runner.Runner.PeersSelected | internal/alert/runner.go:109-138 | peer and no-data rules read exactly the enabled peers that match, met when down, or when the data's age (a billion seconds without any) crosses the threshold |
| Runner.Runner.PassSelected | internal/alert/runner.go:46-140 | a pass observes something exactly if an enabled rule's source selects it |
| Runner.Runner.ReadingsDistinct | internal/alert/runner.go:59-140 | one rule never looks at an entity twice in a pass |
| Runner.Runner.PassObservesOnce | internal/alert/runner.go:46-140 | with unique rule ids and table keys a pass observes each (rule, node, entity) at most once |
| Runner.Runner.OneObservationPerPass | internal/alert/runner.go:46-53 | so a pass adds at most one observation to an entity's history |
| Runner.Runner.RestartSafety | internal/alert/runner.go:32-44 | an entity breaching at the seed pass is primed silently and, until it is forgotten, next announced, if ever, as recovered |
| Runner.Runner.RestartLog | internal/alert/runner.go:32-44 | in the engine's log: the seed pass records nothing, and what any later calls record of that entity begins with a recovery and alternates |
| Runner.Runner.PassesLeave | internal/alert/runner.go:36-43 | the later passes are such calls |
| PeerTable.SameAddr | internal/cluster/gossip.go:196-215 | addresses compare equal exactly if hosts agree but for the case of letters and both lead to one port: the one written, else 443 for https and 80 otherwise |
| PeerTable.LowerExactly | internal/cluster/gossip.go:204 | two hosts are the same in lower case exactly if they differ only in the case of letters |
| PeerTable.DefaultPorts | internal/cluster/gossip.go:208-214 | http without a port is the same host at 80 and at no other port, https without one at 443 and no other; a written port stands |
| PeerTable.UpsertExactly | internal/storage/peers.go:20-36 | every field of every row after an upsert |
| PeerTable.UpdatesExactly | internal/storage/peers.go:100-131 | every field of every row after a status update or a mute |
| PeerTable.SecretCount | internal/storage/peers.go:139-144 | a secret's count is the number of rows that carry it |
| PeerTable.CountSecrets | internal/storage/peers.go:139-144 | the counts map holds the multiplicity of every non-empty secret |
| PeerTable.CommonSecret | internal/storage/peers.go:133-152 | of the most frequent non-empty secrets the first in dictionary order, "" exactly if there is none |
| PeerTable.CommonSecretUnique | internal/storage/peers.go:146-151 | the order of map iteration does not matter |
| PeerTable.CommonSecretOfPermutation | internal/storage/peers.go:138-152 | nor the order of the peer list |
| PeerTable.SecretsAreStored | internal/storage/peers.go:139-144 | the candidates are exactly the non-empty secrets of the rows |
| Gossip.HealsExactly | internal/cluster/gossip.go:96-109 | healing removes exactly the rows without a secret whose URL answers with the node's own name |
| Gossip.OtherSpelling | internal/server/server.go:1508-1525 | an announce or member whose URL spells a known address in another way adds no row |
| Gossip.PassAddsNoTwin | internal/cluster/gossip.go:127-134 | no row a pass adds spells the address of a surviving row |
| Gossip.AnnouncedExactly | internal/server/server.go:1497-1533 | every field of every row after an announce |
| Gossip.Node.ListPeers | internal/storage/peers.go:80-98 | every row once |
| Gossip.Node.SelfHeal | internal/cluster/gossip.go:89-109 | exactly the secretless rows whose URL answers as this node are deleted; the list returned is the table left |
| Gossip.Node.ConsiderMember | internal/cluster/gossip.go:110-153 | a row is added only for a new non-self name at a new address; otherwise the member needs none |
| Gossip.Node.ConsiderAll | internal/cluster/gossip.go:80-86 | every member one peer lists is added or accounted for, and older rows are untouched |
| Gossip.Node.GossipPass | internal/cluster/gossip.go:45-87 | the table after a pass: the healed rows untouched, new rows only for listed members, and every listed member accounted for |
| Gossip.Node.HandleAnnounce | internal/server/server.go:1489-1533 | a known name gets the URL, an unknown one a row unless its address is taken; secrets, mute flag and status stay |
| Gossip.Node.PeerAtSameAddr | internal/server/server.go:1583-1602 | finds a row at the address exactly if there is one |
| Gossip.Node.RefreshFallback | internal/cluster/cluster.go:212-226 | the configured secret, else the table's common one |
| Gossip.Node.ValidSecret | internal/server/server.go:1458-1487 | accepted exactly if non-empty and configured or stored in a row |
| Cluster.FallbackIsShared | internal/cluster/cluster.go:216-226 | with one secret in use, the fallback is that secret however it is derived |
| Cluster.LinkAuthenticates | internal/cluster/cluster.go:228-237 | a row's own secret is what its peer is shown, so two nodes that share one on their link understand each other without a mesh |
| Cluster.HandsExactly | internal/server/peers.go:68-170 | every field of every row after adding, editing or removing a peer by hand |
| Cluster.CallsAuthenticate | internal/server/server.go:278-296 | every outbound call presents the shared secret and every callee accepts it, also on rows without a secret, and also with a freshly derived fallback |
| Cluster.MeshStep | internal/server/peers.go:68-170 | announces, passes, refreshes and polls keep the shared-secret mesh, and adding, editing or removing a peer by hand keeps it if and only if the secret given is the shared one and the node is left with it |
| Cluster.MeshAlways | internal/cluster/cluster.go:239-303 | it holds in every state reachable that way |
| Cluster.StepKeepsRows | internal/storage/peers.go:20-36 | only self-heal and a hand remove a row; secret and mute flag change by hand only, status by polling, URLs by hand or the row's own announce; no step takes a secret away |
| Cluster.RowsStay | internal/storage/peers.go:20-36 | over any run a row that is not removed keeps its secret and mute flag unless edited by hand, and its status unless polled |
| Cluster.SecretRowsStay | internal/cluster/gossip.go:89-109 | no node ever heals a row with a secret away, so that holds of it over every run in which nobody removes it by hand |
| Cluster.PassOnlyAdds | internal/cluster/gossip.go:61-153 | a gossip pass leaves surviving rows untouched in every field and adds only fresh secretless rows, never this node |
| Cluster.PassKeepsAddrsDistinct | internal/cluster/gossip.go:127-134 | pairwise distinct addresses survive a gossip pass |
| Cluster.AnnounceKeepsAddrsDistinct | internal/server/server.go:1508-1531 | an announce keeps addresses distinct if and only if it does not move a known name onto another row's address |
| Cluster.AnnounceCollides | internal/server/server.go:1508-1531 | a table and an announce for which that fails |
| Convergence.RoundLearns | internal/cluster/cluster.go:239-245 | after a full round everyone knows whom its peers knew, and its peers know it |
| Convergence.RoundHalves | internal/cluster/gossip.go:51-60 | a full round halves distances |
| Convergence.MovesLearn | internal/cluster/cluster.go:239-245 | the same of single announces and passes, whatever happens in between |
| Convergence.ChainMeets | internal/cluster/gossip.go:51-60 | j + 1 rounds of either kind join nodes at undirected distance up to 2^j |
| Convergence.MembersMeet | internal/cluster/gossip.go:51-60 | j + 1 full rounds in any orders join nodes at undirected distance up to 2^j |
| Convergence.ComponentsComplete | internal/cluster/gossip.go:51-60 | from any start connected nodes end up in each other's tables |
| Convergence.NewcomerJoins | internal/cluster/gossip.go:51-53 | a complete cluster plus one link to a newcomer is complete after two rounds |
| Convergence.ComponentsStayApart | internal/cluster/gossip.go:61-153 | nothing is learned across components |
| Discovery.ReachableExists | internal/server/server.go:1560-1581 | around every node there is a network that answers as the handlers do |
| Discovery.AnnounceTwice | internal/server/server.go:1508-1531 | announcing twice is announcing once |
| Discovery.AnnouncesMatch | internal/cluster/cluster.go:283-303 | announcing over all enabled rows adds the caller to exactly its peers' tables |
| Discovery.PassMatches | internal/cluster/gossip.go:61-153 | a gossip pass adds exactly the peers' peers, and the conditions hold again |
| Discovery.CycleMatches | internal/cluster/cluster.go:246-252 | a node's cycle on real tables is the cycle of Convergence |
| Discovery.CyclesMatch | internal/cluster/cluster.go:246-263 | the same for any sequence of cycles |
| Discovery.ClusterDiscovers | internal/cluster/gossip.go:51-60 | j + 1 full rounds of real cycles put any two nodes at distance up to 2^j into each other's tables |
| Discovery.ClusterStaysApart | internal/cluster/gossip.go:120-142 | no node ever lists itself or a node of another component |
| Discovery.CycleIsRun | internal/cluster/cluster.go:246-252 | a cycle is a run of the cluster's steps: the fallback, the announces row by row, the pass |
| Discovery.EventMatches | internal/cluster/cluster.go:246-303 | every single step of a node on real tables is the abstract one, and the conditions hold again |
| Discovery.InterleavedDiscovers | internal/cluster/gossip.go:51-60 | however the announces, passes and polls of all nodes interleave, after j + 1 windows in which each node told its peers and gossiped, any two nodes at distance up to 2^j know each other |
| Discovery.InterleavedStaysApart | internal/cluster/gossip.go:120-142 | and at no time does a node list itself or a node of another component |
| Forecast.CovIsPairs | internal/server/forecast.go:42-46 | n·Σxy − Σx·Σy is the sum over pairs i < j of (xi − xj)(yi − yj) |
| Forecast.VarianceSign | internal/server/forecast.go:42-49 | n·Σx² − (Σx)² is never negative, and zero exactly if all timestamps coincide |
| Forecast.TrendSign | internal/server/forecast.go:51-54 | in time order, usage that never grows has no positive slope, usage that never shrinks no negative one |
| Forecast.GrowthShows | internal/server/forecast.go:51-54 | in time order, usage that never shrinks and has grown has a positive slope |
| Forecast.OriginIrrelevant | internal/server/forecast.go:27-29 | the time origin does not matter |
| Forecast.LinearPairs | internal/server/forecast.go:51 | exactly linear growth gives the growth rate as slope |
| Forecast.Accumulate | internal/server/forecast.go:32-40 | the loop computes the four sums |
| Forecast.FillForecast | internal/server/forecast.go:14-71 | a forecast is given exactly if the pairwise conditions hold and the estimate is within 31,536,000 seconds, and is then the nearest whole second |
| Forecast.NeverGrowingNeverFills | internal/server/forecast.go:14-21 | a time-ordered series that never grows is never forecast |
| Forecast.GrowingFills | internal/server/forecast.go:14-21 | a time-ordered series that never shrinks and has grown qualifies unless short or full |
| Forecast.LinearFills | internal/server/forecast.go:47-59 | bytes used that grow exactly linearly qualify unless the series is short, of one moment or full |
| Forecast.LinearEta | internal/server/forecast.go:56-66 | under linear growth the estimate is the remaining bytes over the growth rate |
| Downsample.KeptInWindow | internal/storage/storage.go:454-463 | only rows of the node, from within the window |
| Downsample.StrictlyLater | internal/storage/storage.go:454-463 | kept rows lie in different buckets and strictly increase in time |
| Downsample.Covered | internal/storage/storage.go:442-463 | every sample in the window is less than one bucket width from a kept one of its bucket |
| Downsample.KeptIsEarliest | internal/storage/storage.go:443-445 | when ids follow time, the kept row is the earliest of its bucket |
| Downsample.AtMostOnePerBucket | internal/storage/storage.go:454-463 | no more rows than buckets |
| Downsample.RowBound | internal/storage/storage.go:425-440 | at most 2·maxPoints rows, where less than one point counts as one |
| Downsample.RowBoundTight | internal/storage/storage.go:425-440 | for every maxPoints some table and window give 2·maxPoints rows |
| Downsample.DocumentedBoundExactly | internal/storage/storage.go:446-447 | at most maxPoints + 1 rows for every table if and only if the window is shorter than maxPoints seconds or its length mod maxPoints is below its length div maxPoints |
| Counters.PerSecond | internal/collector/collector.go:547-555 | the rate times the elapsed seconds differs from the growth by at most half a unit per second; a reset gives 0 |
| Counters.SampleAll | internal/collector/collector.go:449-470 | one sample per device with its specified rates, whatever the order of the map |
| Counters.Collector.SampleDiskIO | internal/collector/collector.go:433-473 | a cycle appends one sample per device; over any run the stored samples of a device are one per reading that has it, in order |
| Counters.RatesConserveGrowth | internal/collector/collector.go:433-473 | over any run published rate times time differs from the measured growth by at most half a unit per measured second |
| Counters.StoredConserves | internal/collector/collector.go:433-473 | of each of the four counters, by its own field: the stored rates of a device times the seconds since the reading before differ from what it gained by at most half a unit per measured second |
| Counters.UnbrokenGrowth | internal/collector/collector.go:433-473 | for a device always present and never reset, that is last minus first reading, over the whole time |
| Counters.ResetPublishesNothing | internal/collector/collector.go:547-553 | a reset interval contributes zero |
| Scheduler.Scheduler.Reconcile | internal/scheduler/scheduler.go:58-77 | a tick considers exactly the enabled checks with a positive interval, each once, in list order; afterwards each that was due and not in flight has been started, and no other launched |
| Scheduler.Scheduler.Finished | internal/scheduler/scheduler.go:79-84 | a finished run frees its name and nothing else |
| Scheduler.PassConsiders | internal/scheduler/scheduler.go:61-64 | which entries of the list a tick considers, in which order |
| Scheduler.TickStarts | internal/scheduler/scheduler.go:65-76 | what a tick starts, and that it leaves the records of all other names |
| Scheduler.OneInFlight | internal/scheduler/scheduler.go:58-84 | under any interleaving each name has at most one run in flight |
| Scheduler.StartsAreSpaced | internal/scheduler/scheduler.go:66-70 | successive starts of a name are at least the starting check's interval apart, also with duplicate names |
| Scheduler.BoundedLateness | internal/scheduler/scheduler.go:58-84 | with looks at most d apart, a check restarts within d of interval elapsed and previous run finished, whichever is later |
| Scheduler.TicksWatch | internal/scheduler/scheduler.go:45-64 | ticks at most d apart over lists that hold a check look at it at least that often |
| Scheduler.TicksRestart | internal/scheduler/scheduler.go:45-84 | so such a check is restarted within d of interval elapsed and previous run finished, whichever is later |
| Text.AtoiInvertsItoa | internal/settings/statuscodes.go:23-41 | a printed 64-bit number parses back |
| Text.AtoiOfItoa | internal/settings/statuscodes.go:23-26 | a printed number parses back if and only if it fits 64 bits |
| Text.AtoiIsDigits | internal/settings/statuscodes.go:23-26 | nothing but digits with at most one sign before them is a number |
| Text.SplitInvertsJoin | internal/settings/statuscodes.go:18-43 | splitting at commas undoes joining with them |
| StatusCodes.ParseStatusCodes | internal/settings/statuscodes.go:9-30 | the loop skips blank and unparseable pieces and keeps the other codes in order |
| StatusCodes.FormatStatusCodes | internal/settings/statuscodes.go:32-43 | the loop prints the codes joined by commas |
| StatusCodes.ParsePieces | internal/settings/statuscodes.go:18-28 | a list parses piece by piece, so a bad piece costs only itself |
| StatusCodes.ParsePiece | internal/settings/statuscodes.go:19-27 | a piece is a code exactly if it is a number but for white space around it |
| StatusCodes.TrimExactly | internal/settings/statuscodes.go:19 | trimming takes white space off both ends and stops at the first other character |
| StatusCodes.FormatExactly | internal/settings/statuscodes.go:34-43 | the stored text: the numbers with a single comma in between |
| StatusCodes.ParseInvertsFormat | internal/settings/statuscodes.go:9-43 | parsing the formatted list gives the list back, for every sequence of 64-bit integers |
| StatusCodes.ParseFormatParse | internal/settings/statuscodes.go:9-43 | parse, format, parse equals parse on every string |
| StatusCodes.DedupeSortStatusCodes | internal/settings/statuscodes.go:45-63 | the seen-set loop and the sort compute the canonical list |
| StatusCodes.CanonicalHolds | internal/settings/statuscodes.go:45-63 | strictly ascending, and the same set of codes |
| StatusCodes.CanonicalUnique | internal/settings/statuscodes.go:45-47 | there is one canonical list per set, regardless of input order |
| StatusCodes.CanonicalIsFixed | internal/settings/statuscodes.go:48-63 | a canonical list is left unchanged |
| Settings.KeepsNormal | internal/settings/settings.go:488-512 | field by field what is kept of a check: tidied text, canonical codes, whole seconds, a timeout of ten seconds and GET where none is given |
| Settings.RejectsExactly | internal/settings/validate.go:169-205 | the reasons for which a check is turned down |
| Settings.NormalRuleExactly | internal/settings/validate.go:62-96 | field by field what a rule is tidied to |
| Settings.RejectsRuleExactly | internal/settings/validate.go:98-120 | the reasons for which a rule is turned down |
| Settings.DefaultsExactly | internal/settings/settings.go:158-171 | which default rules there are: two, and one at least-rule per threshold above zero |
| Settings.Service.Load | internal/settings/settings.go:125-145 | seeds what its flags say is missing and leaves memory equal to the decoded store |
| Settings.Service.SeedAlertRulesOnce | internal/settings/settings.go:147-177 | adds the default rules exactly if their flag is not set |
| Settings.Service.CreateCheck | internal/settings/settings.go:404-418 | rejected without effect, or what is kept of it is appended in memory under a fresh id and returned |
| Settings.Service.UpdateCheck | internal/settings/settings.go:420-430 | rejected or not found without effect, or what was kept under the id is replaced and nothing else |
| Settings.Service.DeleteCheck | internal/settings/settings.go:432-449 | exactly the checks with the id go, and the status stored under the name of the first |
| Settings.Service.CreateAlertRule | internal/settings/settings.go:305-319 | rejected without effect, or normalised and appended to the list in memory under a fresh id, and returned as it is there |
| Settings.Service.UpdateAlertRule | internal/settings/settings.go:321-331 | rejected or not found without effect, or the one rule replaced, keeping its creation time |
| Settings.Service.DeleteAlertRule | internal/settings/settings.go:333-339 | exactly the rules with another id remain in memory and in the store |
| SettingsRuns.FlagsAreIndependent | internal/settings/settings.go:127-177 | a start adds exactly the checks or the rules whose own flag is not set, with consecutive fresh ids |
| SettingsRuns.RestartChangesNothing | internal/settings/settings.go:138-144 | a second start changes nothing, whatever the configuration says |
| SettingsRuns.DeletedStaysDeleted | internal/settings/settings.go:138-144 | no run of operations and restarts brings back an id that was given out and is gone |
| SettingsRuns.DeletedForGood | internal/settings/settings.go:432-449 | a check deleted at any point of a run never returns |
| SettingsRuns.OnlyUsersAdd | internal/settings/settings.go:138-144 | once seeded, the ids given out are as many as the users' accepted creations, for checks and rules separately |
| SettingsRuns.KeptExactly | internal/settings/settings.go:488-512 | a check comes back from the store unchanged if and only if interval and timeout are whole seconds; its status codes always do |
| SettingsRuns.AcceptedStatusesSurvive | internal/settings/settings.go:405-418 | a new check's accepted statuses survive any later run that does not touch it, as the canonical list of the same codes |
| SettingsRuns.ScheduledExactly | internal/scheduler/scheduler.go:61-64 | a stored check is considered by the scheduler if and only if its interval is at least a second |
| SettingsRuns.HalfSecondNeverRuns | internal/config/config.go:355-357 | a configured check with half a second's interval is seeded as a row that no tick considers |
| SettingsRuns.DefaultsAreNormal | internal/settings/settings.go:158-175 | the default rules are stored as they are written |
| SettingsRuns.RulesStaySane | internal/settings/validate.go:98-107 | over any run stored rules have severity warning or critical, as the alert engine assumes |
| SettingsRuns.OrderKept | internal/storage/settings.go:64-81 | rows stay in the order of unique ids |

## Left out

- Transport, JSON, notifiers, titles, display names and logging: calls are answered, lost or late; alerts go to a recorder log.
- SQL: tables are maps, sets or sequences with the stated keys and conflict rules; I/O errors, migrations and crashes in the middle of an operation are not modelled.
- Election.Apply: self-incidents and alerts without a node return true at once and never enter the ledger, and node names stand for themselves; a nil coordinator at a peer looks like no answer.
- Election.Apply: a node calls `ShouldSend` at most once per run, for one key; the key itself is covered by `Keys.IncidentKeyInjective`.
- PeerTable.SameAddr: URL parsing is abstracted to scheme, host and port, and lower-casing is ASCII.
- Gossip.Node.GossipPass: a pass is atomic and the network's answers to it are fixed.
- Gossip.Node.SelfHeal: deleting a removed peer's stored samples and alias and notifying the alert engine are not modelled.
- Gossip.Node.ListPeers: any order of the rows; the program lists them by name.
- Gossip.Node.RefreshFallback: the peer list can be read; on an error the program keeps the previous fallback.
- Gossip.Node.PeerAtSameAddr: rows have non-empty names, so "no match" is an absent value.
- Gossip.Node.ValidSecret: the configured secrets are the one `peer_secret`; comparison timing is not modelled.
- Cluster.Apply: changing a node's configured secret, advertised URL or name is not a step.
- Discovery.ClusterDiscovers: rows are named by the nodes' own names at their right, unique addresses, all enabled and reachable; elsewhere the name and address shortcuts can block discovery.
- AlertEngine.Engine.Observe: severity is never "ok" (`SettingsRuns.RulesStaySane`); titles are left out, and dispatch through the election is modelled separately.
- Runner.Runner.EvalRule: the wording of numeric details is a parameter; muted peers and disabled rules are simply not observed, so no recovery is promised for them.
- Forecast.FillForecast: exact reals; floating-point rounding is not modelled.
- Counters.PerSecond: exact reals and unbounded counters; network interfaces follow the same code as disks and are not repeated.
- Scheduler.Scheduler.Reconcile: running a check and storing its status is outside the model.
- Settings.Service.CreateAlertRule: lower-casing is ASCII, and the creation time is the one stored, in whole seconds.
- Settings.Service.Load: general and notification settings, and the seeding of peers and of the display name, are left out.
- Settings.Service.CreateCheck: lower-casing of the type is ASCII; overflow of durations is not modelled.
- User accounts, cookies, password hashing, metric readers, /proc and SMART parsing, and the web frontend.
