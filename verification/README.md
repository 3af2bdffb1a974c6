# A model of rateguard, with proofs

rateguard limits requests per key across a cluster of nodes that share no store. This
project models the state machines that carry its guarantees and proves what they keep:

- **The key table** (`KeyTable`, `KeyTableCalls`, `KeyTableLayout`): threads racing to claim
  and free slots without a lock. The machine takes one atomic access per step, under
  sequential consistency, for any number of threads, keys and slots. Its invariant names,
  for each pair of copies of a key, the claim whose scan or release is still pending. The
  methods of `KeyTableCalls.Table` run `claim` and `release` over an array and are tied to
  the machine step by step.
- **GCRA** (`Quotas`, `Gcra`, `GcraRuns`, `AtomicGcra`, `ShadowGcra`): a token bucket kept as
  one timestamp, the virtual scheduling form of the Generic Cell Rate Algorithm (section
  4.4.3 of ATM Forum Traffic Management 4.0). 64-bit saturation is written out. Bounds on
  admissions for one limiter, for a fleet, and for threads racing in the compare-and-swap
  loop.
- **Shares** (`Allocation`, `DelayedRise`): each node's slice of the limit, and the rise two
  rounds late that keeps the fleet within it.
- **SWIM membership** (`Proto`, `Member`, `MemberOrder`, `MemberRuns`, `Gossip`, `Swim`,
  `Rumours`, `Cluster`, `StaleAnswer`, `ProbeOrder`): the table of records and what runs of it
  remember, the piggyback buffer, what a node learns and says, and a cluster over a network
  that loses, duplicates and reorders.
- **Peer demand** (`PeerDemand`, `PeerRuns`): snapshots ordered by wrapping rounds (serial numbers as in
  section 3.2 of RFC 1982) and epochs, and the contested entries with their eviction.
- **Hot keys** (`HotSet`, `Limiter`, `LimiterRuns`, `Cooling`, `KeptHot`): the two-pass tick, its
  caps and evictions, what one key's callers get over whole runs, how a key stops being hot on all nodes, and what keeps it from that.
- **Partitions** (`Partition`, `Quorum`): the window maximum of the cluster's size and the
  majority that may shrink it.
- **Denied names** (`Denied`, `DeniedRuns`): an LRU with lazily dropped stamps, against a plain one.

`Wrappers` and `Orders` hold what several of them need.

Objects the code updates in place are classes whose methods are proved against functions on
their abstract value; the lemmas are about those functions, and the main ones about whole runs
of them, told by what was asked and when. What a hash map iterates in no
particular order is iterated in an arbitrary one, and random draws are arguments. Demand is
an arbitrary real at each tick, and where the code computes in f64 the model is exact.

## What the proofs found

Where a property one would expect fails, a lemma gives the input, and another the exact
condition:

- One limiter's bound holds while no change of quota from a saturated TAT carries less than
  the largest burst so far (`GcraRuns.ChangingQuotaBound`); a burst never lowered is enough
  (`GcraRuns.RisingBurstsCarry`), and `GcraRuns.DebtSurvivesExactly` says exactly what a change
  leaves of a debt. Lowered from the slowest rate and raised again at one moment, a burst is
  admitted nearly twice (`GcraRuns.LoweringTheBurstForgivesDebt`).
- A refutation that does not raise the incarnation supersedes the accusation it answers, but
  not everything said before: `StaleAnswer.AStaleAnswerMissesALaterSuspicion` is a run of two
  nodes. `Cluster.WhatAnAnswerSupersedes` says exactly what, and
  `Cluster.RefutationSupersedesAll` follows one that does raise it through a run.
- A demand report of a new run can lower a key at once when the contested entries overflow,
  although the comments say only the peer's own next reports do
  (`PeerDemand.AFloodThenARestartLosesAKey`); `PeerDemand.OnlyEvictionLowers` says exactly when.
- Of two rounds of one circle the greater wins in both orders of delivery exactly if they are
  less than half a circle apart (`PeerDemand.TheGreaterStaysExactly`).
- The comment that nodes cannot keep a key hot for one another holds from the last report on
  that renews a contested word of it (`Cooling.HotEnds`); `Cooling.RenewalIsExact` says which
  reports do, and the key stays hot elsewhere as long as they keep coming
  (`Cooling.RenewedStaysHot`, `Cooling.HotNeedsRenewals`). Two nodes whose reports arrive in
  swapped pairs keep a key hot for good (`KeptHot.SwappedReportsKeepAKeyHot`). And since a
  round expires words after its tick, the end takes one tick more
  (`Cooling.TheTickThatDropsItStillCounts`).
- A leave replayed after its tombstone is forgotten lowers the size a majority is counted
  against once more. `Quorum.SeesExactly` says for any run when a node sees a quorum again,
  and `Quorum.ReplayedLeavesMakeAQuorum` after how many replays.
- Rising one round late would not keep the limit (`DelayedRise.OneRoundIsNotEnough`).

## Model

| member | source | states |
|---|---|---|
| KeyTable.AtMostOneCopy | rateguard/src/table.rs:176-242 | in any interleaving, whenever no claim is between its winning compare-and-swap and its return, no two slots hold one key |
| KeyTable.RacingClaimsLeaveExactlyOne | rateguard/src/table.rs:216-241 | a key once held, that only claims free, stays held, and once all claims returned exactly one slot holds it |
| KeyTable.RunKeepsInv | rateguard/src/table.rs:176-305 | every run keeps slots at their keys' candidates, threads exclusive on slots being freed, and every pair of copies owed a scan or a release |
| KeyTable.StepKeepsInv | rateguard/src/table.rs:176-305 | each single atomic access keeps it |
| KeyTable.DebtIsPaidNotDropped | rateguard/src/table.rs:211-241 | a claim settles its debt towards another copy only when one of the two is gone |
| KeyTable.PairStaysOwed | rateguard/src/table.rs:211-241 | for each pair of copies left after a step some claim still has the scan or release that removes one |
| KeyTable.EarliestOnlyMovesForward | rateguard/src/table.rs:216-241 | a copy is given back only while one earlier in the canonical order is held |
| KeyTableCalls.Table.ClaimKey | rateguard/src/table.rs:176-242 | finds the key, or takes the first free slot of the emptier bucket, or overflows only when every candidate holds another key; alone it leaves one copy |
| KeyTableCalls.Table.Settle | rateguard/src/table.rs:211-241 | the walk after the claim frees just the later copies, and its own if an earlier one stands, and returns the earliest |
| KeyTableCalls.Table.LookAtAll | rateguard/src/table.rs:221-237 | each candidate looked at in order, later copies freed, the earliest remembered |
| KeyTableCalls.Table.Release | rateguard/src/table.rs:290-305 | frees the slot if and only if it still holds the key, and touches no other |
| KeyTableCalls.Table.TakeFree | rateguard/src/table.rs:195-207 | takes the first free slot in the order tried, or finds none among all the candidates |
| KeyTableCalls.Table.Emptier | rateguard/src/table.rs:184-195 | the second bucket goes first only if strictly fewer of its slots are taken |
| KeyTableCalls.SettledLeavesEarlierCopies | rateguard/src/table.rs:220-241 | of the copies it sees the walk leaves just those before its claim's own, and its own if there is none |
| KeyTableLayout.TableHasRoom | rateguard/src/table.rs:114-125 | a power of two of buckets, room for twice the tracked keys and for less than four times them and two buckets |
| KeyTableLayout.BucketsDiffer | rateguard/src/table.rs:136-148 | the two buckets differ whenever the table has more than one |
| KeyTableLayout.TableLayoutIsValid | rateguard/src/table.rs:150-156 | every key's candidates are distinct slots of the table, 8 or 16 of them, whatever the rehash |
| Quotas.RoundingIsStrictAndStable | rateguard-core/src/gcra.rs:83-105 | rounding an interval never shortens it, adds under a part in 10^9, is exact below 2^40 ns, and re-encoding picks the same value and unit |
| Quotas.PackRoundTrips | rateguard-core/src/gcra.rs:117-160 | unpack undoes pack for every quota there is, decode gives the same interval and tau, and no word is 0 |
| Quotas.PackIsInjective | rateguard-core/src/gcra.rs:117-133 | two quotas with one word are one quota |
| Quotas.PerSecondErrsStrict | rateguard-core/src/gcra.rs:71-93 | a quota made for a rate is no looser than it if and only if the rate is not too slow for the longest interval |
| Quotas.PerSecondIsNoStricter | rateguard-core/src/gcra.rs:71-105 | and no stricter than it must be: its interval is the least in range at which the rate is not passed, the longest if none is, lengthened by under a part in 10^9 |
| Gcra.Gcra.Check | rateguard-core/src/gcra.rs:223-238 | the decision and the new TAT are those of the value the lemmas are about |
| Gcra.Gcra.SetQuota | rateguard-core/src/gcra.rs:243-255 | a new quota carries the debt over in requests, the same one changes nothing |
| Gcra.Gcra.RetryAfter | rateguard-core/src/gcra.rs:266-273 | none if and only if a request would pass now; else the least wait after which one does |
| Gcra.DenialIsExact | rateguard-core/src/gcra.rs:223-238 | a denial changes nothing and names the very first moment a request passes |
| Gcra.CheckIsStep | rateguard-core/src/gcra.rs:223-238 | never admitted and a TAT of 0 are one and the same to a check |
| Gcra.TatNeverFalls | rateguard-core/src/gcra.rs:338-360 | checks in any order of clocks never lower the TAT |
| Gcra.WindowBound | rateguard-core/src/gcra.rs:166-191 | a fixed quota admits at most 1 + (window + tau) / T in any window, in whatever order clocks arrive, from any state, saturation included |
| Gcra.BackToBack | rateguard-core/src/gcra.rs:166-191 | the bound is met: a fresh limiter admits exactly 1 + tau / T at one moment |
| Gcra.BurstIsTheTolerance | rateguard-core/src/gcra.rs:183-191 | which is the burst unless tau is capped |
| GcraRuns.ChangingQuotaBound | rateguard-core/src/gcra.rs:223-255 | over every run of checks and quota changes admissions are at most the largest burst, plus the integral of the rate, plus half a nanosecond of debt per change, saturated TATs included, as long as no change from a saturated TAT carries less than the largest burst so far |
| GcraRuns.RisingBurstsCarry | rateguard-core/src/gcra.rs:223-255 | which no run of bursts never lowered does, one burst throughout above all |
| GcraRuns.DebtSurvivesExactly | rateguard-core/src/gcra.rs:362-374 | a debt survives a change, but for half a nanosecond, if and only if it is within what the change carries as the code rounds it |
| GcraRuns.UnsaturatedDebtIsCarried | rateguard-core/src/gcra.rs:362-374 | as it always is short of a saturated TAT |
| GcraRuns.NoDebtIsAdded | rateguard-core/src/gcra.rs:362-374 | and nothing is added: what is owed after a change, half a nanosecond aside, was owed before it |
| GcraRuns.SaturatedCarriesTheGreatest | rateguard-core/src/gcra.rs:362-374 | from a saturated TAT exactly one of three debts is carried, the greatest: the one computed, a burst of the old quota, or one of the new |
| GcraRuns.OpIsPaidFor | rateguard-core/src/gcra.rs:223-255 | each admission adds one request of debt, which never passes the largest burst so far, and each change at most half a nanosecond of slack |
| GcraRuns.LoweringTheBurstForgivesDebt | rateguard-core/src/gcra.rs:362-374 | for every burst of 19 or more lowered by two or more from the slowest rate and raised again, a run that admits twice the burst less the greater of 17 and the lower one, over the bound |
| GcraRuns.FleetBound | rateguard-core/src/limiter.rs:65-68 | while the quotas applied to a key add up to at most R, the fleet admits at most R x window + N x burst plus the rounding slack of its quota changes |
| AtomicGcra.AtomicGcra.Check | rateguard-core/src/gcra.rs:297-305 | one thread's check on the words is the step function's |
| AtomicGcra.AtomicGcra.SetQuota | rateguard-core/src/gcra.rs:312-322 | and so is its change of quota |
| AtomicGcra.AtomicGcra.Reset | rateguard-core/src/gcra.rs:329-332 | back to the given quota with no TAT |
| AtomicGcra.AtomicAnswersAsPlain | rateguard-core/src/gcra.rs:297-322 | single-threaded, the atomic and the plain form answer every run of checks and quota changes alike |
| AtomicGcra.ForgettingWithoutDebtIsLossless | rateguard-core/src/gcra.rs:257-262 | a limiter without debt and a fresh one at its quota answer every later run alike |
| AtomicGcra.LoopLinearises | rateguard-core/src/gcra.rs:338-360 | every interleaving of the compare-and-swap loop gives each call the answer of a sequential run in the order of the deciding accesses |
| AtomicGcra.LoopWindowBound | rateguard-core/src/gcra.rs:338-360 | the window bound holds for the threads together |
| AtomicGcra.LoopTatNeverFalls | rateguard-core/src/gcra.rs:338-360 | the shared TAT never falls |
| ShadowGcra.ShadowGcra.Set | rateguard-core/src/gcra.rs:424-439 | off and on start fresh, on to on carries the debt, the same word changes nothing |
| ShadowGcra.ShadowGcra.Check | rateguard-core/src/gcra.rs:445-453 | nothing while off, the step's decision while on |
| ShadowGcra.ShadowGcra.Reset | rateguard-core/src/gcra.rs:456-459 | off |
| ShadowGcra.ShadowSaysWhatALimiterWould | rateguard-core/src/gcra.rs:393-460 | a shadow answers as a limiter of its own, fresh each time it is switched on, and nothing while off, and the word for off is never unpacked |
| Allocation.SharesAddUpToTheLimit | rateguard-core/src/allocation.rs:33-43 | under one consistent view the nodes' shares add up to exactly the limit, no demand at all included |
| Allocation.ShareIsBounded | rateguard-core/src/allocation.rs:33-43 | a share is at least the floor and at most the floor and all the rest, the even split included |
| Allocation.ShareFollowsDemand | rateguard-core/src/allocation.rs:33-43 | of one total, more own demand never means a smaller share |
| DelayedRise.RecentShares.ApplyShares | rateguard-core/src/node.rs:1328-1367 | each key's applied share and the two computed shares kept for it, and keys no longer hot forgotten |
| DelayedRise.RoundsApplyTheLeastOfThree | rateguard-core/src/node.rs:1328-1367 | over every sequence of rounds a key hot in the last n of them is applied the least of its last min(n, 3) computed shares, and one absent for a round starts over |
| DelayedRise.KeptAreTheLastTwo | rateguard-core/src/node.rs:1355-1364 | what is kept for a key are its last two computed shares |
| DelayedRise.AppliedIsLeastOfThree | rateguard-core/src/node.rs:1355-1364 | the share applied is the least of the last three computed |
| DelayedRise.OldThenNew | rateguard-core/src/node.rs:58-63 | before change + 2 rounds a node is within its old share, from then on within its new one |
| DelayedRise.DelayedRiseKeepsTheLimit | rateguard-core/src/node.rs:58-63 | after one step change, views consistent again within a round, the applied shares never add up to more than R, for all phases and all shares in between |
| DelayedRise.OneRoundIsNotEnough | rateguard-core/src/node.rs:58-63 | with a delay of one round these two take 16 out of 10 |
| DelayedRise.RisingFollows | rateguard-core/src/node.rs:58-63 | the first of two nodes keeps its pace and follows two demand vectors, its view consistent again within a round |
| DelayedRise.FallingFollows | rateguard-core/src/node.rs:58-63 | and so does the second |
| DelayedRise.QuotasOfShares | rateguard-core/src/limiter.rs:570-572 | the quotas made of any shares are together no looser, but for one request per longest interval and node |
| DelayedRise.FleetThroughAStepChange | rateguard-core/src/limiter.rs:65-68 | through one step change of demand a fleet at its applied shares admits at most R x window + N x burst, plus the slack of its quota changes and one request per longest interval and node |
| Proto.SupersedesIsRank | rateguard-proto/src/lib.rs:95-101 | news about one member is totally ordered by incarnation, then status, and never supersedes its own echo |
| Proto.CheckLimits | rateguard-proto/src/lib.rs:275-298 | a message passes if and only if it is within every limit |
| Member.MemberTable.Apply | rateguard-core/src/member.rs:166-226 | the record taken, refused or refuted as the value says, with the live list sorted, complete and without the node itself, and replaying the changes rebuilding it |
| Member.MemberTable.Refute | rateguard-core/src/member.rs:343-356 | own news is outbid, answered as it stands, or ignored |
| Member.MemberTable.SuspectPeer | rateguard-core/src/member.rs:231-245 | an alive member becomes suspect and no other does |
| Member.MemberTable.Depart | rateguard-core/src/member.rs:250-258 | true just for a dead member not yet departed |
| Member.MemberTable.ForgetDead | rateguard-core/src/member.rs:297-303 | the dead of the given age go, the live list stays |
| Member.MemberTable.ExpireSuspects | rateguard-core/src/member.rs:307-329 | exactly the suspects whose time is up die, and their deaths are reported in the order of IDs |
| Member.MemberTable.DrainChanges | rateguard-core/src/member.rs:363-369 | the changes handed out turn the last drained peers into the live list |
| Member.MemberTable.SetMax | rateguard-core/src/member.rs:111-114 | the cap and nothing else |
| Member.MemberTable.Join | rateguard-core/src/member.rs:203-209 | the binary search finds the one place that keeps the list sorted |
| Member.MemberTable.Leave | rateguard-core/src/member.rs:210-217 | and never misses a live peer |
| Member.AscendingIsUnique | rateguard-core/src/member.rs:363-365 | there is one sorted list of the live members |
| Member.NextLiveAfter | rateguard-core/src/member.rs:276-284 | the first live or suspect member past the cursor |
| MemberRuns.StampIsLastNews | rateguard-core/src/member.rs:186-203 | in every run of table operations a record bears the time of the last one that changed what is believed of its member |
| MemberRuns.SuspectDiesOnTime | rateguard-core/src/member.rs:307-329 | a suspect dies at an expiry if and only if the last news of it came at least the timeout before, and nobody else changes |
| MemberRuns.DeadIsForgottenOnTime | rateguard-core/src/member.rs:297-303 | a dead member is forgotten if and only if the news of its death is as old as a tombstone may get |
| MemberRuns.MissSuspects | rateguard-core/src/member.rs:231-245 | a failed probe makes an alive member a suspect and changes no other |
| MemberRuns.AddressIsLastHeard | rateguard-core/src/member.rs:186-203 | its address is the one the last accepted update of it gave |
| MemberRuns.JoinedIsLastCome | rateguard-core/src/member.rs:186-203 | it joined when it last came in or came back to life |
| MemberRuns.DepartedIsSaidLast | rateguard-core/src/member.rs:250-258 | it has departed if and only if it said so while dead and no news of it came since |
| MemberOrder.HearIsMax | rateguard-core/src/member.rs:166-226 | without forgetting or refusals a peer's record ends at the maximum heard of it |
| MemberOrder.OrderDoesNotMatter | rateguard-core/src/member.rs:166-226 | so any two orders of the same updates end with the same incarnation and status |
| Gossip.RetransmitLimit | rateguard-core/src/gossip.rs:11-15 | the multiplier times the least power of ten, one at least, that the cluster and one more fit under |
| Gossip.Buffer.PushNews | rateguard-core/src/gossip.rs:43-57 | news is queued unless what is queued is no older |
| Gossip.Buffer.TakeNews | rateguard-core/src/gossip.rs:61-84 | the least sent first, each counted once, the last transmission taking it out |
| Gossip.TakenExactlyLimitTimes | rateguard-core/src/gossip.rs:61-84 | a piece of news nothing replaces is taken exactly as often as it has transmissions left, then it is gone |
| Gossip.FreshNewsIsSentLimitTimes | rateguard-core/src/gossip.rs:43-84 | news newer than what was queued goes out as often as the limit says from then on, whatever was sent before |
| Gossip.TakeDrains | rateguard-core/src/gossip.rs:61-84 | every message takes its room off what is left to send, or all there is |
| Gossip.BufferEmpties | rateguard-core/src/gossip.rs:61-84 | with some room in every message the buffer is empty after as many as there are transmissions left |
| Swim.Node.LearnOne | rateguard-core/src/node.rs:1103-1131 | what is accepted or refuted is gossiped on, and an own record heard alive above the own one is counted |
| Swim.Node.ReceiveMessage | rateguard-core/src/node.rs:886-950 | malformed leaves and own echoes change nothing, a leave departs its sender, a newcomer gets introduced |
| Swim.Node.OutgoingTo | rateguard-core/src/node.rs:1143-1189 | the list built and the cursor moved |
| Swim.Node.IntroduceTo | rateguard-core/src/node.rs:1165-1189 | the walk of one message over the live members |
| Swim.OutgoingFits | rateguard-core/src/node.rs:1143-1189 | every list opens with the own record, holds at most 12, passes the limits, and tells a suspect or dead addressee so |
| Swim.IntroductionNames | rateguard-core/src/node.rs:1165-1189 | the cursor passes live members in order, each named in that message, and stops only for room or because none is left |
| Swim.MessageNames | rateguard-core/src/node.rs:1165-1189 | whoever the cursor stored after a message has passed since the one before is named in it, and with room it passes someone |
| Swim.NewcomerIsToldOfAll | rateguard-core/src/node.rs:1165-1189 | of the messages a node sends a newcomer while its membership is stable, one with room more than it has live members name each of them in a list sent, and the introduction is over |
| Swim.OutgoingSpreads | rateguard-core/src/node.rs:1143-1163 | a message carries all the news there is room for, ten at least, and each is counted as sent once |
| Swim.AQuietNodeTellsOfAll | rateguard-core/src/node.rs:1143-1189 | so a node that learns nothing meanwhile has told a newcomer of everyone after as many messages as it has live members and transmissions left, and one more |
| Rumours.ChangesAreGossiped | rateguard-core/src/node.rs:1103-1131 | whatever a node comes to believe of a peer, by a message, a failed probe or a suspicion run out, is queued to be passed on at once |
| Rumours.AnImpostorIsOutbid | rateguard-core/src/node.rs:1119-1129 | an alive record of the node it never made is counted, and then alone, and outbid in the next message and in the gossip |
| Rumours.BehindIsTold | rateguard-core/src/node.rs:905-921 | a peer that announces itself below its own incarnation hears what is held of it in the next message |
| Rumours.NewcomerIsIntroduced | rateguard-core/src/node.rs:922-940 | whoever was not held live and is heard alive is introduced from the first live member on |
| Rumours.TheGoneAreLetGo | rateguard-core/src/node.rs:981-987 | a leave that departs its sender ends its introduction and its mark as behind, and no other |
| Rumours.OnlyTheLiveAreIntroduced | rateguard-core/src/node.rs:648-660 | a tick ends the introductions of those no longer live and moves no other |
| Cluster.NobodyIsAheadOfItself | rateguard-core/src/member.rs:331-356 | under loss, duplication and reordering no table, buffer or datagram holds a record of a node above its own incarnation, and no identity conflict is counted |
| Cluster.NextKeepsInv | rateguard-core/src/node.rs:1103-1131 | every move of the cluster keeps that, and each leave its sender's last word |
| Cluster.RefutationSupersedesAll | rateguard-core/src/member.rs:343-356 | a refutation that raises the incarnation supersedes everything said of the node before, anywhere |
| Cluster.WhatAnAnswerSupersedes | rateguard-core/src/member.rs:343-356 | of all said of a node an answer supersedes everything if what it answers is not stale, and else exactly what is of an earlier incarnation |
| StaleAnswer.AStaleAnswerMissesALaterSuspicion | rateguard-core/src/member.rs:340-351 | a run of two nodes in which the answer to an accusation delivered twice leaves a suspicion of the current incarnation standing |
| Cluster.StaleAnswerSupersedesItsAccusation | rateguard-core/src/member.rs:343-351 | an answer always supersedes what it answers, and raises nothing if and only if that was stale |
| Cluster.LeaveBuries | rateguard-core/src/node.rs:919-927 | a leave delivered and not refused buries its sender at its last incarnation |
| Cluster.TheLeftAreNeverLiveAgain | rateguard-core/src/node.rs:687-711 | a table holding a node's leave never lists it live again while the tombstone lasts |
| ProbeOrder.Prober.FollowChanges | rateguard-core/src/node.rs:844-861 | whoever joined and is not among those to come is put among them |
| ProbeOrder.Prober.Next | rateguard-core/src/node.rs:863-882 | the first live one to come, or the first of a fresh shuffle |
| ProbeOrder.Prober.TakeALive | rateguard-core/src/node.rs:874-882 | skips those no longer live |
| ProbeOrder.FollowKeepsEveryoneDue | rateguard-core/src/node.rs:842-861 | following a change loses nobody to come and doubles nobody |
| ProbeOrder.NextKeepsValid | rateguard-core/src/node.rs:863-882 | nobody comes twice in a round |
| ProbeOrder.ProbedThisRound | rateguard-core/src/node.rs:842-882 | a newcomer is probed within the round it joined |
| ProbeOrder.EveryPeerIsProbed | rateguard-core/src/node.rs:863-882 | with membership stable every peer is probed within N calls if still to come, else within 2N - 1 |
| PeerDemand.PeerDemand.Apply | rateguard-core/src/peer_demand.rs:222-271 | the snapshot taken, contested or left, per the value the lemmas are about |
| PeerDemand.PeerDemand.Leave | rateguard-core/src/peer_demand.rs:284-290 | forgotten at once without a hold, held until its end with one |
| PeerDemand.PeerDemand.Expire | rateguard-core/src/peer_demand.rs:294-310 | of a held peer all counts until its hold ends, of any other exactly what was heard within the window |
| PeerDemand.WhatLasts | rateguard-core/src/peer_demand.rs:294-310 | the same of the tables as values |
| PeerRuns.WordsWereSaid | rateguard-core/src/peer_demand.rs:125-158 | over every run of reports, leaves and expiries what counts of a key for a peer is a demand that peer reported of it, and primary only if it said so |
| PeerRuns.OthersStay | rateguard-core/src/peer_demand.rs:222-289 | a report or a leave changes nothing of the other peers |
| PeerRuns.HoldEndsWithNews | rateguard-core/src/peer_demand.rs:254-290 | a report taken ends the hold of a peer that left, one not taken does not |
| PeerDemand.MergeKeys | rateguard-core/src/peer_demand.rs:125-148 | merging the keys in any order gives each its maximum |
| PeerDemand.EvictOver | rateguard-core/src/peer_demand.rs:149-157 | evicting one by one leaves at most 256 |
| PeerDemand.EvictSparesTheLatest | rateguard-core/src/peer_demand.rs:149-157 | a key stays if and only if fewer others are older than there are over the cap to go |
| PeerDemand.ContestedWordsCount | rateguard-core/src/peer_demand.rs:125-158 | of at most 256 keys contested later than all others none is evicted, and each counts at no less than was said |
| PeerDemand.EveryReportCounts | rateguard-core/src/peer_demand.rs:222-271 | right after any report of at most 64 keys, later than all before, each of its keys counts at no less than it says, whatever was heard before |
| PeerDemand.TotalCountsTheReport | rateguard-core/src/peer_demand.rs:320-336 | so do the total of the peers and the key's being hot elsewhere |
| PeerDemand.OnlyEvictionLowers | rateguard-core/src/peer_demand.rs:222-271 | a report not the peer's own next step lowers a key if and only if its entry is evicted and the snapshot then says less; one not taken leaves the snapshot |
| PeerDemand.UnderTheCapNothingIsLowered | rateguard-core/src/peer_demand.rs:231-271 | under the cap only a report of the same epoch less than 0x4000 rounds ahead lowers a key |
| PeerDemand.AFullTableLosesTheOldRun | rateguard-core/src/peer_demand.rs:254-270 | over the cap a restart drops a key of the run before at once |
| PeerDemand.AFloodThenARestartLosesAKey | rateguard-core/src/peer_demand.rs:254-270 | such a table is reached from nothing heard by five reports of one run, the newest first |
| PeerDemand.SerialNumbersCompare | rateguard-core/src/peer_demand.rs:55-60 | less than half a circle apart rounds compare as the unbounded ones they stand for, half a circle apart neither is newer |
| PeerDemand.SnapshotIsTheLatest | rateguard-core/src/peer_demand.rs:222-271 | for every order and duplication the snapshot is the report of the greatest unbounded round of its epoch, reports of past epochs among them or not |
| PeerDemand.HalfACircleApartTheFirstStays | rateguard-core/src/peer_demand.rs:58-60 | at half a circle the order of delivery decides |
| PeerDemand.TheGreaterStaysExactly | rateguard-core/src/peer_demand.rs:58-60 | of two rounds of one circle both orders of delivery keep the greater one if and only if they are less than half a circle apart |
| PeerDemand.PastEpochsNeverReturn | rateguard-core/src/peer_demand.rs:74-77 | no report of the four epochs before the current one replaces the snapshot |
| PeerDemand.HeldUntilTheHoldEnds | rateguard-core/src/peer_demand.rs:279-299 | all a departed peer said counts until its hold ends, then nothing |
| PeerDemand.OnlyTheStaleIsDropped | rateguard-core/src/peer_demand.rs:294-310 | of others exactly what is older than the stale window goes |
| HotSet.HotSet.UpdateWith | rateguard-core/src/hot_set.rs:61-84 | the new set, within its size, and whether the key is in it |
| HotSet.HotSet.Promote | rateguard-core/src/hot_set.rs:111-130 | in place, into room, or at the weakest's cost if a tenth busier |
| HotSet.HotSet.Cool | rateguard-core/src/hot_set.rs:138-159 | the cooldown started, counted or over |
| HotSet.OthersOnlyMakeRoom | rateguard-core/src/hot_set.rs:111-130 | another key is touched only to be evicted, as the weakest of a full set, by a newcomer over a tenth busier |
| HotSet.WhoIsHot | rateguard-core/src/hot_set.rs:61-84 | a key is hot after its update, and primary, exactly when its demand, its cooldown or a peer says so and there is room |
| HotSet.WhatIsKept | rateguard-core/src/hot_set.rs:111-159 | the demand last fed, the moment it came in, and when it began to cool: at the first update that finds it below its threshold |
| HotSet.PrimaryForItsCooldown | rateguard-core/src/hot_set.rs:138-159 | over every run of updates a key busy once stays primary, unless a busier one takes its place, until a cooldown has passed from the first update that finds it below its threshold |
| HotSet.PrimaryNoLonger | rateguard-core/src/hot_set.rs:138-159 | the first update after that ends it, and it stays hot if and only if a peer says so |
| Limiter.Limiter.TickWithShares | rateguard-core/src/limiter.rs:384-449 | the tick's two passes and the cap, for every order of the keys |
| Limiter.Limiter.CheckIn | rateguard-core/src/limiter.rs:232-247 | one attempt counted and decided by the key's limiter, made cold if new |
| Limiter.Limiter.Record | rateguard-core/src/limiter.rs:301-315 | attempts enforced elsewhere counted |
| Limiter.Limiter.SetCap | rateguard-core/src/limiter.rs:213-215 | the cap and nothing else |
| Limiter.Limiter.UpdateHotSet | rateguard-core/src/limiter.rs:413-431 | the first pass, key by key |
| Limiter.Limiter.Requote | rateguard-core/src/limiter.rs:432-446 | the second pass, in any order |
| Limiter.Limiter.EnforceCap | rateguard-core/src/limiter.rs:542-562 | the least demanded cold keys over the cap removed |
| Limiter.UnderCapKeepsTheHot | rateguard-core/src/limiter.rs:542-562 | just as many go as are over the cap, and no hot key |
| Limiter.VictimsAreTheLeastDemanded | rateguard-core/src/limiter.rs:549-561 | no cold key that stays is less demanded than one that goes |
| Limiter.HotKeysAreTracked | rateguard-core/src/limiter.rs:384-449 | in every run hot keys are tracked and fit the hot set, and after a tick tracked keys are at most max_tracked_keys |
| Limiter.TickDropsTheLeastDemanded | rateguard-core/src/limiter.rs:410-431 | a tick drops no hot key, only the idle and, just down to the cap, cold keys no more demanded than any cold one kept |
| Limiter.TickHoldsEveryKey | rateguard-core/src/limiter.rs:432-446 | after a tick every quota is within the cap's part of R, alpha R / N for a cold key, beta R / N for one hot elsewhere without room, the share for a hot one, and carries the debt over |
| Limiter.NewKeyIsWithin | rateguard-core/src/limiter.rs:335-343 | a new key starts under the cap and as a cold one |
| Limiter.ForgettingTheIdleIsLossless | rateguard-core/src/limiter.rs:14-16 | a key dropped idle and seen again answers as if it had been kept |
| LimiterRuns.KeyIsOneGcra | rateguard-core/src/limiter.rs:232-247 | in every run the answers given for a key while it is tracked are those of one GCRA, fresh at the cold quota it came in with and given the quotas of the ticks, whatever is asked of other keys |
| LimiterRuns.KeyAdmitsWithin | rateguard-core/src/limiter.rs:232-247 | so what its callers get keeps the bound of one limiter whose quota changes |
| LimiterRuns.KeyKeepsItsRate | rateguard-core/src/limiter.rs:232-247 | with one burst and clocks in order that is the burst, the integral of the rate in force, and half a nanosecond of debt per change |
| LimiterRuns.CallsAreKept | rateguard-core/src/limiter.rs:301-368 | a tracked key has the limit it last came with, and waiting for the next tick just the attempts made of it since the last one |
| LimiterRuns.TickGivesTheLeast | rateguard-core/src/limiter.rs:432-446 | a tick gives a key the quota of the least rate that bounds it, and no less |
| LimiterRuns.NewKeyStartsAtTheLeast | rateguard-core/src/limiter.rs:335-343 | and a new key that of the cold rate or the cap |
| LimiterRuns.UnusedKeysGo | rateguard-core/src/limiter.rs:410-431 | a key not hot, with no demand, no debt and nothing waiting is gone after a tick |
| Cooling.FirstPassIsNodeTick | rateguard-core/src/limiter.rs:413-431 | what one tick may make of a key not in demand, whatever the order of the keys and the evictions among them |
| Cooling.PrimaryEnds | rateguard-core/src/hot_set.rs:138-159 | no node holds the key primary after the cooldown and two ticks |
| Cooling.RenewalIsExact | rateguard-core/src/peer_demand.rs:125-158 | a report that does not say primary makes a primary word later than a given time if and only if it is contested into one, or replaces a snapshot that is, past that time and without an eviction |
| Cooling.HotEnds | rateguard-core/src/hot_set.rs:13-19 | a node does not hold the key hot any more a stale window and two ticks after the delay, and the last report that renewed a word of it there |
| Cooling.HotNeedsRenewals | rateguard-core/src/hot_set.rs:13-19 | so a key still hot has had a word renewed since |
| Cooling.RenewedStaysHot | rateguard-core/src/peer_demand.rs:331-335 | and a word renewed keeps it hot elsewhere until the first tick a stale window later, or an eviction |
| Cooling.TheTickThatDropsItStillCounts | rateguard-core/src/node.rs:737-744 | a word that ran out still counts in the round that drops it |
| KeptHot.SwappedReportsKeepAKeyHot | rateguard-core/src/peer_demand.rs:128-137 | runs of every length of two nodes, with regular ticks and genuine reports in time, in which each hears the other's reports in swapped pairs and both hold the key hot in every state, by the demand of neither |
| KeptHot.TermsSuit | rateguard-core/src/peer_demand.rs:128-137 | its terms are met for as many pairs as a clock has room for |
| Partition.SizeHistory.RecordSize | rateguard-core/src/partition.rs:67-86 | the maximum, over all sizes ever recorded that the window still holds, of each as lowered since, and only the window's samples kept |
| Partition.SizeHistory.ForgetOne | rateguard-core/src/partition.rs:92-98 | every sample since then lowered by one, held at 1 |
| Partition.FullHoldsSizes | rateguard-core/src/partition.rs:88-98 | edits one at a time lower a record by all the departures that apply to it, down to 1 |
| Quorum.Policy.Apply | rateguard-core/src/node.rs:1206-1245 | whether a quorum is seen, and the size remembered, the memory and the floor that follow |
| Quorum.MemoryCountsFromTheLoss | rateguard-core/src/node.rs:1230-1237 | in every run the memory counts from the first round after the last that had a majority of what was counted |
| Quorum.MemoryIsOverExactly | rateguard-core/src/node.rs:1230-1237 | it is over in a round if and only if the rounds without a majority up to it span it |
| Quorum.OnceTheMemoryIsOver | rateguard-core/src/node.rs:1234-1239 | from then on a node counts and remembers just those it knows, whatever it counted before |
| Quorum.HowLongIsFloored | rateguard-core/src/node.rs:1240-1243 | a round without a quorum floors the node for as long as peers need to hear it, one with a quorum changes nothing of that |
| Quorum.Policy.Depart | rateguard-core/src/node.rs:981-1007 | one less to count against, never under the known |
| Quorum.SeesExactly | rateguard-core/src/node.rs:1206-1245 | in any run whose rounds without a majority never span the memory a node sees a quorum again exactly when twice those alive, and the leaves counted, outnumber all it ever took into account and knows |
| Quorum.SizeIsPeak | rateguard-core/src/node.rs:1216-1239 | the size counted against is what was taken into account less the leaves counted |
| Quorum.RememberedSize | rateguard-core/src/node.rs:1216-1239 | the size counted against shrinks by one per leave counted and otherwise only under a majority |
| Quorum.MinoritySeesNoQuorum | rateguard-core/src/node.rs:1206-1245 | from a node that counts n on, through the suspicion of the rest, whoever dies, is forgotten, joins or leaves, no quorum while twice those alive and the leaves counted are within n |
| Quorum.SideSeesNoQuorum | rateguard-core/src/node.rs:1206-1245 | so a node of a side with no majority sees none once the others are dead to it, each departure counting once |
| Quorum.AtMostOneSideSeesAQuorum | rateguard-core/src/partition.rs:27-33 | of two disjoint sides at most one ever does |
| Quorum.WholeClusterIsRemembered | rateguard-core/src/node.rs:1216-1239 | a round of a whole cluster counts all of it |
| Quorum.ReplayTakesOne | rateguard-core/src/node.rs:981-997 | any node that does not hold the leaver counts its leave, one less but never under those it knows |
| Quorum.ReplayedLeavesMakeAQuorum | rateguard-core/src/node.rs:981-997 | after any number of replays a node that has forgotten the dead sees a quorum if and only if a majority of those it knows is alive and the replays make up for the rest |
| Quorum.RefreshCap | rateguard-core/src/node.rs:1260-1295 | the lowest of the floors that apply, none if none does |
| Quorum.MinorityTakesHalfTheFloor | rateguard-core/src/node.rs:1238-1244 | a node without a quorum is held at the floor, and all it sees alive together take at most half of beta R |
| Denied.Recent.Refresh | rateguard-sidecar/src/denied.rs:137-150 | the plain list's refresh, with the order at most twice the capacity |
| Denied.Recent.Insert | rateguard-sidecar/src/denied.rs:152-168 | the plain list's insertion, with the same victim |
| Denied.Recent.Remove | rateguard-sidecar/src/denied.rs:170-175 | the plain list's removal |
| Denied.Recent.Compact | rateguard-sidecar/src/denied.rs:179-186 | dropping stale stamps changes no recency |
| Denied.EveryKeyIsStamped | rateguard-sidecar/src/denied.rs:100-110 | every named key has its stamp in the order, so eviction never runs dry |
| Denied.RecentIsAnLru | rateguard-sidecar/src/denied.rs:100-116 | the table is a list of at most capacity distinct keys |
| Denied.RefreshMovesToTheEnd | rateguard-sidecar/src/denied.rs:137-150 | a refresh loses no key and makes its own the newest |
| Denied.InsertDropsTheOldest | rateguard-sidecar/src/denied.rs:152-168 | an insertion drops nobody while there is room and only the oldest otherwise |
| Denied.DeniedKeys.Record | rateguard-sidecar/src/denied.rs:57-66 | both tables after a real denial, a shadow's name moving over |
| Denied.DeniedKeys.RecordShadow | rateguard-sidecar/src/denied.rs:72-77 | both tables after a shadow denial |
| Denied.DeniedKeys.Get | rateguard-sidecar/src/denied.rs:80-82 | a real denial's name before a shadow's, and none but theirs |
| Denied.TablesStayApart | rateguard-sidecar/src/denied.rs:57-77 | whatever is denied, no hash is ever in both tables |
| Denied.ShadowsPushOutNothingReal | rateguard-sidecar/src/denied.rs:9-12 | shadow denials, however many, push out no name of a real one |
| DeniedRuns.TheLastDeniedAreNamed | rateguard-sidecar/src/denied.rs:9-12 | after any run of denials the keys named for a real one are just those since whose last real denial fewer than capacity others were really denied |
| DeniedRuns.NamesWereGiven | rateguard-sidecar/src/denied.rs:57-82 | and every name was given by some denial of that very key |

## Left out

- KeyTable.AtMostOneCopy: does not model memory orderings weaker than sequential consistency, which the `fence(SeqCst)` in `claim` asks for.
- KeyTableCalls.Table.Release: does not model the payload of a slot (its limiter, counts and class), nor a late writer leaving one interval of debt or one attempt in a freed slot, which the code accepts.
- AtomicGcra.AtomicGcra.SetQuota: is modelled for one thread; a check between the quota swap and the rescale is a race the code accepts.
- DelayedRise.DelayedRiseKeepsTheLimit: needs the views consistent again `2 x period - gap` after the change; with rounds exactly a period apart that is within one round.
- DelayedRise.RecentShares.ApplyShares: takes the computed shares as given; learning (`informed_since`) and the own demand taken as of the oldest peer report are arbitrary parts of them.
- Cooling.HotEnds: assumes no peer leaves under a hold meanwhile.
- Quorum.SideSeesNoQuorum: takes each departure of the side to count once, as `ReplayedLeavesMakeAQuorum` shows it must.
- Quorum.Policy.Depart: leaves the demand, the introductions and the recorded sizes of the peer that left to `PeerDemand`, `Swim` and `Partition`.
- Quorum.RefreshCap: takes as given when each hold applies.
- ShadowGcra.ShadowGcra.Set: is modelled for one thread, as `AtomicGcra.AtomicGcra.SetQuota` is.
- Swim.Node.LearnOne: leaves out the time of a refusal, which only the cap reads.
- Swim.Node.ReceiveMessage: leaves out the demand in a message, which is `PeerDemand`'s, when a peer was last heard, and the replies.
- ProbeOrder.Prober.FollowChanges: leaves the demand of a peer that left to `PeerDemand`.
- Limiter.Limiter.CheckIn: leaves out the counts of requests and denials, which only reports read.
- Limiter.Limiter.Record: leaves out the denials and shadow denials of a tally, which only reports read.
- Quorum.Policy.Apply: models the `Quorum` policy; the size held under `HoldDown` is `SizeHistory`'s, and when the node joined is not modelled.
- PeerDemand.PastEpochsNeverReturn: past epochs are remembered with the snapshot, so only of a peer heard without a break longer than the stale window.
- Limiter.Limiter.TickWithShares: leaves out the averages of requests and denials, which only reports read, and the shadows of the simulator.
- Denied.Recent.Insert: takes names as given; cutting a long key at a character boundary is not modelled.
- The average in `demand.rs`, f64 rounding and the exponential: demand is an arbitrary non-negative real at each tick.
- Sockets, timers, DNS, HTTP routes, metrics, SDKs, demos: input and output.
- The postcard bytes, HMAC and the hash functions: encoding is taken as given, key hashes and bucket choice as arbitrary.
- Relays, probe escalation, reconnecting and seeds of `node.rs`, and the parsing of configuration: they would add only easy members.
- Restarts of a node under its old ID: the cluster results are for nodes that do not restart.
- The order of IDs and hashes stands for any total order: both are natural numbers here.
