# Replicated log model

A Dafny model of the replicated log of `packages/log`, and of four self-contained algorithms around it.
Entries form a graph of hash references, stamped with hybrid logical clocks. The model keeps of an entry what
the merge logic reads: hash, gid, timestamp, type, nexts and payload size.

| file | what it covers |
|---|---|
| `Clock.dfy` | timestamps and the hybrid logical clock |
| `Entries.dfy`, `Dag.dfy` | entries, views of an index, the reference graph and ancestry |
| `EntryIndex.dfy`, `IndexRuns.dfy` | the entry index with its write-behind buffer, counter and head flags; whole runs of it |
| `DeleteWalk.dfy`, `JoinSpec.dfy`, `JoinCuts.dfy`, `JoinBatch.dfy`, `JoinConvergence.dfy` | what recursive deletion and joins are meant to do, independent of the loops, and convergence of joins |
| `JoinRuns.dfy` | a join step by step, CUT entries included |
| `Log.dfy` | the log's own loops: recursive deletion, join, append |
| `Replicas.dfy`, `LogRuns.dfy` | runs of several log objects: replicas converge, timestamps respect causality |
| `EntryCreate.dfy` | creating entries: the clock check and the gid |
| `ReferenceSamples.dfy` | sampling ancestors at doubling distances |
| `HeadsCache.dfy` | the persisted head set: two chains with tombstones and compaction |
| `Trim.dfy`, `TrimTheorems.dfy` | the eviction loop and what it leaves |
| `FrameParser.dfy`, `Network.dfy`, `Bits.dfy` | the incremental parser of length-prefixed frames and its counters |
| `Components.dfy`, `QueryAll.dfy`, `RandomGraph.dfy`, `Connections.dfy` | component merging, the shard query loop, bounded-degree random graphs, paired connection tables |
| `Wrappers.dfy` | option and result types, facts about finite sets |

Verify everything with `dafny verify --resource-limit 2000000 --verification-time-limit 0 dfyconfig.toml`.

## How it is modelled

- Each operation of the index, the heads cache or the trim is one atomic step. The flush timer is a step of its
  own that may come between any two of them.
- A hash is the address of its content: `universe` maps each hash to the one entry it can stand for, and every
  store and index agrees with it. `rank` is a ghost witness that references in it are acyclic. The entry cache is
  any subset of the indexed hashes.
- The wall clock, random values, the append filter, the trim filter, what a store can resolve and which peers
  respond in a round are parameters that the theorems range over.
- Loops of the source are loops here and are tied to specifications that do not mention a stack, a buffer or an
  order. The theorems are about those specifications: `EntryIndex` refines a plain map (`PutView`, `DeleteView`),
  the deletion stack refines reachability by sole referrers (`Scheduled`), a join refines "old index plus
  ancestors" (`Grown`), the heads cache refines a set, the parser refines a machine that takes single bytes.

## Where the code and its promises part

Each of these is a lemma with a concrete input or an exact condition.

- Head flags stay exact over a put if and only if the caller's `isHead` is true (`PutKeepsHeadsExact`), and over the
  deletion of a CUT entry if and only if something else lists every indexed entry it listed
  (`CutDeleteKeepsHeadsExact`; `CutDeleteLosesHead` is an input).
- Recursive deletion is safe but not complete: a next goes with a deleted entry if and only if nothing else lists it
  (`NextIsScheduledIffSole`), so the bottom of a diamond stays although both its referrers go (`DiamondKeepsBottom`).
- A join stores an entry above one that `canAppend` rejects, so the index stays closed if and only if that does
  not occur (`ClosedIffNoGap`, `RejectedNextLeavesGap`).
- The clock check of an append cannot fail for logs opened empty (`LogRuns.Run`), but can after reopening an index
  with later entries: exactly if some next is neither covered by the clock nor before the physical reading
  (`LogModel.Log.Append`, `ReopenedLogCanFail`).
- A direct put of a hash that is still buffered leaves a copy in the buffer and one in the index, and is not seen if
  and only if the buffered flag differs (`EntryIndex.Put`, `BufferedFlagHidesPut`).
- A hash added again while its tombstone is held stays removed, and nothing else makes an update differ from a set
  (`UpdateRefinesSet`, `ReaddedHashStaysRemoved`). The automatic reset of the heads cache counts repeated hashes: it
  covers the head index if and only if there are enough different ones, and an update with it is the update of a set
  if and only if every cached head is added or removed (`ResetCoversIndexExactly`, `ResetRefinesSet`,
  `RepeatedHashFoolsReset`).
- A trim moves on by strictly larger wall times, so it deletes at most one entry for each wall time. A trim of any
  kind reaches its target if and only if that is enough (`TrimReachesTarget`, `TrimWithTies`, `LengthTrimWithTies`;
  `TieSurvivesTrim` is an input).
- A group whose chosen peer is also chosen for a later group is dropped by the shard query as if it had answered.
  Every group of which nobody answers is reported, whoever responds, if and only if no two groups collide, which is
  known from the groups and the drawn position (`PromiseKeptIffCollisionFree`; `SharedPeerForgetsGroup` is an input,
  and `ReportedExactly` says which groups are reported in a given run).
- One carry of the clock can exceed `maxOffset`, exactly from the last timestamp within it
  (`CarryPassesLimitExactly`, `CarryExceedsOffsetLimit`).
- A frame beyond 8 MiB is forgotten after its prefix, so its payload is read as prefixes; a payload comes out if and
  only if it fits (`FramedComesOutIffItFits`, `OversizedPrefixIsForgotten`).
- A dial of a peer to itself, possible by peer id, puts two open ends into one table row: one open connection is
  kept if and only if the peers differ (`OpenPair`, `Network.ConnectTo` of module Connections).

## Model

| member | source | states |
|---|---|---|
| `Clock.Timestamp.Compare` | packages/log/src/clock.ts:71-77 | comparing wall time and then the counter is comparing the single number wallTime * 2^32 + logical |
| `Clock.Timestamp.Bigger` | packages/log/src/clock.ts:79-81 | picks the argument with the larger number |
| `Clock.HLC.constructor` | packages/log/src/clock.ts:107-127 | a clock starts at the larger of its given timestamp and the bare physical reading |
| `Clock.AcceptedReadings` | packages/log/src/clock.ts:133-143 | the physical readings at which an input is accepted are exactly those of one window around it: not so early that it lies too far ahead, not so late that the clock jumps |
| `Clock.HLC.Update` | packages/log/src/clock.ts:145-168 | succeeds exactly for accepted inputs and then advances as specified; each failure leaves `last` unchanged and names the limit that was hit |
| `Clock.HLC.Now` | packages/log/src/clock.ts:129-131 | an update with the clock's own last timestamp |
| `Clock.AdvanceIsAboveBoth` | packages/log/src/clock.ts:145-167 | the new timestamp is strictly above both inputs, and is their maximum plus one (also over a carry) or the physical reading |
| `Clock.AcceptedStaysNearPhysical` | packages/log/src/clock.ts:133-167 | with an offset limit, an accepted wall time is at most the limit plus one above the physical clock |
| `Clock.CarryExceedsOffsetLimit` | packages/log/src/clock.ts:154-160 | that plus one is needed: a concrete carry passes the limit |
| `Clock.CarryPassesLimitExactly` | packages/log/src/clock.ts:133-167 | an accepted update passes the limit if and only if the larger of the two timestamps is the very last one within the limit |
| `Clock.Widths` | packages/log/src/clock.ts:48-49 | the counter carries after exactly 2^32 values, and without a bound of its own a clock stops at wall time 2^64 - 1 |
| `Clock.RunStaysBounded` | packages/log/src/clock.ts:145-168 | after k updates the clock exceeds everything it started from, received or read by at most k |
| `Clock.RunIsMonotone` | packages/log/src/clock.ts:145-168 | along a run of accepted and refused updates a clock never goes back |
| `Clock.AcceptedInputStaysBelow` | packages/log/src/clock.ts:145-168 | once an input was accepted, the clock stays strictly above it for the rest of the run |
| `EntryIndexModel.EntryIndex.FlushPendingWrites` | packages/log/src/entry-index.ts:123-142 | flushing all or some buffered writes changes nothing that can be seen, and empties exactly the given part of the buffer |
| `EntryIndexModel.EntryIndex.GetShallow` | packages/log/src/entry-index.ts:338-344 | finds exactly what a plain index holds |
| `EntryIndexModel.EntryIndex.Has` | packages/log/src/entry-index.ts:346-358 | membership in the plain index, although cache and buffer are asked first |
| `EntryIndexModel.EntryIndex.HasMany` | packages/log/src/entry-index.ts:360-411 | exactly those of the given hashes that the plain index holds, over cache, buffer and batches of 64 |
| `EntryIndexModel.EntryIndex.CountHasNext` | packages/log/src/entry-index.ts:178-208 | the number of visible entries that list the hash, the excluded one left out |
| `EntryIndexModel.EntryIndex.GetMemoryUsage` | packages/log/src/entry-index.ts:558-566 | the sum of the payload sizes of the visible entries |
| `EntryIndexModel.EntryIndex.DemoteNexts` | packages/log/src/entry-index.ts:568-606 | clears the head flag of every next of a put entry, wherever that next is held, and none for a CUT |
| `EntryIndexModel.EntryIndex.PromoteNexts` | packages/log/src/entry-index.ts:568-606 | sets the head flag of exactly those nexts of a deleted entry that no visible entry lists any more |
| `EntryIndexModel.EntryIndex.Put` | packages/log/src/entry-index.ts:413-524 | whether new, deferred or put again, the visible index changes as a plain put would change it, unless the hash is still buffered with another flag and the put is direct: then exactly nothing is seen to change; buffer and index keep apart and the counter stays the size exactly if the other of the two did not hold the hash; a put that is seen shows the hash, meta and payload size of its entry and the flag it was given, and a new hash adds exactly its payload size to the total |
| `EntryIndexModel.EntryIndex.Delete` | packages/log/src/entry-index.ts:526-556 | deletes as a plain index would, from the buffer or the index; a copy with another hash is an error that changes nothing visible; what goes takes exactly its payload size off the total |
| `Entries.PutShows` | packages/log/src/entry-index.ts:413-524 | what a put shows of its entry, field by field |
| `Entries.PutTotal` | packages/log/src/entry-index.ts:413-566 | putting a new hash adds its payload size to the total |
| `Entries.DeleteTotal` | packages/log/src/entry-index.ts:526-566 | deleting takes the payload size off again, whatever flags it changes |
| `IndexRuns.Replay` | packages/log/src/entry-index.ts:413-556 | any run of puts, deletes and flushes leaves the visible index that the same run leaves on a plain index |
| `IndexRuns.BufferedFlagHidesPut` | packages/log/src/entry-index.ts:454-468 | a concrete pair of puts after which the second is not seen |
| `IndexRuns.PutReferences` | packages/log/src/entry-index.ts:413-524 | a put adds exactly the references from the new entry |
| `IndexRuns.PutKeepsHeadsExact` | packages/log/src/entry-index.ts:454-516 | after a put of an APPEND entry, new or put again, the flags are exact if and only if `isHead` told the truth |
| `IndexRuns.DeleteKeepsHeadsExact` | packages/log/src/entry-index.ts:526-606 | deleting any APPEND entry, also a middle one, keeps head flags equal to "nothing lists it" |
| `IndexRuns.CutDeleteLosesHead` | packages/log/src/entry-index.ts:572-575 | a concrete index in which deleting a CUT entry leaves a wrong flag |
| `IndexRuns.CutDeleteKeepsHeadsExact` | packages/log/src/entry-index.ts:526-606 | after deleting a CUT entry the flags are exact if and only if something else still lists every indexed entry that it listed |
| `IndexRuns.RunKeepsHeadsExact` | packages/log/src/entry-index.ts:413-606 | over every run of truthful APPEND puts, deletes and flushes the flags equal their definition |
| `LogModel.Log.HasAlternativeNext` | packages/log/src/log.ts:1010-1017 | whether a non-CUT entry other than the given one lists the next |
| `LogModel.Log.NextsToWalk` | packages/log/src/log.ts:1009-1024 | pushes exactly the stored nexts of which the entry is the sole referrer; together they weigh less than the entry |
| `LogModel.Log.PrepareDeleteRecursively` | packages/log/src/log.ts:989-1029 | the stack loop without a visited set terminates on every acyclic store and schedules exactly the indexed roots and what a sole-referrer walk reaches |
| `LogModel.Log.RunDeletes` | packages/log/src/log.ts:975-985 | running the scheduled deletes is deleting those entries, and their blocks, one after the other |
| `LogModel.Log.DeleteRecursively` | packages/log/src/log.ts:969-986 | removes exactly the scheduled entries, with their blocks, and keeps all others with their content |
| `DeleteWalk.ClosedContainsWalks` | packages/log/src/log.ts:1000-1026 | what is closed under the loop's steps contains everything a walk reaches |
| `DeleteWalk.WalkIsLineage` | packages/log/src/log.ts:1009-1023 | a walk follows next references |
| `DeleteWalk.ScheduledAreAncestors` | packages/log/src/log.ts:1000-1026 | only roots and ancestors of roots are scheduled |
| `DeleteWalk.NoDanglingReference` | packages/log/src/log.ts:969-1029 | after the deletes no surviving non-CUT entry lists an entry the walk reached below the roots |
| `DeleteWalk.WalkedGoes` | packages/log/src/log.ts:1001-1007 | every indexed entry the walk pops goes, except a skipped CUT |
| `DeleteWalk.TwoReferrersStay` | packages/log/src/log.ts:1013-1018 | an entry with two referrers is never reached |
| `DeleteWalk.NextIsScheduledIffSole` | packages/log/src/log.ts:1009-1023 | a next of a deleted entry is deleted with it if and only if no other non-CUT entry lists it |
| `DeleteWalk.DiamondKeepsBottom` | packages/log/src/log.ts:1000-1026 | a concrete diamond: the top and both referrers are scheduled, the bottom is not, and stays although nothing lists it any more |
| `DeleteWalk.DeleteAllKeeps` | packages/log/src/log.ts:975-985 | a run of deletes removes the listed hashes and keeps the content of the others |
| `LogModel.Log.AlreadyCut` | packages/log/src/log.ts:853-868 | whether a CUT head of the same gid that lists the entry has a larger timestamp |
| `LogModel.Log.JoinNexts` | packages/log/src/log.ts:870-915 | joins the missing nexts first, in order, each with the outcome for one entry, and stops at the first that cannot be resolved |
| `LogModel.Log.JoinRecursively` | packages/log/src/log.ts:816-955 | bottom up: exactly the storable entries met on the way are added, the entry itself exactly if it was missing and storable, and head debts are only the known ones; for every entry, with CUTs in the index or on the way: nothing if it is indexed or cut off already; a CUT goes in if it is allowed and takes exactly what it schedules; an APPEND entry goes in after its nexts if none of them is missing and it is allowed |
| `LogModel.Log.StoreJoined` | packages/log/src/log.ts:917-954 | advances the clock past the entry and takes it in, index and blocks, with exactly what a CUT takes away; or leaves clock and index alone and names the limit when the clock refuses it |
| `LogModel.Log.ProcessEntry` | packages/log/src/log.ts:957-967 | a CUT entry deletes exactly what the walk from it schedules, itself excepted; an APPEND entry nothing |
| `JoinCuts.TracedOn` | packages/log/src/log.ts:876-954 | what later parts of a join remove lies below a CUT from outside the index before the whole join |
| `JoinCuts.CutIsTraced` | packages/log/src/log.ts:957-967 | a CUT removes only its ancestors |
| `JoinCuts.NothingIsLost` | packages/log/src/log.ts:657-955 | a join that brings no CUT removes nothing |
| `LogModel.Log.Collect` | packages/log/src/log.ts:694-774 | the entries to join and the blocks their nexts resolve from; a missing block is an error |
| `LogModel.Log.BatchHeads` | packages/log/src/log.ts:776-781 | the flags are those of going through the batch in order: every entry gets one, and a false one only if another entry of the batch lists it |
| `LogModel.Log.Join` | packages/log/src/log.ts:657-807 | for APPEND entries: adds exactly the storable entries it comes by, and when nothing was in the way the index is closed under next and every head flag is exact; for every batch, CUTs included: index and blocks are what taking the entries in order leads to, one outcome of JoinRecursively after the other; a single CUT changes nothing if it is indexed, cut off or rejected, and otherwise goes in and takes exactly what it schedules; only ancestors of what was handed over come, and only ancestors of a CUT go |
| `LogModel.Log.JoinEntries` | packages/log/src/log.ts:783-806 | the loop over the batch takes the entries in order, each with its flag, and stops only where the clock refuses one |
| `JoinRuns.SingleCut` | packages/log/src/log.ts:816-967 | a batch of one CUT leaves the index as it was, or holds the CUT and has lost exactly what it schedules |
| `JoinRuns.JoinOfSingleCut` | packages/log/src/log.ts:657-967 | so does a join that is handed one CUT, in terms of what it is handed |
| `JoinRuns.CreatedCutCutsOff` | packages/log/src/log.ts:853-868 | a CUT created on an entry of its gid keeps that entry from being joined again while it is a head |
| `JoinRuns.OneIsAllowed` | packages/log/src/log.ts:916-919 | whatever the join of one entry adds, CUTs around or not, was at hand and allowed |
| `JoinRuns.BatchIsAllowed` | packages/log/src/log.ts:783-806 | so is what a batch adds |
| `LogModel.Log.GetHeads` | packages/log/src/entry-index.ts:144-161 | exactly the visible entries whose head flag is set |
| `JoinSpec.VisitStops` | packages/log/src/log.ts:886-903 | nothing is joined beyond the first next that cannot be resolved |
| `JoinSpec.HeadsExactIffNoDebt` | packages/log/src/log.ts:924-928 | flags are exact if and only if no unflagged entry is unreferenced |
| `JoinSpec.PutKeepsSound` | packages/log/src/log.ts:905-928 | storing an entry pays the flag debts of its nexts and adds at most its own |
| `JoinSpec.JoinStores` | packages/log/src/log.ts:916-928 | an allowed entry whose nexts are all done completes its join |
| `JoinSpec.JoinStopsAtMissing` | packages/log/src/log.ts:898-903 | an entry with an unresolved next is not stored, its earlier nexts are |
| `JoinSpec.JoinRejects` | packages/log/src/log.ts:917-919 | a rejected entry is not stored, its nexts are |
| `JoinBatch.CollectedInUniverse` | packages/log/src/log.ts:714-769 | what a batch brings can be resolved from what it brings |
| `JoinBatch.OnlyIndexedAreLeftOut` | packages/log/src/log.ts:694-769 | of the elements handed to a join, only such as are indexed already are left out of the batch |
| `JoinBatch.BatchStep` | packages/log/src/log.ts:783-806 | joining one more entry of a batch keeps what the earlier ones established |
| `JoinBatch.BatchEnds` | packages/log/src/log.ts:776-806 | at the end no flag debt is left, although nested entries were stored with a false flag and the flag map depends on the order |
| `JoinConvergence.GrownIsUnique` | packages/log/src/log.ts:657-955 | the result of a join is determined by the index before it and the hashes joined |
| `JoinConvergence.JoinsCommute` | packages/log/src/log.ts:657-955 | two batches can be joined in either order |
| `JoinConvergence.JoinIsIdempotent` | packages/log/src/log.ts:657-955 | joining a batch again changes nothing |
| `JoinConvergence.GrownComposes` | packages/log/src/log.ts:657-955 | two joins in a row are one join of both batches |
| `JoinConvergence.RunGrowsByUnion` | packages/log/src/log.ts:657-955 | a run of joins is one join of the union of its batches |
| `JoinConvergence.ReplicasConverge` | packages/log/src/log.ts:657-955 | replicas that start alike and join the same batches in any order, grouping and multiplicity end alike, flags included |
| `JoinConvergence.UnionsConverge` | packages/log/src/log.ts:657-955 | replicas that start apart end alike once what each held and joined adds up to the same |
| `JoinConvergence.BatchMeetsReference` | packages/log/src/log.ts:657-955 | what Log.Join promises for a deliverable batch is the reference join of its entries |
| `JoinConvergence.JoinMeetsReference` | packages/log/src/log.ts:657-955 | in terms of the elements handed over, whichever of them are indexed: the old index plus the elements and their ancestors, closed, with exact flags |
| `JoinConvergence.KeysMeetReference` | packages/log/src/log.ts:657-955 | the hashes added are exactly the ancestors of the batch |
| `JoinConvergence.VisitIsAncestor` | packages/log/src/log.ts:876-914 | a join only comes by ancestors of the entry it starts from |
| `JoinConvergence.DeliverableIsStorable` | packages/log/src/log.ts:870-919 | if all ancestors resolve and are allowed, everything met is storable |
| `JoinConvergence.ClosedIffNoGap` | packages/log/src/log.ts:870-928 | with rejected entries the index stays closed if and only if no stored entry lists a rejected one |
| `JoinConvergence.RejectedNextLeavesGap` | packages/log/src/log.ts:870-928 | a concrete join that stores an entry above a rejected one and leaves the index open |
| `Replicas.JoinDelivery` | packages/log/src/log.ts:657-955 | one call of join on a log object grows its index by the elements and their ancestors, and keeps it closed with exact flags |
| `Replicas.Redeliver` | packages/log/src/log.ts:657-955 | joining the same elements twice finds every block it needs and leaves the index as the first join did |
| `Replicas.JoinAll` | packages/log/src/log.ts:657-955 | a run of joins on a log object grows its index by everything delivered |
| `Replicas.Converge` | packages/log/src/log.ts:657-955 | two log objects end with the same entries and the same heads once each joined what makes up for the other, in any order, grouping and multiplicity, unless a join fails |
| `LogModel.Log.NextClock` | packages/log/src/log.ts:517-521 | the given timestamp, or a tick of the clock that lies strictly above its last one |
| `LogModel.Log.Append` | packages/log/src/log.ts:495-590 | the new entry lists exactly the heads, or the indexed nexts it is given, has the payload size and, if given, the timestamp it is handed, is put as a head and, if it is a CUT, takes exactly what it schedules; it fails the check if and only if the clock is accepted and some next does not lie before the given timestamp, or is neither covered by the clock nor before the physical reading; on a covered index it lies after every indexed entry and the check cannot fail |
| `LogModel.Log.StoreEntry` | packages/log/src/log.ts:572-581 | the put of append is the put of a unique head |
| `LogModel.AppendLeavesOneHead` | packages/log/src/log.ts:511-581 | after an append the new entry is the only head |
| `EntryCreate.CheckNexts` | packages/log/src/entry-v0.ts:467-480 | passes exactly if every next lies strictly before the clock |
| `EntryCreate.LeqIsLexicographic` | packages/log/src/entry-v0.ts:488-505 | the order of gids is the lexicographic one |
| `EntryCreate.ChooseGid` | packages/log/src/entry-v0.ts:482-507 | a smallest gid of the nexts, the given or random one without nexts, an error for a given gid with nexts |
| `EntryCreate.CreateClock` | packages/log/src/entry-v0.ts:446-466 | without a clock from the caller, the new one lies after every next; the only failure is a wall time beyond 64 bits |
| `EntryCreate.Create` | packages/log/src/entry-v0.ts:467-507 | the entry lists the nexts, lies after them, and fails exactly on a next that is not before the clock, on a gid given with nexts, or when the one entry it can make is not allowed |
| `EntryCreate.CreateKeepsWellMade` | packages/log/src/entry-v0.ts:467-507 | entries created on indexed ones keep a universe in which time and gid follow the references |
| `EntryCreate.WellMadeIsAcyclic` | packages/log/src/entry-v0.ts:469-479 | in such a universe the references are acyclic |
| `EntryCreate.GidIsSmallestRootGid` | packages/log/src/entry-v0.ts:482-507 | the gid of an entry is the smallest gid of its parentless ancestors, and one of them has it |
| `EntryCreate.AncestorsAreOlder` | packages/log/src/entry-v0.ts:469-479 | timestamps strictly decrease from an entry to every proper ancestor |
| `LogModel.SomeTooLate` | packages/log/src/entry-v0.ts:466-480 | the check of append passes the next tick of a clock if and only if every next is covered by the clock or lies before the physical reading |
| `LogRuns.AppendOne` | packages/log/src/log.ts:495-590 | appending a fresh hash to a log object that is in step keeps it in step and the universe well made, and the clock check does not fail |
| `LogRuns.JoinOne` | packages/log/src/log.ts:657-807 | so does joining entries from another log's store |
| `LogRuns.Run` | packages/log/src/log.ts:495-986 | in every run of several log objects, each with its own index and clock, opened empty, with appends on heads or chosen nexts, joins and deletes in any order: no append fails the clock check, a step is skipped only for a used hash, and every log stays in step with a well-made universe |
| `LogRuns.TimeAndGidFollow` | packages/log/src/entry-v0.ts:467-507 | so, after any run and on every log, time strictly increases along references up to the log's clock, and an entry's gid is the smallest root gid |
| `LogRuns.ReopenedLogCanFail` | packages/log/src/log.ts:515-546 | a concrete log object reopened over an index it did not build: its append fails the check if and only if the wall clock has not passed the entry there |
| `HeadsCacheModel.HeadsCache.UpdateHashes` | packages/log/src/heads-cache.ts:64-88 | the new batch lies at a path no value was at before, so every older chain stays as it was; the chain at the root is the batch in front of the old one, and its counter counts it |
| `HeadsCacheModel.HeadsCache.GetHashes` | packages/log/src/heads-cache.ts:250-270 | the hashes of a chain, newest batch first, without the filtered ones |
| `HeadsCacheModel.HeadsCache.GetCachedHeads` | packages/log/src/heads-cache.ts:243-275 | the added hashes without the removed ones |
| `HeadsCacheModel.HeadsCache.UpdateCachedHeads` | packages/log/src/heads-cache.ts:157-234 | the two chains change as specified for reset, additions, tombstones and compaction; told from the caller: with the flag, or for a loaded cache given at least as many hashes as the head index has and all of them in it, the heads start over with what is given; otherwise, and always before the first load, they are the set (S + added) - removed, if and only if every added hash with a held tombstone is removed too |
| `HeadsCacheModel.HeadsCache.Compact` | packages/log/src/heads-cache.ts:218-231 | the added chain becomes the remaining heads and the tombstones vanish |
| `HeadsCacheModel.HeadsCache.ShouldReset` | packages/log/src/heads-cache.ts:164-179 | the automatic reset fires exactly for a loaded cache that is given at least as many hashes as the head index has, all of them in it |
| `HeadsCacheModel.HeadsCache.LoadLastHeadsPath` | packages/log/src/heads-cache.ts:353-365 | paths and counters are rebuilt from the store whatever the memory held |
| `HeadsCacheModel.HeadsCache.GetCachedHeadsCount` | packages/log/src/heads-cache.ts:367-373 | the counter stored with a chain is the number of hashes on it |
| `HeadsCacheModel.HeadsCache.Load` | packages/log/src/heads-cache.ts:339-351 | loading returns the same heads the cache had |
| `HeadsCacheModel.HeadsCache.Close` | packages/log/src/heads-cache.ts:296-304 | closing forgets the memory and keeps the store |
| `HeadsCacheModel.HeadsAreHeadSet` | packages/log/src/heads-cache.ts:243-275 | the returned sequence is the set difference of the two chains |
| `HeadsCacheModel.CompactionKeepsHeads` | packages/log/src/heads-cache.ts:218-231 | compaction leaves the returned sequence identical |
| `HeadsCacheModel.UpdateIsOfSet` | packages/log/src/heads-cache.ts:157-234 | what an update does to the set of heads, told from what the caller gives and whether the cache is loaded |
| `HeadsCacheModel.CompactsExactly` | packages/log/src/heads-cache.ts:211-231 | compaction happens exactly when, the update included, there are at least half as many stored removals as additions |
| `HeadsCacheModel.UpdateRefinesSet` | packages/log/src/heads-cache.ts:193-233 | an update without reset is (S + added) - removed if and only if every added hash with a held tombstone is removed by the same update |
| `HeadsCacheModel.ResetStartsOver` | packages/log/src/heads-cache.ts:184-191 | after a reset only the given hashes count |
| `HeadsCacheModel.ResetCoversIndexExactly` | packages/log/src/heads-cache.ts:164-179 | when the automatic reset fires, the added hashes are the whole head index if and only if there are as many different ones as heads |
| `HeadsCacheModel.AutoResetCoversIndex` | packages/log/src/heads-cache.ts:164-179 | so on distinct hashes they are |
| `HeadsCacheModel.ResetRefinesSet` | packages/log/src/heads-cache.ts:164-191 | such a reset is (S + added) - removed if and only if every cached head is among the added or the removed |
| `HeadsCacheModel.AutoResetRefinesSet` | packages/log/src/heads-cache.ts:164-191 | for an automatic reset on distinct hashes that is the case if and only if every cached head is in the index or removed |
| `HeadsCacheModel.RepeatedHashFoolsReset` | packages/log/src/heads-cache.ts:164-191 | a concrete update with a repeated hash: the automatic reset fires and a head is forgotten |
| `HeadsCacheModel.ReaddedHashStaysRemoved` | packages/log/src/heads-cache.ts:193-233 | a concrete update that adds a removed hash again, without effect |
| `HeadsCacheModel.StepRefinesSet` | packages/log/src/heads-cache.ts:157-234 | one update, whether it resets or not, is the same update of a set if and only if it is careful |
| `HeadsCacheModel.RunRefinesSet` | packages/log/src/heads-cache.ts:157-365 | after any careful run of updates, openings, loads and closes, automatic resets included, the cache stands for the folded set |
| `HeadsCacheModel.NothingForgottenBeforeLoad` | packages/log/src/heads-cache.ts:164-234 | over any number of sessions without a load and without the flag, whatever the head index holds, the heads are all that was added and not removed since, as long as no hash with a held tombstone is added |
| `HeadsCacheModel.GarbageStaysBounded` | packages/log/src/heads-cache.ts:218-231 | after every such run there are no tombstones or twice their number is below the number of stored additions |
| `HeadsCacheModel.Replay` | packages/log/src/heads-cache.ts:157-365 | the class on a whole run of updates, openings, loads and closes: the chains of the specification; for careful runs the folded set as heads; before a first load, all that was added and not removed since |
| `TrimModel.Trim.GetFirst` | packages/log/src/entry-index.ts:286-332 | the first entry of those with a larger wall time, in last-write-wins order |
| `TrimModel.Trim.IsDone` | packages/log/src/trim.ts:130-170 | whether the target is met |
| `TrimModel.Trim.HasToStart` | packages/log/src/trim.ts:132-150 | a length or byte length trim starts exactly when the length or the bytes have reached `from`, or `to` without it; a time trim always does |
| `TrimModel.Trim.DeleteNode` | packages/log/src/trim.ts:255-258 | the deleted entry is returned resolved: the block of its hash, with the meta and payload size of the copy |
| `TrimModel.DecisionAdded` | packages/log/src/trim.ts:223-234 | every entry looked at is deleted exactly if the answer for its gid says so, and that answer is one the filter gave for an entry of the gid |
| `TrimModel.Trim.TrimTask` | packages/log/src/trim.ts:121-288 | below `from`, or `to` without it, nothing is deleted; from there on, and always for a time trim, the loop terminates, deletes one entry at a time in the order reported, and ends as the trim specification says |
| `TrimTheorems.TrimToTarget` | packages/log/src/trim.ts:121-288 | with distinct wall times and no filter, start test included: a length trim leaves all entries below `from` and otherwise min(length, max(to, 0)); a byte length trim leaves all, or the largest newest part of at most `to` bytes; a time trim leaves exactly what is younger than maxAge |
| `TrimTheorems.TrimIsExact` | packages/log/src/trim.ts:208-277 | with distinct wall times and no filter, what stays is the largest newest part that meets the target: no larger one does |
| `TrimTheorems.LengthTrimIsExact` | packages/log/src/trim.ts:132-138 | a length trim then leaves exactly min(length, max(to, 0)) entries |
| `TrimTheorems.DoneIsAntitone` | packages/log/src/trim.ts:130-170 | a target met by a part is met by every smaller part |
| `TrimTheorems.DeletingOldestKeepsFlags` | packages/log/src/trim.ts:243-258 | deleting oldest first, when clocks increase along references, changes no other entry |
| `TrimTheorems.TrimKeepsHeadFlags` | packages/log/src/trim.ts:208-277 | so a trim changes no survivor, head flag included |
| `TrimTheorems.FilteredTrim` | packages/log/src/trim.ts:223-276 | with a filter the trim ends with the target met or only rejected gids and entries passed over left, of which there are none for distinct wall times, and deletes no entry of a rejected gid |
| `TrimTheorems.LengthTrimWithTies` | packages/log/src/log-sorting.ts:59-65 | with equal wall times a length trim reaches its target if and only if one deletion for each wall time is enough |
| `TrimTheorems.TrimWithTies` | packages/log/src/trim.ts:208-277 | a trim to any target meets it if and only if what lies behind the first entries of all wall times meets it, for the first entries it looks at |
| `TrimTheorems.TrimReachesTarget` | packages/log/src/trim.ts:208-277 | with different timestamps, a length, byte length or time trim meets its target if and only if the entries that are not first of their wall time meet it |
| `TrimTheorems.TieSurvivesTrim` | packages/log/src/log-sorting.ts:59-65 | two entries with one wall time, neither of which meets the target alone: one stays and the target is missed, whatever kind it is |
| `ReferenceSamples.GetReferenceSamples` | packages/log/src/log.ts:423-487 | returns `from` and entries at distance 2^k - 1, at most pointerCount of them and at most the memory limit once more than `from` is selected; until the count is reached, all of every sampled level up to the maximal distance, unless the memory limit does not admit a sample that is next |
| `ReferenceSamples.Sample` | packages/log/src/log.ts:434-475 | the doubling loop selects only samples, level by level and each completely, until the count is reached, no level is left, or a sample is missing or exceeds the memory limit |
| `ReferenceSamples.Descend` | packages/log/src/log.ts:437-452 | moves from one sampled level to the next |
| `ReferenceSamples.SelectLevel` | packages/log/src/log.ts:454-473 | selects all of a level, or stops at the count, or at a sample that is missing or does not fit the memory limit any more |
| `ReferenceSamples.FirstDistances` | packages/log/src/log.ts:434-475 | the first sampled distances are 1, 3, 7 and 15 |
| `ReferenceSamples.LevelIsDistance` | packages/log/src/log.ts:437-452 | a level is what exactly that many next steps reach |
| `ReferenceSamples.CompleteDoubles` | packages/log/src/log.ts:437-475 | completing a level carries completeness to twice the distance |
| `ReferenceSamples.BytesAreReturned` | packages/log/src/log.ts:460-467 | the bytes counted are the payload bytes of the entries returned |
| `FrameParser.FeedConcat` | apps/peerbit-org/src/sim/inmemory-libp2p.ts:803-904 | feeding two chunks is feeding them as one, whatever the bytes are |
| `FrameParser.FeedPayload` | apps/peerbit-org/src/sim/inmemory-libp2p.ts:861-903 | copying payload bytes in bulk is taking them one by one |
| `FrameParser.FeedVarint` | apps/peerbit-org/src/sim/inmemory-libp2p.ts:806-858 | the prefix loop decodes the variable-length integer it is fed |
| `FrameParser.FeedEncode` | apps/peerbit-org/src/sim/inmemory-libp2p.ts:803-904 | one framed payload of at most 8 MiB comes out as that frame, and the parser is back at its start |
| `FrameParser.FeedEncodeAll` | apps/peerbit-org/src/sim/inmemory-libp2p.ts:803-904 | so does every list of such payloads, in order |
| `FrameParser.FramedComesOutIffItFits` | apps/peerbit-org/src/sim/inmemory-libp2p.ts:829-835 | a framed payload of any 32-bit length comes out as one frame if and only if it is at most 8 MiB |
| `FrameParser.OversizedPrefixIsForgotten` | apps/peerbit-org/src/sim/inmemory-libp2p.ts:829-835 | the prefix of any larger length below 2^32 is forgotten, so the payload is read as prefixes |
| `FrameParser.ReportsStayWithinLimit` | apps/peerbit-org/src/sim/inmemory-libp2p.ts:806-904 | no frame beyond the limit is ever reported, whatever is fed |
| `FrameParser.PrefixEndsAtEleven` | apps/peerbit-org/src/sim/inmemory-libp2p.ts:811-818 | a prefix of ten bytes goes on, the eleventh starts over |
| `FrameParser.FramesAreTyped` | apps/peerbit-org/src/sim/inmemory-libp2p.ts:883-902 | whatever is fed, a reported frame is data, acknowledgement or goodbye exactly if its first payload byte is 0, 1 or 3 |
| `FrameParser.FrameBytesAddUp` | apps/peerbit-org/src/sim/inmemory-libp2p.ts:876-902 | the reported frame bytes are all the bytes fed |
| `FrameParser.OutboundParser.ReadPrefixByte` | apps/peerbit-org/src/sim/inmemory-libp2p.ts:806-858 | one step of the byte machine on the parser's fields |
| `FrameParser.OutboundParser.StartFrame` | apps/peerbit-org/src/sim/inmemory-libp2p.ts:821-857 | a complete prefix starts a frame, reports an empty one or is forgotten |
| `FrameParser.OutboundParser.ReadPayload` | apps/peerbit-org/src/sim/inmemory-libp2p.ts:861-903 | takes as many payload bytes as fit, like the byte machine |
| `FrameParser.OutboundParser.FeedChunk` | apps/peerbit-org/src/sim/inmemory-libp2p.ts:803-904 | a chunk is fed to the byte machine |
| `Network.InMemoryNetwork.RecordSend` | apps/peerbit-org/src/sim/inmemory-libp2p.ts:777-905 | each stream has its own parser; the byte counter grows by the chunk, the others by what is reported; the counters of data, acknowledgement and goodbye frames are the numbers of reported frames whose first byte is 0, 1 and 3, the last one that of all others |
| `Network.InMemoryNetwork.CountFrames` | apps/peerbit-org/src/sim/inmemory-libp2p.ts:841-891 | every reported frame is counted once in total and once by type |
| `Network.CountsAddUp` | apps/peerbit-org/src/sim/inmemory-libp2p.ts:887-891 | the counters by type add up to the number of frames |
| `Network.CountsByType` | apps/peerbit-org/src/sim/inmemory-libp2p.ts:883-891 | counting frames by type is counting first payload bytes |
| `Network.CountersReadBytes` | apps/peerbit-org/src/sim/inmemory-libp2p.ts:841-891 | so the counters can be read off the reported payloads |
| `Network.Replay` | apps/peerbit-org/src/sim/inmemory-libp2p.ts:777-905 | however sends on many streams are interleaved and chunked, each stream reports the frames of its own bytes, and the counters by type are numbers of first payload bytes; if every stream carries whole frames, the frame bytes reported on all streams add up to bytesSent |
| `Network.ChunkingDoesNotMatter` | apps/peerbit-org/src/sim/inmemory-libp2p.ts:777-905 | framed payloads come out again for any chunking, and their frame bytes are the bytes of the stream |
| `Network.StreamsAddUp` | apps/peerbit-org/src/sim/inmemory-libp2p.ts:777-905 | reports and sends that add up on every stream add up over all streams |
| `Components.Intersections` | packages/clients/test-utils/src/session.ts:336-345 | the ascending indices of the components that meet the group |
| `Components.Splice` | packages/clients/test-utils/src/session.ts:351-356 | splicing from the end removes exactly the touched components and gathers their peers |
| `Components.MergeOne` | packages/clients/test-utils/src/session.ts:335-358 | one group merged into the components |
| `Components.MergeComponents` | packages/clients/test-utils/src/session.ts:334-358 | the components are disjoint, cover all peers, and hold two peers together if and only if a chain of intersecting groups links them |
| `Components.MergeAllIsCorrect` | packages/clients/test-utils/src/session.ts:334-358 | every component holds whole groups and only linked peers |
| `Components.ChainStaysInside` | packages/clients/test-utils/src/session.ts:334-358 | a chain of intersecting groups stays in one component |
| `Components.LinkedIsTogether` | packages/clients/test-utils/src/session.ts:334-358 | linked peers are in one component |
| `Components.MergedComponents` | packages/clients/test-utils/src/session.ts:334-358 | the specification of the merge has these properties for every list of groups |
| `QueryAll.ChoosePeers` | packages/programs/rpc/src/utils.ts:44-52 | of each group the member at position rng modulo its size, with the last group it was chosen for |
| `QueryAll.OthersOf` | packages/programs/rpc/src/utils.ts:33-36 | the groups asked are those without the asking peer, all of them and in their order |
| `QueryAll.InTurn` | packages/programs/rpc/src/utils.ts:44-52 | in round k every group that is still asked asks its member at position start + k, around the group |
| `QueryAll.WithoutResponders` | packages/programs/rpc/src/utils.ts:60-68 | the groups whose chosen member did not respond, of several groups with one peer only the last |
| `QueryAll.AnswersToldApart` | packages/programs/rpc/src/utils.ts:46-68 | groups are left over exactly for their own silent members if and only if the chosen peers are all different |
| `QueryAll.DisjointChooseApart` | packages/programs/rpc/src/utils.ts:47-52 | disjoint groups choose different peers in every round |
| `QueryAll.NextRound` | packages/programs/rpc/src/utils.ts:70-82 | an unanswered group stays exactly if it has a member for the next round, and is reported otherwise |
| `QueryAll.RemainingExactly` | packages/programs/rpc/src/utils.ts:39-84 | a group is still asked in a round if and only if it has members left, none answered, and no later group ever chose the same peer |
| `QueryAll.ReportedExactly` | packages/programs/rpc/src/utils.ts:39-84 | a group is reported if and only if every member was asked, none answered, and no later group ever chose the same peer |
| `QueryAll.PromiseKeptIffCollisionFree` | packages/programs/rpc/src/utils.ts:39-84 | every group of which nobody answers is reported, whoever responds, if and only if no two different groups ever have the same peer on turn while both have members left: a condition on the groups and the drawn position alone |
| `QueryAll.DisjointIsCollisionFree` | packages/programs/rpc/src/utils.ts:39-52 | disjoint groups meet it |
| `QueryAll.RemainingIsLive` | packages/programs/rpc/src/utils.ts:39-84 | disjoint groups are asked round by round, in order, until a member answers or all were asked |
| `QueryAll.SharedPeerForgetsGroup` | packages/programs/rpc/src/utils.ts:44-68 | with one peer in two groups and no response the first group is never reported |
| `QueryAll.QueryAll` | packages/programs/rpc/src/utils.ts:26-92 | for all groups, overlapping or not, ends within the size of the largest one; in round k every group that is still asked asks the member at position start + k, around the group; missing are exactly the groups of which nobody answered and that no later group ever shadowed; for groups that do not collide, exactly those of which nobody answered; none is reported more often than given |
| `QueryAll.BackAtStart` | packages/programs/rpc/src/utils.ts:73-75 | the position returns to its start after exactly as many rounds as there are members |
| `QueryAll.MemberHasItsRound` | packages/programs/rpc/src/utils.ts:47-52 | every member of a group has exactly one round |
| `QueryAll.MissingGroupWasAskedOnce` | packages/programs/rpc/src/utils.ts:39-82 | every member of a missing group was asked in exactly one round and did not answer |
| `RandomGraph.SwapList.Push` | apps/peerbit-org/src/ui/FanoutProtocolSandbox.tsx:186-193 | appends to the list and keeps `pos` its inverse |
| `RandomGraph.SwapList.Remove` | apps/peerbit-org/src/ui/FanoutProtocolSandbox.tsx:194-203 | removes the id by moving the last element into its place, and keeps `pos` the inverse |
| `RandomGraph.Builder.Connect` | apps/peerbit-org/src/ui/FanoutProtocolSandbox.tsx:146-155 | adds the edge on both sides exactly if it is new, no loop and both ends have room; the graph stays simple and within its degree |
| `RandomGraph.Builder.SeedRingOrLine` | packages/clients/test-utils/src/session.ts:222-227 | every edge of the ring finds room, so the seed is the whole ring; with degree 1 the line becomes the matching |
| `RandomGraph.Builder.SeedTreeOrMatching` | apps/peerbit-org/src/ui/FanoutProtocolSandbox.tsx:157-184 | the list of parents never runs empty, so every node gets an earlier neighbour; with degree 1 the seed is the matching |
| `RandomGraph.Builder.AddNode` | apps/peerbit-org/src/ui/FanoutProtocolSandbox.tsx:174-180 | links one node to a random earlier one with room and keeps the parents those with room |
| `RandomGraph.Builder.FindRoom` | apps/peerbit-org/src/ui/FanoutProtocolSandbox.tsx:186-193 | the list of available nodes is those below the degree |
| `RandomGraph.Builder.Fill` | apps/peerbit-org/src/ui/FanoutProtocolSandbox.tsx:186-215 | only adds edges, keeps `available` equal to the nodes with room, terminates, and adds exactly those of the drawn pairs that are no loop, new, and have room at both ends, one after the other; it draws n * max(1, target) * 200 pairs, fewer only if at most one node has room |
| `RandomGraph.RingRoom` | packages/clients/test-utils/src/session.ts:222-224 | both ends of the next ring edge have room and the edge is new |
| `RandomGraph.FullRing` | packages/clients/test-utils/src/session.ts:222-224 | the ring is every node linked to the next and the one before, around |
| `RandomGraph.AnchoredIsConnected` | apps/peerbit-org/src/ui/FanoutProtocolSandbox.tsx:157-180 | if every node has an earlier neighbour, any two nodes are joined by a path |
| `RandomGraph.BuildForSession` | packages/clients/test-utils/src/session.ts:197-261 | for all inputs and every random source: the stated errors, or a symmetric loop-free graph within its degree, connected for degree 2 and more with the ring in it, and a matching for degree 1; it is the seed with exactly the drawn pairs added that could be linked |
| `RandomGraph.BuildForSandbox` | apps/peerbit-org/src/ui/FanoutProtocolSandbox.tsx:138-218 | the same for the tree seed: in place of the ring some graph in which every node has an earlier neighbour |
| `Connections.Network.ConnectTo` | packages/transport/libp2p-test-utils/src/inmemory-libp2p.ts:640-724 | reuses the open connection or adds one end to each table; at most one open connection is left between the two if and only if the dial is to another peer |
| `Connections.Network.StartDial` | packages/transport/libp2p-test-utils/src/inmemory-libp2p.ts:571-612 | offline and unknown peers are errors, an open connection is reused, otherwise the dial waits |
| `Connections.Network.FinishDial` | packages/transport/libp2p-test-utils/src/inmemory-libp2p.ts:608-619 | a dial that waited connects or finds the connection another dial made |
| `Connections.Network.StartClose` | packages/transport/libp2p-test-utils/src/inmemory-libp2p.ts:440-481 | the first close of either end closes both ends, later ones change nothing |
| `Connections.Network.FinishClose` | packages/transport/libp2p-test-utils/src/inmemory-libp2p.ts:477-491 | both ends leave the tables and the close is counted once |
| `Connections.Network.RemoveConnectionInstance` | packages/transport/libp2p-test-utils/src/inmemory-libp2p.ts:629-637 | takes out that connection, and the row when nothing is left in it |
| `Connections.TwinsAreListed` | packages/transport/libp2p-test-utils/src/inmemory-libp2p.ts:701-715 | a listed connection has its twin in the other table with the same status |
| `Connections.OpenPair` | packages/transport/libp2p-test-utils/src/inmemory-libp2p.ts:640-724 | a new connection keeps one open connection between two peers, if and only if the peers differ |
| `Connections.AddPair` | packages/transport/libp2p-test-utils/src/inmemory-libp2p.ts:701-715 | both ends are put into the tables and nothing else |
| `Connections.DropPair` | packages/transport/libp2p-test-utils/src/inmemory-libp2p.ts:629-637 | both ends are taken out and nothing else |
| `Connections.ClosePair` | packages/transport/libp2p-test-utils/src/inmemory-libp2p.ts:475-481 | closing an end with its twin keeps statuses in step and at most one open connection |
| `Connections.Run` | packages/transport/libp2p-test-utils/src/inmemory-libp2p.ts:440-724 | for every interleaving of dials to other peers and closes from either end: twins with equal status, at most one open connection between two peers, and opened minus closed is the number of pairs in the tables |

## Left out

- LogModel.Log.Join: `reset` (which joins indexed entries again) and `recover`, a trim inside a join, the `length` option, an iterator as input and signature checks are not modelled. Closedness and exact head flags are for APPEND entries; with CUTs the contract is the run of one-entry outcomes. Of a join that the clock stops midway it says what may have come and gone, not how far it got.
- LogModel.Log.Append: nexts given by the caller are indexed ones; the source also takes nexts that it does not hold yet and stores them first. The modes of durability are modelled, the trim that may follow is not.
- EntryIndexModel.EntryIndex.Put: once a hash is in both maps the object is no longer valid, and what later operations make of it is not modelled; no caller puts a buffered hash directly, since joins query, and so flush, first. Of the gid callback only its flush of the buffer is modelled.
- TrimModel.Trim.TrimTask: a `cacheId` and the progress it keeps between trims are not modelled; neither is the entry before the last one, which only that cache uses.
- TrimTheorems.TrimIsExact: for pairwise distinct wall times; equal ones are the subject of TrimWithTies, TrimReachesTarget and FilteredTrim.
- HeadsCacheModel.HeadsCache.UpdateCachedHeads: the store is always present and the 64-bit counters are unbounded numbers.
- LogRuns.Run: appends give no timestamp of their own and no gid, and a join takes its blocks from the store of one other log.
- Replicas.Converge: for APPEND entries; that both runs succeed is an assumption; with everything that is delivered by hash at hand, the only failures left are those of the clock.
- EntryCreate.ChooseGid: gids are compared by code points, which differs from the source's code units only for characters outside the basic plane.
- QueryAll.QueryAll: groups are not empty. An empty group has no member to ask; in the source the position in it is the remainder by 0, which is no number and equals nothing, so the last empty group is never dropped and the query does not end. A response counts for whoever it is from, as in the source.
- RandomGraph.BuildForSandbox: the bound on degrees is stated for targets below 65536; the counters have 16 bits and wrap beyond that. The neighbours of a node are a set, without the order in which they were added.
- RandomGraph.BuildForSession: as for BuildForSandbox.
- Connections.Network.ConnectTo: connections are values with a pair number, their statuses and all tables fields of one object, rather than objects that managers share; streams, topology notifications and handlers that close again are not modelled. The reused connection is one that is open, with at most one there is no choice.
- Connections.Network.StartClose: closes one connection; hanging up on a peer closes all connections to it one after the other, which is a run of these steps.
- Connections.Network.StartDial: takes a peer id; addresses that name no other peer lead to the same error as an unknown peer.
- Network.InMemoryNetwork.RecordSend: the callback is a list of reports; peers, protocols and time windows are not kept.
- Promise races inside one operation (`insertionPromises`, `_joining`), remote fetching, timeouts and abort signals: transport plumbing.
- Signing, encryption, serialisation and block stores: entries are records and stores are maps.
- `FastMutex`: a lock of browser tabs over local storage; whether it excludes depends on bounds on the wall-clock time a holder takes, and no operation of the log uses it.
- Provider lists of remote blocks and debounced counters: they decide where a block is fetched from and when events are sent; here a store says which blocks resolve, and every order of steps is covered.
- `difference`, `findUniques`, `findHeads`, `findTails`: filters over arrays of entries that neither join, append nor deletion calls; heads come from the flags of the index.
- User interface, drawing, peer creation, RPC events and statistics of the benchmark drivers.
