// Runs of several Log objects, each with its own clock and index, that append, join from one
// another and delete: timestamps respect causality, and the check of append never fails.
module LogRuns {
  import opened Wrappers
  import opened Clock
  import opened Entries
  import opened Dag
  import opened EntryCreate
  import opened JoinBatch
  import opened JoinRuns
  import opened LogModel
  import EntryIndexModel
  import DeleteWalk
  import opened JoinSpec

  // What happens next, at which log.  A join takes entries from another log's block store.
  datatype LogStep =
    | AppendStep(log: nat, hash: Hash, payloadSize: nat, entryType: EntryType, random: string,
                 chosen: Option<seq<Hash>>, deferIndexWrite: bool, canAppend: Entry -> bool)
    | JoinStep(log: nat, from: nat, hashes: seq<Hash>, canAppend: Entry -> bool)
    | DeleteStep(log: nat, hash: Hash)

  // A step is skipped when it names no log, or a hash that another entry has.
  datatype Outcome =
    | Skipped
    | Appended(entry: Result<Entry, AppendError>)
    | Joined(done: Result<(), JoinError>)
    | Deleted

  // The index holds entries of the universe, none of them after the log's clock.
  ghost predicate InStep(log: Log, universe: Blocks)
    reads log.entryIndex, log.hlc
  {
    && log.entryIndex.Valid() && SubBlocks(log.entryIndex.store, universe)
    && Agree(universe, log.entryIndex.Visible())
    && Covered(log.entryIndex.Visible(), log.hlc.last.Scalar())
  }

  ghost predicate Separate(logs: seq<Log>) {
    forall i, j :: 0 <= i < j < |logs| ==> logs[i].entryIndex != logs[j].entryIndex && logs[i].hlc != logs[j].hlc
  }

  lemma ValidAgrees(log: Log, universe: Blocks)
    requires log.entryIndex.Valid() && SubBlocks(log.entryIndex.store, universe)
    ensures Agree(universe, log.entryIndex.Visible())
  {
    hide EntryIndexModel.Buffered, EntryIndexModel.Counted;
    EntryIndexModel.BufferedFacts(log.entryIndex.index, log.entryIndex.pending, log.entryIndex.store);
  }

  lemma InStepGrows(log: Log, universe: Blocks, universe': Blocks)
    requires InStep(log, universe) && SubBlocks(universe, universe')
    ensures InStep(log, universe')
  {
    hide EntryIndexModel.Buffered, EntryIndexModel.Counted, Covered;
  }

  // A new hash can be ranked above everything in the universe.
  ghost function RankAbove(universe: Blocks, hash: Hash, bound: nat): Hash -> nat {
    h => if h == hash then bound else if h in universe then universe[h].meta.timestamp.Scalar() else 0
  }

  lemma {:induction false} SomeBound(universe: Blocks) returns (bound: nat)
    ensures forall h :: h in universe ==> universe[h].meta.timestamp.Scalar() < bound
    decreases |universe|
  {
    if universe == map[] {
      bound := 0;
    } else {
      var h :| h in universe;
      var rest := universe - {h};
      assert rest.Keys == universe.Keys - {h};
      var b := SomeBound(rest);
      bound := Max(b, universe[h].meta.timestamp.Scalar() + 1);
      forall k | k in universe ensures universe[k].meta.timestamp.Scalar() < bound {
        assert k != h ==> k in rest && rest[k] == universe[k];
      }
    }
  }

  lemma RankAboveOrders(universe: Blocks, hash: Hash, bound: nat)
    requires WellMade(universe) && hash !in universe
    ensures ContentAddressed(universe, RankAbove(universe, hash, bound))
  {
    hide Leq;
    var rank := RankAbove(universe, hash, bound);
    forall h, n | h in universe && n in universe[h].meta.next ensures rank(n) < rank(h) {
      assert MadeOn(universe, universe[h]);
    }
  }

  lemma NewHashIsUnreferenced(universe: Blocks, v: View, hash: Hash)
    requires WellMade(universe) && Agree(universe, v) && hash !in universe
    ensures hash !in v && !Referenced(v, hash)
  {
    hide Leq;
    forall k, n | Points(v, k, n) ensures n in universe {
      assert v[k].SameContent(universe[k].ToShallow(false)) && MadeOn(universe, universe[k]);
    }
  }

  // Everything append asks for holds of a hash nobody has used.
  lemma NewHashIsOnTop(universe: Blocks, v: View, hash: Hash) returns (rank: Hash -> nat)
    requires WellMade(universe) && Agree(universe, v) && hash !in universe
    ensures ContentAddressed(universe, rank) && (forall h :: h in v ==> rank(h) < rank(hash))
    ensures hash !in v && !Referenced(v, hash)
  {
    hide WellMade, ContentAddressed;
    var bound := SomeBound(universe);
    rank := RankAbove(universe, hash, bound);
    RankAboveOrders(universe, hash, bound);
    NewHashIsUnreferenced(universe, v, hash);
  }

  lemma AppendedIsMade(universe: Blocks, v: View, entry: Entry, chosen: Option<seq<ShallowEntry>>)
    requires WellMade(universe) && Agree(universe, v) && WellKeyed(v) && entry.hash !in universe
    requires chosen.Some? ==> CreatedOn(chosen.value, entry) && forall n :: n in chosen.value ==> Indexed(v, n)
    requires chosen.None? ==> exists heads :: CreatedOn(heads, entry) && forall e :: e in heads <==> IsHeadOf(v, e)
    ensures WellMade(universe[entry.hash := entry]) && SubBlocks(universe, universe[entry.hash := entry])
  {
    hide WellMade, CreatedOn;
    var nexts: seq<ShallowEntry>;
    if chosen.Some? {
      nexts := chosen.value;
    } else {
      nexts :| CreatedOn(nexts, entry) && forall e :: e in nexts <==> IsHeadOf(v, e);
    }
    CreateKeepsWellMade(universe, v, nexts, entry);
  }

  // ----- One step -----

  // Copies of those of the hashes that are indexed.
  method Choose(log: Log, hashes: seq<Hash>) returns (nexts: seq<ShallowEntry>)
    requires log.entryIndex.Valid()
    ensures forall n :: n in nexts ==> Indexed(log.entryIndex.Visible(), n)
  {
    hide EntryIndexModel.Buffered, EntryIndexModel.Counted;
    EntryIndexModel.BufferedFacts(log.entryIndex.index, log.entryIndex.pending, log.entryIndex.store);
    nexts := [];
    for i := 0 to |hashes|
      invariant forall n :: n in nexts ==> Indexed(log.entryIndex.Visible(), n)
    {
      var next := log.entryIndex.GetShallow(hashes[i]);
      if next.Some? { nexts := nexts + [next.value]; }
    }
  }

  ghost predicate Makes(outcome: Outcome) { outcome.Appended? && outcome.entry.Ok? }

  // The check against the nexts does not fail, and what a step makes is new to the universe.
  ghost predicate Fits(universe: Blocks, step: LogStep, outcome: Outcome, universe': Blocks) {
    && (outcome.Skipped? <==> step.AppendStep? && step.hash in universe)
    && (outcome.Appended? ==> step.AppendStep? && outcome.entry != Err(CreateFails(NextNotBefore)))
    && universe' == if Makes(outcome) && step.AppendStep? then universe[step.hash := outcome.entry.value] else universe
  }

  method AppendOne(log: Log, step: LogStep, universe: Blocks) returns (universe': Blocks, outcome: Outcome)
    requires WellMade(universe) && InStep(log, universe) && step.AppendStep?
    modifies log.entryIndex, log.hlc
    ensures WellMade(universe') && SubBlocks(universe, universe') && InStep(log, universe')
    ensures Fits(universe, step, outcome, universe')
    ensures Makes(outcome) && step.entryType.APPEND? ==>
              log.entryIndex.Visible() == PutView(old(log.entryIndex.Visible()), outcome.entry.value, true)
  {
    hide EntryIndexModel.Buffered, EntryIndexModel.Counted, Covered, WellMade, ContentAddressed, CreatedOn, PutView,
         DeleteWalk.Scheduled, AllBefore, Agree, IsHeadOf;
    universe', outcome := universe, Outcome.Skipped;
    if step.hash in universe { return; }
    var chosen: Option<seq<ShallowEntry>> := None;
    if step.chosen.Some? {
      var nexts := Choose(log, step.chosen.value);
      chosen := Some(nexts);
    }
    ghost var v := log.entryIndex.Visible();
    EntryIndexModel.BufferedFacts(log.entryIndex.index, log.entryIndex.pending, log.entryIndex.store);
    ghost var rank := NewHashIsOnTop(universe, v, step.hash);
    var r, physical := log.Append(step.hash, step.payloadSize, None, step.entryType, step.random, chosen,
                                  step.deferIndexWrite, step.canAppend, universe, rank);
    outcome := Appended(r);
    if r.Ok? {
      AppendedIsMade(universe, v, r.value, chosen);
      universe' := universe[step.hash := r.value];
    }
    ValidAgrees(log, universe');
  }

  // The named entries of the other log's store.
  method Fetch(store: Blocks, hashes: seq<Hash>) returns (elements: seq<JoinElement>)
    ensures forall e :: e in elements ==> e.FullEntry? && exists h :: h in store && e.entry == store[h]
  {
    elements := [];
    for i := 0 to |hashes|
      invariant forall e :: e in elements ==> e.FullEntry? && exists h :: h in store && e.entry == store[h]
    {
      if hashes[i] in store { elements := elements + [FullEntry(store[hashes[i]])]; }
    }
  }

  method JoinOne(log: Log, from: Log, step: LogStep, ghost universe: Blocks) returns (r: Result<(), JoinError>)
    requires WellMade(universe) && InStep(log, universe) && InStep(from, universe) && step.JoinStep?
    modifies log.entryIndex, log.hlc
    ensures InStep(log, universe)
  {
    hide EntryIndexModel.Buffered, EntryIndexModel.Counted, Covered, ContentAddressed, BatchDone, BatchEntries,
         References, Fetchable, Agree;
    WellMadeIsAcyclic(universe);
    var storage := from.entryIndex.store;
    var elements := Fetch(storage, step.hashes);
    forall e | e in elements ensures e.Agrees(universe) {
      var h :| h in storage && e.entry == storage[h];
    }
    r := log.Join(elements, storage, step.canAppend, universe, ClockRank(universe));
    ValidAgrees(log, universe);
  }

  method DeleteOne(log: Log, hash: Hash, ghost universe: Blocks)
    requires InStep(log, universe)
    modifies log.entryIndex
    ensures InStep(log, universe)
  {
    hide EntryIndexModel.Buffered, EntryIndexModel.Counted, Covered, Agree, DeleteView;
    ghost var v := log.entryIndex.Visible();
    var r := log.entryIndex.Delete(hash, None);
    DeletedStaysCovered(v, hash, log.hlc.last.Scalar());
    ValidAgrees(log, universe);
  }

  lemma DeletedStaysCovered(v: View, hash: Hash, last: nat)
    requires Covered(v, last)
    ensures Covered(DeleteView(v, hash), last)
  {
    DeleteWalk.DeleteViewKeys(v, hash);
  }

  // ----- Whole runs -----

  ghost predicate AllInStep(logs: seq<Log>, universe: Blocks)
    reads set l | l in logs :: l.entryIndex, set l | l in logs :: l.hlc
  {
    forall i :: 0 <= i < |logs| ==> InStep(logs[i], universe)
  }

  // What a step asks of the logs it names; the next method leaves out the others.
  predicate Names(logs: seq<Log>, step: LogStep) { step.log < |logs| && (step.JoinStep? ==> step.from < |logs|) }

  method Do(logs: seq<Log>, step: LogStep, universe: Blocks) returns (universe': Blocks, outcome: Outcome)
    requires Separate(logs) && WellMade(universe) && AllInStep(logs, universe) && Names(logs, step)
    modifies logs[step.log].entryIndex, logs[step.log].hlc
    ensures WellMade(universe') && AllInStep(logs, universe') && Fits(universe, step, outcome, universe')
  {
    hide WellMade, InStep, SubBlocks;
    universe' := universe;
    var log := logs[step.log];
    SubBlocksReflexive(universe);
    match step {
      case AppendStep(_, _, _, _, _, _, _, _) =>
        universe', outcome := AppendOne(log, step, universe);
      case JoinStep(_, _, _, _) =>
        var r := JoinOne(log, logs[step.from], step, universe);
        outcome := Joined(r);
      case DeleteStep(_, hash) =>
        DeleteOne(log, hash, universe);
        outcome := Deleted;
    }
    forall i | 0 <= i < |logs| ensures InStep(logs[i], universe') {
      if i != step.log {
        assert logs[i].entryIndex != log.entryIndex && logs[i].hlc != log.hlc;
        assert InStep(logs[i], universe);
        InStepGrows(logs[i], universe, universe');
      }
    }
  }

  lemma SubBlocksReflexive(universe: Blocks)
    ensures SubBlocks(universe, universe)
  {
  }

  // The hashes of the entries that the first n steps made.
  ghost function Made(steps: seq<LogStep>, outcomes: seq<Outcome>, n: nat): set<Hash>
    requires n <= |steps| && n <= |outcomes|
  {
    set i | 0 <= i < n && Makes(outcomes[i]) && steps[i].AppendStep? :: steps[i].hash
  }

  // Which steps are skipped, and which error no append has.
  ghost predicate Expected(logs: seq<Log>, steps: seq<LogStep>, outcomes: seq<Outcome>, i: nat)
    requires i < |steps| && i < |outcomes|
  {
    && (outcomes[i].Skipped? <==>
          !Names(logs, steps[i]) || (steps[i].AppendStep? && steps[i].hash in Made(steps, outcomes, i)))
    && outcomes[i] != Appended(Err(CreateFails(NextNotBefore)))
  }

  lemma OneMore(logs: seq<Log>, steps: seq<LogStep>, outcomes: seq<Outcome>, outcome: Outcome, was: Blocks,
                universe: Blocks)
    requires |outcomes| < |steps| && was.Keys == Made(steps, outcomes, |outcomes|)
    requires forall j :: 0 <= j < |outcomes| ==> Expected(logs, steps, outcomes, j)
    requires if Names(logs, steps[|outcomes|]) then Fits(was, steps[|outcomes|], outcome, universe)
             else outcome.Skipped? && universe == was
    ensures universe.Keys == Made(steps, outcomes + [outcome], |outcomes| + 1)
    ensures forall j :: 0 <= j <= |outcomes| ==> Expected(logs, steps, outcomes + [outcome], j)
  {
    hide Names;
    var after, i := outcomes + [outcome], |outcomes|;
    forall n: nat | n <= i ensures Made(steps, after, n) == Made(steps, outcomes, n) {
      assert forall j :: 0 <= j < n ==> after[j] == outcomes[j];
    }
    assert after[i] == outcome && Expected(logs, steps, after, i);
    forall h ensures h in Made(steps, after, i + 1) <==> h in universe {
      if h in Made(steps, after, i) {
        var j :| 0 <= j < i && Makes(after[j]) && steps[j].AppendStep? && steps[j].hash == h;
        assert h in Made(steps, after, i + 1);
      }
    }
    forall j | 0 <= j < i ensures Expected(logs, steps, after, j) {
      assert Expected(logs, steps, outcomes, j) && after[j] == outcomes[j];
    }
  }

  // In every run of logs opened empty the check of append against its nexts never fails, the
  // entries made form a universe in which time and gid follow the references, and no log's clock
  // is behind anything it has indexed.
  method Run(logs: seq<Log>, steps: seq<LogStep>) returns (universe: Blocks, outcomes: seq<Outcome>)
    requires Separate(logs)
    requires forall l :: l in logs ==>
               l.entryIndex.Valid() && l.entryIndex.store == map[] && l.entryIndex.Visible() == map[]
    modifies set l | l in logs :: l.entryIndex, set l | l in logs :: l.hlc
    ensures WellMade(universe) && AllInStep(logs, universe)
    ensures |outcomes| == |steps| && universe.Keys == Made(steps, outcomes, |steps|)
    ensures forall i :: 0 <= i < |steps| ==> Expected(logs, steps, outcomes, i)
  {
    hide WellMade, InStep, SubBlocks;
    universe, outcomes := map[], [];
    EmptyIsInStep(logs);
    for i := 0 to |steps|
      invariant WellMade(universe) && AllInStep(logs, universe)
      invariant |outcomes| == i && universe.Keys == Made(steps, outcomes, i)
      invariant forall j :: 0 <= j < i ==> Expected(logs, steps, outcomes, j)
    {
      var outcome := Outcome.Skipped;
      ghost var was := universe;
      if Names(logs, steps[i]) {
        universe, outcome := Do(logs, steps[i], universe);
      }
      OneMore(logs, steps, outcomes, outcome, was, universe);
      outcomes := outcomes + [outcome];
    }
  }

  lemma EmptyIsInStep(logs: seq<Log>)
    requires forall l :: l in logs ==>
               l.entryIndex.Valid() && l.entryIndex.store == map[] && l.entryIndex.Visible() == map[]
    ensures WellMade(map[]) && AllInStep(logs, map[])
  {
    hide EntryIndexModel.Buffered, EntryIndexModel.Counted;
  }

  // So, after any run and on every log, time strictly increases along next references, however far
  // apart, up to the log's clock, and an entry's gid is the smallest of its parentless ancestors'.
  lemma TimeAndGidFollow(logs: seq<Log>, universe: Blocks, log: Log, h: Hash)
    requires WellMade(universe) && AllInStep(logs, universe) && log in logs && h in log.entryIndex.Visible()
    ensures var e := log.entryIndex.Visible()[h];
            && e.meta.timestamp.Scalar() <= log.hlc.last.Scalar()
            && (forall a :: Ancestor(universe, h, a) && a != h ==>
                  a in universe && universe[a].meta.timestamp.Before(e.meta.timestamp))
            && (exists r :: RootOf(universe, h, r) && universe[r].meta.gid == e.meta.gid)
            && (forall r :: RootOf(universe, h, r) ==> Leq(e.meta.gid, universe[r].meta.gid))
  {
    hide WellMade, Ancestor, Leq, RootOf, EntryIndexModel.Buffered, EntryIndexModel.Counted;
    assert InStep(log, universe);
    GidIsSmallestRootGid(universe, h);
    forall a | Ancestor(universe, h, a) && a != h
      ensures a in universe && universe[a].meta.timestamp.Before(universe[h].meta.timestamp)
    {
      AncestorsAreOlder(universe, h, a);
    }
  }

  // ----- A log reopened over an index that it did not build -----

  // Its clock starts from the wall clock alone.  With an entry of time 9 and a clock opened at 5,
  // the check fails exactly until the wall clock has passed 9.
  method ReopenedLogCanFail() returns (r: Result<Entry, AppendError>, ghost physical: nat)
    ensures r == Err(CreateFails(NextNotBefore)) <==> physical <= 9
  {
    hide EntryIndexModel.Buffered, EntryIndexModel.Counted, CutStored, PutView, Accepts, TooLate, IsHeadOf, CreatedOn,
         AllBefore, Covered;
    var a := Entry("a", Meta("g", Timestamp(9, 0), APPEND, []), 0);
    var index := new EntryIndexModel.EntryIndex();
    var clock := new HLC(Limits(0, 0, 0), 5, None);
    index.Put(a, true, true, true, false, false);
    var log := new Log(index, clock);
    ghost var universe: Blocks, rank: Hash -> nat := map["a" := a], h => if h == "b" then 1 else 0;
    OneEntry(a, index.Visible());
    assert clock.last == Timestamp(5, 0) by { ScalarIsExact(clock.last, Timestamp(5, 0)); }
    assert index.Visible() == map["a" := a.ToShallow(true)];
    r, physical := log.Append("b", 0, None, APPEND, "g", None, false, _ => true, universe, rank);
    FailsUntil(a, Limits(0, 0, 0), physical);
  }

  lemma ScalarIsExact(a: Timestamp, b: Timestamp)
    requires a.Scalar() == b.Scalar()
    ensures a == b
  {
  }

  lemma FailsUntil(a: Entry, limits: Limits, physical: nat)
    requires a.meta.timestamp == Timestamp(9, 0) && limits == Limits(0, 0, 0)
    ensures var v: View := map[a.hash := a.ToShallow(true)];
            (Accepts(limits, Timestamp(5, 0), Timestamp(5, 0), physical)
             && exists e :: IsHeadOf(v, e) && TooLate(e, None, Timestamp(5, 0), physical)) <==> physical <= 9
  {
    var v: View := map[a.hash := a.ToShallow(true)];
    assert IsHeadOf(v, a.ToShallow(true));
    assert TooLate(a.ToShallow(true), None, Timestamp(5, 0), physical) <==> physical <= 9;
    forall e | IsHeadOf(v, e) ensures e == a.ToShallow(true) {}
  }

  lemma OneEntry(a: Entry, v: View)
    requires a.meta.next == [] && v == PutView(map[], a, true)
    ensures v == map[a.hash := a.ToShallow(true)]
  {
  }
}
