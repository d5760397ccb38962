// What a batch handed to Log.join (packages/log/src/log.ts) consists of, and what joining it leaves.
module JoinBatch {
  import opened Entries
  import opened Dag
  import opened JoinSpec
  import EntryIndexModel

  // An entry, a hash to fetch, or an entry with some of its ancestors attached.
  datatype JoinElement =
    | FullEntry(entry: Entry)
    | ByHash(hash: Hash)
    | WithRefs(entry: Entry, references: seq<Entry>)
  {
    function Hash(): Hash { if ByHash? then hash else entry.hash }

    ghost predicate Agrees(universe: Blocks) {
      && (!ByHash? ==> entry.hash in universe && universe[entry.hash] == entry)
      && (WithRefs? ==> forall e :: e in references ==> e.hash in universe && universe[e.hash] == e)
    }
  }

  // Elements already indexed are left out, except those that carry references.
  predicate Skips(existing: set<Hash>, element: JoinElement) { !element.WithRefs? && element.Hash() in existing }

  predicate Fetchable(existing: set<Hash>, storage: Blocks, elements: seq<JoinElement>) {
    forall e :: e in elements && e.ByHash? && e.hash !in existing ==> e.hash in storage
  }

  function Fetch(storage: Blocks, element: JoinElement): Entry
    requires element.ByHash? ==> element.hash in storage
  {
    if element.ByHash? then storage[element.hash] else element.entry
  }

  function BatchEntries(existing: set<Hash>, storage: Blocks, elements: seq<JoinElement>): seq<Entry> {
    if elements == [] || !Fetchable(existing, storage, elements) then []
    else
      var front, last := elements[..|elements| - 1], elements[|elements| - 1];
      BatchEntries(existing, storage, front) + (if Skips(existing, last) then [] else [Fetch(storage, last)])
  }

  function AddAll(m: Blocks, entries: seq<Entry>): Blocks {
    if entries == [] then m
    else AddAll(m, entries[..|entries| - 1])[entries[|entries| - 1].hash := entries[|entries| - 1]]
  }

  function References(existing: set<Hash>, storage: Blocks, elements: seq<JoinElement>): Blocks {
    if elements == [] || !Fetchable(existing, storage, elements) then map[]
    else
      var front, last := elements[..|elements| - 1], elements[|elements| - 1];
      var before := References(existing, storage, front);
      if Skips(existing, last) then before
      else
        var entry := Fetch(storage, last);
        AddAll(before[entry.hash := entry], if last.WithRefs? then last.references else [])
  }

  lemma {:induction false} AddAllInUniverse(m: Blocks, entries: seq<Entry>, universe: Blocks)
    requires SubBlocks(m, universe)
    requires forall e :: e in entries ==> e.hash in universe && universe[e.hash] == e
    ensures SubBlocks(AddAll(m, entries), universe)
    ensures forall h :: h in m ==> h in AddAll(m, entries)
  {
    if entries != [] {
      AddAllInUniverse(m, entries[..|entries| - 1], universe);
    }
  }

  ghost predicate InBlocks(entries: seq<Entry>, blocks: Blocks) {
    forall e :: e in entries ==> e.hash in blocks && blocks[e.hash] == e
  }

  // Everything collected belongs to the universe, and every collected entry can be resolved.
  lemma {:induction false} CollectedInUniverse(existing: set<Hash>, storage: Blocks, elements: seq<JoinElement>,
                                               universe: Blocks)
    requires SubBlocks(storage, universe) && KeyedBlocks(universe)
    requires forall e :: e in elements ==> e.Agrees(universe)
    ensures SubBlocks(References(existing, storage, elements), universe)
    ensures SubBlocks(storage + References(existing, storage, elements), universe)
    ensures InBlocks(BatchEntries(existing, storage, elements), storage + References(existing, storage, elements))
  {
    if elements != [] && Fetchable(existing, storage, elements) {
      var front, last := elements[..|elements| - 1], elements[|elements| - 1];
      CollectedInUniverse(existing, storage, front, universe);
      if !Skips(existing, last) {
        assert last in elements;
        var entry := Fetch(storage, last);
        var before := References(existing, storage, front);
        assert entry.hash in universe && universe[entry.hash] == entry;
        AddAllInUniverse(before[entry.hash := entry], if last.WithRefs? then last.references else [], universe);
      }
    }
  }

  function EntryHashes(entries: seq<Entry>): set<Hash> { set e | e in entries :: e.hash }

  function ElementHashes(elements: seq<JoinElement>): set<Hash> { set e | e in elements :: e.Hash() }

  // Of the elements handed to a join, only indexed ones are left out of the batch.
  lemma {:induction false} OnlyIndexedAreLeftOut(existing: set<Hash>, storage: Blocks, elements: seq<JoinElement>)
    requires Fetchable(existing, storage, elements) && KeyedBlocks(storage)
    ensures var batch := EntryHashes(BatchEntries(existing, storage, elements));
            batch <= ElementHashes(elements) <= batch + existing
  {
    if elements != [] {
      var front, last := elements[..|elements| - 1], elements[|elements| - 1];
      OnlyIndexedAreLeftOut(existing, storage, front);
      var entries := BatchEntries(existing, storage, front);
      assert elements == front + [last];
      assert ElementHashes(elements) == ElementHashes(front) + {last.Hash()};
      if !Skips(existing, last) {
        assert Fetch(storage, last).hash == last.Hash();
        assert EntryHashes(entries + [Fetch(storage, last)]) == EntryHashes(entries) + {last.Hash()};
      }
    }
  }

  lemma EntriesAreElements(existing: set<Hash>, storage: Blocks, elements: seq<JoinElement>, universe: Blocks)
    requires Fetchable(existing, storage, elements) && SubBlocks(storage, universe) && KeyedBlocks(universe)
    ensures forall e :: e in BatchEntries(existing, storage, elements) ==> e.hash in ElementHashes(elements)
  {
    hide BatchEntries, ElementHashes, Fetchable;
    OnlyIndexedAreLeftOut(existing, storage, elements);
    forall e | e in BatchEntries(existing, storage, elements) ensures e.hash in ElementHashes(elements) {
      assert e.hash in EntryHashes(BatchEntries(existing, storage, elements));
    }
  }

  // The entry comes with the elements themselves.
  predicate Carries(elements: seq<JoinElement>, h: Hash) {
    exists e :: e in elements && CarriedBy(e, h)
  }

  predicate CarriedBy(e: JoinElement, h: Hash) {
    !e.ByHash? && (e.entry.hash == h || (e.WithRefs? && exists r :: r in e.references && r.hash == h))
  }

  lemma {:induction false} AddAllHolds(m: Blocks, entries: seq<Entry>)
    ensures forall h :: h in AddAll(m, entries) <==> h in m || exists r :: r in entries && r.hash == h
  {
    if entries != [] {
      AddAllHolds(m, entries[..|entries| - 1]);
    }
  }

  lemma {:induction false} CarriedCanBeResolved(existing: set<Hash>, storage: Blocks, elements: seq<JoinElement>,
                                                h: Hash)
    requires Fetchable(existing, storage, elements) && Carries(elements, h) && h !in existing
    ensures h in References(existing, storage, elements)
  {
    var front, last := elements[..|elements| - 1], elements[|elements| - 1];
    assert elements == front + [last];
    if Carries(front, h) { CarriedCanBeResolved(existing, storage, front, h); }
    var e :| e in elements && CarriedBy(e, h);
    if !Skips(existing, last) {
      var before := References(existing, storage, front);
      var entry := Fetch(storage, last);
      AddAllHolds(before[entry.hash := entry], if last.WithRefs? then last.references else []);
    }
  }

  // ----- The loop over the entries of a batch -----

  ghost function VisitBatch(w: World, rank: Hash -> nat, entries: seq<Entry>): set<Hash>
    requires Acyclic(w.blocks, rank)
  {
    if entries == [] then {}
    else VisitBatch(w, rank, entries[..|entries| - 1]) + Visit(w, rank, entries[|entries| - 1].hash)
  }

  ghost predicate Flagged(v: View, heads: map<Hash, bool>) {
    forall h :: Owes(v, h) ==> h in heads && !heads[h]
  }

  ghost predicate Present(entries: seq<Entry>, v: View) { forall e :: e in entries ==> e.hash in v }

  // The batch meets nothing it cannot store, and starts from an index in good order.
  ghost predicate SmoothBatch(w: World, rank: Hash -> nat, v: View, entries: seq<Entry>)
    requires Acyclic(w.blocks, rank)
  {
    Closed(v) && HeadsExact(v) && AllStorable(w, VisitBatch(w, rank, entries))
  }

  ghost predicate BatchState(w: World, rank: Hash -> nat, v: View, v': View, entries: seq<Entry>,
                             heads: map<Hash, bool>, i: nat)
    requires Acyclic(w.blocks, rank)
  {
    && i <= |entries| && InBlocks(entries, w.blocks) && AppendBlocks(w.blocks)
    && Joined(w, rank, v, v', VisitBatch(w, rank, entries[..i]))
    && (SmoothBatch(w, rank, v, entries) ==>
          Closed(v') && HeadsSound(v') && Flagged(v', heads) && Present(entries[..i], v'))
  }

  // What joining a batch leaves: exactly the storable entries it came by are added, and if
  // nothing was in the way, every added entry comes with its ancestors and every head flag is
  // exact -- whatever the order of the batch.
  ghost predicate BatchDone(w: World, rank: Hash -> nat, v: View, v': View, entries: seq<Entry>)
    requires Acyclic(w.blocks, rank)
  {
    && Joined(w, rank, v, v', VisitBatch(w, rank, entries))
    && (SmoothBatch(w, rank, v, entries) ==> Closed(v') && HeadsExact(v') && Present(entries, v'))
  }

  lemma BatchStarts(w: World, rank: Hash -> nat, v: View, entries: seq<Entry>, heads: map<Hash, bool>)
    requires Acyclic(w.blocks, rank) && AppendOnly(v) && AppendBlocks(w.blocks)
    requires w.known == v.Keys && InBlocks(entries, w.blocks)
    ensures BatchState(w, rank, v, v, entries, heads, 0)
  {
    NothingJoined(w, rank, v);
    assert entries[..0] == [];
    if SmoothBatch(w, rank, v, entries) {
      HeadsExactIffNoDebt(v);
    }
  }

  lemma BatchWorld(w: World, rank: Hash -> nat, v: View, v': View, entries: seq<Entry>, heads: map<Hash, bool>, i: nat)
    requires Acyclic(w.blocks, rank) && BatchState(w, rank, v, v', entries, heads, i)
    ensures AppendWorld(w, rank, v')
  {
  }

  lemma {:induction false} SmoothEach(w: World, rank: Hash -> nat, entries: seq<Entry>, i: nat)
    requires Acyclic(w.blocks, rank) && i < |entries| && AllStorable(w, VisitBatch(w, rank, entries))
    ensures AllStorable(w, Visit(w, rank, entries[i].hash))
    decreases |entries|
  {
    if i < |entries| - 1 {
      SmoothEach(w, rank, entries[..|entries| - 1], i);
    }
  }

  lemma BatchStep(w: World, rank: Hash -> nat, v: View, v1: View, v2: View, entries: seq<Entry>,
                  heads: map<Hash, bool>, i: nat)
    requires Acyclic(w.blocks, rank) && BatchState(w, rank, v, v1, entries, heads, i) && i < |entries|
    requires entries[i].hash in heads
    requires JoinDone(w, rank, v1, v2, entries[i].hash, heads[entries[i].hash])
    ensures BatchState(w, rank, v, v2, entries, heads, i + 1)
  {
    hide Joined, Visit;
    var h := entries[i].hash;
    assert entries[..i + 1][..i] == entries[..i];
    assert entries[..i + 1] == entries[..i] + [entries[i]];
    BatchStepJoined(w, rank, v, v1, v2, VisitBatch(w, rank, entries[..i]), Visit(w, rank, h));
    if SmoothBatch(w, rank, v, entries) {
      SmoothEach(w, rank, entries, i);
      JoinedExtends(w, rank, v1, v2, Visit(w, rank, h));
    }
  }

  lemma BatchStepJoined(w: World, rank: Hash -> nat, v: View, v1: View, v2: View, a: set<Hash>, b: set<Hash>)
    requires Acyclic(w.blocks, rank) && Joined(w, rank, v, v1, a) && Joined(w, rank, v1, v2, b)
    ensures Joined(w, rank, v, v2, a + b)
  {
    hide Settled;
    ExtendsTransitive(v, v1, v2);
    assert w.Accepted(a + b) == w.Accepted(a) + w.Accepted(b);
  }

  // At the end every debt has been paid by the batch entry that lists it.
  lemma BatchEnds(w: World, rank: Hash -> nat, universe: Blocks, store: Blocks, v: View, v': View,
                  entries: seq<Entry>, heads: map<Hash, bool>)
    requires Acyclic(w.blocks, rank) && BatchState(w, rank, v, v', entries, heads, |entries|)
    requires EntryIndexModel.Stored(v', store) && SubBlocks(store, universe) && SubBlocks(w.blocks, universe)
    requires forall h :: h in heads && !heads[h] ==> exists e :: e in entries && h in e.meta.next
    ensures BatchDone(w, rank, v, v', entries)
  {
    assert entries[..|entries|] == entries;
    if SmoothBatch(w, rank, v, entries) {
      forall h ensures !Owes(v', h) {
        if Owes(v', h) {
          var e :| e in entries && h in e.meta.next;
          assert universe[e.hash] == e && store[e.hash] == universe[e.hash];
          assert Points(v', e.hash, h);
        }
      }
      HeadsExactIffNoDebt(v');
    }
  }
}
