// Joins converge: what an index holds after joining batches depends on the batches, not on their
// order, their grouping, or how often they are joined.
module JoinConvergence {
  import opened Entries
  import opened Dag
  import Clock
  import opened JoinSpec
  import opened JoinBatch

  // The reference for a join: the old entries, the batch and all its ancestors, with every head
  // flag exact.
  ghost predicate Grown(universe: Blocks, v: View, batch: set<Hash>, v': View) {
    && Agree(universe, v') && HeadsExact(v')
    && forall h :: h in v' <==> h in v || exists b :: b in batch && Ancestor(universe, b, h)
  }

  // ----- The reference determines the index, and composes -----

  lemma GrownIsUnique(universe: Blocks, v: View, batch: set<Hash>, v1: View, v2: View)
    requires Grown(universe, v, batch, v1) && Grown(universe, v, batch, v2)
    ensures v1 == v2
  {
    SameKeysSameView(universe, v1, v2);
  }

  lemma SameKeysSameView(universe: Blocks, v1: View, v2: View)
    requires Agree(universe, v1) && Agree(universe, v2) && HeadsExact(v1) && HeadsExact(v2)
    requires forall h :: h in v1 <==> h in v2
    ensures v1 == v2
  {
    assert v1.Keys == v2.Keys;
    forall h | h in v1 ensures v1[h] == v2[h] {
      SameReferences(v1, v2, h);
    }
  }

  lemma GrownComposes(universe: Blocks, v: View, b1: set<Hash>, v1: View, b2: set<Hash>, v2: View)
    requires Grown(universe, v, b1, v1) && Grown(universe, v1, b2, v2)
    ensures Grown(universe, v, b1 + b2, v2)
  {
    hide Ancestor, HeadsExact, Agree;
    forall h ensures h in v2 <==> h in v || exists b :: b in b1 + b2 && Ancestor(universe, b, h) {
      if h in v2 && h !in v {
        if h in v1 {
          var b :| b in b1 && Ancestor(universe, b, h);
          assert b in b1 + b2;
        } else {
          var b :| b in b2 && Ancestor(universe, b, h);
          assert b in b1 + b2;
        }
      }
      if b :| b in b1 + b2 && Ancestor(universe, b, h) {
        assert b in b1 || b in b2;
      }
    }
  }

  // Two batches can be joined in either order.
  lemma JoinsCommute(universe: Blocks, v: View, b1: set<Hash>, b2: set<Hash>, v1: View, v12: View, v2: View, v21: View)
    requires Grown(universe, v, b1, v1) && Grown(universe, v1, b2, v12)
    requires Grown(universe, v, b2, v2) && Grown(universe, v2, b1, v21)
    ensures v12 == v21
  {
    GrownComposes(universe, v, b1, v1, b2, v12);
    GrownComposes(universe, v, b2, v2, b1, v21);
    assert b1 + b2 == b2 + b1;
    GrownIsUnique(universe, v, b1 + b2, v12, v21);
  }

  // Joining a batch again changes nothing.
  lemma JoinIsIdempotent(universe: Blocks, v: View, batch: set<Hash>, v1: View, v2: View)
    requires Grown(universe, v, batch, v1) && Grown(universe, v1, batch, v2)
    ensures v2 == v1
  {
    GrownComposes(universe, v, batch, v1, batch, v2);
    assert batch + batch == batch;
    GrownIsUnique(universe, v, batch, v1, v2);
  }

  // A run joins batches one after the other: views[i + 1] is views[i] after batches[i].
  ghost predicate JoinRun(universe: Blocks, views: seq<View>, batches: seq<set<Hash>>) {
    && |views| == |batches| + 1
    && forall i :: 0 <= i < |batches| ==> Grown(universe, views[i], batches[i], views[i + 1])
  }

  function Union(batches: seq<set<Hash>>): set<Hash> {
    if batches == [] then {} else Union(batches[..|batches| - 1]) + batches[|batches| - 1]
  }

  lemma {:induction false} RunGrowsByUnion(universe: Blocks, views: seq<View>, batches: seq<set<Hash>>)
    requires JoinRun(universe, views, batches)
    requires Agree(universe, views[0]) && HeadsExact(views[0])
    ensures Grown(universe, views[0], Union(batches), views[|batches|])
  {
    if batches != [] {
      var n := |batches| - 1;
      RunGrowsByUnion(universe, views[..n + 1], batches[..n]);
      GrownComposes(universe, views[0], Union(batches[..n]), views[n], batches[n], views[n + 1]);
    }
  }

  // Replicas that start alike and join the same batches end alike, in whatever order, grouping
  // and multiplicity the batches arrive.
  lemma ReplicasConverge(universe: Blocks, views: seq<View>, batches: seq<set<Hash>>,
                         views': seq<View>, batches': seq<set<Hash>>)
    requires JoinRun(universe, views, batches) && JoinRun(universe, views', batches')
    requires Agree(universe, views[0]) && HeadsExact(views[0]) && views'[0] == views[0]
    requires Union(batches) == Union(batches')
    ensures views[|batches|] == views'[|batches'|]
  {
    RunGrowsByUnion(universe, views, batches);
    RunGrowsByUnion(universe, views', batches');
    GrownIsUnique(universe, views[0], Union(batches), views[|batches|], views'[|batches'|]);
  }

  // Replicas end alike once what they held and what they joined comes to the same together: those
  // that start apart, for example, once each has joined what the other held and it did not.
  lemma UnionsConverge(universe: Blocks, v: View, batch: set<Hash>, v': View, w: View, batch': set<Hash>, w': View)
    requires Closed(v) && Closed(w) && Agree(universe, v) && Agree(universe, w)
    requires Grown(universe, v, batch, v') && Grown(universe, w, batch', w')
    requires v.Keys + batch == w.Keys + batch'
    ensures v' == w'
  {
    hide Closed, Agree, Ancestor, HeadsExact;
    AncestorsOfAll(universe, v, batch, v');
    AncestorsOfAll(universe, w, batch', w');
    SameKeysSameView(universe, v', w');
  }

  lemma AncestorsOfAll(universe: Blocks, v: View, batch: set<Hash>, v': View)
    requires Closed(v) && Agree(universe, v) && Grown(universe, v, batch, v')
    ensures Agree(universe, v') && HeadsExact(v')
    ensures forall h :: h in v' <==> exists b :: b in v.Keys + batch && Ancestor(universe, b, h)
  {
    hide Closed, Agree, Ancestor, HeadsExact;
    forall h ensures h in v' <==> exists b :: b in v.Keys + batch && Ancestor(universe, b, h) {
      KeysCoverAncestors(universe, v, h);
    }
  }

  // ----- Log.Join meets the reference -----

  // Everything a join comes by is an ancestor of the entry it started from.
  lemma {:induction false} VisitIsAncestor(w: World, rank: Hash -> nat, universe: Blocks, h: Hash, x: Hash)
    requires Acyclic(w.blocks, rank) && SubBlocks(w.blocks, universe) && x in Visit(w, rank, h)
    ensures Ancestor(universe, h, x)
    decreases rank(h), 1, 0
  {
    if x == h {
      SelfIsAncestor(universe, h);
    } else {
      var n := VisitAllIsAncestor(w, rank, universe, rank(h), w.blocks[h].meta.next, x);
      AncestorOfNext(universe, h, n, x);
    }
  }

  lemma {:induction false} VisitAllIsAncestor(w: World, rank: Hash -> nat, universe: Blocks, bound: nat,
                                              nexts: seq<Hash>, x: Hash)
    returns (n: Hash)
    requires Acyclic(w.blocks, rank) && SubBlocks(w.blocks, universe)
    requires RanksBelow(nexts, rank, bound) && x in VisitAll(w, rank, bound, nexts)
    ensures n in nexts && Ancestor(universe, n, x)
    decreases bound, 0, |nexts|
  {
    hide Ancestor;
    var front, last := nexts[..|nexts| - 1], nexts[|nexts| - 1];
    if x in VisitAll(w, rank, bound, front) {
      n := VisitAllIsAncestor(w, rank, universe, bound, front, x);
    } else {
      n := last;
      VisitIsAncestor(w, rank, universe, last, x);
    }
  }

  lemma {:induction false} VisitBatchIsAncestor(w: World, rank: Hash -> nat, universe: Blocks, entries: seq<Entry>,
                                                x: Hash)
    requires Acyclic(w.blocks, rank) && SubBlocks(w.blocks, universe) && x in VisitBatch(w, rank, entries)
    ensures exists e :: e in entries && Ancestor(universe, e.hash, x)
  {
    hide Ancestor;
    if x in Visit(w, rank, entries[|entries| - 1].hash) {
      VisitIsAncestor(w, rank, universe, entries[|entries| - 1].hash, x);
      assert entries[|entries| - 1] in entries;
    } else {
      VisitBatchIsAncestor(w, rank, universe, entries[..|entries| - 1], x);
    }
  }

  // Every ancestor of the batch that is not indexed yet can be resolved and is allowed.
  ghost predicate Deliverable(w: World, universe: Blocks, entries: seq<Entry>) {
    forall e, h :: e in entries && Ancestor(universe, e.hash, h) && h !in w.known ==>
      h in w.blocks && w.canAppend(w.blocks[h])
  }

  lemma DeliverableIsStorable(w: World, rank: Hash -> nat, universe: Blocks, entries: seq<Entry>)
    requires Acyclic(w.blocks, rank) && SubBlocks(w.blocks, universe) && Deliverable(w, universe, entries)
    ensures AllStorable(w, VisitBatch(w, rank, entries))
  {
    hide VisitBatch, Acyclic, Ancestor;
    forall x | x in VisitBatch(w, rank, entries) ensures w.Storable(x) {
      VisitBatchIsAncestor(w, rank, universe, entries, x);
      var e :| e in entries && Ancestor(universe, e.hash, x);
      VisitedAreNew(w, rank, entries, x);
      forall n | n in w.blocks[x].meta.next ensures w.Resolves(n) {
        AncestorExtends(universe, e.hash, x, n);
      }
    }
  }

  lemma {:induction false} VisitedAreNew(w: World, rank: Hash -> nat, entries: seq<Entry>, x: Hash)
    requires Acyclic(w.blocks, rank) && x in VisitBatch(w, rank, entries)
    ensures x !in w.known
  {
    if x in Visit(w, rank, entries[|entries| - 1].hash) {
      VisitRanks(w, rank, entries[|entries| - 1].hash, x);
    } else {
      VisitedAreNew(w, rank, entries[..|entries| - 1], x);
    }
  }

  // The contract of Log.Join, read against the reference: the join of a deliverable batch into a
  // closed index with exact flags is the reference join.
  lemma BatchMeetsReference(w: World, rank: Hash -> nat, universe: Blocks, v: View, v': View, entries: seq<Entry>)
    requires Acyclic(w.blocks, rank) && SubBlocks(w.blocks, universe)
    requires w.known == v.Keys && Agree(universe, v) && Closed(v) && HeadsExact(v)
    requires Deliverable(w, universe, entries)
    requires BatchDone(w, rank, v, v', entries)
    ensures Grown(universe, v, EntryHashes(entries), v') && Closed(v')
  {
    DeliverableIsStorable(w, rank, universe, entries);
    JoinedAgrees(w, rank, universe, v, v', VisitBatch(w, rank, entries));
    KeysMeetReference(w, rank, universe, v, v', entries);
  }

  // Every ancestor of the elements is indexed already, or is allowed and comes from the block store
  // or with the elements.
  ghost predicate Supplied(universe: Blocks, known: set<Hash>, storage: Blocks, canAppend: Entry -> bool,
                           elements: seq<JoinElement>) {
    forall e, h :: e in elements && Ancestor(universe, e.Hash(), h) && h !in known ==>
      h in universe && canAppend(universe[h]) && (h in storage || Carries(elements, h))
  }

  // The same in terms of the elements that the caller hands over, whichever of them are indexed.
  lemma JoinMeetsReference(universe: Blocks, rank: Hash -> nat, storage: Blocks, canAppend: Entry -> bool,
                           elements: seq<JoinElement>, v: View, v': View)
    requires ContentAddressed(universe, rank) && SubBlocks(storage, universe)
    requires forall e :: e in elements ==> e.Agrees(universe)
    requires Agree(universe, v) && Closed(v) && HeadsExact(v)
    requires Fetchable(v.Keys, storage, elements) && Supplied(universe, v.Keys, storage, canAppend, elements)
    requires var blocks := storage + References(v.Keys, storage, elements);
             Acyclic(blocks, rank)
             && BatchDone(World(v.Keys, blocks, canAppend), rank, v, v', BatchEntries(v.Keys, storage, elements))
    ensures Grown(universe, v, ElementHashes(elements), v') && Closed(v')
  {
    var entries, blocks := BatchEntries(v.Keys, storage, elements), storage + References(v.Keys, storage, elements);
    CollectedInUniverse(v.Keys, storage, elements, universe);
    KeyedPart(storage, universe);
    OnlyIndexedAreLeftOut(v.Keys, storage, elements);
    SuppliedIsDeliverable(universe, v.Keys, storage, canAppend, elements);
    hide Supplied, Deliverable, BatchDone, BatchEntries, References, Fetchable, Acyclic, ContentAddressed, EntryHashes,
         ElementHashes;
    BatchMeetsReference(World(v.Keys, blocks, canAppend), rank, universe, v, v', entries);
    MoreThatIsIndexed(universe, v, EntryHashes(entries), ElementHashes(elements), v');
  }

  lemma KeyedPart(a: Blocks, universe: Blocks)
    requires SubBlocks(a, universe) && KeyedBlocks(universe)
    ensures KeyedBlocks(a)
  {
  }

  lemma SuppliedIsDeliverable(universe: Blocks, known: set<Hash>, storage: Blocks, canAppend: Entry -> bool,
                              elements: seq<JoinElement>)
    requires Supplied(universe, known, storage, canAppend, elements) && Fetchable(known, storage, elements)
    requires KeyedBlocks(storage) && SubBlocks(storage + References(known, storage, elements), universe)
    ensures var blocks := storage + References(known, storage, elements);
            Deliverable(World(known, blocks, canAppend), universe, BatchEntries(known, storage, elements))
  {
    hide Ancestor, References, BatchEntries, Fetchable, Carries;
    OnlyIndexedAreLeftOut(known, storage, elements);
    var entries, blocks := BatchEntries(known, storage, elements), storage + References(known, storage, elements);
    forall x, h | x in entries && Ancestor(universe, x.hash, h) && h !in known
      ensures h in blocks && canAppend(blocks[h])
    {
      assert x.hash in EntryHashes(entries);
      var e :| e in elements && e.Hash() == x.hash;
      if h !in storage { CarriedCanBeResolved(known, storage, elements, h); }
    }
  }

  // Into a closed index, joining indexed entries as well makes no difference.
  lemma MoreThatIsIndexed(universe: Blocks, v: View, batch: set<Hash>, more: set<Hash>, v': View)
    requires Agree(universe, v) && Closed(v) && Grown(universe, v, batch, v')
    requires batch <= more <= batch + v.Keys
    ensures Grown(universe, v, more, v')
  {
    hide Agree, Closed, Ancestor, HeadsExact;
    forall h ensures h in v' <==> h in v || exists b :: b in more && Ancestor(universe, b, h) {
      if b :| b in more && Ancestor(universe, b, h) {
        if b in v { KeysCoverAncestors(universe, v, h); }
      }
    }
  }

  lemma KeysMeetReference(w: World, rank: Hash -> nat, universe: Blocks, v: View, v': View, entries: seq<Entry>)
    requires Acyclic(w.blocks, rank) && SubBlocks(w.blocks, universe)
    requires Agree(universe, v') && Closed(v') && Present(entries, v') && v.Keys <= v'.Keys
    requires v'.Keys <= v.Keys + VisitBatch(w, rank, entries)
    ensures forall h :: h in v' <==> h in v || exists b :: b in EntryHashes(entries) && Ancestor(universe, b, h)
  {
    hide Agree, Closed, VisitBatch;
    forall h ensures h in v' <==> h in v || exists b :: b in EntryHashes(entries) && Ancestor(universe, b, h) {
      if h in v' && h !in v {
        VisitBatchIsAncestor(w, rank, universe, entries, h);
        var e :| e in entries && Ancestor(universe, e.hash, h);
        assert e.hash in EntryHashes(entries);
      }
      if b :| b in EntryHashes(entries) && Ancestor(universe, b, h) {
        var path :| Lineage(universe, path) && path[0] == b && path[|path| - 1] == h;
        LineageStaysInside(universe, v', path);
      }
    }
  }

  // A next that resolves is visited.
  lemma {:induction false} NextIsVisited(w: World, rank: Hash -> nat, bound: nat, nexts: seq<Hash>, n: Hash)
    requires Acyclic(w.blocks, rank) && RanksBelow(nexts, rank, bound)
    requires w.AllResolve(nexts) && n in nexts && n in w.blocks && n !in w.known
    ensures n in VisitAll(w, rank, bound, nexts)
  {
    if n != nexts[|nexts| - 1] {
      NextIsVisited(w, rank, bound, nexts[..|nexts| - 1], n);
    }
  }

  // canAppend may reject an entry below one it accepts, and the join stores the upper one all the
  // same.  The index stays closed exactly if that does not happen.
  lemma ClosedIffNoGap(w: World, rank: Hash -> nat, v: View, v': View, entries: seq<Entry>)
    requires Acyclic(w.blocks, rank) && w.known == v.Keys && Closed(v)
    requires BatchDone(w, rank, v, v', entries)
    ensures Closed(v') <==>
              forall x, n :: x in w.Accepted(VisitBatch(w, rank, entries)) && n in w.blocks[x].meta.next ==>
                              n in w.known || w.Storable(n)
  {
    hide Visit, VisitAll, VisitBatch, HeadsExact;
    if Closed(v') {
      forall x, n | x in w.Accepted(VisitBatch(w, rank, entries)) && n in w.blocks[x].meta.next
        ensures n in w.known || w.Storable(n)
      {
        VisitedAreNew(w, rank, entries, x);
        assert Points(v', x, n);
      }
    }
    if forall x, n :: x in w.Accepted(VisitBatch(w, rank, entries)) && n in w.blocks[x].meta.next ==>
                        n in w.known || w.Storable(n) {
      forall k, n | Points(v', k, n) ensures n in v' {
        if k in v {
          assert Points(v, k, n);
        } else {
          StoredNextIsPresent(w, rank, v', k, n);
        }
      }
    }
  }

  // "b" is joined on top of the rejected "a", and the index is left with a gap.
  lemma RejectedNextLeavesGap()
    ensures Acyclic(GapWorld().blocks, GapRank)
    ensures exists v: View :: BatchDone(GapWorld(), GapRank, map[], v, [GapWorld().blocks["b"]]) && !Closed(v)
  {
    var w := GapWorld();
    var b := w.blocks["b"];
    GapVisits();
    hide Visit, VisitAll, VisitBatch;
    var v: View := map["b" := b.ToShallow(true)];
    assert Points(v, "b", "a");
    assert !w.Storable("a");
    assert BatchDone(w, GapRank, map[], v, [b]);
  }

  function GapWorld(): World {
    var t := Clock.Timestamp(0, 0);
    World({}, map["a" := Entry("a", Meta("g", t, APPEND, []), 0), "b" := Entry("b", Meta("g", t, APPEND, ["a"]), 0)],
          (e: Entry) => e.hash == "b")
  }

  function GapRank(h: Hash): nat { if h == "b" then 1 else 0 }

  lemma GapVisits()
    ensures var w := GapWorld();
      && Acyclic(w.blocks, GapRank) && Visit(w, GapRank, "b") == {"a", "b"}
      && VisitBatch(w, GapRank, [w.blocks["b"]]) == {"a", "b"} && w.Accepted({"a", "b"}) == {"b"}
  {
    var w := GapWorld();
    assert Visit(w, GapRank, "a") == {"a"};
    assert RanksBelow(["a"], GapRank, 1) && ["a"][..0] == [] && VisitAll(w, GapRank, 1, []) == {};
    assert w.AllResolve([]) && VisitAll(w, GapRank, 1, ["a"]) == {"a"};
    var b := w.blocks["b"];
    assert [b][..0] == [];
  }

  lemma StoredNextIsPresent(w: World, rank: Hash -> nat, v: View, k: Hash, n: Hash)
    requires Acyclic(w.blocks, rank) && Settled(w, rank, v) && k in v && k !in w.known
    requires n in w.blocks[k].meta.next && (n in w.known || w.Storable(n))
    ensures n in v
  {
    if n !in w.known {
      NextIsVisited(w, rank, rank(k), w.blocks[k].meta.next, n);
      assert n in w.Accepted(Visit(w, rank, k));
    }
  }

  lemma JoinedAgrees(w: World, rank: Hash -> nat, universe: Blocks, v: View, v': View, visited: set<Hash>)
    requires Acyclic(w.blocks, rank) && SubBlocks(w.blocks, universe) && w.known == v.Keys
    requires Agree(universe, v) && Joined(w, rank, v, v', visited)
    ensures Agree(universe, v') && v.Keys <= v'.Keys <= v.Keys + visited
  {
    hide Visit;
    forall h | h in v' ensures h in universe && v'[h].SameContent(universe[h].ToShallow(false)) {
      if h in v {
        assert v'[h].SameContent(v[h]);
      }
    }
  }
}
