// packages/log/src/log.ts: recursive deletion, join and append.
module LogModel {
  import opened Wrappers
  import opened Entries
  import opened Dag
  import opened EntryIndexModel
  import opened DeleteWalk
  import opened JoinSpec
  import opened JoinBatch
  import opened JoinCuts
  import opened JoinRuns
  import opened Clock
  import opened EntryCreate

  // The wall clock may read anything.
  method ReadWallClock() returns (physical: nat) {
    physical := *;
  }

  datatype JoinError = MissingBlock | ClockFailure(error: ClockError)

  datatype AppendError = ClockRejects(error: ClockError) | CreateFails(reason: CreateError)

  datatype JoinOutcome = Stored | Skipped | Thrown(error: ClockError)

  class Log {
    const entryIndex: EntryIndex
    const hlc: HLC

    constructor (entryIndex: EntryIndex, hlc: HLC)
      ensures this.entryIndex == entryIndex && this.hlc == hlc
    {
      this.entryIndex := entryIndex;
      this.hlc := hlc;
    }

    // Is there a non-CUT entry other than `hash` that lists `next`?
    method HasAlternativeNext(next: Hash, hash: Hash) returns (alternative: bool)
      requires entryIndex.Valid()
      modifies entryIndex`pending, entryIndex`index
      ensures entryIndex.Valid() && entryIndex.Visible() == old(entryIndex.Visible())
      ensures alternative <==> !SoleReferrer(entryIndex.Visible(), hash, next)
      ensures alternative <==> exists k :: Points(entryIndex.Visible(), k, next) && k != hash
                                 && entryIndex.Visible()[k].meta.entryType.APPEND?
    {
      hide Buffered, Counted;
      entryIndex.FlushPendingWrites(None);
      assert entryIndex.index == entryIndex.Visible();
      alternative := exists k :: k in entryIndex.index && next in entryIndex.index[k].meta.next
                                 && !entryIndex.index[k].meta.entryType.CUT? && k != hash;
      if alternative {
        var k :| k in entryIndex.index && next in entryIndex.index[k].meta.next
                 && !entryIndex.index[k].meta.entryType.CUT? && k != hash;
        assert Points(entryIndex.Visible(), k, next);
      }
    }

    // The inner loop of prepareDeleteRecursively: what one entry pushes on the stack.
    method NextsToWalk(entry: Node, ghost rank: Hash -> nat) returns (pushed: seq<Node>)
      requires entryIndex.Valid() && Acyclic(entryIndex.store, rank) && GoodNode(entry, rank)
      modifies entryIndex`pending, entryIndex`index
      ensures entryIndex.Valid() && entryIndex.Visible() == old(entryIndex.Visible())
      ensures forall x :: x in pushed ==> IsStep(entryIndex.Visible(), entryIndex.store, entry, x) && GoodNode(x, rank)
      ensures forall n :: StepsTo(entryIndex.Visible(), entryIndex.store, entry, n) ==>
                NodeOf(entryIndex.store, n) in pushed
      ensures StackWeight(entryIndex.store, rank, pushed) < NodeWeight(entryIndex.store, rank, entry)
    {
      hide Buffered, Counted, SoleReferrer, Acyclic, GoodNode, RanksBelow, NodeWeight;
      ghost var store, v := entryIndex.store, entryIndex.Visible();
      pushed := [];
      PrefixRanks(entry, rank, 0);
      assert entry.next[..0] == [];
      for i := 0 to |entry.next|
        invariant entryIndex.Valid() && entryIndex.Visible() == v
        invariant RanksBelow(entry.next[..i], rank, rank(entry.hash))
        invariant forall x :: x in pushed ==> IsStep(v, store, entry, x) && GoodNode(x, rank)
        invariant forall j :: 0 <= j < i && StepsTo(v, store, entry, entry.next[j]) ==>
                    NodeOf(store, entry.next[j]) in pushed
        invariant StackWeight(store, rank, pushed) <= Weights(store, rank, rank(entry.hash), entry.next[..i])
      {
        var next := entry.next[i];
        PrefixRanks(entry, rank, i + 1);
        assert entry.next[..i + 1][..i] == entry.next[..i];
        var hasAlternativeNext := HasAlternativeNext(next, entry.hash);
        if !hasAlternativeNext && next in entryIndex.store {
          NextIsGood(store, rank, next);
          PushedWeight(store, rank, pushed, NodeOf(store, next));
          pushed := pushed + [NodeOf(entryIndex.store, next)];
        }
      }
      assert entry.next[..|entry.next|] == entry.next;
      NodeIsHeavier(store, rank, entry);
    }

    method PrepareDeleteRecursively(from: seq<Node>, skipFirst: bool, ghost rank: Hash -> nat)
      returns (toDelete: seq<ShallowEntry>)
      requires entryIndex.Valid() && Acyclic(entryIndex.store, rank)
      requires forall x :: x in from ==> GoodNode(x, rank)
      modifies entryIndex`pending, entryIndex`index
      ensures entryIndex.Valid() && entryIndex.Visible() == old(entryIndex.Visible())
      ensures forall e :: e in toDelete ==> e.hash in entryIndex.Visible() && entryIndex.Visible()[e.hash] == e
      ensures forall h :: (exists e :: e in toDelete && e.hash == h)
                          <==> Scheduled(entryIndex.Visible(), entryIndex.store, from, skipFirst, h)
    {
      hide Buffered, Counted, Acyclic, GoodNode, NodeWeight, StackWeight, StepsTo, WalkState, Deletes, Scheduled;
      var stack := from;
      var counter := 0;
      toDelete := [];
      ghost var store, v := entryIndex.store, entryIndex.Visible();
      ghost var visited: set<Node> := {};
      WalkStateStarts(v, store, from, skipFirst);
      BufferedFacts(entryIndex.index, entryIndex.pending, store);
      while |stack| > 0
        invariant entryIndex.Valid() && entryIndex.Visible() == v
        invariant forall x :: x in stack ==> GoodNode(x, rank)
        invariant WalkState(v, store, from, skipFirst, counter, stack, visited)
        invariant Deletes(v, visited, toDelete)
        decreases StackWeight(store, rank, stack)
      {
        ghost var stack0, visited0 := stack, visited;
        var entry := stack[|stack| - 1];
        StackSplits(store, rank, stack);
        stack := stack[..|stack| - 1];
        var skip := counter == 0 && skipFirst;
        if !skip {
          visited := visited + {entry};
          DeletesStep(v, visited0, toDelete, entry);
          var shallow := entryIndex.GetShallow(entry.hash);
          if shallow.Some? {
            toDelete := toDelete + [shallow.value];
          }
        }
        var pushed := NextsToWalk(entry, rank);
        WalkStateStep(v, store, from, skipFirst, counter, stack0, visited0, pushed, visited);
        ConcatWeight(store, rank, stack, pushed);
        stack := stack + pushed;
        counter := counter + 1;
      }
      WalkStateDone(v, store, from, skipFirst, counter, visited, toDelete);
    }

    // Runs the scheduled deletes, each with the copy of the entry taken while scheduling.
    method RunDeletes(toDelete: seq<ShallowEntry>)
      requires entryIndex.Valid()
      requires forall e :: e in toDelete ==> e.hash in entryIndex.Visible() && entryIndex.Visible()[e.hash] == e
      modifies entryIndex
      ensures entryIndex.Valid()
      ensures entryIndex.Visible() == DeleteAll(old(entryIndex.Visible()), Hashes(toDelete))
      ensures entryIndex.store == old(entryIndex.store) - Elements(Hashes(toDelete))
    {
      hide Buffered, Counted, DeleteView, Elements;
      ghost var v, hashes := entryIndex.Visible(), Hashes(toDelete);
      assert old(entryIndex.store) - Elements(hashes[..0]) == old(entryIndex.store) by {
        WithoutNone(old(entryIndex.store), hashes);
      }
      for i := 0 to |toDelete|
        invariant entryIndex.Valid()
        invariant entryIndex.Visible() == DeleteAll(v, hashes[..i])
        invariant entryIndex.store == old(entryIndex.store) - Elements(hashes[..i])
      {
        var e := toDelete[i];
        assert hashes[..i + 1][..i] == hashes[..i];
        WithoutOneMore(old(entryIndex.store), hashes, i);
        DeleteAllKeeps(v, hashes[..i]);
        var _ := entryIndex.Delete(e.hash, Some(e));
      }
      assert hashes[..|toDelete|] == hashes;
    }

    method DeleteRecursively(from: seq<Node>, skipFirst: bool, ghost rank: Hash -> nat)
      requires entryIndex.Valid() && Acyclic(entryIndex.store, rank)
      requires forall x :: x in from ==> GoodNode(x, rank)
      modifies entryIndex
      ensures entryIndex.Valid()
      ensures SubBlocks(entryIndex.store, old(entryIndex.store))
      ensures forall h :: h in old(entryIndex.store) ==>
                (h in entryIndex.store <==> h in entryIndex.Visible() || h !in old(entryIndex.Visible()))
      ensures forall h :: h in entryIndex.Visible() <==>
                h in old(entryIndex.Visible())
                && !Scheduled(old(entryIndex.Visible()), old(entryIndex.store), from, skipFirst, h)
      ensures Extends(entryIndex.Visible(), old(entryIndex.Visible()))
    {
      hide Buffered, Counted, Scheduled, GoodNode;
      ghost var v, store := entryIndex.Visible(), entryIndex.store;
      var toDelete := PrepareDeleteRecursively(from, skipFirst, rank);
      RunDeletes(toDelete);
      DeleteAllKeeps(v, Hashes(toDelete));
      HashesContain(toDelete);
    }

    // A CUT head of the same gid that lists the entry and is newer has already deleted it.
    method AlreadyCut(entry: Entry) returns (cut: bool)
      requires entryIndex.Valid()
      modifies entryIndex`pending, entryIndex`index
      ensures entryIndex.Valid() && entryIndex.Visible() == old(entryIndex.Visible())
      ensures cut <==> CutAlready(entryIndex.Visible(), entry)
      ensures cut <==> exists k :: Points(entryIndex.Visible(), k, entry.hash)
                         && var e := entryIndex.Visible()[k];
                            && e.meta.entryType.CUT? && e.head && e.meta.gid == entry.meta.gid
                            && entry.meta.timestamp.Scalar() < e.meta.timestamp.Scalar()
    {
      hide Buffered, Counted;
      entryIndex.FlushPendingWrites(None);
      assert entryIndex.index == entryIndex.Visible();
      cut := exists k :: k in entryIndex.index && entry.hash in entryIndex.index[k].meta.next
                         && CutsOff(entryIndex.index[k], entry);
      if cut {
        var k :| k in entryIndex.index && entry.hash in entryIndex.index[k].meta.next
                 && CutsOff(entryIndex.index[k], entry);
        assert Points(entryIndex.Visible(), k, entry.hash);
      }
    }

    // Bottom up: the missing nexts first, then the entry.
    method JoinRecursively(entry: Entry, isHead: bool, blocks: Blocks, canAppend: Entry -> bool,
                           ghost universe: Blocks, ghost known: set<Hash>, ghost rank: Hash -> nat)
      returns (r: JoinOutcome)
      requires entryIndex.Valid() && ContentAddressed(universe, rank)
      requires SubBlocks(entryIndex.store, universe) && SubBlocks(blocks, universe) && Acyclic(blocks, rank)
      requires entry.hash in blocks && blocks[entry.hash] == entry
      modifies entryIndex, hlc
      ensures entryIndex.Valid() && SubBlocks(entryIndex.store, universe)
      ensures NewRanksBelow(old(entryIndex.Visible()), entryIndex.Visible(), rank, rank(entry.hash) + 1)
      ensures ClockKeeps(old(entryIndex.Visible()), old(hlc.last), entryIndex.Visible(), hlc.last)
      ensures var w := World(known, blocks, canAppend);
              AppendWorld(w, rank, old(entryIndex.Visible())) && !r.Thrown? ==>
                && JoinDone(w, rank, old(entryIndex.Visible()), entryIndex.Visible(), entry.hash, isHead)
                && (r.Stored? <==> entry.hash !in old(entryIndex.Visible()) && w.Storable(entry.hash))
      ensures Traced(universe, {entry.hash}, old(entryIndex.Visible()), entryIndex.Visible())
      ensures !r.Thrown? ==>
                JoinsOne(World(known, blocks, canAppend), rank, Held(old(entryIndex.Visible()), old(entryIndex.store)),
                         entry.hash, isHead, Held(entryIndex.Visible(), entryIndex.store))
      ensures entry.meta.entryType.CUT? && !r.Thrown? ==>
                (r.Stored? <==>
                   var v := old(entryIndex.Visible()); entry.hash !in v && !CutAlready(v, entry) && canAppend(entry))
      ensures entry.meta.entryType.CUT? && !r.Stored? ==> entryIndex.Visible() == old(entryIndex.Visible())
      ensures entry.meta.entryType.CUT? && r.Stored? ==>
                Takes(Held(old(entryIndex.Visible()), old(entryIndex.store)), entry, isHead,
                      Held(entryIndex.Visible(), entryIndex.store))
      ensures r.Thrown? ==> NamesLimit(hlc.limits, r.error)
      decreases rank(entry.hash), 1
    {
      hide Buffered, Counted, Acyclic, JoinDone, NextsDone, Settled, ContentAddressed, SubBlocks, Traced, CutStored,
           JoinsOne, JoinsNexts, NextsStop, Takes;
      ghost var w, v, last0 := World(known, blocks, canAppend), entryIndex.Visible(), hlc.last;
      ghost var append, h, s := AppendWorld(w, rank, v), entry.hash, Held(v, entryIndex.store);
      SameIsTraced(universe, {h}, v);
      var existing := entryIndex.GetShallow(entry.hash);
      if existing.Some? {
        if append { JoinAlreadyIndexed(w, rank, v, h, isHead); }
        OneIsKnown(w, rank, s, h, isHead);
        return Skipped;
      }
      if append { UnindexedIsUnknown(w, rank, v, h); }
      var cut := AlreadyCut(entry);
      if cut {
        OneIsKnown(w, rank, s, h, isHead);
        return Skipped;
      }
      if !entry.meta.entryType.CUT? {
        r := JoinNexts(entry, isHead, blocks, canAppend, universe, known, rank);
        if !r.Stored? {
          if r.Skipped? { OneStops(w, rank, s, h, isHead, Held(entryIndex.Visible(), entryIndex.store)); }
          return;
        }
      }
      ghost var v1, last1, s1 := entryIndex.Visible(), hlc.last, Held(entryIndex.Visible(), entryIndex.store);
      if !canAppend(entry) {
        if append { JoinRejects(w, rank, v, v1, h, isHead); }
        OneIsAdmitted(w, rank, s, h, isHead, s1, s1);
        return Skipped;
      }
      PartOfUniverse(blocks, universe, rank);
      BlockIsInUniverse(blocks, universe, entry);
      r := StoreJoined(entry, isHead, universe, rank);
      ClockKeepsOn(v, last0, v1, last1, entryIndex.Visible(), hlc.last);
      TracedOn(universe, {h}, v, v1, entryIndex.Visible());
      if r.Stored? { OneIsAdmitted(w, rank, s, h, isHead, s1, Held(entryIndex.Visible(), entryIndex.store)); }
      if append && r.Stored? {
        NextsAllDone(w, rank, v, v1, h);
        JoinStores(w, rank, v, v1, h, isHead);
      }
    }

    // The loop over the nexts.  Stored means that all of them resolved.
    method JoinNexts(entry: Entry, ghost isHead: bool, blocks: Blocks, canAppend: Entry -> bool,
                     ghost universe: Blocks, ghost known: set<Hash>, ghost rank: Hash -> nat)
      returns (r: JoinOutcome)
      requires entryIndex.Valid() && ContentAddressed(universe, rank)
      requires SubBlocks(entryIndex.store, universe) && SubBlocks(blocks, universe) && Acyclic(blocks, rank)
      requires entry.hash in blocks && blocks[entry.hash] == entry && entry.hash !in entryIndex.Visible()
      modifies entryIndex, hlc
      ensures entryIndex.Valid() && SubBlocks(entryIndex.store, universe)
      ensures NewRanksBelow(old(entryIndex.Visible()), entryIndex.Visible(), rank, rank(entry.hash))
      ensures ClockKeeps(old(entryIndex.Visible()), old(hlc.last), entryIndex.Visible(), hlc.last)
      ensures var w := World(known, blocks, canAppend);
              AppendWorld(w, rank, old(entryIndex.Visible())) ==>
                && (r.Stored? ==>
                      NextsDone(w, rank, old(entryIndex.Visible()), entryIndex.Visible(), entry.hash,
                                |entry.meta.next|))
                && (r.Skipped? ==>
                      JoinDone(w, rank, old(entryIndex.Visible()), entryIndex.Visible(), entry.hash, isHead)
                                   && !w.Storable(entry.hash))
      ensures Traced(universe, {entry.hash}, old(entryIndex.Visible()), entryIndex.Visible())
      ensures var w, s := World(known, blocks, canAppend), Held(old(entryIndex.Visible()), old(entryIndex.store));
              var s' := Held(entryIndex.Visible(), entryIndex.store);
              && (r.Stored? ==> JoinsNexts(w, rank, s, entry.hash, |entry.meta.next|, s'))
              && (r.Skipped? ==> NextsStop(w, rank, s, entry.hash, s'))
      ensures r.Thrown? ==> NamesLimit(hlc.limits, r.error)
      decreases rank(entry.hash), 0
    {
      hide Buffered, Counted, Acyclic, JoinDone, NextsDone, Settled, ContentAddressed, SubBlocks, Traced, CutStored,
           CutAlready, JoinsOne, JoinsNexts, NextsStop, Takes;
      ghost var w, v, last0 := World(known, blocks, canAppend), entryIndex.Visible(), hlc.last;
      ghost var append, h, s := AppendWorld(w, rank, v), entry.hash, Held(v, entryIndex.store);
      SameIsTraced(universe, {h}, v);
      NoNextsYet(w, rank, s, h);
      if append {
        UnindexedIsUnknown(w, rank, v, h);
        NextsStart(w, rank, v, h);
      }
      for i := 0 to |entry.meta.next|
        invariant entryIndex.Valid() && SubBlocks(entryIndex.store, universe)
        invariant NewRanksBelow(v, entryIndex.Visible(), rank, rank(entry.hash))
        invariant ClockKeeps(v, last0, entryIndex.Visible(), hlc.last)
        invariant append ==> NextsDone(w, rank, v, entryIndex.Visible(), h, i)
        invariant Traced(universe, {h}, v, entryIndex.Visible())
        invariant JoinsNexts(w, rank, s, h, i, Held(entryIndex.Visible(), entryIndex.store))
      {
        var a := entry.meta.next[i];
        ghost var v1, last1, s1 := entryIndex.Visible(), hlc.last, Held(entryIndex.Visible(), entryIndex.store);
        var existing := entryIndex.GetShallow(a);
        if append { NextsDoneWorld(w, rank, v, v1, h, i); }
        if existing.Some? {
          if append {
            JoinAlreadyIndexed(w, rank, v1, a, false);
            NextsStep(w, rank, v, v1, v1, h, i);
          }
          OneMoreNext(w, rank, s, h, i, s1, s1);
          continue;
        }
        if a !in blocks {
          if append {
            MissingStaysMissing(w, rank, v1, a);
            JoinStopsAtMissing(w, rank, v, v1, h, isHead, i);
          }
          StopsHere(w, rank, s, h, i, s1);
          return Skipped;
        }
        PartOfUniverse(blocks, universe, rank);
        NestedIsBelow(blocks, rank, entry, i);
        var nested := JoinRecursively(blocks[a], false, blocks, canAppend, universe, known, rank);
        NewRanksOn(v, v1, entryIndex.Visible(), rank, rank(a) + 1, rank(entry.hash));
        ClockKeepsOn(v, last0, v1, last1, entryIndex.Visible(), hlc.last);
        TracedThroughNext(universe, blocks, entry, a, v, v1, entryIndex.Visible());
        if nested.Thrown? {
          return nested;
        }
        if append { NextsStep(w, rank, v, v1, entryIndex.Visible(), h, i); }
        OneMoreNext(w, rank, s, h, i, s1, Held(entryIndex.Visible(), entryIndex.store));
      }
      return Stored;
    }

    // Advances the clock past the entry, indexes it, and lets a CUT delete what it lists.
    method StoreJoined(entry: Entry, isHead: bool, ghost universe: Blocks, ghost rank: Hash -> nat)
      returns (r: JoinOutcome)
      requires entryIndex.Valid() && SubBlocks(entryIndex.store, universe)
      requires ContentAddressed(universe, rank) && entry.hash in universe && universe[entry.hash] == entry
      requires entry.hash !in entryIndex.Visible()
      modifies entryIndex, hlc
      ensures entryIndex.Valid() && SubBlocks(entryIndex.store, universe)
      ensures !r.Skipped?
      ensures r.Thrown? ==> entryIndex.Visible() == old(entryIndex.Visible())
      ensures r.Stored? && entry.meta.entryType.APPEND? ==>
                entryIndex.Visible() == PutView(old(entryIndex.Visible()), entry, isHead)
      ensures r.Stored? ==>
                Takes(Held(old(entryIndex.Visible()), old(entryIndex.store)), entry, isHead,
                      Held(entryIndex.Visible(), entryIndex.store))
      ensures entryIndex.Visible().Keys <= old(entryIndex.Visible()).Keys + {entry.hash}
      ensures Traced(universe, {entry.hash}, old(entryIndex.Visible()), entryIndex.Visible())
      ensures ClockKeeps(old(entryIndex.Visible()), old(hlc.last), entryIndex.Visible(), hlc.last)
      ensures r.Stored? ==> entry.meta.timestamp.Before(hlc.last) && old(hlc.last).Before(hlc.last)
      ensures r.Thrown? ==> hlc.last == old(hlc.last) && NamesLimit(hlc.limits, r.error)
    {
      hide Buffered, Counted, PutView, GoodNode, Acyclic, ContentAddressed, Covered, Tick, Advance, Accepts, Scheduled,
           Traced, Takes, CutStored, SubBlocks;
      ghost var v, last0 := entryIndex.Visible(), hlc.last;
      var physical := ReadWallClock();
      var update := hlc.Update(entry.meta.timestamp, physical);
      if update.Err? {
        SameIsTraced(universe, {entry.hash}, v);
        return Thrown(update.error);
      }
      AdvanceIsAboveBoth(last0, entry.meta.timestamp, physical);
      entryIndex.Put(entry, false, isHead, true, false, true);
      PutKeepsCovered(v, entry, isHead, last0.Scalar(), hlc.last.Scalar());
      PutExtends(v, entry, isHead);
      ghost var v1 := entryIndex.Visible();
      ghost var store1 := entryIndex.store;
      assert SubBlocks(store1, universe) by { PutBlock(old(entryIndex.store), universe, entry); }
      ProcessEntry(entry, universe, rank);
      TookIn(Held(v, old(entryIndex.store)), entry, isHead, Held(entryIndex.Visible(), entryIndex.store));
      CoveredShrinks(v1, entryIndex.Visible(), hlc.last.Scalar());
      if entry.meta.entryType.CUT? {
        CutIsTraced(universe, store1, entry, v, v1, entryIndex.Visible());
      } else {
        AppendIsTraced(universe, entry, v, v1);
      }
      return Stored;
    }

    // A CUT entry deletes what it lists and whatever only hangs on that.
    method ProcessEntry(entry: Entry, ghost universe: Blocks, ghost rank: Hash -> nat)
      requires entryIndex.Valid() && SubBlocks(entryIndex.store, universe)
      requires ContentAddressed(universe, rank) && entry.hash in universe && universe[entry.hash] == entry
      modifies entryIndex
      ensures entryIndex.Valid() && SubBlocks(entryIndex.store, universe)
      ensures entry.meta.entryType.APPEND? ==>
                entryIndex.Visible() == old(entryIndex.Visible()) && entryIndex.store == old(entryIndex.store)
      ensures SubBlocks(entryIndex.store, old(entryIndex.store))
      ensures forall h :: h in old(entryIndex.store) ==>
                (h in entryIndex.store <==> h in entryIndex.Visible() || h !in old(entryIndex.Visible()))
      ensures entry.meta.entryType.CUT? ==>
                forall h :: h in entryIndex.Visible() <==>
                  h in old(entryIndex.Visible())
                  && !Scheduled(old(entryIndex.Visible()), old(entryIndex.store), [Node(entry.hash, entry.meta.next)],
                                true, h)
      ensures Extends(entryIndex.Visible(), old(entryIndex.Visible()))
    {
      hide Buffered, Counted, Scheduled, GoodNode, Acyclic, ContentAddressed;
      if entry.meta.entryType.CUT? {
        PartOfUniverse(entryIndex.store, universe, rank);
        PartOfUniverse(universe, universe, rank);
        EntryIsGoodNode(universe, rank, entry);
        DeleteRecursively([Node(entry.hash, entry.meta.next)], true, rank);
      }
    }

    // The entries of a batch that have to be joined, and the blocks their nexts resolve from.
    method Collect(elements: seq<JoinElement>, storage: Blocks) returns (r: Result<(seq<Entry>, Blocks), JoinError>)
      requires entryIndex.Valid()
      ensures var existing := entryIndex.Visible().Keys;
              r == if Fetchable(existing, storage, elements)
                   then Ok((BatchEntries(existing, storage, elements),
                            storage + References(existing, storage, elements)))
                   else Err(MissingBlock)
    {
      hide Buffered, Counted;
      var existing := entryIndex.HasMany(set e | e in elements :: e.Hash());
      var entries: seq<Entry> := [];
      var references: Blocks := map[];
      ghost var indexed := entryIndex.Visible().Keys;
      for i := 0 to |elements|
        invariant Fetchable(indexed, storage, elements[..i])
        invariant entries == BatchEntries(indexed, storage, elements[..i])
        invariant references == References(indexed, storage, elements[..i])
      {
        var element := elements[i];
        assert elements[..i + 1][..i] == elements[..i];
        assert element in elements;
        assert element.Hash() in existing <==> element.Hash() in indexed;
        match element
        case FullEntry(entry) =>
          if entry.hash !in existing {
            entries := entries + [entry];
            references := references[entry.hash := entry];
          }
        case ByHash(hash) =>
          if hash !in existing {
            if hash !in storage {
              assert element in elements && element.ByHash?;
              return Err(MissingBlock);
            }
            entries := entries + [storage[hash]];
            references := references[storage[hash].hash := storage[hash]];
          }
        case WithRefs(entry, refs) =>
          entries := entries + [entry];
          references := references[entry.hash := entry];
          ghost var before := references;
          for j := 0 to |refs|
            invariant references == AddAll(before, refs[..j])
          {
            assert refs[..j + 1][..j] == refs[..j];
            references := references[refs[j].hash := refs[j]];
          }
          assert refs[..|refs|] == refs;
      }
      assert elements[..|elements|] == elements;
      return Ok((entries, storage + references));
    }

    // Every entry of the batch gets a flag, and a false one only if another one lists it.
    method BatchHeads(entries: seq<Entry>) returns (heads: map<Hash, bool>)
      ensures heads == HeadFlags(entries)
      ensures forall e :: e in entries ==> e.hash in heads
      ensures forall h :: h in heads && !heads[h] ==> exists e :: e in entries && h in e.meta.next
    {
      heads := map[];
      for i := 0 to |entries|
        invariant heads == HeadFlags(entries[..i])
        invariant forall e :: e in entries[..i] ==> e.hash in heads
        invariant forall h :: h in heads && !heads[h] ==> exists e :: e in entries && h in e.meta.next
      {
        var entry := entries[i];
        assert entry in entries;
        assert entries[..i + 1][..i] == entries[..i];
        if entry.hash in heads {
          continue;
        }
        heads := heads[entry.hash := true];
        ghost var flags := heads;
        for j := 0 to |entry.meta.next|
          invariant heads == Unflagged(flags, entry.meta.next[..j])
          invariant forall e :: e in entries[..i + 1] ==> e.hash in heads
          invariant forall h :: h in heads && !heads[h] ==> exists e :: e in entries && h in e.meta.next
        {
          assert entry.meta.next[..j + 1][..j] == entry.meta.next[..j];
          heads := heads[entry.meta.next[j] := false];
        }
        assert entry.meta.next[..|entry.meta.next|] == entry.meta.next;
      }
      assert entries[..|entries|] == entries;
    }

    method Join(elements: seq<JoinElement>, storage: Blocks, canAppend: Entry -> bool,
                ghost universe: Blocks, ghost rank: Hash -> nat)
      returns (r: Result<(), JoinError>)
      requires entryIndex.Valid() && ContentAddressed(universe, rank)
      requires SubBlocks(entryIndex.store, universe) && SubBlocks(storage, universe)
      requires forall e :: e in elements ==> e.Agrees(universe)
      modifies entryIndex, hlc
      ensures entryIndex.Valid() && SubBlocks(entryIndex.store, universe)
      ensures ClockKeeps(old(entryIndex.Visible()), old(hlc.last), entryIndex.Visible(), hlc.last)
      ensures var v := old(entryIndex.Visible());
              var entries := BatchEntries(v.Keys, storage, elements);
              var blocks := storage + References(v.Keys, storage, elements);
              AppendOnly(v) && AppendBlocks(blocks) && r.Ok? ==>
                Acyclic(blocks, rank)
                && BatchDone(World(v.Keys, blocks, canAppend), rank, v, entryIndex.Visible(), entries)
      ensures r.Ok? ==>
                var s := Held(old(entryIndex.Visible()), old(entryIndex.store));
                var s' := Held(entryIndex.Visible(), entryIndex.store);
                var entries := BatchEntries(s.v.Keys, storage, elements);
                var blocks := storage + References(s.v.Keys, storage, elements);
                Acyclic(blocks, rank)
                && JoinsBatch(World(s.v.Keys, blocks, canAppend), rank, s, entries, |entries|, s')
      ensures r.Ok? ==> forall c :: elements == [FullEntry(c)] && c.meta.entryType.CUT? ==>
                var v := old(entryIndex.Visible());
                if c.hash in v || CutAlready(v, c) || !canAppend(c) then entryIndex.Visible() == v
                else CutStored(v, old(entryIndex.store), c, true, entryIndex.Visible())
      ensures Traced(universe, ElementHashes(elements), old(entryIndex.Visible()), entryIndex.Visible())
      ensures r == Err(MissingBlock) <==> !Fetchable(old(entryIndex.Visible()).Keys, storage, elements)
      ensures r == Err(MissingBlock) ==> entryIndex.Visible() == old(entryIndex.Visible())
      ensures r.Err? && r.error.ClockFailure? ==> NamesLimit(hlc.limits, r.error.error)
    {
      hide Buffered, Counted, ContentAddressed, Acyclic, KeyedBlocks, JoinDone, Joined, Settled, BatchDone, BatchState,
           Fetchable, BatchEntries, References, Traced, CutStored, ElementHashes, JoinsOne, JoinsBatch, HeadFlags,
           CutAlready;
      ghost var v, tops := entryIndex.Visible(), ElementHashes(elements);
      SameIsTraced(universe, tops, v);
      var collected := Collect(elements, storage);
      if collected.Err? {
        return Err(collected.error);
      }
      var (entries, blocks) := collected.value;
      PartOfUniverse(universe, universe, rank);
      CollectedInUniverse(v.Keys, storage, elements, universe);
      PartOfUniverse(blocks, universe, rank);
      EntriesAreElements(v.Keys, storage, elements, universe);
      ghost var w := World(v.Keys, blocks, canAppend);
      ghost var append := AppendOnly(v) && AppendBlocks(blocks);
      ghost var s := Held(v, entryIndex.store);
      var heads := BatchHeads(entries);
      r := JoinEntries(entries, heads, blocks, canAppend, tops, universe, rank);
      if r.Ok? {
        ghost var s' := Held(entryIndex.Visible(), entryIndex.store);
        JoinOfSingleCut(elements, storage, canAppend, rank, s, s');
        if append {
          BufferedFacts(entryIndex.index, entryIndex.pending, entryIndex.store);
          BatchEnds(w, rank, universe, entryIndex.store, v, entryIndex.Visible(), entries, heads);
        }
      }
    }

    // The loop over the batch.
    method JoinEntries(entries: seq<Entry>, heads: map<Hash, bool>, blocks: Blocks, canAppend: Entry -> bool,
                       ghost tops: set<Hash>, ghost universe: Blocks, ghost rank: Hash -> nat)
      returns (r: Result<(), JoinError>)
      requires entryIndex.Valid() && ContentAddressed(universe, rank)
      requires SubBlocks(entryIndex.store, universe) && SubBlocks(blocks, universe)
      requires Acyclic(blocks, rank) && InBlocks(entries, blocks) && forall e :: e in entries ==> e.hash in tops
      requires heads == HeadFlags(entries) && forall e :: e in entries ==> e.hash in heads
      requires forall h :: h in heads && !heads[h] ==> exists e :: e in entries && h in e.meta.next
      modifies entryIndex, hlc
      ensures entryIndex.Valid() && SubBlocks(entryIndex.store, universe)
      ensures ClockKeeps(old(entryIndex.Visible()), old(hlc.last), entryIndex.Visible(), hlc.last)
      ensures var v := old(entryIndex.Visible());
              AppendOnly(v) && AppendBlocks(blocks) && r.Ok? ==>
                BatchState(World(v.Keys, blocks, canAppend), rank, v, entryIndex.Visible(), entries, heads, |entries|)
      ensures r.Ok? ==>
                var s, s' := Held(old(entryIndex.Visible()), old(entryIndex.store)),
                             Held(entryIndex.Visible(), entryIndex.store);
                JoinsBatch(World(s.v.Keys, blocks, canAppend), rank, s, entries, |entries|, s')
      ensures Traced(universe, tops, old(entryIndex.Visible()), entryIndex.Visible())
      ensures r.Err? ==> r.error.ClockFailure? && NamesLimit(hlc.limits, r.error.error)
    {
      hide Buffered, Counted, ContentAddressed, Acyclic, KeyedBlocks, JoinDone, Joined, Settled, BatchState,
           Traced, CutStored, CutAlready, Takes, JoinsOne, JoinsBatch, HeadFlags, NamesLimit;
      ghost var v, last0, s := entryIndex.Visible(), hlc.last, Held(entryIndex.Visible(), entryIndex.store);
      ghost var w, append := World(v.Keys, blocks, canAppend), AppendOnly(v) && AppendBlocks(blocks);
      SameIsTraced(universe, tops, v);
      NothingJoinedYet(w, rank, s, entries);
      if append { BatchStarts(w, rank, v, entries, heads); }
      for i := 0 to |entries|
        invariant entryIndex.Valid() && SubBlocks(entryIndex.store, universe)
        invariant ClockKeeps(v, last0, entryIndex.Visible(), hlc.last)
        invariant append ==> BatchState(w, rank, v, entryIndex.Visible(), entries, heads, i)
        invariant Traced(universe, tops, v, entryIndex.Visible())
        invariant JoinsBatch(w, rank, s, entries, i, Held(entryIndex.Visible(), entryIndex.store))
      {
        ghost var v1, last1, s1 := entryIndex.Visible(), hlc.last, Held(entryIndex.Visible(), entryIndex.store);
        var entry := entries[i];
        if append { BatchWorld(w, rank, v, v1, entries, heads, i); }
        var isHead := heads[entry.hash];
        var outcome := JoinRecursively(entry, isHead, blocks, canAppend, universe, v.Keys, rank);
        ClockKeepsOn(v, last0, v1, last1, entryIndex.Visible(), hlc.last);
        TracedThroughTop(universe, tops, entry.hash, v, v1, entryIndex.Visible());
        if outcome.Thrown? {
          return Err(JoinError.ClockFailure(outcome.error));
        }
        if append { BatchStep(w, rank, v, v1, entryIndex.Visible(), entries, heads, i); }
        OneMoreOfBatch(w, rank, s, entries, i, s1, Held(entryIndex.Visible(), entryIndex.store));
      }
      return Ok(());
    }

    method GetHeads() returns (heads: seq<ShallowEntry>)
      requires entryIndex.Valid()
      modifies entryIndex`pending, entryIndex`index
      ensures entryIndex.Valid() && entryIndex.Visible() == old(entryIndex.Visible())
      ensures forall e :: e in heads <==> IsHeadOf(entryIndex.Visible(), e)
    {
      hide Buffered, Counted;
      BufferedFacts(entryIndex.index, entryIndex.pending, entryIndex.store);
      entryIndex.FlushPendingWrites(None);
      assert entryIndex.index == entryIndex.Visible();
      heads := HeadsOf(entryIndex.index);
    }

    // The clock of a new entry: given by the caller, or the next tick.
    method NextClock(timestamp: Option<Timestamp>) returns (r: Result<Timestamp, ClockError>, ghost physical: nat)
      modifies hlc
      ensures r.Ok? <==> timestamp.Some? || Accepts(hlc.limits, old(hlc.last), old(hlc.last), physical)
      ensures timestamp.Some? ==> r == Ok(timestamp.value) && hlc.last == old(hlc.last)
      ensures timestamp.None? && r.Ok? ==> hlc.last == r.value == Advance(old(hlc.last), old(hlc.last), physical)
      ensures timestamp.None? && r.Ok? ==> old(hlc.last).Before(r.value)
      ensures r.Err? ==> hlc.last == old(hlc.last) && NamesLimit(hlc.limits, r.error)
    {
      if timestamp.Some? {
        return Ok(timestamp.value), 0;
      }
      var reading := ReadWallClock();
      physical := reading;
      r := hlc.Now(reading);
      AdvanceIsAboveBoth(old(hlc.last), old(hlc.last), reading);
    }

    // Append on top of the chosen entries, or else of the current heads.  `timestamp` is the option
    // that overrides the clock; `hash` is the content address of the new entry, so nothing refers to
    // it yet; `physical` is what the wall clock read, if it was asked.
    method Append(hash: Hash, payloadSize: nat, timestamp: Option<Timestamp>, entryType: EntryType, random: string,
                  chosen: Option<seq<ShallowEntry>>, deferIndexWrite: bool, canAppend: Entry -> bool,
                  ghost universe: Blocks, ghost rank: Hash -> nat)
      returns (r: Result<Entry, AppendError>, ghost physical: nat)
      requires entryIndex.Valid() && ContentAddressed(universe, rank) && SubBlocks(entryIndex.store, universe)
      requires hash !in universe && hash !in entryIndex.Visible() && !Referenced(entryIndex.Visible(), hash)
      requires forall h :: h in entryIndex.Visible() ==> rank(h) < rank(hash)
      requires chosen.Some? ==> forall n :: n in chosen.value ==> Indexed(entryIndex.Visible(), n)
      modifies entryIndex, hlc
      ensures entryIndex.Valid()
      ensures r.Err? ==> entryIndex.Visible() == old(entryIndex.Visible()) && SubBlocks(entryIndex.store, universe)
      ensures r.Ok? ==> SubBlocks(entryIndex.store, universe[hash := r.value])
      ensures r.Ok? ==> r.value.hash == hash && r.value.meta.entryType == entryType && canAppend(r.value)
      ensures r.Ok? ==> r.value.payloadSize == payloadSize
      ensures r.Ok? ==> r.value.meta.timestamp == if timestamp.Some? then timestamp.value else hlc.last
      ensures r.Ok? && chosen.Some? ==> CreatedOn(chosen.value, r.value)
      ensures r.Ok? && chosen.None? ==>
                exists heads ::
                  CreatedOn(heads, r.value) && forall e :: e in heads <==> IsHeadOf(old(entryIndex.Visible()), e)
      ensures (r.Err? && r.error.ClockRejects?) <==>
                timestamp.None? && !Accepts(hlc.limits, old(hlc.last), old(hlc.last), physical)
      ensures r == Err(CreateFails(NextNotBefore)) <==>
                && (timestamp.Some? || Accepts(hlc.limits, old(hlc.last), old(hlc.last), physical))
                && if chosen.Some? then exists e :: e in chosen.value && TooLate(e, timestamp, old(hlc.last), physical)
                   else exists e ::
                          IsHeadOf(old(entryIndex.Visible()), e) && TooLate(e, timestamp, old(hlc.last), physical)
      ensures r.Ok? && entryType.APPEND? ==> entryIndex.Visible() == PutView(old(entryIndex.Visible()), r.value, true)
      ensures r.Ok? && entryType.CUT? ==>
                CutStored(old(entryIndex.Visible()), old(entryIndex.store), r.value, true, entryIndex.Visible())
      ensures timestamp.None? && Covered(old(entryIndex.Visible()), old(hlc.last).Scalar()) ==>
                && r != Err(CreateFails(NextNotBefore))
                && Covered(entryIndex.Visible(), hlc.last.Scalar())
                && (r.Ok? ==> forall h :: h in old(entryIndex.Visible()) ==>
                      old(entryIndex.Visible())[h].meta.timestamp.Before(r.value.meta.timestamp))
    {
      hide Buffered, Counted, PutView, CutStored, ContentAddressed, CreatedOn, Covered, IsHeadOf, AllBefore,
           Indexed, Referenced, TooLate, Accepts, Advance;
      ghost var v, last0 := entryIndex.Visible(), hlc.last;
      var nexts: seq<ShallowEntry>;
      if chosen.Some? {
        nexts := chosen.value;
      } else {
        nexts := GetHeads();
        HeadsAreIndexed(v, nexts);
      }
      var tick;
      tick, physical := NextClock(timestamp);
      if tick.Err? {
        return Err(ClockRejects(tick.error)), physical;
      }
      var clock := tick.value;
      if timestamp.None? { NowIsAboveAll(v, nexts, last0, clock); }
      SomeTooLate(v, nexts, timestamp, last0, physical, clock);
      var created := Create(hash, payloadSize, nexts, clock, entryType, None, random, canAppend);
      if created.Err? {
        return Err(CreateFails(created.error)), physical;
      }
      var entry := created.value;
      HeadsRankBelow(v, nexts, entry, universe, rank);
      PutAppended(entry, deferIndexWrite, last0, universe, rank);
      return Ok(entry), physical;
    }

    // Puts the entry and lets a CUT delete what it lists.
    method PutAppended(entry: Entry, deferIndexWrite: bool, ghost last: Timestamp, ghost universe: Blocks,
                       ghost rank: Hash -> nat)
      requires entryIndex.Valid() && entry.hash !in entryIndex.Visible()
      requires !Referenced(entryIndex.Visible(), entry.hash)
      requires SubBlocks(entryIndex.store, universe) && ContentAddressed(universe[entry.hash := entry], rank)
      modifies entryIndex
      ensures entryIndex.Valid() && SubBlocks(entryIndex.store, universe[entry.hash := entry])
      ensures entry.meta.entryType.APPEND? ==> entryIndex.Visible() == PutView(old(entryIndex.Visible()), entry, true)
      ensures entry.meta.entryType.CUT? ==>
                CutStored(old(entryIndex.Visible()), old(entryIndex.store), entry, true, entryIndex.Visible())
      ensures Covered(old(entryIndex.Visible()), last.Scalar()) && last.Before(entry.meta.timestamp) ==>
                Covered(entryIndex.Visible(), entry.meta.timestamp.Scalar())
    {
      hide Buffered, Counted, PutView, Scheduled, ContentAddressed, Covered, Referenced;
      ghost var v, ticked := entryIndex.Visible(), last.Before(entry.meta.timestamp);
      StoreEntry(entry, deferIndexWrite);
      ghost var v1 := entryIndex.Visible();
      if ticked { PutKeepsCovered(v, entry, true, last.Scalar(), entry.meta.timestamp.Scalar()); }
      InUniverse(entryIndex.store, universe, entry);
      ProcessEntry(entry, universe[entry.hash := entry], rank);
      CoveredShrinks(v1, entryIndex.Visible(), entry.meta.timestamp.Scalar());
    }

    // The block is stored by create; the entry is put as a unique head.
    method StoreEntry(entry: Entry, deferIndexWrite: bool)
      requires entryIndex.Valid() && entry.hash !in entryIndex.Visible()
      requires !Referenced(entryIndex.Visible(), entry.hash)
      modifies entryIndex
      ensures entryIndex.Valid() && entryIndex.Visible() == PutView(old(entryIndex.Visible()), entry, true)
      ensures entryIndex.store == old(entryIndex.store)[entry.hash := entry]
    {
      hide Buffered, Counted, PutView, Referenced;
      BlockKeepsBuffered(entryIndex.index, entryIndex.pending, entryIndex.store, entry);
      entryIndex.store := entryIndex.store[entry.hash := entry];
      entryIndex.Put(entry, true, true, false, deferIndexWrite, true);
    }
  }

  ghost predicate IsHeadOf(v: View, e: ShallowEntry) { e.hash in v && v[e.hash] == e && e.head }

  // A copy of an indexed entry, whatever its head flag.
  predicate Indexed(v: View, e: ShallowEntry) { e.hash in v && v[e.hash].SameContent(e) }

  lemma HeadsAreIndexed(v: View, heads: seq<ShallowEntry>)
    requires forall e :: e in heads <==> IsHeadOf(v, e)
    ensures forall e :: e in heads ==> Indexed(v, e)
  {
  }

  // The check against the nexts fails for an entry that is not before the given timestamp, or
  // else that is neither covered by the clock nor before the physical reading.
  predicate TooLate(e: ShallowEntry, timestamp: Option<Timestamp>, last: Timestamp, physical: nat) {
    match timestamp
    case Some(t) => !e.meta.timestamp.Before(t)
    case None => last.Before(e.meta.timestamp) && physical * LOGICAL_RANGE <= e.meta.timestamp.Scalar()
  }

  lemma SomeTooLate(v: View, nexts: seq<ShallowEntry>, timestamp: Option<Timestamp>, last: Timestamp, physical: nat,
                    clock: Timestamp)
    requires clock == if timestamp.Some? then timestamp.value else Advance(last, last, physical)
    ensures !AllBefore(nexts, clock) <==> exists e :: e in nexts && TooLate(e, timestamp, last, physical)
    ensures (forall e :: e in nexts <==> IsHeadOf(v, e)) ==>
              (!AllBefore(nexts, clock) <==> exists e :: IsHeadOf(v, e) && TooLate(e, timestamp, last, physical))
  {
    hide IsHeadOf;
    assert timestamp.None? ==> clock.Scalar() == Tick(last.Scalar(), last.Scalar(), physical);
    forall e: ShallowEntry ensures TooLate(e, timestamp, last, physical) <==> !e.meta.timestamp.Before(clock) {
    }
  }

  method HeadsOf(v: View) returns (heads: seq<ShallowEntry>)
    requires WellKeyed(v)
    ensures forall e :: e in heads <==> IsHeadOf(v, e)
  {
    var todo := v;
    heads := [];
    while todo != map[]
      invariant forall h :: h in todo ==> h in v && todo[h] == v[h]
      invariant forall e :: e in heads ==> IsHeadOf(v, e)
      invariant forall h :: h in v && v[h].head ==> h in todo || v[h] in heads
      decreases |todo|
    {
      var h :| h in todo;
      if todo[h].head {
        heads := heads + [todo[h]];
      }
      SmallerWithout(todo, h);
      todo := todo - {h};
    }
  }

  lemma NowIsAboveAll(v: View, nexts: seq<ShallowEntry>, last: Timestamp, clock: Timestamp)
    requires last.Before(clock) && forall e :: e in nexts ==> Indexed(v, e)
    ensures Covered(v, last.Scalar()) ==>
              && AllBefore(nexts, clock) && Covered(v, clock.Scalar())
              && forall h :: h in v ==> v[h].meta.timestamp.Before(clock)
  {
  }

  lemma InUniverse(store: Blocks, universe: Blocks, entry: Entry)
    requires entry.hash in store && store[entry.hash] == entry
    requires SubBlocks(store - {entry.hash}, universe)
    ensures SubBlocks(store, universe[entry.hash := entry])
  {
    forall h | h in store ensures h in universe[entry.hash := entry] && universe[entry.hash := entry][h] == store[h] {
      if h != entry.hash {
        assert h in store - {entry.hash};
      }
    }
  }

  lemma HeadsRankBelow(v: View, nexts: seq<ShallowEntry>, entry: Entry, universe: Blocks, rank: Hash -> nat)
    requires ContentAddressed(universe, rank) && entry.hash !in universe
    requires forall e :: e in nexts ==> Indexed(v, e)
    requires forall h :: h in v ==> rank(h) < rank(entry.hash)
    requires CreatedOn(nexts, entry)
    ensures ContentAddressed(universe[entry.hash := entry], rank)
  {
    hide MinGid, AllBefore;
    forall n | n in entry.meta.next ensures rank(n) < rank(entry.hash) {
      var i :| 0 <= i < |nexts| && NextHashes(nexts)[i] == n;
      assert nexts[i] in nexts;
    }
  }

  // After an append on the current heads, the new entry is the only head.
  lemma AppendLeavesOneHead(v: View, heads: seq<ShallowEntry>, entry: Entry, h: Hash)
    requires WellKeyed(v) && (forall e :: e in heads <==> IsHeadOf(v, e))
    requires CreatedOn(heads, entry) && entry.meta.entryType.APPEND?
    requires entry.hash !in v
    ensures h in PutView(v, entry, true) ==> (PutView(v, entry, true)[h].head <==> h == entry.hash)
  {
    forall n | n in entry.meta.next ensures n in v {
      var i :| 0 <= i < |heads| && NextHashes(heads)[i] == n;
      assert heads[i] in heads;
    }
    if h in v && v[h].head {
      assert IsHeadOf(v, v[h]);
      var i :| 0 <= i < |heads| && heads[i] == v[h];
      assert entry.meta.next[i] == h;
    }
  }

  // The clock moves forward, and stays at or above every indexed timestamp if it was.
  ghost predicate ClockKeeps(v: View, last: Timestamp, v': View, last': Timestamp) {
    && last.Scalar() <= last'.Scalar()
    && (Covered(v, last.Scalar()) ==> Covered(v', last'.Scalar()))
  }

  lemma ClockKeepsOn(v: View, t: Timestamp, v1: View, t1: Timestamp, v2: View, t2: Timestamp)
    requires ClockKeeps(v, t, v1, t1) && ClockKeeps(v1, t1, v2, t2)
    ensures ClockKeeps(v, t, v2, t2)
  {
  }

  lemma NewRanksOn(v: View, v1: View, v2: View, rank: Hash -> nat, bound: nat, bound': nat)
    requires NewRanksBelow(v, v1, rank, bound') && NewRanksBelow(v1, v2, rank, bound) && bound <= bound'
    ensures NewRanksBelow(v, v2, rank, bound')
  {
  }

  lemma BlockIsInUniverse(blocks: Blocks, universe: Blocks, entry: Entry)
    requires SubBlocks(blocks, universe) && entry.hash in blocks && blocks[entry.hash] == entry
    ensures entry.hash in universe && universe[entry.hash] == entry
  {
  }

  lemma CoveredShrinks(v: View, v': View, last: nat)
    requires Extends(v', v)
    ensures Covered(v, last) ==> Covered(v', last)
    ensures v'.Keys <= v.Keys
  {
    forall h | h in v' ensures v'[h].SameContent(v[h]) {}
  }

  lemma PutBlock(store: Blocks, universe: Blocks, entry: Entry)
    requires SubBlocks(store, universe) && entry.hash in universe && universe[entry.hash] == entry
    ensures SubBlocks(store[entry.hash := entry], universe)
  {
  }

  // What processEntry leaves of the put is the entry taken in.
  lemma TookIn(s: Held, entry: Entry, isHead: bool, s': Held)
    requires var v1, store1 := PutView(s.v, entry, isHead), s.store[entry.hash := entry];
      && Extends(s'.v, v1) && SubBlocks(s'.store, store1)
      && (forall h :: h in store1 ==> (h in s'.store <==> h in s'.v || h !in v1))
      && (entry.meta.entryType.APPEND? ==> s' == Held(v1, store1))
      && (entry.meta.entryType.CUT? ==> forall h :: h in s'.v <==>
            h in v1 && !Scheduled(v1, store1, [Node(entry.hash, entry.meta.next)], true, h))
    ensures Takes(s, entry, isHead, s')
  {
    hide Scheduled, PutView;
  }

  lemma PutKeepsCovered(v: View, entry: Entry, isHead: bool, last: nat, last': nat)
    requires last <= last' && entry.meta.timestamp.Scalar() <= last'
    ensures Covered(v, last) ==> Covered(PutView(v, entry, isHead), last')
  {
  }

  function Hashes(entries: seq<ShallowEntry>): seq<Hash> {
    seq(|entries|, i requires 0 <= i < |entries| => entries[i].hash)
  }

  function Elements(hashes: seq<Hash>): set<Hash> { set h | h in hashes }

  lemma WithoutNone(store: Blocks, hashes: seq<Hash>)
    ensures store - Elements(hashes[..0]) == store
  {
  }

  lemma WithoutOneMore(store: Blocks, hashes: seq<Hash>, i: nat)
    requires i < |hashes|
    ensures store - Elements(hashes[..i + 1]) == store - Elements(hashes[..i]) - {hashes[i]}
  {
    assert hashes[..i + 1] == hashes[..i] + [hashes[i]];
  }

  lemma HashesContain(entries: seq<ShallowEntry>)
    ensures forall h :: h in Hashes(entries) <==> exists e :: e in entries && e.hash == h
  {
    forall h ensures h in Hashes(entries) <==> exists e :: e in entries && e.hash == h {
      if h in Hashes(entries) {
        var i :| 0 <= i < |entries| && Hashes(entries)[i] == h;
        assert entries[i] in entries;
      }
      if e :| e in entries && e.hash == h {
        var i :| 0 <= i < |entries| && entries[i] == e;
        assert Hashes(entries)[i] == h;
      }
    }
  }

  // ----- The invariant of the stack loop -----

  ghost predicate IsStep(v: View, store: Blocks, x: Node, y: Node) {
    y.hash in store && y == NodeOf(store, y.hash) && StepsTo(v, store, x, y.hash)
  }

  ghost predicate IsBelow(v: View, store: Blocks, from: seq<Node>, y: Node) {
    y.hash in store && y == NodeOf(store, y.hash) && Below(v, store, from, y.hash)
  }

  // The roots that are themselves scheduled: all but the one popped first, if that is skipped.
  function ScheduledRoots(from: seq<Node>, skipFirst: bool): seq<Node> {
    if skipFirst && from != [] then from[..|from| - 1] else from
  }

  // `visited` are the nodes popped so far, without a skipped first one.
  ghost predicate WalkState(v: View, store: Blocks, from: seq<Node>, skipFirst: bool,
                            counter: nat, stack: seq<Node>, visited: set<Node>) {
    && (counter == 0 ==> stack == from && visited == {})
    && (forall x :: x in visited || (counter > 0 && x in stack) ==>
          x in ScheduledRoots(from, skipFirst) || IsBelow(v, store, from, x))
    && (forall x :: x in ScheduledRoots(from, skipFirst) ==> x in visited || x in stack)
    && (forall x, n :: x in visited && StepsTo(v, store, x, n) ==>
          NodeOf(store, n) in visited || NodeOf(store, n) in stack)
    && (counter > 0 && from != [] ==> forall n :: StepsTo(v, store, from[|from| - 1], n) ==>
          NodeOf(store, n) in visited || NodeOf(store, n) in stack)
  }

  ghost predicate Deletes(v: View, visited: set<Node>, toDelete: seq<ShallowEntry>) {
    && (forall e :: e in toDelete ==> e.hash in v && v[e.hash] == e && exists x :: x in visited && x.hash == e.hash)
    && (forall x :: x in visited && x.hash in v ==> v[x.hash] in toDelete)
  }

  lemma WalkStateStep(v: View, store: Blocks, from: seq<Node>, skipFirst: bool, counter: nat, stack: seq<Node>,
                      visited: set<Node>, pushed: seq<Node>, visited': set<Node>)
    requires WalkState(v, store, from, skipFirst, counter, stack, visited) && stack != []
    requires forall x :: x in pushed ==> IsStep(v, store, stack[|stack| - 1], x)
    requires forall n :: StepsTo(v, store, stack[|stack| - 1], n) ==> NodeOf(store, n) in pushed
    requires visited' == if counter == 0 && skipFirst then visited else visited + {stack[|stack| - 1]}
    ensures WalkState(v, store, from, skipFirst, counter + 1, stack[..|stack| - 1] + pushed, visited')
  {
    hide StepsTo, Below;
    var top, rest := stack[|stack| - 1], stack[..|stack| - 1];
    assert stack == rest + [top];
    assert top in from || IsBelow(v, store, from, top);
    forall x | x in pushed ensures IsBelow(v, store, from, x) {
      StepIsBelow(v, store, from, top, x.hash);
    }
  }

  lemma WalkStateStarts(v: View, store: Blocks, from: seq<Node>, skipFirst: bool)
    ensures WalkState(v, store, from, skipFirst, 0, from, {})
    ensures Deletes(v, {}, [])
  {
  }

  lemma DeletesStep(v: View, visited: set<Node>, toDelete: seq<ShallowEntry>, x: Node)
    requires Deletes(v, visited, toDelete) && WellKeyed(v)
    ensures Deletes(v, visited + {x}, if x.hash in v then toDelete + [v[x.hash]] else toDelete)
  {
    var visited' := visited + {x};
    forall e | e in toDelete ensures exists y :: y in visited' && y.hash == e.hash {
      var y :| y in visited && y.hash == e.hash;
      assert y in visited';
    }
    assert x in visited';
  }

  lemma WalkStateDone(v: View, store: Blocks, from: seq<Node>, skipFirst: bool, counter: nat, visited: set<Node>,
                      toDelete: seq<ShallowEntry>)
    requires WalkState(v, store, from, skipFirst, counter, [], visited)
    requires Deletes(v, visited, toDelete) && WellKeyed(v)
    ensures forall e :: e in toDelete ==> e.hash in v && v[e.hash] == e
    ensures forall h :: (exists e :: e in toDelete && e.hash == h) <==> Scheduled(v, store, from, skipFirst, h)
  {
    hide WalkState;
    forall h ensures (exists e :: e in toDelete && e.hash == h) <==> Scheduled(v, store, from, skipFirst, h) {
      VisitedIsScheduled(v, store, from, skipFirst, counter, visited, h);
      hide Scheduled;
      if e :| e in toDelete && e.hash == h {
        var x :| x in visited && x.hash == h;
      }
      if x :| x in visited && x.hash == h && h in v {
        assert v[h] in toDelete && v[h].hash == h;
      }
    }
  }

  lemma VisitedIsScheduled(v: View, store: Blocks, from: seq<Node>, skipFirst: bool, counter: nat, visited: set<Node>,
                           h: Hash)
    requires WalkState(v, store, from, skipFirst, counter, [], visited)
    ensures (exists x :: x in visited && x.hash == h && h in v) <==> Scheduled(v, store, from, skipFirst, h)
  {
    hide StepsTo;
    if x :| x in visited && x.hash == h && h in v {
      if x in ScheduledRoots(from, skipFirst) {
        var i :| 0 <= i < |ScheduledRoots(from, skipFirst)| && ScheduledRoots(from, skipFirst)[i] == x;
        assert from[i].hash == h;
      }
    }
    if Scheduled(v, store, from, skipFirst, h) {
      if Below(v, store, from, h) {
        var x, path :| x in from && Walk(v, store, x, path) && path[|path| - 1] == h;
        ClosedContainsWalks(v, store, visited, x, path);
      } else {
        var i :| 0 <= i < |from| - (if skipFirst then 1 else 0) && from[i].hash == h;
        assert ScheduledRoots(from, skipFirst)[i] == from[i];
      }
    }
  }

  // ----- Weights of nodes and stacks -----

  lemma PrefixRanks(x: Node, rank: Hash -> nat, i: nat)
    requires GoodNode(x, rank) && i <= |x.next|
    ensures RanksBelow(x.next[..i], rank, rank(x.hash))
  {
  }

  lemma PushedWeight(store: Blocks, rank: Hash -> nat, pushed: seq<Node>, x: Node)
    requires Acyclic(store, rank) && GoodNode(x, rank) && forall y :: y in pushed ==> GoodNode(y, rank)
    ensures forall y :: y in pushed + [x] ==> GoodNode(y, rank)
    ensures StackWeight(store, rank, pushed + [x]) == StackWeight(store, rank, pushed) + NodeWeight(store, rank, x)
  {
    hide NodeWeight;
    assert (pushed + [x])[..|pushed|] == pushed;
  }

  lemma NodeIsHeavier(store: Blocks, rank: Hash -> nat, x: Node)
    requires Acyclic(store, rank) && GoodNode(x, rank)
    ensures NodeWeight(store, rank, x) == 1 + Weights(store, rank, rank(x.hash), x.next)
  {
  }

  lemma StackSplits(store: Blocks, rank: Hash -> nat, stack: seq<Node>)
    requires Acyclic(store, rank) && stack != [] && forall y :: y in stack ==> GoodNode(y, rank)
    ensures StackWeight(store, rank, stack)
            == StackWeight(store, rank, stack[..|stack| - 1]) + NodeWeight(store, rank, stack[|stack| - 1])
  {
    hide NodeWeight;
  }

  lemma {:induction false} ConcatWeight(store: Blocks, rank: Hash -> nat, a: seq<Node>, b: seq<Node>)
    requires Acyclic(store, rank)
    requires (forall y :: y in a ==> GoodNode(y, rank)) && (forall y :: y in b ==> GoodNode(y, rank))
    ensures forall y :: y in a + b ==> GoodNode(y, rank)
    ensures StackWeight(store, rank, a + b) == StackWeight(store, rank, a) + StackWeight(store, rank, b)
  {
    hide NodeWeight;
    if b == [] {
      assert a + b == a;
    } else {
      ConcatWeight(store, rank, a, b[..|b| - 1]);
      assert (a + b)[..|a + b| - 1] == a + b[..|b| - 1];
    }
  }
}
