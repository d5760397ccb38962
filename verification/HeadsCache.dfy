// packages/log/src/heads-cache.ts: the head set, persisted as two linked chains of batches (added
// heads and tombstones) in a key/value store.
//
// The class follows the source: it writes batches, reads chains back, clears and compacts.  Its
// contracts tie the store to two lists of batches, newest first; the lemmas then show what set
// of heads these lists stand for.
module HeadsCacheModel {
  import opened Wrappers
  import opened Entries

  // path.join(base, headsPathCounter, uuid())
  datatype Path = HeadsRoot | RemovedRoot | Batch(base: Path, counter: nat, uuid: nat)

  datatype Value =
    | CachePath(path: Path)
    | Saved(heads: seq<Hash>, counter: nat, last: Option<Path>)

  type Store = map<Path, Value>

  type Batches = seq<seq<Hash>>

  function Flatten(batches: Batches): seq<Hash> {
    if batches == [] then [] else batches[0] + Flatten(batches[1..])
  }

  function Without(hashes: seq<Hash>, removed: set<Hash>): seq<Hash> {
    if hashes == [] then []
    else
      var front, last := Without(hashes[..|hashes| - 1], removed), hashes[|hashes| - 1];
      if last in removed then front else front + [last]
  }

  function Elements(hashes: seq<Hash>): set<Hash> { set h | h in hashes }

  // ----- The store -----

  // The root key points to the newest batch, if there is one.
  function Newest(store: Store, root: Path): Option<Path> {
    if root in store && store[root].CachePath? then Some(store[root].path) else None
  }

  // A chain that starts at `start` and holds exactly these batches; each batch records the number
  // of hashes from itself to the end.
  ghost predicate ChainAt(store: Store, start: Option<Path>, batches: Batches)
    decreases |batches|
  {
    if batches == [] then start.None?
    else
      && start.Some? && start.value in store
      && var saved := store[start.value];
         && saved.Saved? && saved.heads == batches[0] && saved.counter == |Flatten(batches)|
         && ChainAt(store, saved.last, batches[1..])
  }

  ghost predicate StoreValid(store: Store, uuids: nat, adds: Batches, removes: Batches) {
    && (HeadsRoot in store ==> store[HeadsRoot].CachePath?)
    && (RemovedRoot in store ==> store[RemovedRoot].CachePath?)
    && ChainAt(store, Newest(store, HeadsRoot), adds)
    && ChainAt(store, Newest(store, RemovedRoot), removes)
    && Older(store, uuids)
    && (adds == [] ==> removes == [])
  }

  ghost predicate Older(store: Store, uuids: nat) { forall p :: p in store && p.Batch? ==> p.uuid < uuids }

  class HeadsCache {
    var headsPathCounter: nat
    var lastHeadsPath: Option<Path>
    var lastHeadsCount: nat
    var lastRemovedHeadsPath: Option<Path>
    var lastRemovedHeadsCount: nat
    var cache: Store
    var loaded: bool
    var uuids: nat              // uuid() never repeats
    ghost var adds: Batches
    ghost var removes: Batches

    ghost predicate Valid()
      reads this
    {
      && StoreValid(cache, uuids, adds, removes)
      && lastHeadsPath == Newest(cache, HeadsRoot) && lastHeadsCount == |Flatten(adds)|
      && lastRemovedHeadsPath == Newest(cache, RemovedRoot) && lastRemovedHeadsCount == |Flatten(removes)|
    }

    constructor ()
      ensures Valid() && adds == [] && removes == [] && !loaded
    {
      headsPathCounter, uuids, loaded := 0, 0, false;
      lastHeadsPath, lastHeadsCount, lastRemovedHeadsPath, lastRemovedHeadsCount := None, 0, None, 0;
      cache, adds, removes := map[], [], [];
    }

    // updateHashes: a new batch in front of the chain, and the root moved to it.  While all paths in
    // the store are older, the new one is fresh and the chain grows by the batch.
    method UpdateHashes(root: Path, lastCid: Option<Path>, lastCounter: nat, hashes: seq<Hash>)
      returns (counter: nat, newPath: Path)
      modifies this`cache, this`uuids
      ensures counter == lastCounter + |hashes|
      ensures newPath == Batch(root, headsPathCounter, old(uuids)) && uuids == old(uuids) + 1
      ensures cache == old(cache)[root := CachePath(newPath)][newPath := Saved(hashes, counter, lastCid)]
      ensures !root.Batch? && (root in old(cache) ==> old(cache)[root].CachePath?) && Older(old(cache), old(uuids)) ==>
                && newPath !in old(cache) && Older(cache, uuids) && Newest(cache, root) == Some(newPath)
                && forall batches :: ChainAt(old(cache), lastCid, batches) && lastCounter == |Flatten(batches)| ==>
                     ChainAt(cache, Some(newPath), [hashes] + batches)
    {
      ghost var before := cache;
      newPath := Batch(root, headsPathCounter, uuids);
      uuids := uuids + 1;
      counter := lastCounter + |hashes|;
      cache := cache[root := CachePath(newPath)];
      cache := cache[newPath := Saved(hashes, counter, lastCid)];
      if !root.Batch? && (root in before ==> before[root].CachePath?) && Older(before, old(uuids)) {
        forall batches | ChainAt(before, lastCid, batches) && lastCounter == |Flatten(batches)|
          ensures ChainAt(cache, Some(newPath), [hashes] + batches)
        {
          ChainStaysUnderRoot(before, cache, root, newPath, lastCid, batches);
          assert ([hashes] + batches)[1..] == batches;
        }
      }
    }

    // Walks one chain from its newest batch.
    method GetHashes(start: Option<Path>, filter: set<Hash>, ghost batches: Batches) returns (result: seq<Hash>)
      requires ChainAt(cache, start, batches)
      ensures result == Without(Flatten(batches), filter)
    {
      result := [];
      var next := start;
      ghost var rest := batches;
      while next.Some?
        invariant ChainAt(cache, next, rest)
        invariant Without(Flatten(batches), filter) == result + Without(Flatten(rest), filter)
        decreases |rest|
      {
        var saved := cache[next.value];
        next := saved.last;
        WithoutConcat(rest[0], Flatten(rest[1..]), filter);
        result := PushUnfiltered(result, saved.heads, filter);
        rest := rest[1..];
      }
    }

    static method PushUnfiltered(result: seq<Hash>, hashes: seq<Hash>, filter: set<Hash>) returns (result': seq<Hash>)
      ensures result' == result + Without(hashes, filter)
    {
      result' := result;
      for i := 0 to |hashes|
        invariant result' == result + Without(hashes[..i], filter)
      {
        assert hashes[..i + 1][..i] == hashes[..i];
        if hashes[i] !in filter {
          result' := result' + [hashes[i]];
        }
      }
      assert hashes[..|hashes|] == hashes;
    }

    // Saved heads minus removed heads, newest batch first.
    method GetCachedHeads() returns (heads: seq<Hash>)
      requires Valid()
      ensures heads == Heads(adds, removes)
    {
      var removed := GetHashes(lastRemovedHeadsPath, {}, removes);
      WithoutNothing(Flatten(removes));
      heads := GetHashes(lastHeadsPath, Elements(removed), adds);
    }

    method UpdateCachedHeads(added: seq<Hash>, hasAdded: bool, removed: seq<Hash>, reset: Option<bool>,
                             index: set<Hash>)
      requires Valid() && (!hasAdded ==> added == [])
      modifies this
      ensures Valid() && loaded == old(loaded)
      ensures (adds, removes) ==
                Update(old(adds), old(removes), added, removed, Resets(loaded, hasAdded, added, reset, index))
      ensures UpdatesSet(HeadSet(old(adds), old(removes)), Elements(Flatten(old(removes))), loaded, added, hasAdded,
                         removed, reset, index, HeadSet(adds, removes))
      decreases |removed|, 0
    {
      hide StoreValid, Without, Heads, LooksComplete, HeadSet, UpdatesSet;
      AddsBehindPath(cache, uuids, adds, removes);
      UpdateIsOfSet(adds, removes, loaded, added, hasAdded, removed, reset, index);
      var doReset := ShouldReset(added, hasAdded, reset, index);
      if doReset {
        Clear();
      }
      if |added| > 0 {
        AddBatch(added);
      }
      if lastHeadsPath.Some? && |removed| > 0 {
        AddsBehindPath(cache, uuids, adds, removes);
        AddTombstones(removed);
        if lastRemovedHeadsCount > 0 && 2 * lastRemovedHeadsCount >= lastHeadsCount {
          Compact(index);
        }
      } else {
        AddsBehindPath(cache, uuids, adds, removes);
      }
    }

    // The tombstones outweigh half of the heads: keep only what is left of them.
    method Compact(index: set<Hash>)
      requires Valid()
      modifies this
      ensures Valid() && loaded == old(loaded)
      ensures adds == Push([], Heads(old(adds), old(removes))) && removes == []
      decreases 0, 1
    {
      hide StoreValid, Without, Heads;
      var resetToHeads := GetCachedHeads();
      UpdateCachedHeads(resetToHeads, true, [], Some(true), index);
    }

    method ShouldReset(added: seq<Hash>, hasAdded: bool, reset: Option<bool>, index: set<Hash>) returns (r: bool)
      ensures r == Resets(loaded, hasAdded, added, reset, index)
    {
      if reset.Some? {
        return reset.value;
      }
      if !hasAdded {
        return false;
      }
      // Before the first load there may be heads that are not known yet.
      if loaded && |index| <= |added| {
        var addedIsAllHeads := true;
        for i := 0 to |added|
          invariant addedIsAllHeads <==> forall h :: h in added[..i] ==> h in index
        {
          assert added[..i + 1] == added[..i] + [added[i]];
          if added[i] !in index {
            addedIsAllHeads := false;
          }
        }
        assert added[..|added|] == added;
        return addedIsAllHeads;
      }
      return false;
    }

    method Clear()
      requires Valid()
      modifies this
      ensures Valid() && adds == [] && removes == [] && loaded == old(loaded)
    {
      cache := map[];
      lastHeadsPath, lastRemovedHeadsPath := None, None;
      lastHeadsCount, lastRemovedHeadsCount := 0, 0;
      headsPathCounter := headsPathCounter + 1;
      adds, removes := [], [];
    }

    method AddBatch(hashes: seq<Hash>)
      requires Valid() && hashes != []
      modifies this
      ensures Valid() && adds == [hashes] + old(adds) && removes == old(removes) && loaded == old(loaded)
    {
      PutKeepsStore(cache, uuids, adds, removes, HeadsRoot, headsPathCounter, hashes);
      var counter, path := UpdateHashes(HeadsRoot, lastHeadsPath, lastHeadsCount, hashes);
      lastHeadsPath, lastHeadsCount := Some(path), counter;
      adds := [hashes] + adds;
    }

    method AddTombstones(hashes: seq<Hash>)
      requires Valid() && hashes != [] && adds != []
      modifies this
      ensures Valid() && adds == old(adds) && removes == [hashes] + old(removes) && loaded == old(loaded)
    {
      PutKeepsStore(cache, uuids, adds, removes, RemovedRoot, headsPathCounter, hashes);
      var counter, path := UpdateHashes(RemovedRoot, lastRemovedHeadsPath, lastRemovedHeadsCount, hashes);
      lastRemovedHeadsPath, lastRemovedHeadsCount := Some(path), counter;
      removes := [hashes] + removes;
    }

    // Forgets everything in memory; the store stays.
    method Close()
      requires StoreValid(cache, uuids, adds, removes)
      modifies this`lastHeadsPath, this`lastHeadsCount, this`lastRemovedHeadsPath, this`lastRemovedHeadsCount,
               this`loaded
      ensures StoreValid(cache, uuids, adds, removes) && !loaded
    {
      loaded := false;
      lastHeadsPath, lastRemovedHeadsPath := None, None;
      lastHeadsCount, lastRemovedHeadsCount := 0, 0;
    }

    // Rebuilds the paths and counters from the store, whatever the memory held.
    method LoadLastHeadsPath()
      requires StoreValid(cache, uuids, adds, removes)
      modifies this`lastHeadsPath, this`lastHeadsCount, this`lastRemovedHeadsPath, this`lastRemovedHeadsCount
      ensures Valid()
    {
      lastHeadsPath := if HeadsRoot in cache then Some(cache[HeadsRoot].path) else None;
      lastRemovedHeadsPath := if RemovedRoot in cache then Some(cache[RemovedRoot].path) else None;
      lastHeadsCount := GetCachedHeadsCount(lastHeadsPath, adds);
      lastRemovedHeadsCount := GetCachedHeadsCount(lastRemovedHeadsPath, removes);
    }

    method GetCachedHeadsCount(path: Option<Path>, ghost batches: Batches) returns (count: nat)
      requires ChainAt(cache, path, batches)
      ensures count == |Flatten(batches)|
    {
      if path.None? {
        return 0;
      }
      return cache[path.value].counter;
    }

    method Load() returns (heads: seq<Hash>)
      requires StoreValid(cache, uuids, adds, removes)
      modifies this`lastHeadsPath, this`lastHeadsCount, this`lastRemovedHeadsPath, this`lastRemovedHeadsCount,
               this`loaded
      ensures Valid() && loaded && heads == Heads(adds, removes)
    {
      LoadLastHeadsPath();
      heads := GetCachedHeads();
      loaded := true;
    }
  }

  // ----- Chains under updates of the store -----

  lemma AddsBehindPath(store: Store, uuids: nat, adds: Batches, removes: Batches)
    requires StoreValid(store, uuids, adds, removes)
    ensures Newest(store, HeadsRoot).Some? <==> adds != []
    ensures adds == [] ==> removes == []
  {
  }

  lemma {:induction false} ChainSurvives(store: Store, store': Store, start: Option<Path>, batches: Batches)
    requires ChainAt(store, start, batches)
    requires forall p :: p in store && store[p].Saved? ==> p in store' && store'[p] == store[p]
    ensures ChainAt(store', start, batches)
    decreases |batches|
  {
    if batches != [] {
      ChainSurvives(store, store', store[start.value].last, batches[1..]);
    }
  }

  // A root key that already points somewhere is not part of any chain.
  lemma {:induction false} ChainStaysUnderRoot(store: Store, store': Store, root: Path, path: Path,
                                               start: Option<Path>, batches: Batches)
    requires ChainAt(store, start, batches) && path !in store
    requires root in store ==> store[root].CachePath?
    requires forall p :: p in store && p != root && p != path ==> p in store' && store'[p] == store[p]
    ensures ChainAt(store', start, batches)
    decreases |batches|
  {
    if batches != [] {
      ChainStaysUnderRoot(store, store', root, path, store[start.value].last, batches[1..]);
    }
  }

  lemma PutKeepsStore(store: Store, uuids: nat, adds: Batches, removes: Batches, root: Path, counter: nat,
                      hashes: seq<Hash>)
    requires StoreValid(store, uuids, adds, removes) && hashes != []
    requires root == HeadsRoot || (root == RemovedRoot && adds != [])
    ensures var batches := if root == HeadsRoot then adds else removes;
            var path := Batch(root, counter, uuids);
            var saved := Saved(hashes, |Flatten(batches)| + |hashes|, Newest(store, root));
            var store' := store[root := CachePath(path)][path := saved];
            StoreValid(store', uuids + 1, if root == HeadsRoot then [hashes] + adds else adds,
                       if root == HeadsRoot then removes else [hashes] + removes)
            && Newest(store', root) == Some(path)
            && forall other :: (other == HeadsRoot || other == RemovedRoot) && other != root ==>
                 Newest(store', other) == Newest(store, other)
  {
    var batches := if root == HeadsRoot then adds else removes;
    var path := Batch(root, counter, uuids);
    var saved := Saved(hashes, |Flatten(batches)| + |hashes|, Newest(store, root));
    var store' := store[root := CachePath(path)][path := saved];
    ChainSurvives(store, store', Newest(store, HeadsRoot), adds);
    ChainSurvives(store, store', Newest(store, RemovedRoot), removes);
    assert ([hashes] + batches)[1..] == batches;
  }

  // ----- Sequences without the removed ones -----

  lemma {:induction false} WithoutConcat(a: seq<Hash>, b: seq<Hash>, removed: set<Hash>)
    ensures Without(a + b, removed) == Without(a, removed) + Without(b, removed)
  {
    if b == [] {
      assert a + b == a;
    } else {
      assert (a + b)[..|a + b| - 1] == a + b[..|b| - 1];
      WithoutConcat(a, b[..|b| - 1], removed);
    }
  }

  lemma WithoutFirst(a: seq<Hash>, removed: set<Hash>)
    requires a != []
    ensures Without(a, removed) == (if a[0] in removed then [] else [a[0]]) + Without(a[1..], removed)
  {
    assert a == [a[0]] + a[1..];
    WithoutConcat([a[0]], a[1..], removed);
    assert [a[0]][..0] == [];
  }

  lemma {:induction false} WithoutNothing(a: seq<Hash>)
    ensures Without(a, {}) == a
  {
    if a != [] {
      WithoutNothing(a[..|a| - 1]);
    }
  }

  lemma {:induction false} WithoutElements(a: seq<Hash>, removed: set<Hash>)
    ensures Elements(Without(a, removed)) == Elements(a) - removed
  {
    if a != [] {
      var front, last := a[..|a| - 1], a[|a| - 1];
      WithoutElements(front, removed);
      assert a == front + [last];
      ElementsConcat(front, [last]);
      ElementsConcat(Without(front, removed), [last]);
    }
  }

  lemma ElementsConcat(a: seq<Hash>, b: seq<Hash>)
    ensures Elements(a + b) == Elements(a) + Elements(b)
  {
  }

  // ----- What the two lists stand for -----

  function Heads(adds: Batches, removes: Batches): seq<Hash> {
    Without(Flatten(adds), Elements(Flatten(removes)))
  }

  // The automatic reset of a loaded cache: the added hashes look like the whole head index.
  predicate LooksComplete(loaded: bool, added: seq<Hash>, index: set<Hash>) {
    loaded && |index| <= |added| && forall h :: h in added ==> h in index
  }

  predicate Resets(loaded: bool, hasAdded: bool, added: seq<Hash>, reset: Option<bool>, index: set<Hash>) {
    if reset.Some? then reset.value else hasAdded && LooksComplete(loaded, added, index)
  }

  // The lists after one update.
  function Update(adds: Batches, removes: Batches, added: seq<Hash>, removed: seq<Hash>, reset: bool)
    : (Batches, Batches)
  {
    var a := Push(if reset then [] else adds, added);
    var r := if a == [] then [] else Push(if reset then [] else removes, removed);
    if a != [] && removed != [] && 2 * |Flatten(r)| >= |Flatten(a)| then (Push([], Heads(a, r)), []) else (a, r)
  }

  function Push(batches: Batches, hashes: seq<Hash>): Batches {
    if hashes == [] then batches else [hashes] + batches
  }

  // ----- The set the cache refines -----

  function HeadSet(adds: Batches, removes: Batches): set<Hash> {
    Elements(Flatten(adds)) - Elements(Flatten(removes))
  }

  // The returned sequence holds exactly that set.
  lemma HeadsAreHeadSet(adds: Batches, removes: Batches)
    ensures Elements(Heads(adds, removes)) == HeadSet(adds, removes)
  {
    WithoutElements(Flatten(adds), Elements(Flatten(removes)));
  }

  lemma PushElements(batches: Batches, hashes: seq<Hash>)
    ensures Flatten(Push(batches, hashes)) == hashes + Flatten(batches)
    ensures Elements(Flatten(Push(batches, hashes))) == Elements(hashes) + Elements(Flatten(batches))
  {
    if hashes != [] {
      assert ([hashes] + batches)[1..] == batches;
    }
    ElementsConcat(hashes, Flatten(batches));
  }

  lemma NoElements()
    ensures Flatten([]) == [] && Elements([]) == {}
  {
  }

  // Compaction returns the same heads in the same order, and leaves no tombstones.
  lemma CompactionKeepsHeads(adds: Batches, removes: Batches)
    ensures Heads(Push([], Heads(adds, removes)), []) == Heads(adds, removes)
    ensures HeadSet(Push([], Heads(adds, removes)), []) == HeadSet(adds, removes)
  {
    var heads := Heads(adds, removes);
    PushElements([], heads);
    NoElements();
    assert heads + [] == heads;
    WithoutNothing(heads);
    HeadsAreHeadSet(adds, removes);
    HeadsAreHeadSet(Push([], heads), []);
  }

  // An update without reset is (S + added) - removed exactly if no hash is added again while its
  // tombstone is held, unless the same update removes it anyway.
  lemma UpdateRefinesSet(adds: Batches, removes: Batches, added: seq<Hash>, removed: seq<Hash>)
    requires adds == [] ==> removes == []
    ensures var (adds', removes') := Update(adds, removes, added, removed, false);
            HeadSet(adds', removes') == HeadSet(adds, removes) + Elements(added) - Elements(removed)
            <==> Elements(added) * Elements(Flatten(removes)) <= Elements(removed)
  {
    var a := Push(adds, added);
    var r := if a == [] then [] else Push(removes, removed);
    PushElements(adds, added);
    PushElements(removes, removed);
    NoElements();
    CompactionKeepsHeads(a, r);
    hide Flatten, Heads, Push;
    SetAlgebra(Elements(Flatten(adds)), Elements(Flatten(removes)), Elements(added), Elements(removed));
  }

  lemma SetAlgebra(a: set<Hash>, r: set<Hash>, added: set<Hash>, removed: set<Hash>)
    ensures (added + a) - (removed + r) == (a - r) + added - removed <==> added * r <= removed
  {
    if added * r <= removed {
      assert forall h :: h in (added + a) - (removed + r) <==> h in (a - r) + added - removed;
    } else {
      var h :| h in added * r && h !in removed;
      assert h in (a - r) + added - removed && h !in (added + a) - (removed + r);
    }
  }

  // After a reset, only the given hashes count.
  lemma ResetStartsOver(adds: Batches, removes: Batches, added: seq<Hash>, removed: seq<Hash>)
    ensures var (adds', removes') := Update(adds, removes, added, removed, true);
            HeadSet(adds', removes') == Elements(added) - Elements(removed)
  {
    var a := Push([], added);
    var r := if a == [] then [] else Push([], removed);
    PushElements([], added);
    PushElements([], removed);
    NoElements();
    CompactionKeepsHeads(a, r);
  }

  // ----- One update of the set, told from what the caller and the cache know -----

  // A reset starts over with what is given.  Without the flag, that happens to a loaded cache that
  // is given at least as many hashes as the head index has, all of them in it; before the first
  // load nothing is forgotten.
  ghost predicate UpdatesSet(s: set<Hash>, tombstones: set<Hash>, loaded: bool, added: seq<Hash>, hasAdded: bool,
                             removed: seq<Hash>, reset: Option<bool>, index: set<Hash>, s': set<Hash>) {
    var a, r := Elements(added), Elements(removed);
    if reset == Some(true) || (reset.None? && loaded && hasAdded && |added| >= |index| && a <= index) then s' == a - r
    else s' == s + a - r <==> a * tombstones <= r
  }

  lemma UpdateIsOfSet(adds: Batches, removes: Batches, loaded: bool, added: seq<Hash>, hasAdded: bool,
                      removed: seq<Hash>, reset: Option<bool>, index: set<Hash>)
    requires adds == [] ==> removes == []
    ensures var resets := Resets(loaded, hasAdded, added, reset, index);
            var (adds', removes') := Update(adds, removes, added, removed, resets);
            UpdatesSet(HeadSet(adds, removes), Elements(Flatten(removes)), loaded, added, hasAdded, removed, reset,
                       index, HeadSet(adds', removes'))
  {
    hide Update, HeadSet, Flatten;
    ResetStartsOver(adds, removes, added, removed);
    UpdateRefinesSet(adds, removes, added, removed);
  }

  // The tombstones are dropped exactly when they would weigh at least half as much as the stored
  // additions; until then both chains only grow.
  lemma CompactsExactly(adds: Batches, removes: Batches, added: seq<Hash>, removed: seq<Hash>)
    requires removed != [] && Flatten(adds) + added != []
    ensures var (adds', removes') := Update(adds, removes, added, removed, false);
            if 2 * (|removed| + |Flatten(removes)|) >= |added| + |Flatten(adds)| then
              removes' == [] && Flatten(adds') == Heads(Push(adds, added), Push(removes, removed))
            else
              Flatten(adds') == added + Flatten(adds) && Flatten(removes') == removed + Flatten(removes)
  {
    PushElements(adds, added);
    PushElements(removes, removed);
    PushElements([], Heads(Push(adds, added), Push(removes, removed)));
    NoElements();
    hide Heads;
  }

  // ----- The automatic reset -----

  predicate Distinct(hashes: seq<Hash>) { forall i, j :: 0 <= i < j < |hashes| ==> hashes[i] != hashes[j] }

  lemma {:induction false} ElementsCount(hashes: seq<Hash>)
    ensures |Elements(hashes)| <= |hashes|
    ensures |Elements(hashes)| == |hashes| <==> Distinct(hashes)
  {
    if hashes == [] {
      assert Elements(hashes) == {};
    } else {
      var front, last := hashes[..|hashes| - 1], hashes[|hashes| - 1];
      ElementsCount(front);
      assert hashes == front + [last];
      ElementsConcat(front, [last]);
      assert Elements([last]) == {last};
      if last in front {
        assert Elements(hashes) == Elements(front);
        var i :| 0 <= i < |front| && front[i] == last;
        assert hashes[i] == hashes[|hashes| - 1];
      } else {
        assert Elements(hashes) == Elements(front) + {last};
      }
    }
  }

  // When the automatic reset fires, the added hashes are the whole head index exactly if there are
  // as many different ones as the index has (pigeonhole).
  lemma ResetCoversIndexExactly(added: seq<Hash>, index: set<Hash>)
    requires LooksComplete(true, added, index)
    ensures Elements(added) == index <==> |Elements(added)| >= |index|
  {
    if |Elements(added)| >= |index| {
      SubsetOfSameSize(Elements(added), index);
    }
  }

  // So on distinct hashes they are, and dropping the old chain loses no head of the index.
  lemma AutoResetCoversIndex(added: seq<Hash>, index: set<Hash>)
    requires LooksComplete(true, added, index) && Distinct(added)
    ensures Elements(added) == index
  {
    ElementsCount(added);
    ResetCoversIndexExactly(added, index);
  }

  // An update that resets is still (S + added) - removed exactly if every cached head is added
  // again or removed.
  lemma ResetRefinesSet(adds: Batches, removes: Batches, added: seq<Hash>, removed: seq<Hash>)
    ensures var (adds', removes') := Update(adds, removes, added, removed, true);
            HeadSet(adds', removes') == HeadSet(adds, removes) + Elements(added) - Elements(removed)
            <==> HeadSet(adds, removes) <= Elements(added) + Elements(removed)
  {
    ResetStartsOver(adds, removes, added, removed);
    var s, a, rem := HeadSet(adds, removes), Elements(added), Elements(removed);
    if s <= a + rem {
      assert a - rem == s + a - rem;
    } else {
      var h :| h in s && h !in a + rem;
      assert h in s + a - rem && h !in a - rem;
    }
  }

  // Where the automatic reset fires on distinct hashes, the caller can read that off the index.
  lemma AutoResetRefinesSet(adds: Batches, removes: Batches, added: seq<Hash>, removed: seq<Hash>, index: set<Hash>)
    requires LooksComplete(true, added, index) && Distinct(added)
    ensures var (adds', removes') := Update(adds, removes, added, removed, true);
            HeadSet(adds', removes') == HeadSet(adds, removes) + Elements(added) - Elements(removed)
            <==> HeadSet(adds, removes) <= index + Elements(removed)
  {
    ResetRefinesSet(adds, removes, added, removed);
    AutoResetCoversIndex(added, index);
  }

  // A repeated hash fools the count: the update resets, and the cached head "b" of the index is gone.
  lemma RepeatedHashFoolsReset()
    ensures var (adds, added, index) := ([["a", "b"]], ["a", "a"], {"a", "b"});
            && Resets(true, true, added, None, index) && "b" in HeadSet(adds, [])
            && var (adds', removes') := Update(adds, [], added, [], true);
               "b" !in HeadSet(adds', removes')
  {
    var adds: Batches := [["a", "b"]];
    var added := ["a", "a"];
    assert |{"a", "b"}| == 2;
    ResetStartsOver(adds, [], added, []);
    NoElements();
    assert adds[1..] == [] && Flatten(adds) == ["a", "b"] + [] == ["a", "b"];
  }

  // A tombstone outlives its hash being added again: "a" is not a head afterwards.
  lemma ReaddedHashStaysRemoved()
    ensures var (adds, removes) := ([["a", "b", "c"]], [["a"]]);
            && Bounded(adds, removes)
            && var (adds', removes') := Update(adds, removes, ["a"], [], false);
               "a" !in HeadSet(adds', removes')
  {
    var adds: Batches, removes: Batches := [["a", "b", "c"]], [["a"]];
    PushElements(adds, ["a"]);
    NoElements();
    assert adds[1..] == [] && Flatten(adds) == ["a", "b", "c"] + [];
    assert removes[1..] == [] && Flatten(removes) == ["a"] + [];
    assert "a" in Elements(Flatten(removes));
  }

  // ----- Whole runs -----

  // One call of the update, with the reset flag it was given and what it found.
  datatype Change = Change(added: seq<Hash>, hasAdded: bool, removed: seq<Hash>, reset: Option<bool>, index: set<Hash>)

  // A session begins by opening: the paths are read from the store.  Loading comes later, if at all.
  datatype Op = UpdateOp(change: Change) | OpenOp | LoadOp | CloseOp

  datatype State = State(adds: Batches, removes: Batches, loaded: bool, isOpen: bool)

  const START := State([], [], false, true)

  function Apply(s: State, op: Op): State {
    match op
    case UpdateOp(c) =>
      var (adds, removes) := Update(s.adds, s.removes, c.added, c.removed, ResetsAt(s, c));
      s.(adds := adds, removes := removes)
    case OpenOp => s.(isOpen := true)
    case LoadOp => s.(loaded := true, isOpen := true)
    case CloseOp => s.(loaded := false, isOpen := false)
  }

  predicate ResetsAt(s: State, c: Change) { Resets(s.loaded, c.hasAdded, c.added, c.reset, c.index) }

  function Run(ops: seq<Op>): State {
    if ops == [] then START else Apply(Run(ops[..|ops| - 1]), ops[|ops| - 1])
  }

  // A closed cache has to be opened or loaded before it is updated.
  predicate Legal(s: State, op: Op) {
    op.UpdateOp? ==> s.isOpen && (!op.change.hasAdded ==> op.change.added == [])
  }

  predicate LegalRun(ops: seq<Op>) { forall i :: 0 <= i < |ops| ==> Legal(Run(ops[..i]), ops[i]) }

  // The class on a whole run, starting from an empty store; at the end the heads are read back.
  method Replay(ops: seq<Op>) returns (cache: HeadsCache, heads: seq<Hash>)
    requires LegalRun(ops)
    ensures cache.Valid() && cache.adds == Run(ops).adds && cache.removes == Run(ops).removes
    ensures heads == Heads(Run(ops).adds, Run(ops).removes)
    ensures CarefulRun(ops) ==> Elements(heads) == FoldSet(ops)
    ensures NeverLoaded(ops) && RespectsTombstones(ops) ==> Elements(heads) == Accumulated(ops)
  {
    hide Update, StoreValid, Elements, Careful, NeverLoaded, RespectsTombstones;
    cache := new HeadsCache();
    for i := 0 to |ops|
      invariant fresh(cache) && StoreValid(cache.cache, cache.uuids, cache.adds, cache.removes)
      invariant Run(ops[..i]).isOpen ==> cache.Valid()
      invariant Run(ops[..i]) == State(cache.adds, cache.removes, cache.loaded, Run(ops[..i]).isOpen)
    {
      assert ops[..i + 1][..i] == ops[..i];
      assert Legal(Run(ops[..i]), ops[i]);
      match ops[i]
      case UpdateOp(c) => cache.UpdateCachedHeads(c.added, c.hasAdded, c.removed, c.reset, c.index);
      case OpenOp => cache.LoadLastHeadsPath();
      case LoadOp => var _ := cache.Load();
      case CloseOp => cache.Close();
    }
    assert ops[..|ops|] == ops;
    heads := cache.Load();
    HeadsAreHeadSet(cache.adds, cache.removes);
    if CarefulRun(ops) {
      RunRefinesSet(ops);
    }
    if NeverLoaded(ops) && RespectsTombstones(ops) {
      NothingForgottenBeforeLoad(ops);
    }
  }

  // The reference: a set of heads, which opening, loading and closing leave alone.
  function FoldSet(ops: seq<Op>): set<Hash> {
    if ops == [] then {}
    else
      var before := FoldSet(ops[..|ops| - 1]);
      match ops[|ops| - 1]
      case UpdateOp(c) => (if c.reset == Some(true) then {} else before) + Elements(c.added) - Elements(c.removed)
      case _ => before
  }

  // What keeps a step harmless: no hash is added while its tombstone is held, unless the update
  // removes it again; and when a loaded cache is given as many indexed hashes as the head index has,
  // every cached head is added or removed.
  predicate Careful(s: State, op: Op) {
    op.UpdateOp? ==>
      var c := op.change;
      var a, r := Elements(c.added), Elements(c.removed);
      if c.reset == Some(true) then true
      else if c.reset.None? && s.loaded && c.hasAdded && |c.added| >= |c.index| && a <= c.index then
        HeadSet(s.adds, s.removes) <= a + r
      else a * Elements(Flatten(s.removes)) <= r
  }

  predicate CarefulRun(ops: seq<Op>) { forall i :: 0 <= i < |ops| ==> Careful(Run(ops[..i]), ops[i]) }

  // After any careful run, the cached heads are the folded set.
  lemma {:induction false} RunRefinesSet(ops: seq<Op>)
    requires CarefulRun(ops)
    ensures HeadSet(Run(ops).adds, Run(ops).removes) == FoldSet(ops) && (Run(ops).adds == [] ==> Run(ops).removes == [])
  {
    hide HeadSet, Update, Elements, Flatten, LooksComplete, Careful;
    if ops == [] {
      NoHeads();
    } else {
      var n := |ops| - 1;
      var shorter, op := ops[..n], ops[n];
      forall i | 0 <= i < n ensures shorter[..i] == ops[..i] {}
      RunRefinesSet(shorter);
      assert Careful(Run(shorter), op);
      if op.UpdateOp? { StepRefinesSet(Run(shorter), op.change); }
    }
  }

  // Nothing is ever forgotten before a first load: over any number of sessions without one and
  // without an explicit reset, whatever the head index holds, only the tombstones matter.
  predicate NeverLoaded(ops: seq<Op>) {
    forall i :: 0 <= i < |ops| ==> !ops[i].LoadOp? && (ops[i].UpdateOp? ==> ops[i].change.reset != Some(true))
  }

  predicate RespectsTombstones(ops: seq<Op>) {
    forall i :: 0 <= i < |ops| && ops[i].UpdateOp? ==>
      Elements(ops[i].change.added) * Elements(Flatten(Run(ops[..i]).removes)) <= Elements(ops[i].change.removed)
  }

  // All that was ever added and not removed since.
  function Accumulated(ops: seq<Op>): set<Hash> {
    if ops == [] then {}
    else
      var before := Accumulated(ops[..|ops| - 1]);
      match ops[|ops| - 1]
      case UpdateOp(c) => before + Elements(c.added) - Elements(c.removed)
      case _ => before
  }

  lemma {:induction false} NothingForgottenBeforeLoad(ops: seq<Op>)
    requires NeverLoaded(ops) && RespectsTombstones(ops)
    ensures !Run(ops).loaded && HeadSet(Run(ops).adds, Run(ops).removes) == Accumulated(ops)
    ensures Run(ops).adds == [] ==> Run(ops).removes == []
  {
    hide HeadSet, Update, Elements, Flatten, LooksComplete;
    if ops == [] {
      NoHeads();
    } else {
      var n := |ops| - 1;
      var shorter, op := ops[..n], ops[n];
      forall i | 0 <= i < n ensures shorter[..i] == ops[..i] {}
      NothingForgottenBeforeLoad(shorter);
      if op.UpdateOp? {
        assert Careful(Run(shorter), op);
        StepRefinesSet(Run(shorter), op.change);
      }
    }
  }

  lemma NoHeads()
    ensures HeadSet([], []) == {}
  {
  }

  // And a single step that is not careful does leave another set: carefulness is exact.
  lemma StepRefinesSet(s: State, c: Change)
    requires s.adds == [] ==> s.removes == []
    ensures var s' := Apply(s, UpdateOp(c));
            && (HeadSet(s'.adds, s'.removes)
                == (if c.reset == Some(true) then {} else HeadSet(s.adds, s.removes))
                   + Elements(c.added) - Elements(c.removed)
                <==> Careful(s, UpdateOp(c)))
            && (s'.adds == [] ==> s'.removes == [])
  {
    hide HeadSet, Flatten, Heads;
    UpdateIsOfSet(s.adds, s.removes, s.loaded, c.added, c.hasAdded, c.removed, c.reset, c.index);
    ResetRefinesSet(s.adds, s.removes, c.added, c.removed);
  }

  // Garbage stays bounded: there are no tombstones, or fewer than half as many as stored adds.
  predicate Bounded(adds: Batches, removes: Batches) {
    removes == [] || 2 * |Flatten(removes)| < |Flatten(adds)|
  }

  lemma {:induction false} GarbageStaysBounded(ops: seq<Op>)
    ensures Bounded(Run(ops).adds, Run(ops).removes)
  {
    if ops != [] {
      var n := |ops| - 1;
      GarbageStaysBounded(ops[..n]);
      var s := Run(ops[..n]);
      if ops[n].UpdateOp? {
        var c := ops[n].change;
        UpdateIsBounded((s.adds, s.removes), c.added, c.removed, ResetsAt(s, c));
      }
    }
  }

  lemma UpdateIsBounded(state: (Batches, Batches), added: seq<Hash>, removed: seq<Hash>, reset: bool)
    requires Bounded(state.0, state.1)
    ensures var (adds, removes) := Update(state.0, state.1, added, removed, reset);
            Bounded(adds, removes)
  {
    PushElements(if reset then [] else state.0, added);
    hide Heads;
  }
}
