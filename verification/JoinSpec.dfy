// What a bottom-up join (packages/log/src/log.ts, joinRecursively) is meant to do, independent of
// the order in which it meets entries.
//
// `known` are the hashes indexed before the join, `blocks` the entries that can be resolved from
// the batch, its references or the block store.
module JoinSpec {
  import opened Entries
  import opened Dag
  import opened DeleteWalk
  import opened IndexRuns

  datatype World = World(known: set<Hash>, blocks: Blocks, canAppend: Entry -> bool) {
    predicate Resolves(h: Hash) { h in known || h in blocks }

    predicate AllResolve(nexts: seq<Hash>) { forall n :: n in nexts ==> Resolves(n) }

    // The entry itself passes: it is allowed, and none of its nexts is missing.
    predicate Storable(h: Hash) {
      h in blocks && canAppend(blocks[h]) && AllResolve(blocks[h].meta.next)
    }

    function Accepted(hashes: set<Hash>): set<Hash> { set h | h in hashes && Storable(h) }
  }

  // The unindexed entries a join comes by: an entry, then its nexts up to the first missing one.
  ghost function Visit(w: World, rank: Hash -> nat, h: Hash): set<Hash>
    requires Acyclic(w.blocks, rank)
    decreases rank(h), 1, 0
  {
    if h in w.known || h !in w.blocks then {}
    else {h} + VisitAll(w, rank, rank(h), w.blocks[h].meta.next)
  }

  ghost function VisitAll(w: World, rank: Hash -> nat, bound: nat, nexts: seq<Hash>): set<Hash>
    requires Acyclic(w.blocks, rank) && RanksBelow(nexts, rank, bound)
    decreases bound, 0, |nexts|
  {
    if nexts == [] then {}
    else
      var front, last := nexts[..|nexts| - 1], nexts[|nexts| - 1];
      VisitAll(w, rank, bound, front) + (if w.AllResolve(front) then Visit(w, rank, last) else {})
  }

  lemma {:induction false} VisitRanks(w: World, rank: Hash -> nat, h: Hash, x: Hash)
    requires Acyclic(w.blocks, rank) && x in Visit(w, rank, h)
    ensures rank(x) <= rank(h) && x in w.blocks && x !in w.known
    decreases rank(h), 1, 0
  {
    if x != h {
      VisitAllRanks(w, rank, rank(h), w.blocks[h].meta.next, x);
    }
  }

  lemma {:induction false} VisitAllRanks(w: World, rank: Hash -> nat, bound: nat, nexts: seq<Hash>, x: Hash)
    requires Acyclic(w.blocks, rank) && RanksBelow(nexts, rank, bound) && x in VisitAll(w, rank, bound, nexts)
    ensures rank(x) < bound && x in w.blocks && x !in w.known
    decreases bound, 0, |nexts|
  {
    var front, last := nexts[..|nexts| - 1], nexts[|nexts| - 1];
    if x in VisitAll(w, rank, bound, front) {
      VisitAllRanks(w, rank, bound, front, x);
    } else {
      VisitRanks(w, rank, last, x);
    }
  }

  // Nothing is visited after the first next that does not resolve.
  lemma {:induction false} VisitStops(w: World, rank: Hash -> nat, bound: nat, nexts: seq<Hash>, i: nat)
    requires Acyclic(w.blocks, rank) && RanksBelow(nexts, rank, bound)
    requires i < |nexts| && !w.Resolves(nexts[i])
    ensures RanksBelow(nexts[..i], rank, bound)
    ensures VisitAll(w, rank, bound, nexts) == VisitAll(w, rank, bound, nexts[..i])
    decreases |nexts|
  {
    var front := nexts[..|nexts| - 1];
    if i < |front| {
      assert front[..i] == nexts[..i];
      VisitStops(w, rank, bound, front, i);
      assert front[i] in front;
    } else {
      assert front == nexts[..i];
    }
  }

  // ----- The index in the middle of a join -----

  // Entries keep their content; only head flags may change and entries may be added.
  ghost predicate Extends(v: View, v': View) {
    forall h :: h in v ==> h in v' && v'[h].SameContent(v[h])
  }

  // Every entry added so far is a storable block, and so are all that were visited below it.
  ghost predicate Settled(w: World, rank: Hash -> nat, v: View)
    requires Acyclic(w.blocks, rank)
  {
    && w.known <= v.Keys
    && forall h :: h in v && h !in w.known ==>
         && w.Storable(h) && v[h].SameContent(w.blocks[h].ToShallow(false))
         && w.Accepted(Visit(w, rank, h)) <= v.Keys
  }

  // No referenced entry is flagged as a head.
  ghost predicate HeadsSound(v: View) { forall h :: h in v && v[h].head ==> !Referenced(v, h) }

  // An unreferenced entry that is not flagged as a head: its referrer is still to come.
  ghost predicate Owes(v: View, h: Hash) { h in v && !v[h].head && !Referenced(v, h) }

  // The join meets nothing it cannot store.
  ghost predicate AllStorable(w: World, hashes: set<Hash>) { forall h :: h in hashes ==> w.Storable(h) }

  lemma HeadsExactIffNoDebt(v: View)
    requires HeadsSound(v)
    ensures HeadsExact(v) <==> forall h :: !Owes(v, h)
  {
    if forall h :: !Owes(v, h) {
      forall h | h in v ensures v[h].head <==> !Referenced(v, h) {
        assert !Owes(v, h);
      }
    }
  }

  // Storing an entry whose nexts are all present pays off what they owe, and adds only its own debt.
  lemma PutKeepsSound(v: View, entry: Entry, isHead: bool)
    requires Closed(v) && HeadsSound(v) && entry.hash !in v
    requires entry.meta.entryType.APPEND? && entry.hash !in entry.meta.next
    requires forall n :: n in entry.meta.next ==> n in v
    ensures var v' := PutView(v, entry, isHead);
            && Closed(v') && HeadsSound(v')
            && forall h :: Owes(v', h) ==> (Owes(v, h) && h !in entry.meta.next) || (!isHead && h == entry.hash)
  {
    var v' := PutView(v, entry, isHead);
    forall k, n | Points(v', k, n) ensures n in v' {
      assert k != entry.hash ==> Points(v, k, n);
    }
    forall h | h in v' && v'[h].head ensures !Referenced(v', h) {
      PutReferences(v, entry, isHead, h);
    }
    forall h | Owes(v', h) ensures (Owes(v, h) && h !in entry.meta.next) || (!isHead && h == entry.hash) {
      PutReferences(v, entry, isHead, h);
    }
  }

  lemma PutExtends(v: View, entry: Entry, isHead: bool)
    requires entry.hash !in v
    ensures var v' := PutView(v, entry, isHead);
            Extends(v, v') && v'.Keys == v.Keys + {entry.hash}
            && v'[entry.hash].SameContent(entry.ToShallow(false))
  {
  }

  // ----- One joined entry -----

  // The keys an entry's join leaves: those before it and every storable entry it came by.
  ghost predicate Joined(w: World, rank: Hash -> nat, v: View, v': View, visited: set<Hash>)
    requires Acyclic(w.blocks, rank)
  {
    Settled(w, rank, v') && Extends(v, v') && AppendOnly(v') && v'.Keys == v.Keys + w.Accepted(visited)
  }

  // Closed and sound, with no debts but the old ones and those of `extra`.
  ghost predicate Sound(v: View, v': View, extra: seq<Hash>) {
    Closed(v') && HeadsSound(v') && forall h :: Owes(v', h) ==> Owes(v, h) || h in extra
  }

  lemma SettledCovers(w: World, rank: Hash -> nat, v: View, h: Hash)
    requires Acyclic(w.blocks, rank) && Settled(w, rank, v) && AppendOnly(v)
    requires h in v || h !in w.blocks
    ensures Joined(w, rank, v, v, Visit(w, rank, h))
  {
    assert w.Accepted(Visit(w, rank, h)) <= v.Keys;
  }

  lemma NothingJoined(w: World, rank: Hash -> nat, v: View)
    requires Acyclic(w.blocks, rank) && Settled(w, rank, v) && AppendOnly(v)
    ensures Joined(w, rank, v, v, {})
  {
    assert w.Accepted({}) == {};
  }

  // The loop over nexts: one more next that resolves.
  lemma JoinedNext(w: World, rank: Hash -> nat, h: Hash, i: nat, v: View, v1: View, v2: View)
    requires Acyclic(w.blocks, rank) && h in w.blocks && i < |w.blocks[h].meta.next|
    requires var next := w.blocks[h].meta.next;
             && RanksBelow(next[..i], rank, rank(h))
             && w.AllResolve(next[..i])
             && Joined(w, rank, v, v1, VisitAll(w, rank, rank(h), next[..i]))
             && Joined(w, rank, v1, v2, Visit(w, rank, next[i]))
    ensures var next := w.blocks[h].meta.next;
            && RanksBelow(next[..i + 1], rank, rank(h))
            && Joined(w, rank, v, v2, VisitAll(w, rank, rank(h), next[..i + 1]))
  {
    hide Settled, AppendOnly;
    var next := w.blocks[h].meta.next;
    assert next[..i + 1][..i] == next[..i];
    var a, b := VisitAll(w, rank, rank(h), next[..i]), Visit(w, rank, next[i]);
    assert VisitAll(w, rank, rank(h), next[..i + 1]) == a + b;
    assert w.Accepted(a + b) == w.Accepted(a) + w.Accepted(b);
    ExtendsTransitive(v, v1, v2);
  }

  lemma ExtendsTransitive(v: View, v1: View, v2: View)
    requires Extends(v, v1) && Extends(v1, v2)
    ensures Extends(v, v2)
  {
  }

  // The entry is not stored: a next is missing, or it is not allowed.
  lemma JoinedWithoutEntry(w: World, rank: Hash -> nat, h: Hash, i: nat, v: View, v': View)
    requires Acyclic(w.blocks, rank) && h in w.blocks && h !in w.known && i <= |w.blocks[h].meta.next|
    requires var next := w.blocks[h].meta.next;
             && RanksBelow(next[..i], rank, rank(h))
             && Joined(w, rank, v, v', VisitAll(w, rank, rank(h), next[..i]))
             && (i < |next| ==> !w.Resolves(next[i]))
    requires !w.Storable(h)
    ensures Joined(w, rank, v, v', Visit(w, rank, h))
  {
    var next := w.blocks[h].meta.next;
    if i < |next| {
      VisitStops(w, rank, rank(h), next, i);
    } else {
      assert next[..i] == next;
    }
    hide Settled, AppendOnly, Extends, VisitAll;
    var all := VisitAll(w, rank, rank(h), next);
    assert Visit(w, rank, h) == {h} + all;
    assert w.Accepted({h} + all) == w.Accepted(all);
  }

  lemma JoinedWithEntry(w: World, rank: Hash -> nat, entry: Entry, isHead: bool, v: View, v1: View)
    requires Acyclic(w.blocks, rank) && w.Storable(entry.hash) && w.blocks[entry.hash] == entry
    requires entry.hash !in v1 && entry.hash !in w.known && entry.meta.entryType.APPEND?
    requires var next := entry.meta.next;
             && RanksBelow(next, rank, rank(entry.hash))
             && Joined(w, rank, v, v1, VisitAll(w, rank, rank(entry.hash), next))
    ensures Joined(w, rank, v, PutView(v1, entry, isHead), Visit(w, rank, entry.hash))
  {
    var h, v2 := entry.hash, PutView(v1, entry, isHead);
    PutExtends(v1, entry, isHead);
    hide PutView;
    ExtendsTransitive(v, v1, v2);
    var all := VisitAll(w, rank, rank(h), entry.meta.next);
    assert Visit(w, rank, h) == {h} + all;
    assert w.Accepted({h} + all) == {h} + w.Accepted(all);
    assert w.Accepted(Visit(w, rank, h)) <= v2.Keys;
    assert Settled(w, rank, v2) by {
      hide Visit, VisitAll;
    }
    assert AppendOnly(v2);
  }

  // If everything met on the way is storable, this holds below each next too.
  lemma {:induction false} SmoothNext(w: World, rank: Hash -> nat, bound: nat, nexts: seq<Hash>, i: nat)
    requires Acyclic(w.blocks, rank) && RanksBelow(nexts, rank, bound) && i < |nexts|
    requires w.AllResolve(nexts) && AllStorable(w, VisitAll(w, rank, bound, nexts))
    ensures AllStorable(w, Visit(w, rank, nexts[i]))
    decreases |nexts|
  {
    var front := nexts[..|nexts| - 1];
    if i < |front| {
      SmoothNext(w, rank, bound, front, i);
    }
  }

  lemma SoundNext(v: View, v1: View, v2: View, nexts: seq<Hash>, i: nat)
    requires i < |nexts|
    requires Sound(v, v1, nexts[..i])
    requires Sound(v1, v2, [nexts[i]])
    ensures Sound(v, v2, nexts[..i + 1])
  {
    assert nexts[..i + 1] == nexts[..i] + [nexts[i]];
  }

  lemma SoundWithEntry(v: View, v1: View, entry: Entry, isHead: bool)
    requires Sound(v, v1, entry.meta.next)
    requires entry.hash !in v1 && entry.hash !in entry.meta.next && entry.meta.entryType.APPEND?
    requires forall n :: n in entry.meta.next ==> n in v1
    ensures Sound(v, PutView(v1, entry, isHead), if isHead then [] else [entry.hash])
  {
    PutKeepsSound(v1, entry, isHead);
  }

  // ----- The whole of joinRecursively on one entry -----

  // Only APPEND entries are around, and what was added so far is settled.
  ghost predicate AppendWorld(w: World, rank: Hash -> nat, v: View)
    requires Acyclic(w.blocks, rank)
  {
    AppendOnly(v) && AppendBlocks(w.blocks) && Settled(w, rank, v)
  }

  // Every timestamp in the view is at most `last`.
  ghost predicate Covered(v: View, last: nat) {
    forall h :: h in v ==> v[h].meta.timestamp.Scalar() <= last
  }

  ghost predicate NewRanksBelow(v: View, v': View, rank: Hash -> nat, bound: nat) {
    forall h :: h in v' && h !in v ==> rank(h) < bound
  }

  // Everything met below h can be stored, and the index starts closed with sound flags.
  ghost predicate Smooth(w: World, rank: Hash -> nat, v: View, h: Hash)
    requires Acyclic(w.blocks, rank)
  {
    Closed(v) && HeadsSound(v) && AllStorable(w, Visit(w, rank, h)) && (h in v || h in w.blocks)
  }

  // What one call leaves behind.
  ghost predicate JoinDone(w: World, rank: Hash -> nat, v: View, v': View, h: Hash, isHead: bool)
    requires Acyclic(w.blocks, rank)
  {
    && Joined(w, rank, v, v', Visit(w, rank, h))
    && (Smooth(w, rank, v, h) ==> h in v' && Sound(v, v', if isHead then [] else [h]))
  }

  // The state of the loop over an entry's nexts, with the first i of them done.
  ghost predicate NextsDone(w: World, rank: Hash -> nat, v: View, v': View, h: Hash, i: nat)
    requires Acyclic(w.blocks, rank)
  {
    && h in w.blocks && i <= |w.blocks[h].meta.next|
    && RanksBelow(w.blocks[h].meta.next[..i], rank, rank(h))
    && w.AllResolve(w.blocks[h].meta.next[..i])
    && Joined(w, rank, v, v', VisitAll(w, rank, rank(h), w.blocks[h].meta.next[..i]))
    && (Smooth(w, rank, v, h) ==>
          && Sound(v, v', w.blocks[h].meta.next[..i])
          && forall n :: n in w.blocks[h].meta.next[..i] ==> n in v')
  }

  lemma NextsStart(w: World, rank: Hash -> nat, v: View, h: Hash)
    requires Acyclic(w.blocks, rank) && AppendWorld(w, rank, v) && h in w.blocks
    ensures NextsDone(w, rank, v, v, h, 0)
  {
    assert w.blocks[h].meta.next[..0] == [];
    NothingJoined(w, rank, v);
  }

  lemma JoinAlreadyIndexed(w: World, rank: Hash -> nat, v: View, h: Hash, isHead: bool)
    requires Acyclic(w.blocks, rank) && AppendWorld(w, rank, v) && h in v
    ensures JoinDone(w, rank, v, v, h, isHead)
  {
    SettledCovers(w, rank, v, h);
  }

  lemma SmoothGoesDown(w: World, rank: Hash -> nat, v: View, v': View, h: Hash, i: nat)
    requires Acyclic(w.blocks, rank) && Smooth(w, rank, v, h)
    requires h in w.blocks && h !in w.known && i < |w.blocks[h].meta.next|
    requires Closed(v') && HeadsSound(v') && w.known <= v'.Keys
    ensures w.Storable(h) && Smooth(w, rank, v', w.blocks[h].meta.next[i])
  {
    var next := w.blocks[h].meta.next;
    assert h in Visit(w, rank, h);
    assert AllStorable(w, VisitAll(w, rank, rank(h), next));
    SmoothNext(w, rank, rank(h), next, i);
    assert w.Resolves(next[i]);
  }

  lemma NextsStep(w: World, rank: Hash -> nat, v: View, v1: View, v2: View, h: Hash, i: nat)
    requires Acyclic(w.blocks, rank) && NextsDone(w, rank, v, v1, h, i)
    requires h !in w.known && i < |w.blocks[h].meta.next|
    requires w.Resolves(w.blocks[h].meta.next[i])
    requires JoinDone(w, rank, v1, v2, w.blocks[h].meta.next[i], false)
    ensures NextsDone(w, rank, v, v2, h, i + 1)
  {
    var next := w.blocks[h].meta.next;
    assert next[..i + 1] == next[..i] + [next[i]];
    JoinedNext(w, rank, h, i, v, v1, v2);
    if Smooth(w, rank, v, h) {
      assert w.known <= v1.Keys;
      SmoothGoesDown(w, rank, v, v1, h, i);
      hide Joined, Smooth, JoinDone;
      SoundNext(v, v1, v2, next, i);
      assert Extends(v1, v2) by { JoinedExtends(w, rank, v1, v2, Visit(w, rank, next[i])); }
    }
  }

  lemma JoinedExtends(w: World, rank: Hash -> nat, v: View, v': View, visited: set<Hash>)
    requires Acyclic(w.blocks, rank) && Joined(w, rank, v, v', visited)
    ensures Extends(v, v') && AppendOnly(v') && Settled(w, rank, v')
  {
  }

  lemma JoinStopsAtMissing(w: World, rank: Hash -> nat, v: View, v': View, h: Hash, isHead: bool, i: nat)
    requires Acyclic(w.blocks, rank) && NextsDone(w, rank, v, v', h, i)
    requires h !in w.known && i < |w.blocks[h].meta.next| && !w.Resolves(w.blocks[h].meta.next[i])
    ensures JoinDone(w, rank, v, v', h, isHead)
  {
    var next := w.blocks[h].meta.next;
    assert next[i] in next;
    JoinedWithoutEntry(w, rank, h, i, v, v');
    assert h in Visit(w, rank, h);
  }

  lemma JoinRejects(w: World, rank: Hash -> nat, v: View, v': View, h: Hash, isHead: bool)
    requires Acyclic(w.blocks, rank) && h in w.blocks && NextsDone(w, rank, v, v', h, |w.blocks[h].meta.next|)
    requires h !in w.known && !w.canAppend(w.blocks[h])
    ensures JoinDone(w, rank, v, v', h, isHead)
  {
    JoinedWithoutEntry(w, rank, h, |w.blocks[h].meta.next|, v, v');
    assert h in Visit(w, rank, h);
  }

  lemma JoinStores(w: World, rank: Hash -> nat, v: View, v1: View, h: Hash, isHead: bool)
    requires Acyclic(w.blocks, rank) && h in w.blocks && NextsDone(w, rank, v, v1, h, |w.blocks[h].meta.next|)
    requires h !in w.known && h !in v1 && w.canAppend(w.blocks[h]) && w.blocks[h].hash == h
    requires w.blocks[h].meta.entryType.APPEND?
    ensures JoinDone(w, rank, v, PutView(v1, w.blocks[h], isHead), h, isHead)
  {
    var entry := w.blocks[h];
    assert entry.meta.next[..|entry.meta.next|] == entry.meta.next;
    JoinedWithEntry(w, rank, entry, isHead, v, v1);
    if Smooth(w, rank, v, h) {
      SoundWithEntry(v, v1, entry, isHead);
    }
  }

  lemma UnindexedIsUnknown(w: World, rank: Hash -> nat, v: View, h: Hash)
    requires Acyclic(w.blocks, rank) && Settled(w, rank, v)
    ensures h !in v ==> h !in w.known
  {
  }

  lemma MissingStaysMissing(w: World, rank: Hash -> nat, v: View, h: Hash)
    requires Acyclic(w.blocks, rank) && Settled(w, rank, v) && h !in v && h !in w.blocks
    ensures !w.Resolves(h)
  {
  }

  lemma NextsDoneWorld(w: World, rank: Hash -> nat, v: View, v': View, h: Hash, i: nat)
    requires Acyclic(w.blocks, rank) && NextsDone(w, rank, v, v', h, i) && AppendBlocks(w.blocks)
    ensures AppendWorld(w, rank, v')
    ensures forall n :: n in v' ==> w.Resolves(n)
  {
  }

  lemma NextsAllDone(w: World, rank: Hash -> nat, v: View, v': View, h: Hash)
    requires Acyclic(w.blocks, rank) && h in w.blocks && NextsDone(w, rank, v, v', h, |w.blocks[h].meta.next|)
    ensures w.AllResolve(w.blocks[h].meta.next)
  {
    assert w.blocks[h].meta.next[..|w.blocks[h].meta.next|] == w.blocks[h].meta.next;
  }

  lemma NestedIsBelow(blocks: Blocks, rank: Hash -> nat, entry: Entry, i: nat)
    requires Acyclic(blocks, rank) && KeyedBlocks(blocks)
    requires entry.hash in blocks && blocks[entry.hash] == entry && i < |entry.meta.next|
    ensures rank(entry.meta.next[i]) < rank(entry.hash)
    ensures entry.meta.next[i] in blocks ==> blocks[entry.meta.next[i]].hash == entry.meta.next[i]
  {
  }

  lemma EntryIsGoodNode(blocks: Blocks, rank: Hash -> nat, entry: Entry)
    requires Acyclic(blocks, rank) && entry.hash in blocks && blocks[entry.hash] == entry
    ensures GoodNode(Node(entry.hash, entry.meta.next), rank)
  {
  }
}
