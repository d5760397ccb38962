// packages/log/src/entry-index.ts: head flags, the length counter and the write-behind buffer.
//
// The class keeps the source's fields.  Its contracts speak of Visible(), the buffer laid over
// the backing index, and equate every operation with the same operation on a plain index
// (PutView, DeleteView of module Entries), whether or not a write was deferred and whatever
// was flushed in between.
module EntryIndexModel {
  import opened Wrappers
  import opened Entries

  datatype DeleteError = HashMismatch

  class EntryIndex {
    var length: nat
    var cache: set<Hash>
    var pending: View           // pendingIndexWrites
    var index: View             // properties.index
    var store: map<Hash, Entry> // properties.store

    function Visible(): View
      reads this
    {
      index + pending
    }

    ghost predicate Valid()
      reads this
    {
      Buffered(index, pending, store) && Counted(Visible(), cache, length)
    }

    constructor ()
      ensures Valid() && Visible() == map[] && store == map[]
    {
      length, cache, pending, index, store := 0, {}, map[], map[], map[];
    }

    // Called with None by the idle timer and by every query.
    method FlushPendingWrites(hashes: Option<set<Hash>>)
      requires Buffered(index, pending, store)
      modifies this`pending, this`index
      ensures Buffered(index, pending, store) && Visible() == old(Visible())
      ensures pending == if hashes.None? then map[] else old(pending) - hashes.value
      ensures hashes == Some({}) ==> index == old(index)
    {
      hide Buffered;
      var keys := if hashes.Some? then hashes.value else pending.Keys;
      var todo := keys;
      while todo != {}
        invariant todo <= keys
        invariant pending == old(pending) - (keys - todo) && (keys == {} ==> index == old(index))
        invariant Buffered(index, pending, store) && Visible() == old(Visible())
      {
        var hash :| hash in todo;
        MinusMore(old(pending), keys - todo, hash);
        assert keys - (todo - {hash}) == keys - todo + {hash};
        if hash in pending {
          FlushOne(index, pending, store, hash);
          index := index[hash := pending[hash]];
          pending := pending - {hash};
        }
        todo := todo - {hash};
      }
      assert keys - todo == keys;
    }

    method GetShallow(k: Hash) returns (r: Option<ShallowEntry>)
      requires Valid()
      ensures r == if k in Visible() then Some(Visible()[k]) else None
    {
      if k in pending {
        return Some(pending[k]);
      }
      return if k in index then Some(index[k]) else None;
    }

    method Has(k: Hash) returns (r: bool)
      requires Counted(Visible(), cache, length)
      ensures r <==> k in Visible()
    {
      if k in cache {
        return true;
      }
      if k in pending {
        return true;
      }
      return k in index;
    }

    // Buffered and cached hashes are answered at once, the rest in batches.
    method HasMany(hashes: set<Hash>) returns (existing: set<Hash>)
      requires Valid()
      ensures existing == hashes * Visible().Keys
    {
      var missing: seq<Hash> := [];
      existing := {};
      var todo := hashes;
      while todo != {}
        invariant todo <= hashes
        invariant existing <= hashes * Visible().Keys
        invariant forall h :: h in missing ==> h in hashes && h !in pending
        invariant forall h :: h in hashes ==> h in todo || h in existing || h in missing
      {
        var hash :| hash in todo;
        if hash in cache || hash in pending {
          existing := existing + {hash};
        } else {
          missing := missing + [hash];
        }
        todo := todo - {hash};
      }
      var found := FindInBatches(missing);
      existing := existing + found;
    }

    // Queries of the backing index for 64 hashes at a time.
    method FindInBatches(missing: seq<Hash>) returns (found: set<Hash>)
      ensures found == set h | h in missing && h in index
    {
      var batchSize, i := 64, 0;
      found := {};
      while i < |missing|
        invariant 0 <= i
        invariant forall h :: h in found ==> h in missing && h in index
        invariant forall h :: h in missing && h in index ==> h in found || h in missing[Min(i, |missing|)..]
      {
        var batch := missing[i..Min(i + batchSize, |missing|)];
        assert missing[i..] == batch + missing[Min(i + batchSize, |missing|)..];
        assert forall h :: h in batch ==> h in missing;
        found := found + (set h | h in batch && h in index);
        i := i + batchSize;
      }
    }

    // Counts in the backing index, so the buffer is flushed first.
    method CountHasNext(next: Hash, excludeHash: Option<Hash>) returns (count: nat)
      requires Buffered(index, pending, store)
      modifies this`pending, this`index
      ensures Buffered(index, pending, store) && Visible() == old(Visible()) && pending == map[]
      ensures count == |set k | k in Visible() && Points(Visible(), k, next) && Some(k) != excludeHash|
      ensures count == 0 <==> forall k :: Points(Visible(), k, next) ==> Some(k) == excludeHash
      ensures excludeHash.None? ==> (count == 0 <==> !Referenced(Visible(), next))
    {
      hide Buffered;
      FlushPendingWrites(None);
      assert index == Visible();
      var matches := set k | k in index && next in index[k].meta.next && Some(k) != excludeHash;
      assert matches == set k | k in Visible() && Points(Visible(), k, next) && Some(k) != excludeHash;
      count := |matches|;
      if count == 0 {
        forall k | Points(Visible(), k, next) ensures Some(k) == excludeHash {
          assert k !in matches;
        }
      } else {
        var k :| k in matches;
        assert Points(Visible(), k, next);
      }
    }

    method GetMemoryUsage() returns (bytes: nat)
      requires Valid()
      ensures bytes == TotalSize(Visible())
    {
      var indexed := SumSizes(index);
      var buffered := SumSizes(pending);
      TotalSizeUnion(index, pending);
      bytes := indexed + buffered;
    }

    // The head flag is cleared in whichever of the two maps holds the entry.
    method DemoteNexts(meta: Meta)
      requires Governed(meta) != [] ==> Buffered(index, pending, store)
      modifies this`pending, this`index
      ensures Governed(meta) == [] ==> index == old(index) && pending == old(pending)
      ensures old(Buffered(index, pending, store)) ==>
                Buffered(index, pending, store) && Visible() == Demote(old(Visible()), Governed(meta))
      ensures pending.Keys == old(pending.Keys)
    {
      assert Buffered(index, pending, store) ==> pending.Keys !! index.Keys;
      hide Buffered, Demote;
      if meta.entryType.CUT? {
        DemoteNothing(Visible());
        return;
      }
      assert meta.next[..0] == [];
      DemoteNothing(index);
      DemoteNothing(pending);
      for i := 0 to |meta.next|
        invariant pending == Demote(old(pending), meta.next[..i]) && index == Demote(old(index), meta.next[..i])
      {
        var next := meta.next[i];
        DemoteOne(old(pending), meta.next, i);
        DemoteOne(old(index), meta.next, i);
        if next in pending {
          pending := pending[next := pending[next].(head := false)];
        } else if next in index {
          index := index[next := index[next].(head := false)];
        }
      }
      assert meta.next[..|meta.next|] == meta.next;
      if Buffered(old(index), old(pending), store) {
        DemoteKeepsBuffered(old(index), old(pending), store, meta.next);
      }
    }

    // A next that nothing references any more becomes a head again.  The reference count is
    // taken from the backing index, which flushes the buffer.
    method PromoteNexts(meta: Meta)
      requires Buffered(index, pending, store)
      requires forall n :: n in Governed(meta) ==> n !in pending
      modifies this`pending, this`index
      ensures Buffered(index, pending, store) && Visible() == Promote(old(Visible()), Governed(meta))
    {
      hide Buffered, Promote, Referenced;
      ghost var before := Visible();
      PromoteNothing(before);
      if meta.entryType.CUT? {
        return;
      }
      assert meta.next[..0] == [];
      for i := 0 to |meta.next|
        invariant Buffered(index, pending, store)
        invariant Visible() == Promote(before, meta.next[..i])
        invariant forall n :: n in meta.next ==> n !in pending
      {
        var next := meta.next[i];
        PromoteOne(before, meta.next, i);
        PromoteNext(next);
      }
      assert meta.next[..|meta.next|] == meta.next;
    }

    method PromoteNext(next: Hash)
      requires Buffered(index, pending, store) && next !in pending
      modifies this`pending, this`index
      ensures Buffered(index, pending, store) && pending.Keys <= old(pending.Keys)
      ensures var v := old(Visible());
              Visible() == if next in v && !Referenced(v, next) then v[next := v[next].(head := true)] else v
    {
      hide Buffered, Referenced;
      if next in index {
        var count := CountHasNext(next, None);
        if count == 0 {
          HeadFlagKeepsBuffered(index, store, next);
          index := index[next := index[next].(head := true)];
        }
      }
    }

    // `unique` promises that the hash is new, and a caller that defers a head promises that nothing
    // references it.  A hash that is put again keeps its content.  If its copy is in the other one
    // of the two maps there are two copies from then on, of which the buffered one is seen.
    method Put(entry: Entry, unique: bool, isHead: bool, toMultiHash: bool, deferIndexWrite: bool, gidHook: bool)
      requires Valid() && (unique ==> entry.hash !in Visible())
      requires entry.hash in Visible() ==> Visible()[entry.hash].SameContent(entry.ToShallow(false))
      requires toMultiHash || (entry.hash in store && store[entry.hash] == entry)
      requires deferIndexWrite && isHead ==> !Referenced(Visible(), entry.hash)
      modifies this
      ensures store == old(store)[entry.hash := entry]
      ensures Visible() == if Hidden(old(pending), entry, isHead, deferIndexWrite) then old(Visible())
                           else PutView(old(Visible()), entry, isHead)
      ensures Valid() <==> !TwoCopies(old(index), old(pending), entry, isHead, deferIndexWrite)
      ensures Defers(entry, isHead, deferIndexWrite) ==> entry.hash in pending
      ensures entry.hash in Visible()
      ensures !Hidden(old(pending), entry, isHead, deferIndexWrite) ==>
                var e := Visible()[entry.hash];
                && e.hash == entry.hash && e.meta == entry.meta && e.payloadSize == entry.payloadSize
                && (entry.hash !in entry.meta.next ==> e.head == isHead)
      ensures entry.hash !in old(Visible()) ==>
                TotalSize(Visible()) == TotalSize(old(Visible())) + entry.payloadSize
    {
      hide Buffered, Counted, Referenced, TwoCopies, Hidden, Defers, PutView;
      ghost var before, twoCopies := Visible(), TwoCopies(index, pending, entry, isHead, deferIndexWrite);
      AgainIsStored(index, pending, store, entry);
      BlockKeepsBuffered(index, pending, store, entry);
      if toMultiHash {
        store := store[entry.hash := entry];
      }
      assert store == old(store)[entry.hash := entry];
      CountEntry(entry.hash, unique);
      PutShallow(entry, isHead, deferIndexWrite, gidHook);
      PutShows(before, entry, isHead);
      HiddenIsIndexed(old(index), old(pending), entry, isHead, deferIndexWrite);
      if entry.hash !in before { PutTotal(before, entry, isHead); }
      if !twoCopies {
        HiddenHasCopies(old(index), old(pending), entry, isHead, deferIndexWrite);
        PutKeepsCount(before, entry, isHead, old(cache), old(length), Visible(), cache, length);
      }
    }

    // Writes the entry and takes the head flags from its nexts.
    method PutShallow(entry: Entry, isHead: bool, deferIndexWrite: bool, gidHook: bool)
      requires Buffered(index, pending, store) && entry.hash in store && store[entry.hash] == entry
      requires entry.hash in Visible() ==> Visible()[entry.hash].SameContent(entry.ToShallow(false))
      requires entry.hash in pending ==> entry.meta.next == []
      requires deferIndexWrite && isHead ==> !Referenced(Visible(), entry.hash)
      modifies this`pending, this`index
      ensures Visible() == if Hidden(old(pending), entry, isHead, deferIndexWrite) then old(Visible())
                           else PutView(old(Visible()), entry, isHead)
      ensures Buffered(index, pending, store) <==> !TwoCopies(old(index), old(pending), entry, isHead, deferIndexWrite)
      ensures Defers(entry, isHead, deferIndexWrite) ==> entry.hash in pending
    {
      hide Buffered, Demote, Referenced, TwoCopies, Hidden, Wrote, Defers, PutView, Governed;
      ghost var before := Visible();
      WriteShallow(entry, isHead, deferIndexWrite);
      if TwoCopies(old(index), old(pending), entry, isHead, deferIndexWrite) {
        TwoCopiesAreSeen(old(index), old(pending), store, entry, isHead, deferIndexWrite, index, pending);
      } else {
        WroteOnce(old(index), old(pending), store, entry, isHead, deferIndexWrite, index, pending);
      }
      if gidHook && |entry.meta.next| > 0 {
        FlushPendingWrites(None);
      }
      DemoteNexts(entry.meta);
      PutIsDemote(before, entry, isHead);
    }

    // Counts a new entry, and keeps it in the cache, which may evict.
    method CountEntry(hash: Hash, unique: bool)
      requires Counted(Visible(), cache, length) && (unique ==> hash !in Visible())
      modifies this`length, this`cache
      ensures length == old(length) + (if hash in Visible() then 0 else 1) && cache <= old(cache) + {hash}
    {
      var known := Has(hash);
      if unique || !known {
        length := length + 1;
      }
      var kept: set<Hash> :| kept <= cache + {hash};
      cache := kept;
    }

    method WriteShallow(entry: Entry, isHead: bool, deferIndexWrite: bool)
      requires Buffered(index, pending, store) && entry.hash in store && store[entry.hash] == entry
      requires entry.hash in pending ==> entry.meta.next == []
      requires deferIndexWrite && isHead ==> !Referenced(Visible(), entry.hash)
      modifies this`pending, this`index
      ensures Wrote(old(index), old(pending), store, entry, isHead, deferIndexWrite, index, pending)
    {
      hide Buffered, Referenced, Wrote;
      var shallow := entry.ToShallow(isHead);
      if deferIndexWrite && isHead && !entry.meta.entryType.CUT? && |entry.meta.next| == 0 {
        DeferredWrote(index, pending, store, entry);
        pending := pending[entry.hash := shallow];
      } else {
        FlushPendingWrites(Some(set n | n in entry.meta.next));
        DirectWrote(old(index), old(pending), store, entry, isHead, deferIndexWrite, index, pending);
        index := index[entry.hash := shallow];
      }
    }

    // `from` is a copy of the entry that the caller may already hold.
    method Delete(k: Hash, from: Option<ShallowEntry>) returns (r: Result<Option<ShallowEntry>, DeleteError>)
      requires Valid()
      requires from.Some? && from.value.hash == k && k in Visible() ==> from.value.SameContent(Visible()[k])
      modifies this
      ensures Valid()
      ensures r.Err? <==> from.Some? && from.value.hash != k
      ensures r.Err? ==> Visible() == old(Visible()) && store == old(store)
      ensures r.Ok? ==> Visible() == DeleteView(old(Visible()), k)
      ensures r.Ok? ==> store == if from.Some? || k in old(Visible()) then old(store) - {k} else old(store)
      ensures r.Ok? ==> (r.value.Some? <==> k in old(Visible()))
      ensures r.Ok? && k in old(Visible()) ==>
                TotalSize(Visible()) + old(Visible())[k].payloadSize == TotalSize(old(Visible()))
      ensures r.Ok? && r.value.Some? ==> r.value.value.SameContent(old(Visible())[k])
    {
      hide Buffered, Promote, Counted;
      cache := cache - {k};
      EvictKeepsCount(Visible(), old(cache), length, cache);
      if from.Some? && from.value.hash != k {
        return Err(HashMismatch);
      }
      if k in Visible() { DeleteTotal(Visible(), k); }
      var known := if k in pending then Some(pending[k]) else if k in index then Some(index[k]) else None;
      var entry := if from.Some? then from else known;
      if entry.None? {
        return Ok(None);
      }
      var deleted := DeleteEntry(k, entry.value.meta);
      return Ok(if deleted then entry else None);
    }

    method DeleteEntry(k: Hash, meta: Meta) returns (deleted: bool)
      requires Valid() && k !in cache
      requires k in Visible() ==> meta == Visible()[k].meta
      modifies this
      ensures Valid() && Visible() == DeleteView(old(Visible()), k)
      ensures deleted <==> k in old(Visible())
      ensures store == old(store) - {k}
    {
      hide Buffered, Promote, Counted, DeleteView, Governed;
      ghost var v := Visible();
      DeleteAbsent(v, k);
      deleted := Remove(k);
      store := store - {k};
      if deleted {
        DeleteCounts(v, k, cache, length);
        length := length - 1;
        PromoteNexts(meta);
        DeleteKeepsCount(v, k, cache, length + 1, Visible(), cache, length);
      }
    }

    // Takes the entry out of the buffer or else out of the backing index.
    method Remove(k: Hash) returns (deleted: bool)
      requires Buffered(index, pending, store)
      modifies this`pending, this`index
      ensures Buffered(index, pending, store - {k}) && Visible() == old(Visible()) - {k}
      ensures deleted <==> k in old(Visible())
      ensures deleted ==> forall n :: n in Governed(old(Visible())[k].meta) ==> n !in pending
    {
      hide Buffered;
      WithoutKeepsBuffered(index, pending, store, k);
      if k in pending {
        pending := pending - {k};
        return true;
      }
      deleted := k in index;
      index := index - {k};
    }
  }

  // Every visible entry has its block in the store.
  ghost predicate Stored(v: View, store: map<Hash, Entry>) {
    forall h :: h in v ==> h in store && store[h].hash == h && store[h].ToShallow(v[h].head) == v[h]
  }

  // Buffered entries have no nexts and nothing in the backing index points at them.
  ghost predicate Unpointed(index: View, pending: View) {
    && (forall p :: p in pending ==> pending[p].meta.next == [] && pending[p].meta.entryType.APPEND?)
    && (forall k, n :: k in index && n in index[k].meta.next ==> n !in pending)
  }

  // How the backing index, the write buffer and the block store fit together.
  ghost predicate Buffered(index: View, pending: View, store: map<Hash, Entry>) {
    && pending.Keys !! index.Keys
    && Stored(index, store) && Stored(pending, store)
    && Unpointed(index, pending)
  }

  // The cache holds indexed entries only and the counter is the size of the view.
  ghost predicate Counted(v: View, cache: set<Hash>, length: nat) {
    cache <= v.Keys && length == |v|
  }

  lemma BufferedFacts(index: View, pending: View, store: map<Hash, Entry>)
    requires Buffered(index, pending, store)
    ensures Stored(index + pending, store) && WellKeyed(index + pending)
  {
  }

  lemma FlushOne(index: View, pending: View, store: map<Hash, Entry>, h: Hash)
    requires Buffered(index, pending, store) && h in pending
    ensures Buffered(index[h := pending[h]], pending - {h}, store)
    ensures index[h := pending[h]] + (pending - {h}) == index + pending
  {
  }

  lemma DemoteNothing(v: View)
    ensures Demote(v, []) == v
  {
  }

  lemma DemoteOne(v: View, nexts: seq<Hash>, i: nat)
    requires i < |nexts|
    ensures var w, n := Demote(v, nexts[..i]), nexts[i];
            && w.Keys == v.Keys
            && Demote(v, nexts[..i + 1]) == if n in w then w[n := w[n].(head := false)] else w
  {
    assert nexts[..i + 1] == nexts[..i] + [nexts[i]];
  }

  lemma DemoteKeepsBuffered(index: View, pending: View, store: map<Hash, Entry>, nexts: seq<Hash>)
    requires Buffered(index, pending, store)
    ensures Buffered(Demote(index, nexts), Demote(pending, nexts), store)
    ensures Demote(index, nexts) + Demote(pending, nexts) == Demote(index + pending, nexts)
    ensures Demote(pending, nexts).Keys == pending.Keys
  {
    DemoteUnion(index, pending, nexts);
    var i, p := Demote(index, nexts), Demote(pending, nexts);
    assert forall h :: h in i ==> i[h].SameContent(index[h]);
    assert forall h :: h in p ==> p[h].SameContent(pending[h]);
    hide Demote;
  }

  lemma DemoteUnion(v: View, w: View, nexts: seq<Hash>)
    ensures Demote(v, nexts) + Demote(w, nexts) == Demote(v + w, nexts)
    ensures Demote(v, nexts).Keys == v.Keys && Demote(w, nexts).Keys == w.Keys
  {
  }

  method SumSizes(v: View) returns (total: nat)
    ensures total == TotalSize(v)
  {
    total := 0;
    var todo := v;
    while todo != map[]
      invariant total + TotalSize(todo) == TotalSize(v)
      decreases |todo|
    {
      var h :| h in todo;
      TotalSizeSplit(todo, h);
      assert (todo - {h}).Keys == todo.Keys - {h};
      total := total + todo[h].payloadSize;
      todo := todo - {h};
    }
  }

  // When a put goes to the buffer.
  predicate Defers(entry: Entry, isHead: bool, deferIndexWrite: bool) {
    deferIndexWrite && isHead && entry.meta.entryType.APPEND? && entry.meta.next == []
  }

  // The put goes to one of the two maps and the other one holds the hash already.
  predicate TwoCopies(index: View, pending: View, entry: Entry, isHead: bool, deferIndexWrite: bool) {
    entry.hash in if Defers(entry, isHead, deferIndexWrite) then index else pending
  }

  // It goes to the index while the buffer holds the hash with another flag.
  predicate Hidden(pending: View, entry: Entry, isHead: bool, deferIndexWrite: bool) {
    !Defers(entry, isHead, deferIndexWrite) && entry.hash in pending && pending[entry.hash].head != isHead
  }

  lemma HiddenIsIndexed(index: View, pending: View, entry: Entry, isHead: bool, deferIndexWrite: bool)
    ensures Hidden(pending, entry, isHead, deferIndexWrite) ==> entry.hash in index + pending
  {
  }

  lemma HiddenHasCopies(index: View, pending: View, entry: Entry, isHead: bool, deferIndexWrite: bool)
    ensures Hidden(pending, entry, isHead, deferIndexWrite) ==>
              TwoCopies(index, pending, entry, isHead, deferIndexWrite)
  {
  }

  // What the two maps are after the write of a put: in the second case as they are for a plain put.
  ghost predicate Wrote(index: View, pending: View, store: map<Hash, Entry>, entry: Entry, isHead: bool,
                        deferIndexWrite: bool, index': View, pending': View) {
    var shallow := entry.ToShallow(isHead);
    if TwoCopies(index, pending, entry, isHead, deferIndexWrite) then
      if Defers(entry, isHead, deferIndexWrite) then index' == index && pending' == pending[entry.hash := shallow]
      else index' == index[entry.hash := shallow] && pending' == pending
    else
      && Buffered(index', pending', store) && index' + pending' == (index + pending)[entry.hash := shallow]
      && (Defers(entry, isHead, deferIndexWrite) ==> entry.hash in pending')
  }

  lemma DeferredWrote(index: View, pending: View, store: map<Hash, Entry>, entry: Entry)
    requires Buffered(index, pending, store) && entry.hash in store && store[entry.hash] == entry
    requires entry.meta.entryType.APPEND? && entry.meta.next == [] && !Referenced(index + pending, entry.hash)
    ensures Wrote(index, pending, store, entry, true, true, index, pending[entry.hash := entry.ToShallow(true)])
  {
    if entry.hash !in index {
      DeferredKeepsBuffered(index, pending, store, entry);
    }
    hide Buffered, Referenced;
  }

  lemma PutIsDemote(v: View, entry: Entry, isHead: bool)
    ensures PutView(v, entry, isHead) == Demote(v[entry.hash := entry.ToShallow(isHead)], Governed(entry.meta))
  {
  }

  // The nexts have been flushed.
  lemma DirectWrote(index: View, pending: View, store: map<Hash, Entry>, entry: Entry, isHead: bool,
                    deferIndexWrite: bool, index1: View, pending1: View)
    requires Buffered(index1, pending1, store) && index1 + pending1 == index + pending
    requires var nexts := set n | n in entry.meta.next; pending1 == pending - nexts && (nexts == {} ==> index1 == index)
    requires entry.hash in store && store[entry.hash] == entry && (entry.hash in pending ==> entry.meta.next == [])
    requires !Defers(entry, isHead, deferIndexWrite)
    ensures Wrote(index, pending, store, entry, isHead, deferIndexWrite, index1[entry.hash := entry.ToShallow(isHead)],
                  pending1)
  {
    hide Buffered;
    if entry.hash in pending {
      assert (set n | n in entry.meta.next) == {};
      assert pending - {} == pending;
    } else {
      assert entry.hash !in pending1 && forall n :: n in entry.meta.next ==> n !in pending1;
      DirectKeepsBuffered(index1, pending1, store, entry, isHead);
      DirectIsSeen(index1, pending1, entry, isHead);
    }
  }

  lemma DirectIsSeen(index: View, pending: View, entry: Entry, isHead: bool)
    requires entry.hash !in pending
    ensures var shallow := entry.ToShallow(isHead);
            index[entry.hash := shallow] + pending == (index + pending)[entry.hash := shallow]
  {
  }

  lemma WroteOnce(index: View, pending: View, store: map<Hash, Entry>, entry: Entry, isHead: bool,
                  deferIndexWrite: bool, index': View, pending': View)
    requires Wrote(index, pending, store, entry, isHead, deferIndexWrite, index', pending')
    requires !TwoCopies(index, pending, entry, isHead, deferIndexWrite)
    ensures Buffered(index', pending', store)
    ensures index' + pending' == (index + pending)[entry.hash := entry.ToShallow(isHead)]
    ensures !Hidden(pending, entry, isHead, deferIndexWrite)
    ensures Defers(entry, isHead, deferIndexWrite) ==> entry.hash in pending' && entry.meta.next == []
  {
    hide Buffered;
  }

  lemma AgainIsStored(index: View, pending: View, store: map<Hash, Entry>, entry: Entry)
    requires Buffered(index, pending, store)
    requires var v := index + pending; entry.hash in v ==> v[entry.hash].SameContent(entry.ToShallow(false))
    ensures entry.hash in index + pending ==> entry.hash in store && store[entry.hash] == entry
    ensures entry.hash in pending ==> entry.meta.next == []
  {
  }

  lemma TwoCopiesAreSeen(index: View, pending: View, store: map<Hash, Entry>, entry: Entry, isHead: bool,
                         deferIndexWrite: bool, index': View, pending': View)
    requires var v := index + pending; entry.hash in v ==> v[entry.hash].SameContent(entry.ToShallow(false))
    requires entry.hash in pending ==> entry.meta.next == []
    requires Wrote(index, pending, store, entry, isHead, deferIndexWrite, index', pending')
    requires TwoCopies(index, pending, entry, isHead, deferIndexWrite)
    ensures !Buffered(index', pending', store) && entry.meta.next == [] && Governed(entry.meta) == []
    ensures Defers(entry, isHead, deferIndexWrite) ==> entry.hash in pending'
    ensures index' + pending' == if Hidden(pending, entry, isHead, deferIndexWrite) then index + pending
                                 else PutView(index + pending, entry, isHead)
  {
    DemoteNothing((index + pending)[entry.hash := entry.ToShallow(isHead)]);
  }

  lemma BlockKeepsBuffered(index: View, pending: View, store: map<Hash, Entry>, entry: Entry)
    requires Buffered(index, pending, store)
    requires (entry.hash in index + pending ==> entry.hash in store && store[entry.hash] == entry)
    ensures Buffered(index, pending, store[entry.hash := entry])
  {
  }

  lemma DeferredKeepsBuffered(index: View, pending: View, store: map<Hash, Entry>, entry: Entry)
    requires Buffered(index, pending, store) && entry.hash !in index
    requires entry.hash in store && store[entry.hash] == entry
    requires entry.meta.entryType.APPEND? && entry.meta.next == []
    requires !Referenced(index + pending, entry.hash)
    ensures Buffered(index, pending[entry.hash := entry.ToShallow(true)], store)
  {
    forall k, n | k in index && n in index[k].meta.next ensures n != entry.hash {
      assert Points(index + pending, k, n);
    }
  }

  lemma DirectKeepsBuffered(index: View, pending: View, store: map<Hash, Entry>, entry: Entry, isHead: bool)
    requires Buffered(index, pending, store) && entry.hash !in pending
    requires entry.hash in store && store[entry.hash] == entry
    requires forall n :: n in entry.meta.next ==> n !in pending
    ensures Buffered(index[entry.hash := entry.ToShallow(isHead)], pending, store)
  {
  }

  lemma HeadFlagKeepsBuffered(index: View, store: map<Hash, Entry>, h: Hash)
    requires Buffered(index, map[], store) && h in index
    ensures Buffered(index[h := index[h].(head := true)], map[], store)
  {
  }

  lemma WithoutKeepsBuffered(index: View, pending: View, store: map<Hash, Entry>, k: Hash)
    requires Buffered(index, pending, store)
    ensures k in pending ==>
              Buffered(index, pending - {k}, store - {k}) && index + (pending - {k}) == index + pending - {k}
    ensures k in pending ==> k !in index && pending[k].meta.next == []
    ensures k !in pending ==>
              Buffered(index - {k}, pending, store - {k}) && (index - {k}) + pending == index + pending - {k}
    ensures k in index ==> forall n :: n in index[k].meta.next ==> n !in pending
  {
    UnionWithout(index, pending, k);
    hide Unpointed;
    StoredWithout(index, store, k);
    StoredWithout(pending, store, k);
    UnpointedWithout(index, pending, k);
  }

  lemma UnionWithout(index: View, pending: View, k: Hash)
    requires index.Keys !! pending.Keys
    ensures k in pending ==> index + (pending - {k}) == index + pending - {k}
    ensures k !in pending ==> (index - {k}) + pending == index + pending - {k}
  {
  }

  lemma StoredWithout(v: View, store: map<Hash, Entry>, k: Hash)
    requires Stored(v, store)
    ensures Stored(v - {k}, store - {k}) && (k !in v ==> Stored(v, store - {k}))
  {
  }

  lemma UnpointedWithout(index: View, pending: View, k: Hash)
    requires Unpointed(index, pending)
    ensures Unpointed(index - {k}, pending) && Unpointed(index, pending - {k})
    ensures k in pending ==> pending[k].meta.next == []
    ensures k in index ==> forall n :: n in index[k].meta.next ==> n !in pending
  {
  }

  lemma PromoteNothing(v: View)
    ensures Promote(v, []) == v
  {
  }

  lemma PromoteOne(v: View, nexts: seq<Hash>, i: nat)
    requires i < |nexts|
    ensures var w, n := Promote(v, nexts[..i]), nexts[i];
            && w.Keys == v.Keys
            && Promote(v, nexts[..i + 1]) == if n in w && !Referenced(w, n) then w[n := w[n].(head := true)] else w
  {
    assert nexts[..i + 1] == nexts[..i] + [nexts[i]];
    SameReferences(v, Promote(v, nexts[..i]), nexts[i]);
    hide Referenced;
  }

  lemma PutKeepsCount(v: View, entry: Entry, isHead: bool, cache: set<Hash>, length: nat,
                      v': View, cache': set<Hash>, length': nat)
    requires Counted(v, cache, length)
    requires v' == PutView(v, entry, isHead) && cache' <= cache + {entry.hash}
    requires length' == length + if entry.hash in v then 0 else 1
    ensures Counted(v', cache', length')
  {
    var w := v[entry.hash := entry.ToShallow(isHead)];
    assert w.Keys == v.Keys + {entry.hash};
    assert Demote(w, Governed(entry.meta)).Keys == w.Keys;
  }

  lemma DeleteKeepsCount(v: View, k: Hash, cache: set<Hash>, length: nat,
                         v': View, cache': set<Hash>, length': nat)
    requires Counted(v, cache, length) && k in v
    requires v' == Promote(v - {k}, Governed(v[k].meta)) && cache' <= cache - {k} && length' == length - 1
    ensures Counted(v', cache', length') && v' == DeleteView(v, k)
  {
    SmallerWithout(v, k);
    assert Promote(v - {k}, Governed(v[k].meta)).Keys == (v - {k}).Keys;
  }

  lemma DeleteCounts(v: View, k: Hash, cache: set<Hash>, length: nat)
    requires Counted(v, cache, length) && k in v
    ensures length > 0
  {
    SmallerWithout(v, k);
  }

  lemma DeleteAbsent(v: View, k: Hash)
    ensures k !in v ==> DeleteView(v, k) == v == v - {k}
  {
    if k !in v { assert v - {k} == v; }
  }

  lemma EvictKeepsCount(v: View, cache: set<Hash>, length: nat, cache': set<Hash>)
    requires Counted(v, cache, length) && cache' <= cache
    ensures Counted(v, cache', length)
  {
  }
}
