// A join step by step, CUT entries included: which index and which blocks one entry of a batch, and
// then a whole batch, lead to.
module JoinRuns {
  import opened Entries
  import opened Dag
  import opened EntryCreate
  import opened DeleteWalk
  import opened JoinSpec
  import opened JoinBatch

  // What a log holds: its index and its block store.
  datatype Held = Held(v: View, store: Blocks)

  // ----- CUT entries -----

  // The check of joinRecursively against CUT heads (Sorting.compare with LastWriteWins).
  predicate CutsOff(head: ShallowEntry, entry: Entry) {
    && head.head && head.meta.gid == entry.meta.gid && head.meta.entryType.CUT?
    && entry.meta.timestamp.Compare(head.meta.timestamp) < 0
  }

  // A head cuts off exactly the entries of its gid that lie before it, if it is a CUT.  So a created
  // CUT, which lies after all it lists, keeps those of its gid from coming back.
  lemma CutsOffWhatLiesBefore(cut: ShallowEntry, entry: Entry)
    ensures CutsOff(cut, entry) <==>
              && cut.meta.entryType.CUT? && cut.head && cut.meta.gid == entry.meta.gid
              && entry.meta.timestamp.Scalar() < cut.meta.timestamp.Scalar()
  {
  }

  lemma CreatedCutCutsOff(nexts: seq<ShallowEntry>, cut: Entry, entry: Entry, v: View)
    requires CreatedOn(nexts, cut) && cut.meta.entryType.CUT?
    requires exists n :: n in nexts && n.hash == entry.hash && n.meta == entry.meta && n.meta.gid == cut.meta.gid
    requires cut.hash in v && v[cut.hash] == cut.ToShallow(true)
    ensures CutAlready(v, entry)
  {
    var n :| n in nexts && n.hash == entry.hash && n.meta == entry.meta && n.meta.gid == cut.meta.gid;
    var i :| 0 <= i < |nexts| && nexts[i] == n;
    assert cut.meta.next[i] == entry.hash;
    CutsOffWhatLiesBefore(cut.ToShallow(true), entry);
    assert Points(v, cut.hash, entry.hash);
  }

  // A newer CUT in the index lists the entry.
  ghost predicate CutAlready(v: View, entry: Entry) { exists k :: Points(v, k, entry.hash) && CutsOff(v[k], entry) }

  // A CUT goes in as a put and takes with it what it schedules.
  ghost predicate CutStored(v: View, store: Blocks, entry: Entry, isHead: bool, v': View) {
    var v1, store1 := PutView(v, entry, isHead), store[entry.hash := entry];
    && (forall h :: h in v' <==> h in v1 && !Scheduled(v1, store1, [Node(entry.hash, entry.meta.next)], true, h))
    && Extends(v', v1)
  }

  // ----- One entry -----

  // An entry goes in.  With a CUT, the blocks of what it takes from the index go too.
  ghost predicate Takes(s: Held, entry: Entry, isHead: bool, s': Held) {
    var v1, store1 := PutView(s.v, entry, isHead), s.store[entry.hash := entry];
    match entry.meta.entryType
    case APPEND => s' == Held(v1, store1)
    case CUT =>
      && CutStored(s.v, s.store, entry, isHead, s'.v)
      && SubBlocks(s'.store, store1) && forall h :: h in store1 ==> (h in s'.store <==> h in s'.v || h !in v1)
  }

  ghost predicate Admits(w: World, s: Held, entry: Entry, isHead: bool, s': Held) {
    if w.canAppend(entry) then Takes(s, entry, isHead, s') else s' == s
  }

  // The join of one entry: nothing if it is indexed or cut off already; else its nexts first, unless
  // it is a CUT, and then itself, if none of them is missing.
  ghost predicate JoinsOne(w: World, rank: Hash -> nat, s: Held, h: Hash, isHead: bool, s': Held)
    requires Acyclic(w.blocks, rank) && h in w.blocks
    decreases rank(h), 1, 0
  {
    var e := w.blocks[h];
    if h in s.v || CutAlready(s.v, e) then s' == s
    else if e.meta.entryType.CUT? then Admits(w, s, e, isHead, s')
    else
      || NextsStop(w, rank, s, h, s')
      || exists mid :: JoinsNexts(w, rank, s, h, |e.meta.next|, mid) && Admits(w, mid, e, isHead, s')
  }

  // The join of the first i nexts of an entry, one after the other.
  ghost predicate JoinsNexts(w: World, rank: Hash -> nat, s: Held, h: Hash, i: nat, s': Held)
    requires Acyclic(w.blocks, rank) && h in w.blocks && i <= |w.blocks[h].meta.next|
    decreases rank(h), 0, i
  {
    if i == 0 then s' == s
    else
      var a := w.blocks[h].meta.next[i - 1];
      exists mid ::
        && JoinsNexts(w, rank, s, h, i - 1, mid)
        && if a in mid.v then s' == mid else a in w.blocks && JoinsOne(w, rank, mid, a, false, s')
  }

  // The loop over the nexts ends at one that is neither indexed nor at hand.
  ghost predicate NextsStop(w: World, rank: Hash -> nat, s: Held, h: Hash, s': Held)
    requires Acyclic(w.blocks, rank) && h in w.blocks
    decreases rank(h), 0, |w.blocks[h].meta.next| + 1
  {
    exists i :: 0 <= i < |w.blocks[h].meta.next| && JoinsNexts(w, rank, s, h, i, s')
                && w.blocks[h].meta.next[i] !in s'.v && w.blocks[h].meta.next[i] !in w.blocks
  }

  lemma OneIsKnown(w: World, rank: Hash -> nat, s: Held, h: Hash, isHead: bool)
    requires Acyclic(w.blocks, rank) && h in w.blocks && (h in s.v || CutAlready(s.v, w.blocks[h]))
    ensures JoinsOne(w, rank, s, h, isHead, s)
  {
  }

  lemma OneStops(w: World, rank: Hash -> nat, s: Held, h: Hash, isHead: bool, s': Held)
    requires Acyclic(w.blocks, rank) && h in w.blocks && h !in s.v && !CutAlready(s.v, w.blocks[h])
    requires w.blocks[h].meta.entryType.APPEND? && NextsStop(w, rank, s, h, s')
    ensures JoinsOne(w, rank, s, h, isHead, s')
  {
    hide NextsStop;
  }

  lemma OneIsAdmitted(w: World, rank: Hash -> nat, s: Held, h: Hash, isHead: bool, mid: Held, s': Held)
    requires Acyclic(w.blocks, rank) && h in w.blocks && h !in s.v && !CutAlready(s.v, w.blocks[h])
    requires var e := w.blocks[h];
             && Admits(w, mid, e, isHead, s')
             && if e.meta.entryType.CUT? then mid == s else JoinsNexts(w, rank, s, h, |e.meta.next|, mid)
    ensures JoinsOne(w, rank, s, h, isHead, s')
  {
    hide Admits, JoinsNexts, NextsStop;
  }

  lemma NoNextsYet(w: World, rank: Hash -> nat, s: Held, h: Hash)
    requires Acyclic(w.blocks, rank) && h in w.blocks
    ensures JoinsNexts(w, rank, s, h, 0, s)
  {
  }

  lemma OneMoreNext(w: World, rank: Hash -> nat, s: Held, h: Hash, i: nat, mid: Held, s': Held)
    requires Acyclic(w.blocks, rank) && h in w.blocks && i < |w.blocks[h].meta.next|
    requires JoinsNexts(w, rank, s, h, i, mid)
    requires var a := w.blocks[h].meta.next[i];
             if a in mid.v then s' == mid else a in w.blocks && JoinsOne(w, rank, mid, a, false, s')
    ensures JoinsNexts(w, rank, s, h, i + 1, s')
  {
    hide JoinsOne;
  }

  lemma StopsHere(w: World, rank: Hash -> nat, s: Held, h: Hash, i: nat, s': Held)
    requires Acyclic(w.blocks, rank) && h in w.blocks && i < |w.blocks[h].meta.next|
    requires JoinsNexts(w, rank, s, h, i, s')
    requires w.blocks[h].meta.next[i] !in s'.v && w.blocks[h].meta.next[i] !in w.blocks
    ensures NextsStop(w, rank, s, h, s')
  {
    hide JoinsNexts;
  }

  // ----- A batch -----

  // The flags of a batch: an entry that was listed before it came is passed over; any other one is
  // flagged as a head, and what it lists as none.
  function HeadFlags(entries: seq<Entry>): map<Hash, bool> {
    if entries == [] then map[]
    else
      var flags, last := HeadFlags(entries[..|entries| - 1]), entries[|entries| - 1];
      if last.hash in flags then flags else Unflagged(flags[last.hash := true], last.meta.next)
  }

  function Unflagged(flags: map<Hash, bool>, nexts: seq<Hash>): map<Hash, bool> {
    if nexts == [] then flags else Unflagged(flags, nexts[..|nexts| - 1])[nexts[|nexts| - 1] := false]
  }

  ghost predicate JoinsBatch(w: World, rank: Hash -> nat, s: Held, entries: seq<Entry>, n: nat, s': Held)
    requires Acyclic(w.blocks, rank) && n <= |entries|
  {
    if n == 0 then s' == s
    else
      var h := entries[n - 1].hash;
      exists mid ::
        && JoinsBatch(w, rank, s, entries, n - 1, mid)
        && h in w.blocks && h in HeadFlags(entries) && JoinsOne(w, rank, mid, h, HeadFlags(entries)[h], s')
  }

  lemma NothingJoinedYet(w: World, rank: Hash -> nat, s: Held, entries: seq<Entry>)
    requires Acyclic(w.blocks, rank)
    ensures JoinsBatch(w, rank, s, entries, 0, s)
  {
  }

  lemma OneMoreOfBatch(w: World, rank: Hash -> nat, s: Held, entries: seq<Entry>, n: nat, mid: Held, s': Held)
    requires Acyclic(w.blocks, rank) && n < |entries| && JoinsBatch(w, rank, s, entries, n, mid)
    requires var h := entries[n].hash;
             h in w.blocks && h in HeadFlags(entries) && JoinsOne(w, rank, mid, h, HeadFlags(entries)[h], s')
    ensures JoinsBatch(w, rank, s, entries, n + 1, s')
  {
    hide JoinsOne, HeadFlags;
  }

  // A batch of one CUT: it goes in exactly if it is new, not cut off and allowed.
  lemma SingleCut(w: World, rank: Hash -> nat, s: Held, c: Entry, s': Held)
    requires Acyclic(w.blocks, rank) && c.hash in w.blocks && w.blocks[c.hash] == c && c.meta.entryType.CUT?
    requires JoinsBatch(w, rank, s, [c], 1, s')
    ensures if c.hash in s.v || CutAlready(s.v, c) || !w.canAppend(c) then s' == s
            else CutStored(s.v, s.store, c, true, s'.v)
  {
    hide CutStored, CutAlready, JoinsNexts, HeadFlags;
    assert forall n :: n in c.meta.next ==> rank(n) < rank(c.hash);
    SingleIsHead(c);
    var mid :| JoinsBatch(w, rank, s, [c], 0, mid) && JoinsOne(w, rank, mid, c.hash, HeadFlags([c])[c.hash], s');
  }

  // The same of a join that is handed one CUT.
  lemma JoinOfSingleCut(elements: seq<JoinElement>, storage: Blocks, canAppend: Entry -> bool, rank: Hash -> nat,
                        s: Held, s': Held)
    requires var entries := BatchEntries(s.v.Keys, storage, elements);
             var blocks := storage + References(s.v.Keys, storage, elements);
             && Fetchable(s.v.Keys, storage, elements) && Acyclic(blocks, rank) && InBlocks(entries, blocks)
             && JoinsBatch(World(s.v.Keys, blocks, canAppend), rank, s, entries, |entries|, s')
    ensures forall c :: elements == [FullEntry(c)] && c.meta.entryType.CUT? ==>
              if c.hash in s.v || CutAlready(s.v, c) || !canAppend(c) then s'.v == s.v
              else CutStored(s.v, s.store, c, true, s'.v)
  {
    hide CutAlready, CutStored, JoinsOne, References, Acyclic;
    forall c | elements == [FullEntry(c)] && c.meta.entryType.CUT?
      ensures if c.hash in s.v || CutAlready(s.v, c) || !canAppend(c) then s'.v == s.v
              else CutStored(s.v, s.store, c, true, s'.v)
    {
      assert elements[..0] == [];
      if c.hash !in s.v {
        var blocks := storage + References(s.v.Keys, storage, elements);
        assert BatchEntries(s.v.Keys, storage, elements) == [c] && c in [c];
        SingleCut(World(s.v.Keys, blocks, canAppend), rank, s, c, s');
      }
    }
  }

  lemma SingleIsHead(c: Entry)
    requires c.hash !in c.meta.next
    ensures c.hash in HeadFlags([c]) && HeadFlags([c])[c.hash]
  {
    assert [c][..0] == [];
    UnflaggedAt(map[c.hash := true], c.meta.next, c.hash);
  }

  lemma {:induction false} UnflaggedAt(flags: map<Hash, bool>, nexts: seq<Hash>, h: Hash)
    ensures h in Unflagged(flags, nexts) <==> h in flags || h in nexts
    ensures h in flags || h in nexts ==> Unflagged(flags, nexts)[h] == (h !in nexts && flags[h])
  {
    if nexts != [] {
      UnflaggedAt(flags, nexts[..|nexts| - 1], h);
      assert nexts == nexts[..|nexts| - 1] + [nexts[|nexts| - 1]];
    }
  }

  // ----- What comes in is at hand and allowed -----

  ghost predicate NewIsAllowed(w: World, s: Held, s': Held) {
    forall h :: h in s'.v && h !in s.v ==> h in w.blocks && w.canAppend(w.blocks[h])
  }

  lemma {:induction false} OneIsAllowed(w: World, rank: Hash -> nat, s: Held, h: Hash, isHead: bool, s': Held)
    requires Acyclic(w.blocks, rank) && KeyedBlocks(w.blocks) && h in w.blocks && JoinsOne(w, rank, s, h, isHead, s')
    ensures NewIsAllowed(w, s, s')
    decreases rank(h), 1, 0
  {
    hide CutAlready, CutStored;
    var e := w.blocks[h];
    if h !in s.v && !CutAlready(s.v, e) {
      if e.meta.entryType.CUT? {
        AdmittedIsAllowed(w, s, e, isHead, s');
      } else if NextsStop(w, rank, s, h, s') {
        var i :| 0 <= i < |e.meta.next| && JoinsNexts(w, rank, s, h, i, s')
                 && e.meta.next[i] !in s'.v && e.meta.next[i] !in w.blocks;
        NextsAreAllowed(w, rank, s, h, i, s');
      } else {
        var mid :| JoinsNexts(w, rank, s, h, |e.meta.next|, mid) && Admits(w, mid, e, isHead, s');
        NextsAreAllowed(w, rank, s, h, |e.meta.next|, mid);
        AdmittedIsAllowed(w, mid, e, isHead, s');
      }
    }
  }

  lemma AdmittedIsAllowed(w: World, s: Held, e: Entry, isHead: bool, s': Held)
    requires e.hash in w.blocks && w.blocks[e.hash] == e && Admits(w, s, e, isHead, s')
    ensures NewIsAllowed(w, s, s')
  {
    assert PutView(s.v, e, isHead).Keys == s.v.Keys + {e.hash};
    hide Scheduled;
  }

  lemma {:induction false} NextsAreAllowed(w: World, rank: Hash -> nat, s: Held, h: Hash, i: nat, s': Held)
    requires Acyclic(w.blocks, rank) && KeyedBlocks(w.blocks) && h in w.blocks && i <= |w.blocks[h].meta.next|
    requires JoinsNexts(w, rank, s, h, i, s')
    ensures NewIsAllowed(w, s, s')
    decreases rank(h), 0, i
  {
    hide CutAlready, Admits, NextsStop;
    if i > 0 {
      var a := w.blocks[h].meta.next[i - 1];
      var mid :| JoinsNexts(w, rank, s, h, i - 1, mid)
                 && if a in mid.v then s' == mid else a in w.blocks && JoinsOne(w, rank, mid, a, false, s');
      NextsAreAllowed(w, rank, s, h, i - 1, mid);
      if a !in mid.v {
        OneIsAllowed(w, rank, mid, a, false, s');
      }
    }
  }

  lemma {:induction false} BatchIsAllowed(w: World, rank: Hash -> nat, s: Held, entries: seq<Entry>, n: nat, s': Held)
    requires Acyclic(w.blocks, rank) && KeyedBlocks(w.blocks) && n <= |entries|
    requires JoinsBatch(w, rank, s, entries, n, s')
    ensures NewIsAllowed(w, s, s')
  {
    hide JoinsOne;
    if n > 0 {
      var h := entries[n - 1].hash;
      var mid :| JoinsBatch(w, rank, s, entries, n - 1, mid) && JoinsOne(w, rank, mid, h, HeadFlags(entries)[h], s');
      BatchIsAllowed(w, rank, s, entries, n - 1, mid);
      OneIsAllowed(w, rank, mid, h, HeadFlags(entries)[h], s');
    }
  }
}
