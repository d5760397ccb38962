// Log entries and the views an index offers of them.
//
// Hashes are content addresses: two entries with the same hash are the same entry.  The model
// keeps of an entry what the merge logic reads.
module Entries {
  import opened Clock

  type Hash = string

  datatype EntryType = APPEND | CUT

  datatype Meta = Meta(gid: string, timestamp: Timestamp, entryType: EntryType, next: seq<Hash>)

  datatype Entry = Entry(hash: Hash, meta: Meta, payloadSize: nat) {
    function ToShallow(isHead: bool): ShallowEntry { ShallowEntry(hash, meta, payloadSize, isHead) }
  }

  datatype ShallowEntry = ShallowEntry(hash: Hash, meta: Meta, payloadSize: nat, head: bool) {
    predicate SameContent(other: ShallowEntry) { this.(head := other.head) == other }
  }

  // What a reader of the index sees.
  type View = map<Hash, ShallowEntry>

  predicate WellKeyed(v: View) { forall h :: h in v ==> v[h].hash == h }

  ghost predicate AppendOnly(v: View) { forall h :: h in v ==> v[h].meta.entryType.APPEND? }

  // Entry k of v lists h among its nexts.
  predicate Points(v: View, k: Hash, h: Hash) { k in v && h in v[k].meta.next }

  ghost predicate Referenced(v: View, h: Hash) { exists k :: Points(v, k, h) }

  // The definition of a head: an entry nothing in the view lists as next.
  ghost predicate HeadsExact(v: View) {
    forall h :: h in v ==> (v[h].head <==> !Referenced(v, h))
  }

  // Same entries, whatever their head flags.
  ghost predicate SameEntries(v: View, w: View) {
    v.Keys == w.Keys && forall h :: h in v ==> v[h].SameContent(w[h])
  }

  lemma SameReferences(v: View, w: View, h: Hash)
    requires SameEntries(v, w)
    ensures Referenced(v, h) <==> Referenced(w, h)
  {
    if Referenced(v, h) {
      var k :| Points(v, k, h);
      assert v[k].SameContent(w[k]);
      assert Points(w, k, h);
    }
    if Referenced(w, h) {
      var k :| Points(w, k, h);
      assert v[k].SameContent(w[k]);
      assert Points(v, k, h);
    }
  }

  // ----- A plain index without write buffering: the reference for EntryIndex -----

  // The nexts whose head flags an entry of this kind governs; a CUT governs none.
  function Governed(meta: Meta): seq<Hash> { if meta.entryType.CUT? then [] else meta.next }

  function Demote(v: View, nexts: seq<Hash>): View {
    map h | h in v :: if h in nexts then v[h].(head := false) else v[h]
  }

  ghost function Promote(v: View, nexts: seq<Hash>): View {
    map h | h in v :: if h in nexts && !Referenced(v, h) then v[h].(head := true) else v[h]
  }

  function PutView(v: View, entry: Entry, isHead: bool): View {
    Demote(v[entry.hash := entry.ToShallow(isHead)], Governed(entry.meta))
  }

  ghost function DeleteView(v: View, h: Hash): View {
    if h in v then Promote(v - {h}, Governed(v[h].meta)) else v
  }

  // ----- Sum of the payload sizes -----

  ghost function TotalSize(v: View): nat {
    if v == map[] then 0 else var h :| h in v; v[h].payloadSize + TotalSize(v - {h})
  }

  lemma {:induction false} TotalSizeSplit(v: View, h: Hash)
    requires h in v
    ensures TotalSize(v) == v[h].payloadSize + TotalSize(v - {h})
    decreases |v|
  {
    var k :| k in v && TotalSize(v) == v[k].payloadSize + TotalSize(v - {k});
    if k != h {
      SmallerWithout(v, h);
      SmallerWithout(v, k);
      TotalSizeSplit(v - {k}, h);
      TotalSizeSplit(v - {h}, k);
      assert v - {k} - {h} == v - {h} - {k};
    }
  }

  lemma {:induction false} TotalSizeUnion(v: View, w: View)
    requires v.Keys !! w.Keys
    ensures TotalSize(v + w) == TotalSize(v) + TotalSize(w)
    decreases |w|
  {
    if w == map[] {
      assert v + w == v;
    } else {
      hide TotalSize;
      var h :| h in w;
      SmallerWithout(w, h);
      TotalSizeUnion(v, w - {h});
      TotalSizeSplit(w, h);
      TotalSizeSplit(v + w, h);
      MinusFromUnion(v, w, h);
    }
  }

  // Head flags do not count.
  lemma {:induction false} SameTotal(v: View, w: View)
    requires v.Keys == w.Keys && forall h :: h in v ==> v[h].payloadSize == w[h].payloadSize
    ensures TotalSize(v) == TotalSize(w)
    decreases |v|
  {
    if v == map[] {
      assert w == map[];
    } else {
      hide TotalSize;
      var h :| h in v;
      TotalSizeSplit(v, h);
      TotalSizeSplit(w, h);
      SmallerWithout(v, h);
      SmallerWithout(w, h);
      SameTotal(v - {h}, w - {h});
    }
  }

  // A put of a new entry adds its payload, a delete takes it away.
  lemma PutTotal(v: View, entry: Entry, isHead: bool)
    requires entry.hash !in v
    ensures TotalSize(PutView(v, entry, isHead)) == TotalSize(v) + entry.payloadSize
  {
    var w := v[entry.hash := entry.ToShallow(isHead)];
    SameTotal(PutView(v, entry, isHead), w);
    TotalSizeSplit(w, entry.hash);
    assert w - {entry.hash} == v;
  }

  lemma DeleteTotal(v: View, h: Hash)
    requires h in v
    ensures TotalSize(DeleteView(v, h)) + v[h].payloadSize == TotalSize(v)
  {
    SameTotal(DeleteView(v, h), v - {h});
    TotalSizeSplit(v, h);
  }

  // What a put shows of its entry.
  lemma PutShows(v: View, entry: Entry, isHead: bool)
    ensures entry.hash in PutView(v, entry, isHead)
    ensures var e := PutView(v, entry, isHead)[entry.hash];
            && e.hash == entry.hash && e.meta == entry.meta && e.payloadSize == entry.payloadSize
            && (entry.hash !in entry.meta.next ==> e.head == isHead)
  {
  }

  lemma SmallerWithout(v: View, h: Hash)
    requires h in v
    ensures |v - {h}| == |v| - 1 && (v - {h}).Keys == v.Keys - {h}
  {
    assert (v - {h}).Keys == v.Keys - {h};
  }

  lemma MinusFromUnion(v: View, w: View, h: Hash)
    requires h !in v
    ensures v + w - {h} == v + (w - {h})
  {
  }

  lemma MinusMore(v: View, done: set<Hash>, h: Hash)
    ensures v - done - {h} == v - (done + {h})
  {
  }
}
