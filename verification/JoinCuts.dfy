// What a join may add and remove when CUT entries are around: everything it adds is an ancestor of
// something it was handed, and everything it removes is an ancestor of a CUT entry it brings.
module JoinCuts {
  import opened Entries
  import opened Dag
  import opened DeleteWalk

  ghost predicate Under(universe: Blocks, tops: set<Hash>, h: Hash) {
    exists t :: t in tops && Ancestor(universe, t, h)
  }

  // A CUT entry that v does not hold, at or below the tops, is above h.
  ghost predicate CutBelow(universe: Blocks, tops: set<Hash>, v: View, h: Hash) {
    exists c :: CutOutside(universe, tops, v, c) && Ancestor(universe, c, h)
  }

  ghost predicate CutOutside(universe: Blocks, tops: set<Hash>, v: View, c: Hash) {
    c in universe && universe[c].meta.entryType.CUT? && c !in v && Under(universe, tops, c)
  }

  ghost predicate Traced(universe: Blocks, tops: set<Hash>, v: View, v': View) {
    && (forall h :: h in v' ==> h in v || Under(universe, tops, h))
    && (forall h :: h in v ==> h in v' || CutBelow(universe, tops, v, h))
  }

  lemma {:induction false} LineageThen(universe: Blocks, path: seq<Hash>, h: Hash)
    requires Lineage(universe, path) && Ancestor(universe, path[|path| - 1], h)
    ensures Ancestor(universe, path[0], h)
    decreases |path|
  {
    if |path| > 1 {
      LineageThen(universe, path[1..], h);
      AncestorOfNext(universe, path[0], path[1], h);
    }
  }

  lemma AncestorTransitive(universe: Blocks, a: Hash, b: Hash, c: Hash)
    requires Ancestor(universe, a, b) && Ancestor(universe, b, c)
    ensures Ancestor(universe, a, c)
  {
    var path :| Lineage(universe, path) && path[0] == a && path[|path| - 1] == b;
    LineageThen(universe, path, c);
  }

  // What was cut off in a later part was cut off by a CUT from outside v all the same: if v held
  // that CUT, it was itself cut off before.
  lemma TracedOn(universe: Blocks, tops: set<Hash>, v: View, v1: View, v2: View)
    requires Traced(universe, tops, v, v1) && Traced(universe, tops, v1, v2)
    ensures Traced(universe, tops, v, v2)
  {
    hide Ancestor, Under;
    forall h | h in v ensures h in v2 || CutBelow(universe, tops, v, h) {
      if h in v1 && h !in v2 {
        var c :| CutOutside(universe, tops, v1, c) && Ancestor(universe, c, h);
        if c in v {
          var c0 :| CutOutside(universe, tops, v, c0) && Ancestor(universe, c0, c);
          AncestorTransitive(universe, c0, c, h);
        } else {
          assert CutOutside(universe, tops, v, c);
        }
      }
    }
  }

  lemma UnderMore(universe: Blocks, tops: set<Hash>, tops': set<Hash>, h: Hash)
    requires Under(universe, tops, h) && forall t :: t in tops ==> Under(universe, tops', t)
    ensures Under(universe, tops', h)
  {
    hide Ancestor;
    var t :| t in tops && Ancestor(universe, t, h);
    var t' :| t' in tops' && Ancestor(universe, t', t);
    AncestorTransitive(universe, t', t, h);
  }

  lemma TracedWidens(universe: Blocks, tops: set<Hash>, tops': set<Hash>, v: View, v': View)
    requires Traced(universe, tops, v, v') && forall t :: t in tops ==> Under(universe, tops', t)
    ensures Traced(universe, tops', v, v')
  {
    hide Ancestor, Under;
    forall h | h in v' && h !in v ensures Under(universe, tops', h) {
      UnderMore(universe, tops, tops', h);
    }
    forall h | h in v && h !in v' ensures CutBelow(universe, tops', v, h) {
      var c :| CutOutside(universe, tops, v, c) && Ancestor(universe, c, h);
      UnderMore(universe, tops, tops', c);
      assert CutOutside(universe, tops', v, c);
    }
  }

  lemma TopIsUnder(universe: Blocks, tops: set<Hash>)
    ensures forall t :: t in tops ==> Under(universe, tops, t)
  {
    hide Ancestor;
    forall t | t in tops ensures Under(universe, tops, t) {
      SelfIsAncestor(universe, t);
    }
  }

  lemma NextIsUnder(universe: Blocks, entry: Entry, a: Hash)
    requires entry.hash in universe && universe[entry.hash] == entry && a in entry.meta.next
    ensures forall t :: t in {a} ==> Under(universe, {entry.hash}, t)
  {
    SelfIsAncestor(universe, a);
    AncestorOfNext(universe, entry.hash, a, a);
    assert entry.hash in {entry.hash};
  }

  // What the join of a next did is traced to the entry.
  lemma TracedThroughNext(universe: Blocks, blocks: Blocks, entry: Entry, a: Hash, v: View, v1: View, v2: View)
    requires SubBlocks(blocks, universe) && entry.hash in blocks && blocks[entry.hash] == entry && a in entry.meta.next
    requires Traced(universe, {entry.hash}, v, v1) && Traced(universe, {a}, v1, v2)
    ensures Traced(universe, {entry.hash}, v, v2)
  {
    hide Traced;
    NextIsUnder(universe, entry, a);
    TracedWidens(universe, {a}, {entry.hash}, v1, v2);
    TracedOn(universe, {entry.hash}, v, v1, v2);
  }

  // What the join of one of the tops did is traced to the tops.
  lemma TracedThroughTop(universe: Blocks, tops: set<Hash>, t: Hash, v: View, v1: View, v2: View)
    requires t in tops && Traced(universe, tops, v, v1) && Traced(universe, {t}, v1, v2)
    ensures Traced(universe, tops, v, v2)
  {
    hide Traced, Under;
    TopIsUnder(universe, tops);
    TracedWidens(universe, {t}, tops, v1, v2);
    TracedOn(universe, tops, v, v1, v2);
  }

  lemma {:induction false} LineageInLarger(store: Blocks, universe: Blocks, path: seq<Hash>)
    requires SubBlocks(store, universe) && Lineage(store, path)
    ensures Lineage(universe, path)
    decreases |path|
  {
    if |path| > 1 {
      LineageInLarger(store, universe, path[1..]);
    }
  }

  lemma AncestorInLarger(store: Blocks, universe: Blocks, a: Hash, h: Hash)
    requires SubBlocks(store, universe) && Ancestor(store, a, h)
    ensures Ancestor(universe, a, h)
  {
    var path :| Lineage(store, path) && path[0] == a && path[|path| - 1] == h;
    LineageInLarger(store, universe, path);
  }

  // What a CUT schedules for deletion lies below it.
  lemma CutIsTraced(universe: Blocks, store: Blocks, entry: Entry, v: View, v1: View, v': View)
    requires entry.hash in universe && universe[entry.hash] == entry && SubBlocks(store, universe)
    requires entry.hash !in v && v1.Keys == v.Keys + {entry.hash} && entry.meta.entryType.CUT?
    requires forall h :: h in v' <==> h in v1 && !Scheduled(v1, store, [Node(entry.hash, entry.meta.next)], true, h)
    ensures Traced(universe, {entry.hash}, v, v')
  {
    hide Ancestor, Scheduled;
    SelfIsAncestor(universe, entry.hash);
    assert entry.hash in {entry.hash};
    assert CutOutside(universe, {entry.hash}, v, entry.hash);
    forall h | h in v && h !in v' ensures Ancestor(universe, entry.hash, h) {
      ScheduledAreAncestors(v1, store, [Node(entry.hash, entry.meta.next)], true, h);
      var n :| n in entry.meta.next && Ancestor(store, n, h);
      AncestorInLarger(store, universe, n, h);
      AncestorOfNext(universe, entry.hash, n, h);
    }
  }

  lemma SameIsTraced(universe: Blocks, tops: set<Hash>, v: View)
    ensures Traced(universe, tops, v, v)
  {
  }

  lemma AppendIsTraced(universe: Blocks, entry: Entry, v: View, v': View)
    requires v'.Keys == v.Keys + {entry.hash}
    ensures Traced(universe, {entry.hash}, v, v')
  {
    hide Ancestor;
    SelfIsAncestor(universe, entry.hash);
    assert entry.hash in {entry.hash};
  }

  // Without a CUT from outside, a join removes nothing.
  lemma NothingIsLost(universe: Blocks, tops: set<Hash>, v: View, v': View)
    requires Traced(universe, tops, v, v') && forall c :: !CutOutside(universe, tops, v, c)
    ensures v.Keys <= v'.Keys
  {
    hide Ancestor, CutOutside;
  }
}
