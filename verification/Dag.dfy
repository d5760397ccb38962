// The graph of entries: stores, ancestry and the acyclicity that content addressing brings.
module Dag {
  import opened Entries

  type Blocks = map<Hash, Entry>

  // An order that places every entry above its nexts; it exists exactly for acyclic graphs.
  ghost predicate Acyclic(store: Blocks, rank: Hash -> nat) {
    forall h, n :: h in store && n in store[h].meta.next ==> rank(n) < rank(h)
  }

  ghost predicate RanksBelow(nexts: seq<Hash>, rank: Hash -> nat, bound: nat) {
    forall n :: n in nexts ==> rank(n) < bound
  }

  ghost predicate KeyedBlocks(blocks: Blocks) { forall h :: h in blocks ==> blocks[h].hash == h }

  // Content addressing: one universe of entries, keyed by hash and acyclic, of which every store,
  // batch and index holds a part.
  ghost predicate ContentAddressed(universe: Blocks, rank: Hash -> nat) {
    KeyedBlocks(universe) && Acyclic(universe, rank)
  }

  ghost predicate SubBlocks(a: Blocks, b: Blocks) { forall h :: h in a ==> h in b && b[h] == a[h] }

  lemma PartOfUniverse(a: Blocks, universe: Blocks, rank: Hash -> nat)
    requires ContentAddressed(universe, rank) && SubBlocks(a, universe)
    ensures KeyedBlocks(a) && Acyclic(a, rank)
  {
  }

  ghost predicate AppendBlocks(blocks: Blocks) { forall h :: h in blocks ==> blocks[h].meta.entryType.APPEND? }

  // The index holds entries of the universe, under their hashes.
  ghost predicate Agree(universe: Blocks, v: View) {
    forall h :: h in v ==> h in universe && v[h].SameContent(universe[h].ToShallow(false))
  }

  // Every next of an indexed entry is indexed.
  ghost predicate Closed(v: View) { forall k, n :: Points(v, k, n) ==> n in v }

  // ----- Ancestry -----

  // A chain of next references, from an entry down to one of its ancestors (or itself).
  ghost predicate Lineage(universe: Blocks, path: seq<Hash>)
    decreases |path|
  {
    && path != []
    && (|path| > 1 ==>
          path[0] in universe && path[1] in universe[path[0]].meta.next && Lineage(universe, path[1..]))
  }

  ghost predicate Ancestor(universe: Blocks, x: Hash, h: Hash) {
    exists path :: Lineage(universe, path) && path[0] == x && path[|path| - 1] == h
  }

  lemma SelfIsAncestor(universe: Blocks, h: Hash)
    ensures Ancestor(universe, h, h)
  {
    assert Lineage(universe, [h]) && [h][0] == h && [h][|[h]| - 1] == h;
  }

  // An ancestor of a next is an ancestor.
  lemma AncestorOfNext(universe: Blocks, x: Hash, n: Hash, h: Hash)
    requires x in universe && n in universe[x].meta.next && Ancestor(universe, n, h)
    ensures Ancestor(universe, x, h)
  {
    var path :| Lineage(universe, path) && path[0] == n && path[|path| - 1] == h;
    var longer := [x] + path;
    assert longer[1..] == path;
    assert Lineage(universe, longer) && longer[0] == x && longer[|longer| - 1] == h;
  }

  // A proper ancestor is an ancestor of some next.
  lemma AncestorBeginsWithNext(universe: Blocks, x: Hash, h: Hash) returns (n: Hash)
    requires Ancestor(universe, x, h) && x != h
    ensures x in universe && n in universe[x].meta.next && Ancestor(universe, n, h)
  {
    var path :| Lineage(universe, path) && path[0] == x && path[|path| - 1] == h;
    n := path[1];
    assert path[1..][0] == n && path[1..][|path[1..]| - 1] == h;
  }

  // A next of an ancestor is an ancestor.
  lemma AncestorExtends(universe: Blocks, a: Hash, x: Hash, n: Hash)
    requires Ancestor(universe, a, x) && x in universe && n in universe[x].meta.next
    ensures Ancestor(universe, a, n)
  {
    var path :| Lineage(universe, path) && path[0] == a && path[|path| - 1] == x;
    LineageExtends(universe, path, n);
    var longer := path + [n];
    assert longer[0] == a && longer[|longer| - 1] == n;
  }

  lemma {:induction false} LineageExtends(universe: Blocks, path: seq<Hash>, n: Hash)
    requires Lineage(universe, path) && path[|path| - 1] in universe && n in universe[path[|path| - 1]].meta.next
    ensures Lineage(universe, path + [n])
    decreases |path|
  {
    if |path| > 1 {
      LineageExtends(universe, path[1..], n);
      assert (path + [n])[1..] == path[1..] + [n];
    } else {
      assert (path + [n])[1..] == [n];
    }
  }

  // In a closed index, the ancestors of its entries are its entries.
  lemma KeysCoverAncestors(universe: Blocks, v: View, h: Hash)
    requires Closed(v) && Agree(universe, v)
    ensures h in v <==> exists b :: b in v.Keys && Ancestor(universe, b, h)
  {
    if h in v {
      SelfIsAncestor(universe, h);
    }
    if b :| b in v.Keys && Ancestor(universe, b, h) {
      var path :| Lineage(universe, path) && path[0] == b && path[|path| - 1] == h;
      LineageStaysInside(universe, v, path);
    }
  }

  lemma {:induction false} LineageStaysInside(universe: Blocks, v: View, path: seq<Hash>)
    requires Closed(v) && Agree(universe, v)
    requires Lineage(universe, path) && path[0] in v
    ensures path[|path| - 1] in v
    decreases |path|
  {
    if |path| > 1 {
      assert v[path[0]].SameContent(universe[path[0]].ToShallow(false));
      assert Points(v, path[0], path[1]);
      LineageStaysInside(universe, v, path[1..]);
    }
  }
}
