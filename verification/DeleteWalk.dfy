// What prepareDeleteRecursively (packages/log/src/log.ts) walks over, independent of its stack.
//
// From a node the walk steps down to a next only if no other non-CUT entry of the index lists
// that next: the node is the sole referrer.
module DeleteWalk {
  import opened Entries
  import opened Dag
  import Clock

  // The part of an entry the walk reads: { hash, meta: { next } }.
  datatype Node = Node(hash: Hash, next: seq<Hash>)

  function NodeOf(store: Blocks, h: Hash): Node
    requires h in store
  {
    Node(h, store[h].meta.next)
  }

  ghost predicate GoodNode(x: Node, rank: Hash -> nat) { RanksBelow(x.next, rank, rank(x.hash)) }

  // No other non-CUT entry of the view lists n.
  ghost predicate SoleReferrer(v: View, h: Hash, n: Hash) {
    forall k :: Points(v, k, n) && !v[k].meta.entryType.CUT? ==> k == h
  }

  ghost predicate StepsTo(v: View, store: Blocks, x: Node, n: Hash) {
    n in x.next && SoleReferrer(v, x.hash, n) && n in store
  }

  // A walk of one step or more, given by the hashes it comes by.
  ghost predicate Walk(v: View, store: Blocks, x: Node, path: seq<Hash>)
    decreases |path|
  {
    && path != []
    && StepsTo(v, store, x, path[0])
    && (|path| > 1 ==> Walk(v, store, NodeOf(store, path[0]), path[1..]))
  }

  ghost predicate Below(v: View, store: Blocks, roots: seq<Node>, h: Hash) {
    exists x, path :: x in roots && Walk(v, store, x, path) && path[|path| - 1] == h
  }

  // ----- Weight of the tree that unfolds below an entry -----

  ghost function Weight(store: Blocks, rank: Hash -> nat, h: Hash): nat
    requires Acyclic(store, rank)
    decreases rank(h), 1, 0
  {
    if h in store then 1 + Weights(store, rank, rank(h), store[h].meta.next) else 0
  }

  ghost function Weights(store: Blocks, rank: Hash -> nat, bound: nat, nexts: seq<Hash>): nat
    requires Acyclic(store, rank) && RanksBelow(nexts, rank, bound)
    decreases bound, 0, |nexts|
  {
    if nexts == [] then 0
    else Weights(store, rank, bound, nexts[..|nexts| - 1]) + Weight(store, rank, nexts[|nexts| - 1])
  }

  ghost function NodeWeight(store: Blocks, rank: Hash -> nat, x: Node): nat
    requires Acyclic(store, rank) && GoodNode(x, rank)
  {
    1 + Weights(store, rank, rank(x.hash), x.next)
  }

  ghost function StackWeight(store: Blocks, rank: Hash -> nat, stack: seq<Node>): nat
    requires Acyclic(store, rank) && forall x :: x in stack ==> GoodNode(x, rank)
  {
    if stack == [] then 0
    else StackWeight(store, rank, stack[..|stack| - 1]) + NodeWeight(store, rank, stack[|stack| - 1])
  }

  lemma NextIsGood(store: Blocks, rank: Hash -> nat, n: Hash)
    requires Acyclic(store, rank) && n in store
    ensures GoodNode(NodeOf(store, n), rank)
    ensures NodeWeight(store, rank, NodeOf(store, n)) == Weight(store, rank, n)
  {
  }

  // ----- Walks -----

  lemma {:induction false} WalkExtends(v: View, store: Blocks, x: Node, path: seq<Hash>, n: Hash)
    requires Walk(v, store, x, path)
    requires path[|path| - 1] in store && StepsTo(v, store, NodeOf(store, path[|path| - 1]), n)
    ensures Walk(v, store, x, path + [n])
    decreases |path|
  {
    if |path| > 1 {
      WalkExtends(v, store, NodeOf(store, path[0]), path[1..], n);
      assert (path + [n])[1..] == path[1..] + [n];
    } else {
      assert (path + [n])[1..] == [n];
    }
  }

  lemma {:induction false} WalkEndsInStore(v: View, store: Blocks, x: Node, path: seq<Hash>)
    requires Walk(v, store, x, path)
    ensures path[|path| - 1] in store
    decreases |path|
  {
    if |path| > 1 {
      WalkEndsInStore(v, store, NodeOf(store, path[0]), path[1..]);
    }
  }

  // One more step from a root, or from something already below a root, is below the roots.
  lemma StepIsBelow(v: View, store: Blocks, roots: seq<Node>, x: Node, n: Hash)
    requires StepsTo(v, store, x, n)
    requires x in roots || (x.hash in store && x == NodeOf(store, x.hash) && Below(v, store, roots, x.hash))
    ensures Below(v, store, roots, n)
  {
    if x in roots {
      assert Walk(v, store, x, [n]);
    } else {
      var y, path :| y in roots && Walk(v, store, y, path) && path[|path| - 1] == x.hash;
      WalkExtends(v, store, y, path, n);
      assert (path + [n])[|path + [n]| - 1] == n;
    }
  }

  // A set of nodes that contains every step from itself contains the end of every walk.
  lemma {:induction false} ClosedContainsWalks(v: View, store: Blocks, nodes: set<Node>, x: Node, path: seq<Hash>)
    requires Walk(v, store, x, path)
    requires forall n :: StepsTo(v, store, x, n) ==> NodeOf(store, n) in nodes
    requires forall y, n :: y in nodes && StepsTo(v, store, y, n) ==> NodeOf(store, n) in nodes
    ensures path[|path| - 1] in store && NodeOf(store, path[|path| - 1]) in nodes
    decreases |path|
  {
    if |path| > 1 {
      ClosedContainsWalks(v, store, nodes, NodeOf(store, path[0]), path[1..]);
    }
  }

  // ----- What the scheduled deletes leave behind -----

  ghost predicate Scheduled(v: View, store: Blocks, from: seq<Node>, skipFirst: bool, h: Hash) {
    && h in v
    && ((exists i :: 0 <= i < |from| - (if skipFirst then 1 else 0) && from[i].hash == h)
        || Below(v, store, from, h))
  }

  ghost function DeleteAll(v: View, hashes: seq<Hash>): View {
    if hashes == [] then v else DeleteView(DeleteAll(v, hashes[..|hashes| - 1]), hashes[|hashes| - 1])
  }

  lemma DeleteViewKeys(v: View, h: Hash)
    ensures DeleteView(v, h).Keys == v.Keys - {h}
    ensures forall k :: k in v && k != h ==> DeleteView(v, h)[k].SameContent(v[k])
  {
  }

  lemma {:induction false} DeleteAllKeeps(v: View, hashes: seq<Hash>)
    ensures forall k :: k in DeleteAll(v, hashes) <==> k in v && k !in hashes
    ensures forall k :: k in DeleteAll(v, hashes) ==> DeleteAll(v, hashes)[k].SameContent(v[k])
  {
    if hashes != [] {
      var shorter, h := hashes[..|hashes| - 1], hashes[|hashes| - 1];
      DeleteAllKeeps(v, shorter);
      DeleteViewKeys(DeleteAll(v, shorter), h);
      hide DeleteView;
      assert forall k :: k in hashes <==> k in shorter || k == h;
    }
  }

  // The last step of a walk starts at a root or below the roots.
  lemma {:induction false} LastStep(v: View, store: Blocks, roots: seq<Node>, x: Node, path: seq<Hash>)
    requires Walk(v, store, x, path)
    requires x in roots || (x.hash in store && x == NodeOf(store, x.hash) && Below(v, store, roots, x.hash))
    ensures exists y ::
              (y in roots || (y.hash in store && y == NodeOf(store, y.hash) && Below(v, store, roots, y.hash)))
                        && StepsTo(v, store, y, path[|path| - 1])
    decreases |path|
  {
    if |path| > 1 {
      StepIsBelow(v, store, roots, x, path[0]);
      LastStep(v, store, roots, NodeOf(store, path[0]), path[1..]);
    }
  }

  // Safety: once the scheduled entries are gone, no surviving non-CUT entry references an entry
  // the walk reached below the roots.  A first root that is skipped, and so survives, must not
  // itself be such an entry.
  lemma NoDanglingReference(v: View, store: Blocks, from: seq<Node>, skipFirst: bool, w: View, h: Hash, k: Hash)
    requires forall j :: j in w <==> j in v && !Scheduled(v, store, from, skipFirst, j)
    requires forall j :: j in w ==> w[j].SameContent(v[j])
    requires skipFirst && from != [] && from[|from| - 1].hash in v ==> v[from[|from| - 1].hash].meta.entryType.CUT?
    requires Below(v, store, from, h)
    ensures Points(w, k, h) ==> w[k].meta.entryType.CUT?
  {
    var x, path :| x in from && Walk(v, store, x, path) && path[|path| - 1] == h;
    LastStep(v, store, from, x, path);
    var y :| (y in from || (y.hash in store && y == NodeOf(store, y.hash) && Below(v, store, from, y.hash)))
             && StepsTo(v, store, y, h);
    WalkedGoes(v, store, from, skipFirst, y);
    if k in w {
      assert w[k].SameContent(v[k]);
      assert Points(w, k, h) ==> Points(v, k, h);
    }
  }

  // An indexed node the walk pops is deleted, except for a skipped CUT.
  lemma WalkedGoes(v: View, store: Blocks, from: seq<Node>, skipFirst: bool, y: Node)
    requires y in from || Below(v, store, from, y.hash)
    requires skipFirst && from != [] && from[|from| - 1].hash in v ==> v[from[|from| - 1].hash].meta.entryType.CUT?
    ensures y.hash in v ==> Scheduled(v, store, from, skipFirst, y.hash) || v[y.hash].meta.entryType.CUT?
  {
    if y in from {
      var i :| 0 <= i < |from| && from[i] == y;
    }
  }

  // The walk only reaches ancestors: below a root it follows next references.
  lemma {:induction false} WalkIsLineage(v: View, store: Blocks, x: Node, path: seq<Hash>)
    requires Walk(v, store, x, path)
    ensures path[0] in x.next && Lineage(store, path)
    decreases |path|
  {
    if |path| > 1 {
      WalkIsLineage(v, store, NodeOf(store, path[0]), path[1..]);
    }
  }

  lemma ScheduledAreAncestors(v: View, store: Blocks, from: seq<Node>, skipFirst: bool, h: Hash)
    requires Scheduled(v, store, from, skipFirst, h)
    ensures exists x :: x in from && (x.hash == h || exists n :: n in x.next && Ancestor(store, n, h))
  {
    if Below(v, store, from, h) {
      var x, path :| x in from && Walk(v, store, x, path) && path[|path| - 1] == h;
      WalkIsLineage(v, store, x, path);
      assert path[0] in x.next && Ancestor(store, path[0], h);
    } else {
      var i :| 0 <= i < |from| - (if skipFirst then 1 else 0) && from[i].hash == h;
      assert from[i] in from;
    }
  }

  // Whether the walk goes from a deleted entry on to one of its nexts depends on that entry alone
  // being left to list it: it is scheduled exactly if no other non-CUT entry lists it.
  lemma NextIsScheduledIffSole(v: View, store: Blocks, from: seq<Node>, skipFirst: bool, y: Node, h: Hash)
    requires y in from || (y.hash in store && y == NodeOf(store, y.hash) && Below(v, store, from, y.hash))
    requires y.hash in v && v[y.hash].meta.next == y.next && !v[y.hash].meta.entryType.CUT?
    requires h in y.next && h in v && h in store && forall x :: x in from ==> x.hash != h
    ensures Scheduled(v, store, from, skipFirst, h) <==>
              forall k :: k in v && h in v[k].meta.next && v[k].meta.entryType.APPEND? ==> k == y.hash
  {
    assert SoleReferrer(v, y.hash, h) <==>
             forall k :: k in v && h in v[k].meta.next && v[k].meta.entryType.APPEND? ==> k == y.hash by {
      assert forall k :: Points(v, k, h) <==> k in v && h in v[k].meta.next;
    }
    if SoleReferrer(v, y.hash, h) {
      StepIsBelow(v, store, from, y, h);
    }
    if Scheduled(v, store, from, skipFirst, h) {
      assert Below(v, store, from, h);
      var x, path :| x in from && Walk(v, store, x, path) && path[|path| - 1] == h;
      LastStep(v, store, from, x, path);
      var z :| (z in from || (z.hash in store && z == NodeOf(store, z.hash) && Below(v, store, from, z.hash)))
               && StepsTo(v, store, z, h);
      assert Points(v, y.hash, h);
    }
  }

  // So the walk is not complete.  In a diamond both referrers of the bottom are scheduled, and the
  // bottom is not.
  lemma DiamondKeepsBottom()
    ensures var (v, store, from) := (DiamondView(), Diamond(), [Node("top", ["left", "right"])]);
              && (forall h :: h == "top" || h == "left" || h == "right" ==> Scheduled(v, store, from, false, h))
              && (forall k :: Points(v, k, "bottom") <==> k == "left" || k == "right")
              && "bottom" in v && !Scheduled(v, store, from, false, "bottom")
  {
    var v, store, top := DiamondView(), Diamond(), Node("top", ["left", "right"]);
    var from := [top];
    DiamondLinks();
    hide DiamondView, Diamond;
    assert from[0].hash == "top";
    forall h | h == "left" || h == "right" ensures Below(v, store, from, h) {
      assert Walk(v, store, top, [h]) && [h][|[h]| - 1] == h;
    }
    TwoReferrersStay(v, store, from, "bottom", "left", "right");
  }

  lemma DiamondLinks()
    ensures var v := DiamondView();
      && v.Keys == {"top", "left", "right", "bottom"} && !v["left"].meta.entryType.CUT?
      && !v["right"].meta.entryType.CUT?
      && (forall k :: Points(v, k, "bottom") <==> k == "left" || k == "right")
      && (forall k :: Points(v, k, "left") <==> k == "top") && (forall k :: Points(v, k, "right") <==> k == "top")
      && "left" in Diamond() && "right" in Diamond()
  {
  }

  function Diamond(): Blocks {
    var t := Clock.Timestamp(0, 0);
    map["top" := Entry("top", Meta("g", t, APPEND, ["left", "right"]), 0),
        "left" := Entry("left", Meta("g", t, APPEND, ["bottom"]), 0),
        "right" := Entry("right", Meta("g", t, APPEND, ["bottom"]), 0),
        "bottom" := Entry("bottom", Meta("g", t, APPEND, []), 0)]
  }

  function DiamondView(): View { map h | h in Diamond() :: Diamond()[h].ToShallow(h == "top") }

  // An entry with two referrers is never reached.
  lemma TwoReferrersStay(v: View, store: Blocks, roots: seq<Node>, bottom: Hash, b: Hash, c: Hash)
    requires Points(v, b, bottom) && Points(v, c, bottom) && b != c
    requires !v[b].meta.entryType.CUT? && !v[c].meta.entryType.CUT?
    ensures !Below(v, store, roots, bottom)
  {
    if Below(v, store, roots, bottom) {
      var x, path :| x in roots && Walk(v, store, x, path) && path[|path| - 1] == bottom;
      LastStep(v, store, roots, x, path);
      assert false;
    }
  }
}
