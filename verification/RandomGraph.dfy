// Random graphs of bounded degree: buildRandomGraph of the test session
// (packages/clients/test-utils/src/session.ts) and of the sandbox
// (apps/peerbit-org/src/ui/FanoutProtocolSandbox.tsx). They differ in the edges they start from.
module RandomGraph {
  import opened Wrappers

  // The neighbours of every node.
  type Graph = seq<set<nat>>

  // The drawn pairs are linked one after the other, each if it is no loop and no edge yet and both
  // ends have room.
  predicate Pairs(pairs: seq<(nat, nat)>, n: nat) { forall p :: p in pairs ==> p.0 < n && p.1 < n }

  function LinkAll(g: Graph, target: nat, pairs: seq<(nat, nat)>): (h: Graph)
    requires Pairs(pairs, |g|)
    ensures |h| == |g|
  {
    if pairs == [] then g
    else
      var (a, b) := pairs[|pairs| - 1];
      assert pairs[|pairs| - 1] in pairs;
      var h := LinkAll(g, target, pairs[..|pairs| - 1]);
      if a != b && b !in h[a] && |h[a]| % 0x1_0000 < target && |h[b]| % 0x1_0000 < target then Linked(h, a, b) else h
  }

  lemma NothingLinked(g: Graph, target: nat)
    ensures Pairs([], |g|) && LinkAll(g, target, []) == g
  {
  }

  lemma OneMoreDrawn(g: Graph, target: nat, pairs: seq<(nat, nat)>, a: nat, b: nat, degree: seq<nat>)
    requires Pairs(pairs, |g|) && a < |g| && b < |g| && Counted(LinkAll(g, target, pairs), degree)
    ensures Pairs(pairs + [(a, b)], |g|)
    ensures var h := LinkAll(g, target, pairs);
      LinkAll(g, target, pairs + [(a, b)])
      == if a != b && b !in h[a] && degree[a] < target && degree[b] < target then Linked(h, a, b) else h
  {
    assert (pairs + [(a, b)])[..|pairs|] == pairs;
  }

  // Symmetric and without loops.
  ghost predicate Simple(g: Graph) {
    forall a: nat, b: nat :: Edge(g, a, b) ==> a != b && Edge(g, b, a)
  }

  predicate Edge(g: Graph, a: nat, b: nat) { a < |g| && b in g[a] }

  predicate NoEdges(g: Graph) { forall i :: 0 <= i < |g| ==> g[i] == {} }

  predicate Grows(g: Graph, h: Graph) {
    |g| == |h| && forall i :: 0 <= i < |g| ==> g[i] <= h[i]
  }

  function Linked(g: Graph, a: nat, b: nat): Graph
    requires a < |g| && b < |g| && a != b
  {
    g[a := g[a] + {b}][b := g[b] + {a}]
  }

  lemma LinkKeepsSimple(g: Graph, a: nat, b: nat)
    requires Simple(g) && a < |g| && b < |g| && a != b
    ensures Simple(Linked(g, a, b)) && Grows(g, Linked(g, a, b))
  {
    var h := Linked(g, a, b);
    forall x: nat, y: nat | Edge(h, x, y) ensures x != y && Edge(h, y, x) {
      assert Edge(g, x, y) || (x == a && y == b) || (x == b && y == a);
    }
  }

  // The number of neighbours, kept in 16 bits.
  predicate Counted(g: Graph, degree: seq<nat>) {
    |g| == |degree| && forall i :: 0 <= i < |g| ==> degree[i] == |g[i]| % 0x1_0000
  }

  predicate Bounded(g: Graph, target: int) {
    target < 0x1_0000 ==> forall i :: 0 <= i < |g| ==> |g[i]| <= target
  }

  function CountUp(degree: seq<nat>, a: nat, b: nat): seq<nat>
    requires a < |degree| && b < |degree|
  {
    degree[a := (degree[a] + 1) % 0x1_0000][b := (degree[b] + 1) % 0x1_0000]
  }

  lemma LinkCountsUp(g: Graph, degree: seq<nat>, a: nat, b: nat, target: nat)
    requires Simple(g) && Counted(g, degree) && Bounded(g, target)
    requires a < |g| && b < |g| && a != b && b !in g[a] && degree[a] < target && degree[b] < target
    ensures Counted(Linked(g, a, b), CountUp(degree, a, b)) && Bounded(Linked(g, a, b), target)
  {
    assert a !in g[b] by { assert !Edge(g, b, a) || Edge(g, a, b); }
    hide Simple;
    assert |g[a] + {b}| == |g[a]| + 1 && |g[b] + {a}| == |g[b]| + 1;
    OneMore(|g[a]|);
    OneMore(|g[b]|);
  }

  lemma OneMore(n: nat)
    ensures (n % 0x1_0000 + 1) % 0x1_0000 == (n + 1) % 0x1_0000 && n % 0x1_0000 <= n
  {
  }

  // ----- Connectedness -----

  predicate IsPath(g: Graph, p: seq<nat>) {
    && p != [] && p[0] < |g|
    && (|p| == 1 || (p[1] in g[p[0]] && IsPath(g, p[1..])))
  }

  ghost predicate Connected(g: Graph) {
    forall a: nat, b: nat :: a < |g| && b < |g| ==> HasPath(g, a, b)
  }

  ghost predicate HasPath(g: Graph, a: nat, b: nat) {
    exists p :: IsPath(g, p) && p[0] == a && p[|p| - 1] == b
  }

  // Every node but the first is linked to an earlier one.
  ghost predicate Anchored(g: Graph) {
    forall i: nat :: 0 < i < |g| ==> HasEarlier(g[i], i)
  }

  ghost predicate HasEarlier(neighbours: set<nat>, i: nat) { exists b :: b in neighbours && b < i }

  lemma AnchoredGrows(g: Graph, h: Graph)
    requires Anchored(g) && Grows(g, h)
    ensures Anchored(h)
  {
    forall i: nat | 0 < i < |h| ensures HasEarlier(h[i], i) {
      assert HasEarlier(g[i], i);
      var b :| b in g[i] && b < i;
      assert b in h[i];
    }
  }

  lemma {:induction false} PathToFirst(g: Graph, a: nat) returns (p: seq<nat>)
    requires Anchored(g) && a < |g|
    ensures IsPath(g, p) && p[0] == a && p[|p| - 1] == 0
    decreases a
  {
    if a == 0 {
      p := [0];
    } else {
      assert HasEarlier(g[a], a);
      var b :| b in g[a] && b < a;
      var q := PathToFirst(g, b);
      p := [a] + q;
      assert p[1..] == q;
    }
  }

  lemma {:induction false} PathFromFirst(g: Graph, a: nat) returns (p: seq<nat>)
    requires Anchored(g) && Simple(g) && a < |g|
    ensures IsPath(g, p) && p[0] == 0 && p[|p| - 1] == a
    decreases a
  {
    if a == 0 {
      p := [0];
    } else {
      assert HasEarlier(g[a], a);
      var b :| b in g[a] && b < a;
      assert Edge(g, a, b) && Edge(g, b, a);
      var q := PathFromFirst(g, b);
      p := q + [a];
      OneStepFurther(g, b, a);
      JoinPaths(g, q, [b, a]);
      assert q + [b, a][1..] == p;
    }
  }

  lemma OneStepFurther(g: Graph, b: nat, a: nat)
    requires a < |g| && b < |g| && a in g[b]
    ensures IsPath(g, [b, a])
  {
    assert [b, a][1..] == [a];
    assert IsPath(g, [a]);
  }

  lemma {:induction false} JoinPaths(g: Graph, p: seq<nat>, q: seq<nat>)
    requires IsPath(g, p) && IsPath(g, q) && p[|p| - 1] == q[0]
    ensures IsPath(g, p + q[1..])
    decreases |p|
  {
    if |p| == 1 {
      assert p + q[1..] == q;
    } else {
      JoinPaths(g, p[1..], q);
      assert (p + q[1..])[1..] == p[1..] + q[1..];
    }
  }

  lemma AnchoredIsConnected(g: Graph)
    requires Anchored(g) && Simple(g)
    ensures Connected(g)
  {
    forall a: nat, b: nat | a < |g| && b < |g| ensures HasPath(g, a, b) {
      var p := PathToFirst(g, a);
      var q := PathFromFirst(g, b);
      JoinPaths(g, p, q);
      var r := p + q[1..];
      assert r[0] == a && r[|r| - 1] == b;
    }
  }

  // ----- The graphs to start from -----

  function Successor(n: nat, i: nat): nat { if i == n - 1 then 0 else i + 1 }

  function Predecessor(n: nat, i: nat): nat
    requires n > 0
  {
    if i == 0 then n - 1 else i - 1
  }

  // The neighbours of j once the edges from 0, ..., i - 1 to their successors are there.
  function RingAt(n: nat, i: nat, j: nat): set<nat>
    requires n > 0
  {
    (if j < i then {Successor(n, j)} else {}) + (if Predecessor(n, j) < i then {Predecessor(n, j)} else {})
  }

  // The neighbours of j once the even nodes below i are matched with the node after them.
  function PairAt(i: nat, j: nat): set<nat> {
    if j % 2 == 0 then (if j < i then {j + 1} else {}) else (if j - 1 < i then {j - 1} else {})
  }

  // Neighbours two by two; with an odd number of nodes the last one stays alone.
  function Matching(n: nat): Graph
    requires n > 0
  {
    seq(n, j requires 0 <= j < n => PairAt(n - 1, j))
  }

  // Every node is linked to the one after it and the one before it, around.
  function Ring(n: nat): Graph
    requires n > 0
  {
    seq(n, j requires 0 <= j < n => {(j + 1) % n, (j + n - 1) % n})
  }

  lemma FullRing(g: Graph)
    requires |g| > 0 && RingSoFar(g, |g|)
    ensures g == Ring(|g|)
  {
    forall j: nat | j < |g| ensures g[j] == Ring(|g|)[j] {
      SuccessorIsModulo(|g|, j);
      PredecessorIsModulo(|g|, j);
    }
  }

  lemma PredecessorIsModulo(n: nat, i: nat)
    requires i < n
    ensures (i + n - 1) % n == Predecessor(n, i)
  {
    if i > 0 { Around(i - 1, n); }
  }

  lemma Around(k: nat, n: nat)
    requires k < n
    ensures (k + n) % n == k
  {
  }

  ghost predicate RingSoFar(g: Graph, i: nat) {
    g != [] && forall j: nat :: j < |g| ==> g[j] == RingAt(|g|, i, j)
  }

  ghost predicate PairsSoFar(g: Graph, i: nat) {
    forall j: nat :: j < |g| ==> g[j] == PairAt(i, j)
  }

  // Every edge of the ring finds room at both of its ends.
  lemma RingRoom(g: Graph, degree: seq<nat>, i: nat)
    requires |g| >= 3 && i < |g| && RingSoFar(g, i) && Counted(g, degree)
    ensures var s := Successor(|g|, i);
      i != s && s !in g[i] && degree[i] <= 1 && degree[s] <= 1
  {
    var s := Successor(|g|, i);
    RingEnds(|g|, i);
    assert g[i] == RingAt(|g|, i, i) && g[s] == RingAt(|g|, i, s);
    hide RingAt;
    assert |g[i]| <= 1 && |g[s]| <= 1;
  }

  lemma RingGrows(g: Graph, i: nat)
    requires |g| >= 3 && i < |g| && RingSoFar(g, i)
    ensures i != Successor(|g|, i) && RingSoFar(Linked(g, i, Successor(|g|, i)), i + 1)
  {
    var s := Successor(|g|, i);
    var h := Linked(g, i, s);
    forall j: nat | j < |g| ensures h[j] == RingAt(|g|, i + 1, j) {
      RingStep(|g|, i, j);
    }
  }

  lemma RingEnds(n: nat, i: nat)
    requires n >= 3 && i < n
    ensures RingAt(n, i, i) == if i == 0 then {} else {i - 1}
    ensures RingAt(n, i, Successor(n, i)) == if i == n - 1 then {1} else {}
  {
  }

  lemma RingStep(n: nat, i: nat, j: nat)
    requires n >= 3 && i < n && j < n
    ensures var s := Successor(n, i);
      RingAt(n, i + 1, j) == RingAt(n, i, j) + (if j == i then {s} else if j == s then {i} else {})
  {
    assert Predecessor(n, j) == i <==> j == Successor(n, i);
  }

  lemma RingIsAnchored(g: Graph)
    requires |g| >= 3 && RingSoFar(g, |g|)
    ensures Anchored(g)
  {
    forall i: nat | 0 < i < |g| ensures HasEarlier(g[i], i) {
      assert i - 1 in g[i];
    }
  }

  // With room for one neighbour each, an even node finds the next one free, an odd node is taken.
  lemma PairRoom(g: Graph, degree: seq<nat>, i: nat)
    requires i + 1 < |g| && PairsSoFar(g, i) && Counted(g, degree)
    ensures if i % 2 == 0 then i + 1 !in g[i] && degree[i] == 0 == degree[i + 1] else degree[i] == 1
  {
    assert g[i] == PairAt(i, i) && g[i + 1] == PairAt(i, i + 1);
    hide PairsSoFar;
  }

  lemma PairGrows(g: Graph, i: nat)
    requires i + 1 < |g| && PairsSoFar(g, i)
    ensures PairsSoFar(if i % 2 == 0 then Linked(g, i, i + 1) else g, i + 1)
  {
  }

  lemma NoPairAtOdd(g: Graph, i: nat)
    requires i % 2 == 1 && PairsSoFar(g, i)
    ensures PairsSoFar(g, i + 1)
  {
  }

  lemma PairsAreMatching(g: Graph, i: nat)
    requires PairsSoFar(g, i) && g != [] && (i == |g| - 1 || (i == |g| && i % 2 == 0))
    ensures g == Matching(|g|)
  {
    forall j: nat | j < |g| ensures g[j] == Matching(|g|)[j] {
      assert PairAt(i, j) == PairAt(|g| - 1, j);
    }
  }

  lemma MatchingLeavesOneOut(g: Graph, degree: seq<nat>)
    requires g != [] && g == Matching(|g|) && Counted(g, degree)
    ensures AtMostOneHasRoom(degree, 1)
  {
    forall v | 0 <= v < |g| && degree[v] < 1 ensures v == |g| - 1 {
      assert g[v] == PairAt(|g| - 1, v);
    }
  }

  // ----- Nodes with room -----

  ghost predicate HaveRoom(items: seq<nat>, degree: seq<nat>, target: nat, i: nat) {
    i <= |degree| && forall v: nat :: v in items <==> v < i && degree[v] < target
  }

  ghost predicate AtMostOneHasRoom(degree: seq<nat>, target: nat) {
    forall v, w :: 0 <= v < |degree| && 0 <= w < |degree| && degree[v] < target && degree[w] < target ==> v == w
  }

  ghost predicate Distinct(items: seq<nat>) { forall i, j :: 0 <= i < j < |items| ==> items[i] != items[j] }

  lemma ManyHaveRoom(items: seq<nat>, degree: seq<nat>, target: nat)
    requires Distinct(items) && HaveRoom(items, degree, target, |degree|) && |items| > 1
    ensures !AtMostOneHasRoom(degree, target)
  {
    assert items[0] in items && items[1] in items;
  }

  lemma FewHaveRoom(items: seq<nat>, degree: seq<nat>, target: nat)
    requires HaveRoom(items, degree, target, |degree|) && |items| <= 1
    ensures AtMostOneHasRoom(degree, target)
  {
    forall v: nat, w: nat | v < |degree| && w < |degree| && degree[v] < target && degree[w] < target ensures v == w {
      assert v in items && w in items;
    }
  }

  // The list is kept up by dropping the ends of a new edge that have become full.
  lemma DropFull(items: seq<nat>, items': seq<nat>, degree: seq<nat>, a: nat, b: nat, target: nat)
    requires HaveRoom(items, degree, target, |degree|) && a in items && b in items
    requires a < |degree| && b < |degree|
    requires var counts := CountUp(degree, a, b);
      forall v: nat :: v in items' <==>
        v in items && !(v == a && counts[a] >= target) && !(v == b && counts[b] >= target)
    ensures HaveRoom(items', CountUp(degree, a, b), target, |degree|)
  {
  }

  // ----- The random tree: nodes below i are in it, and parents are those with room -----

  ghost predicate TreeSoFar(g: Graph, i: nat) {
    && (forall v: nat :: i <= v < |g| ==> g[v] == {})
    && (forall v: nat :: 0 < v < i && v < |g| ==> HasEarlier(g[v], v))
  }

  lemma TreeStep(g: Graph, i: nat, parent: nat)
    requires 0 < i < |g| && TreeSoFar(g, i) && parent < i
    ensures parent !in g[i] && TreeSoFar(Linked(g, i, parent), i + 1)
  {
    var h := Linked(g, i, parent);
    forall v: nat | 0 < v < i + 1 ensures HasEarlier(h[v], v) {
      if v < i {
        assert HasEarlier(g[v], v);
        var b :| b in g[v] && b < v;
        assert b in h[v];
      } else {
        assert parent in h[v];
      }
    }
  }

  // The new node always has room for a child, so there is always a parent to choose.
  lemma NextParents(items: seq<nat>, items': seq<nat>, degree: seq<nat>, i: nat, parent: nat, target: nat)
    requires HaveRoom(items, degree, target, i) && i < |degree| && degree[i] == 0 && target >= 2 && parent in items
    requires forall v: nat :: v in items' <==>
               v == i || (v in items && !(v == parent && CountUp(degree, i, parent)[parent] >= target))
    ensures HaveRoom(items', CountUp(degree, i, parent), target, i + 1)
  {
  }

  // A list that removes by moving its last element into the gap, with the position of each element.
  class SwapList {
    var items: seq<nat>
    const pos: array<int>

    ghost predicate Valid()
      reads this, pos
    {
      && (forall i :: 0 <= i < |items| ==> items[i] < pos.Length && pos[items[i]] == i)
      && (forall v :: 0 <= v < pos.Length ==> pos[v] == -1 || (0 <= pos[v] < |items| && items[pos[v]] == v))
    }

    constructor (n: nat)
      ensures Valid() && fresh(pos) && pos.Length == n && items == []
    {
      items := [];
      pos := new int[n](_ => -1);
    }

    lemma IsDistinct()
      requires Valid()
      ensures Distinct(items)
    {
    }

    method Push(v: nat)
      requires Valid() && v < pos.Length && v !in items
      modifies this, pos
      ensures Valid() && items == old(items) + [v]
    {
      pos[v] := |items|;
      items := items + [v];
    }

    method Remove(v: nat)
      requires Valid() && v < pos.Length
      modifies this, pos
      ensures Valid()
      ensures forall w :: w in items <==> w in old(items) && w != v
      ensures |items| == |old(items)| - (if v in old(items) then 1 else 0)
    {
      var p := pos[v];
      if p < 0 {
        assert forall i :: 0 <= i < |items| ==> items[i] != v;
        return;
      }
      ghost var before := items;
      var last := items[|items| - 1];
      items := items[..|items| - 1];
      if last != v {
        items := items[p := last];
        pos[last] := p;
      }
      pos[v] := -1;
      assert forall i :: 0 <= i < |items| ==> items[i] == if i == p then last else before[i];
      forall w ensures w in items <==> w in before && w != v {
        if w in before && w != v {
          var i :| 0 <= i < |before| && before[i] == w;
          assert w == last ==> items[p] == w;
          assert w != last ==> items[i] == w;
        }
      }
    }
  }

  // Graphs under construction. The degrees are kept in 16 bits.
  class Builder {
    const target: nat
    const rng: nat -> real
    var drawn: nat
    const adj: array<set<nat>>
    const degree: array<nat>

    ghost predicate Valid()
      reads adj, degree
    {
      && (forall k :: 0.0 <= rng(k) < 1.0)
      && adj.Length == degree.Length && Simple(adj[..])
      && Counted(adj[..], degree[..]) && Bounded(adj[..], target)
    }

    constructor (n: nat, target: nat, rng: nat -> real)
      requires forall k :: 0.0 <= rng(k) < 1.0
      ensures Valid() && fresh(adj) && fresh(degree) && adj.Length == n && this.target == target
      ensures NoEdges(adj[..])
    {
      this.target := target;
      this.rng := rng;
      drawn := 0;
      adj := new set<nat>[n](_ => {});
      degree := new nat[n](_ => 0);
    }

    // A random number below maxExclusive.
    method Int(maxExclusive: nat) returns (k: nat)
      requires maxExclusive > 0 && forall k :: 0.0 <= rng(k) < 1.0
      modifies `drawn
      ensures k < maxExclusive && drawn == old(drawn) + 1
    {
      Scaled(rng(drawn), maxExclusive);
      k := (rng(drawn) * maxExclusive as real).Floor;
      drawn := drawn + 1;
    }

    method Connect(a: nat, b: nat) returns (ok: bool)
      requires Valid() && a < adj.Length && b < adj.Length
      modifies adj, degree
      ensures Valid()
      ensures ok <==> a != b && b !in old(adj[a]) && old(degree[a]) < target && old(degree[b]) < target
      ensures adj[..] == if ok then Linked(old(adj[..]), a, b) else old(adj[..])
      ensures degree[..] == if ok then CountUp(old(degree[..]), a, b) else old(degree[..])
    {
      if a == b { return false; }
      if b in adj[a] { return false; }
      if degree[a] >= target || degree[b] >= target { return false; }
      ghost var g, counts := adj[..], degree[..];
      LinkKeepsSimple(g, a, b);
      LinkCountsUp(g, counts, a, b, target);
      hide Simple, Counted, Bounded;
      adj[a] := adj[a] + {b};
      adj[b] := adj[b] + {a};
      degree[a] := (degree[a] + 1) % 0x1_0000;
      degree[b] := (degree[b] + 1) % 0x1_0000;
      assert adj[..] == Linked(g, a, b) && degree[..] == CountUp(counts, a, b);
      return true;
    }

    // ----- The session's first edges: a ring, or with degree 1 a line -----

    method SeedRingOrLine()
      requires Valid() && target < adj.Length && NoEdges(adj[..])
      modifies adj, degree
      ensures Valid()
      ensures target >= 2 ==> RingSoFar(adj[..], adj.Length)
      ensures target == 1 ==> adj[..] == Matching(adj.Length)
    {
      hide Simple, Counted, Bounded, RingSoFar, PairsSoFar, Matching, CountUp;
      NothingSoFar(adj[..]);
      var n := adj.Length;
      if target >= 2 && n >= 3 {
        for i := 0 to n
          invariant Valid() && RingSoFar(adj[..], i)
        {
          RingRoom(adj[..], degree[..], i);
          RingGrows(adj[..], i);
          SuccessorIsModulo(n, i);
          var ok := Connect(i, (i + 1) % n);
        }
      } else if target >= 1 && n >= 2 {
        for i := 0 to n - 1
          invariant Valid() && PairsSoFar(adj[..], i)
        {
          PairRoom(adj[..], degree[..], i);
          PairGrows(adj[..], i);
          var ok := Connect(i, i + 1);
        }
        PairsAreMatching(adj[..], n - 1);
      }
    }

    // ----- The sandbox's first edges: a random tree, or with degree 1 a matching -----

    method SeedTreeOrMatching()
      requires Valid() && target < adj.Length && NoEdges(adj[..])
      modifies this, adj, degree
      ensures Valid()
      ensures target >= 2 ==> Anchored(adj[..])
      ensures target == 1 ==> adj[..] == Matching(adj.Length)
    {
      hide Simple, Counted, Bounded, PairsSoFar, Matching, TreeSoFar, HaveRoom, Anchored, CountUp;
      NothingSoFar(adj[..]);
      var n := adj.Length;
      if target >= 2 && n >= 2 {
        GrowTree();
      } else if target >= 1 && n >= 2 {
        var i := 0;
        while i < n - 1
          invariant i <= n && i % 2 == 0 && Valid() && PairsSoFar(adj[..], i)
        {
          PairRoom(adj[..], degree[..], i);
          PairGrows(adj[..], i);
          var ok := Connect(i, i + 1);
          NoPairAtOdd(adj[..], i + 1);
          i := i + 2;
        }
        PairsAreMatching(adj[..], i);
      }
    }

    // Links every node to a random earlier one that has room.
    method GrowTree()
      requires Valid() && 2 <= target < adj.Length && NoEdges(adj[..])
      modifies this, adj, degree
      ensures Valid() && Anchored(adj[..])
    {
      hide Simple, Counted, Bounded, TreeSoFar, HaveRoom, Anchored, NoEdges;
      NothingSoFar(adj[..]);
      var parents := new SwapList(adj.Length);
      parents.Push(0);
      FirstParent(adj[..], degree[..], target);
      assert parents.items == [0];
      for i := 1 to adj.Length
        invariant Valid() && TreeSoFar(adj[..], i)
        invariant parents.Valid() && fresh(parents) && fresh(parents.pos) && parents.pos.Length == adj.Length
        invariant HaveRoom(parents.items, degree[..], target, i) && i - 1 in parents.items
      {
        AddNode(i, parents);
      }
      TreeIsAnchored(adj[..]);
    }

    method AddNode(i: nat, parents: SwapList)
      requires Valid() && target >= 2 && 0 < i < adj.Length && TreeSoFar(adj[..], i)
      requires parents.Valid() && parents.pos.Length == adj.Length
      requires HaveRoom(parents.items, degree[..], target, i) && i - 1 in parents.items
      modifies this, adj, degree, parents, parents.pos
      ensures Valid() && TreeSoFar(adj[..], i + 1)
      ensures parents.Valid() && HaveRoom(parents.items, degree[..], target, i + 1) && i in parents.items
    {
      hide Simple, Counted, Bounded, TreeSoFar, HaveRoom, CountUp, Linked;
      var k := Int(|parents.items|);
      var parent := parents.items[k];
      ghost var g, counts, before := adj[..], degree[..], parents.items;
      RoomBelow(before, counts, target, i, parent);
      RoomBelow(before, counts, target, i, i);
      TreeStep(g, i, parent);
      LonelyNode(g, counts, i);
      var ok := Connect(i, parent);
      if degree[parent] >= target { parents.Remove(parent); }
      parents.Push(i);
      NextParents(before, parents.items, counts, i, parent, target);
    }

    // ----- Random edges until nobody has room for one, or the attempts run out -----

    // The nodes that have room.
    method FindRoom() returns (available: SwapList)
      requires Valid()
      ensures available.Valid() && fresh(available) && fresh(available.pos) && available.pos.Length == adj.Length
      ensures HaveRoom(available.items, degree[..], target, adj.Length)
      ensures AtMostOneHasRoom(degree[..], target) ==> |available.items| <= 1
    {
      hide Simple, Counted, Bounded, HaveRoom, AtMostOneHasRoom, Distinct;
      available := new SwapList(adj.Length);
      NobodyYet(degree[..], target);
      for i := 0 to adj.Length
        invariant available.Valid() && fresh(available) && fresh(available.pos) && available.pos.Length == adj.Length
        invariant HaveRoom(available.items, degree[..], target, i)
      {
        RoomBelow(available.items, degree[..], target, i, i);
        RoomUpTo(available.items, degree[..], target, i);
        if degree[i] < target { available.Push(i); }
      }
      available.IsDistinct();
      if |available.items| > 1 { ManyHaveRoom(available.items, degree[..], target); }
    }

    // One attempt: the drawn nodes are linked, and leave the list when they are full.
    method TryPair(available: SwapList, a: nat, b: nat)
      requires Valid() && available.Valid() && available.pos.Length == adj.Length
      requires HaveRoom(available.items, degree[..], target, adj.Length) && a in available.items && b in available.items
      requires a < adj.Length && b < adj.Length
      modifies adj, degree, available, available.pos
      ensures Valid() && available.Valid() && Grows(old(adj[..]), adj[..])
      ensures HaveRoom(available.items, degree[..], target, adj.Length)
      ensures adj[..] == if a != b && b !in old(adj[a]) && old(degree[a]) < target && old(degree[b]) < target
                         then Linked(old(adj[..]), a, b) else old(adj[..])
    {
      hide Simple, Counted, Bounded, HaveRoom, Grows, CountUp, Linked;
      GrowsBy(adj[..]);
      if a == b { return; }
      ghost var g, counts, before := adj[..], degree[..], available.items;
      var ok := Connect(a, b);
      if !ok { return; }
      if degree[a] >= target { available.Remove(a); }
      if degree[b] >= target { available.Remove(b); }
      LinkGrows(g, g, a, b);
      DropFull(before, available.items, counts, a, b, target);
    }

    // `pairs` are the pairs drawn, one for each attempt.
    method Fill() returns (attempts: nat, ghost pairs: seq<(nat, nat)>)
      requires Valid()
      modifies this, adj, degree
      ensures Valid() && Grows(old(adj[..]), adj[..])
      ensures AtMostOneHasRoom(old(degree[..]), target) ==> adj[..] == old(adj[..])
      ensures attempts <= adj.Length * Max(1, target) * 200
      ensures attempts < adj.Length * Max(1, target) * 200 ==> AtMostOneHasRoom(degree[..], target)
      ensures |pairs| == attempts && Pairs(pairs, adj.Length) && adj[..] == LinkAll(old(adj[..]), target, pairs)
    {
      hide Simple, Counted, Bounded, HaveRoom, AtMostOneHasRoom, Grows, CountUp, Linked, LinkAll, Pairs;
      var n := adj.Length;
      var available := FindRoom();
      assert adj[..] == old(adj[..]) && degree[..] == old(degree[..]);
      GrowsBy(adj[..]);
      var maxAttempts := n * Max(1, target) * 200;
      attempts, pairs := 0, [];
      NothingLinked(adj[..], target);
      while |available.items| > 1 && attempts < maxAttempts
        invariant Valid() && Grows(old(adj[..]), adj[..])
        invariant available.Valid() && fresh(available) && fresh(available.pos) && available.pos.Length == n
        invariant HaveRoom(available.items, degree[..], target, n)
        invariant AtMostOneHasRoom(old(degree[..]), target) ==> |available.items| <= 1 && adj[..] == old(adj[..])
        invariant attempts <= maxAttempts && |pairs| == attempts
        invariant Pairs(pairs, n) && adj[..] == LinkAll(old(adj[..]), target, pairs)
        decreases maxAttempts - attempts
      {
        attempts := attempts + 1;
        var x := Int(|available.items|);
        var y := Int(|available.items|);
        var a, b := available.items[x], available.items[y];
        OneMoreDrawn(old(adj[..]), target, pairs, a, b, degree[..]);
        pairs := pairs + [(a, b)];
        ghost var g := adj[..];
        TryPair(available, a, b);
        GrowsOn(old(adj[..]), g, adj[..]);
      }
      if |available.items| <= 1 { FewHaveRoom(available.items, degree[..], target); }
    }
  }

  lemma NothingSoFar(g: Graph)
    requires NoEdges(g)
    ensures PairsSoFar(g, 0) && TreeSoFar(g, 1) && (|g| >= 3 ==> RingSoFar(g, 0))
  {
  }

  lemma SuccessorIsModulo(n: nat, i: nat)
    requires i < n
    ensures (i + 1) % n == Successor(n, i)
  {
  }

  lemma FirstParent(g: Graph, degree: seq<nat>, target: nat)
    requires g != [] && NoEdges(g) && Counted(g, degree) && target > 0
    ensures HaveRoom([0], degree, target, 1)
  {
    assert |g[0]| == 0;
  }

  lemma NobodyYet(degree: seq<nat>, target: nat)
    ensures HaveRoom([], degree, target, 0)
  {
  }

  lemma RoomBelow(items: seq<nat>, degree: seq<nat>, target: nat, i: nat, v: nat)
    requires HaveRoom(items, degree, target, i) && i <= |degree|
    ensures v in items ==> v < i && degree[v] < target
  {
  }

  lemma RoomUpTo(items: seq<nat>, degree: seq<nat>, target: nat, i: nat)
    requires HaveRoom(items, degree, target, i) && i < |degree|
    ensures HaveRoom(if degree[i] < target then items + [i] else items, degree, target, i + 1)
  {
  }

  lemma LonelyNode(g: Graph, degree: seq<nat>, i: nat)
    requires i < |g| && TreeSoFar(g, i) && Counted(g, degree)
    ensures degree[i] == 0
  {
    assert g[i] == {};
  }

  lemma TreeIsAnchored(g: Graph)
    requires TreeSoFar(g, |g|)
    ensures Anchored(g)
  {
  }

  lemma GrowsBy(g: Graph)
    ensures Grows(g, g)
  {
  }

  lemma GrowsOn(f: Graph, g: Graph, h: Graph)
    requires Grows(f, g) && Grows(g, h)
    ensures Grows(f, h)
  {
  }

  lemma LinkGrows(f: Graph, g: Graph, a: nat, b: nat)
    requires Grows(f, g) && a < |g| && b < |g| && a != b
    ensures Grows(f, Linked(g, a, b))
  {
  }

  lemma Scaled(r: real, max: nat)
    requires 0.0 <= r < 1.0 && max > 0
    ensures 0 <= (r * max as real).Floor < max
  {
    assert 0.0 <= r * max as real < max as real;
  }

  // What both variants promise of the graph they return.
  ghost predicate MeetsTarget(g: Graph, n: int, targetDegree: int) {
    && |g| == n > 0 && Simple(g)
    && (targetDegree < 0x1_0000 ==> forall i :: 0 <= i < n ==> |g[i]| <= targetDegree)
    && (targetDegree >= 2 ==> Connected(g))
    && (targetDegree == 1 ==> g == Matching(n))
  }

  // No edge could be added any more without exceeding the degree of one of its ends.
  predicate Saturated(g: Graph, targetDegree: int) {
    forall v, w :: 0 <= v < |g| && 0 <= w < |g| && |g[v]| < targetDegree && |g[w]| < targetDegree ==> v == w
  }

  lemma NoRoomIsSaturated(g: Graph, degree: seq<nat>, target: nat)
    requires Counted(g, degree) && AtMostOneHasRoom(degree, target)
    ensures Saturated(g, target)
  {
    forall v | 0 <= v < |g| && |g[v]| < target ensures degree[v] < target {
      OneMore(|g[v]|);
    }
  }

  method BuildForSession(n: int, targetDegree: int, rng: nat -> real)
    returns (r: Result<Graph, string>, attempts: nat, ghost pairs: seq<(nat, nat)>)
    requires forall k :: 0.0 <= rng(k) < 1.0
    ensures r.Ok? <==> n > 0 && 0 <= targetDegree < n
    ensures r.Ok? ==> MeetsTarget(r.value, n, targetDegree)
    ensures r.Ok? && attempts < n * Max(1, targetDegree) * 200 ==> Saturated(r.value, targetDegree)
    ensures r.Ok? && targetDegree >= 2 ==> forall i: nat :: i < n ==> (i + 1) % n in r.value[i]
    ensures r.Ok? ==> |pairs| == attempts && Pairs(pairs, n)
    ensures r.Ok? && targetDegree >= 2 ==> r.value == LinkAll(Ring(n), targetDegree, pairs)
    ensures r.Ok? && targetDegree == 1 ==> r.value == LinkAll(Matching(n), targetDegree, pairs)
  {
    if n <= 0 { return Err("nodes must be > 0"), 0, []; }
    if targetDegree < 0 { return Err("degree must be >= 0"), 0, []; }
    if targetDegree >= n { return Err("degree must be < nodes for a simple graph"), 0, []; }
    hide Ring, Matching, LinkAll, Grows, Saturated, Anchored, Connected, AtMostOneHasRoom, RingSoFar, Counted, Pairs;
    var builder := new Builder(n, targetDegree, rng);
    builder.SeedRingOrLine();
    ghost var seed := builder.adj[..];
    if targetDegree >= 2 {
      RingIsAnchored(seed);
      FullRing(seed);
    }
    if targetDegree == 1 { MatchingLeavesOneOut(seed, builder.degree[..]); }
    attempts, pairs := builder.Fill();
    if attempts < n * Max(1, targetDegree) * 200 {
      NoRoomIsSaturated(builder.adj[..], builder.degree[..], targetDegree);
    }
    if targetDegree >= 2 {
      RingIsKept(seed, builder.adj[..]);
      AnchoredGrows(seed, builder.adj[..]);
      AnchoredIsConnected(builder.adj[..]);
    }
    return Ok(builder.adj[..]), attempts, pairs;
  }

  lemma RingIsKept(seed: Graph, g: Graph)
    requires |seed| > 0 && seed == Ring(|seed|) && Grows(seed, g)
    ensures forall i: nat :: i < |seed| ==> (i + 1) % |seed| in g[i]
  {
    forall i: nat | i < |seed| ensures (i + 1) % |seed| in g[i] {
      assert (i + 1) % |seed| in seed[i];
    }
  }

  method BuildForSandbox(n: int, targetDegree: int, rng: nat -> real)
    returns (r: Result<Graph, string>, attempts: nat, ghost pairs: seq<(nat, nat)>)
    requires forall k :: 0.0 <= rng(k) < 1.0
    ensures r.Ok? <==> n > 0 && 0 <= targetDegree < n
    ensures r.Ok? ==> MeetsTarget(r.value, n, targetDegree)
    ensures r.Ok? && attempts < n * Max(1, targetDegree) * 200 ==> Saturated(r.value, targetDegree)
    ensures r.Ok? ==> |pairs| == attempts && Pairs(pairs, n)
    ensures r.Ok? && targetDegree >= 2 ==>
              exists seed: Graph :: |seed| == n && Anchored(seed) && r.value == LinkAll(seed, targetDegree, pairs)
    ensures r.Ok? && targetDegree == 1 ==> r.value == LinkAll(Matching(n), targetDegree, pairs)
  {
    if n <= 0 { return Err("nodes must be > 0"), 0, []; }
    if targetDegree < 0 { return Err("degree must be >= 0"), 0, []; }
    if targetDegree >= n { return Err("degree must be < nodes"), 0, []; }
    hide Matching, LinkAll, Grows, Saturated, Anchored, Connected, AtMostOneHasRoom, Counted, Pairs;
    var builder := new Builder(n, targetDegree, rng);
    builder.SeedTreeOrMatching();
    ghost var seed := builder.adj[..];
    if targetDegree == 1 { MatchingLeavesOneOut(seed, builder.degree[..]); }
    attempts, pairs := builder.Fill();
    if attempts < n * Max(1, targetDegree) * 200 {
      NoRoomIsSaturated(builder.adj[..], builder.degree[..], targetDegree);
    }
    if targetDegree >= 2 {
      AnchoredGrows(seed, builder.adj[..]);
      AnchoredIsConnected(builder.adj[..]);
    }
    return Ok(builder.adj[..]), attempts, pairs;
  }
}
