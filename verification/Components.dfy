// The component merging of TestSession.configureFanoutShardRoots
// (packages/clients/test-utils/src/session.ts).
module Components {
  type Peer = string

  type Groups = seq<set<Peer>>

  predicate Touches(a: set<Peer>, b: set<Peer>) { exists p :: p in a && p in b }

  // ----- What the merge of one group amounts to -----

  // The components that the group does not touch, in order.
  function Apart(components: Groups, group: set<Peer>): Groups {
    if components == [] then []
    else (if Touches(components[0], group) then [] else [components[0]]) + Apart(components[1..], group)
  }

  // The peers of the components it touches.
  function Gather(components: Groups, group: set<Peer>): set<Peer> {
    if components == [] then {}
    else (if Touches(components[0], group) then components[0] else {}) + Gather(components[1..], group)
  }

  function Merge(components: Groups, group: set<Peer>): Groups {
    Apart(components, group) + [group + Gather(components, group)]
  }

  function MergeAll(groups: Groups): Groups {
    if groups == [] then [] else Merge(MergeAll(groups[..|groups| - 1]), groups[|groups| - 1])
  }

  lemma {:induction false} ApartConcat(a: Groups, b: Groups, group: set<Peer>)
    ensures Apart(a + b, group) == Apart(a, group) + Apart(b, group)
  {
    hide Touches;
    if a == [] {
      assert a + b == b;
    } else {
      assert (a + b)[1..] == a[1..] + b;
      ApartConcat(a[1..], b, group);
    }
  }

  lemma {:induction false} GatherConcat(a: Groups, b: Groups, group: set<Peer>)
    ensures Gather(a + b, group) == Gather(a, group) + Gather(b, group)
  {
    hide Touches;
    if a == [] {
      assert a + b == b;
    } else {
      assert (a + b)[1..] == a[1..] + b;
      GatherConcat(a[1..], b, group);
    }
  }

  lemma {:induction false} AllApart(a: Groups, group: set<Peer>)
    requires forall i :: 0 <= i < |a| ==> !Touches(a[i], group)
    ensures Apart(a, group) == a && Gather(a, group) == {}
  {
    if a != [] {
      AllApart(a[1..], group);
    }
  }

  // ----- The source's loop -----

  // The indices of the touched components, in ascending order.
  method Intersections(components: Groups, group: set<Peer>) returns (indices: seq<nat>)
    ensures forall i, j :: 0 <= i < j < |indices| ==> indices[i] < indices[j]
    ensures forall i :: i in indices <==> 0 <= i < |components| && Touches(components[i], group)
  {
    indices := [];
    for i := 0 to |components|
      invariant forall k, j :: 0 <= k < j < |indices| ==> indices[k] < indices[j]
      invariant forall k :: k in indices <==> 0 <= k < i && Touches(components[k], group)
    {
      assert forall k :: 0 <= k < |indices| ==> indices[k] in indices;
      if Touches(components[i], group) {
        indices := indices + [i];
      }
    }
  }

  // Splices the touched components out from the end, so that earlier indices stay valid.
  method Splice(components: Groups, group: set<Peer>, indices: seq<nat>) returns (rest: Groups, union: set<Peer>)
    requires forall i, j :: 0 <= i < j < |indices| ==> indices[i] < indices[j]
    requires forall i :: i in indices <==> 0 <= i < |components| && Touches(components[i], group)
    ensures rest == Apart(components, group) && union == group + Gather(components, group)
  {
    rest, union := components, group;
    var j := |indices|;
    ghost var m := |components|;
    assert SplicedFrom(components, group, m, rest, union) by { assert components[m..] == []; }
    hide Apart, Gather, Touches;
    while j > 0
      invariant 0 <= j <= |indices| && m <= |components| && (j < |indices| ==> indices[j] in indices)
      invariant m == if j == |indices| then |components| else indices[j]
      invariant SplicedFrom(components, group, m, rest, union)
    {
      j := j - 1;
      var idx := indices[j];
      assert idx in indices;
      NoneBetween(components, group, indices, j, m);
      rest, union := SpliceOne(components, group, idx, m, rest, union);
      m := idx;
    }
    NoneBefore(components, group, indices, m);
    SplicedAll(components, group, m, rest, union);
  }

  // From position m on, the touched components are spliced out and gathered.
  predicate SplicedFrom(components: Groups, group: set<Peer>, m: nat, rest: Groups, union: set<Peer>) {
    && m <= |components|
    && rest == components[..m] + Apart(components[m..], group) && union == group + Gather(components[m..], group)
  }

  method SpliceOne(components: Groups, group: set<Peer>, idx: nat, ghost m: nat, rest: Groups, union: set<Peer>)
    returns (rest': Groups, union': set<Peer>)
    requires idx < m && SplicedFrom(components, group, m, rest, union)
    requires Touches(components[idx], group) && forall i :: idx < i < m ==> !Touches(components[i], group)
    ensures SplicedFrom(components, group, idx, rest', union')
  {
    hide Apart, Gather, Touches;
    SpliceStep(components, group, idx, m);
    SpliceSeq(components, idx, m, Apart(components[m..], group));
    union' := union + rest[idx];
    rest' := rest[..idx] + rest[idx + 1..];
  }

  lemma SplicedAll(components: Groups, group: set<Peer>, m: nat, rest: Groups, union: set<Peer>)
    requires SplicedFrom(components, group, m, rest, union)
    requires forall i :: 0 <= i < m ==> !Touches(components[i], group)
    ensures rest == Apart(components, group) && union == group + Gather(components, group)
  {
    hide Apart, Gather, Touches;
    AllApart(components[..m], group);
    ApartConcat(components[..m], components[m..], group);
    GatherConcat(components[..m], components[m..], group);
    assert components[..m] + components[m..] == components;
  }

  lemma NoneBetween(components: Groups, group: set<Peer>, indices: seq<nat>, j: nat, m: nat)
    requires forall i, k :: 0 <= i < k < |indices| ==> indices[i] < indices[k]
    requires forall i :: i in indices <==> 0 <= i < |components| && Touches(components[i], group)
    requires j < |indices| && m == if j + 1 == |indices| then |components| else indices[j + 1]
    ensures indices[j] < m <= |components|
    ensures forall i :: indices[j] < i < m ==> !Touches(components[i], group)
  {
    assert indices[j] in indices;
    if j + 1 < |indices| {
      assert indices[j + 1] in indices;
    }
    assert forall k :: 0 <= k < |indices| ==> indices[k] <= indices[j] || indices[k] >= m;
  }

  lemma NoneBefore(components: Groups, group: set<Peer>, indices: seq<nat>, m: nat)
    requires forall i, k :: 0 <= i < k < |indices| ==> indices[i] < indices[k]
    requires forall i :: i in indices <==> 0 <= i < |components| && Touches(components[i], group)
    requires m == if indices == [] then |components| else indices[0]
    ensures m <= |components| && forall i :: 0 <= i < m ==> !Touches(components[i], group)
  {
    assert indices != [] ==> indices[0] in indices;
    assert forall k :: 0 <= k < |indices| ==> indices[k] >= m;
  }

  lemma SpliceStep(components: Groups, group: set<Peer>, idx: nat, m: nat)
    requires idx < m <= |components| && Touches(components[idx], group)
    requires forall i :: idx < i < m ==> !Touches(components[i], group)
    ensures Apart(components[idx..], group) == components[idx + 1..m] + Apart(components[m..], group)
    ensures Gather(components[idx..], group) == components[idx] + Gather(components[m..], group)
  {
    AllApart(components[idx + 1..m], group);
    ApartConcat(components[idx + 1..m], components[m..], group);
    GatherConcat(components[idx + 1..m], components[m..], group);
    assert components[idx + 1..m] + components[m..] == components[idx + 1..];
    ApartConcat([components[idx]], components[idx + 1..], group);
    GatherConcat([components[idx]], components[idx + 1..], group);
    assert [components[idx]] + components[idx + 1..] == components[idx..];
    SingleTouches(components[idx], group);
  }

  lemma SpliceSeq(components: Groups, idx: nat, m: nat, tail: Groups)
    requires idx < m <= |components|
    ensures var rest := components[..m] + tail;
            rest[idx] == components[idx]
            && rest[..idx] + rest[idx + 1..] == components[..idx] + (components[idx + 1..m] + tail)
  {
  }

  lemma SingleTouches(c: set<Peer>, group: set<Peer>)
    requires Touches(c, group)
    ensures Apart([c], group) == [] && Gather([c], group) == c
  {
    assert [c][1..] == [];
  }

  method MergeComponents(groups: Groups) returns (components: Groups)
    ensures components == MergeAll(groups)
    ensures Disjoint(components) && Cover(components) == Cover(groups)
    ensures forall a, b :: Together(components, a, b) <==> Linked(groups, a, b)
  {
    hide Linked, Merge;
    components := [];
    for i := 0 to |groups|
      invariant components == MergeAll(groups[..i])
    {
      assert groups[..i + 1][..i] == groups[..i];
      components := MergeOne(components, groups[i]);
    }
    assert groups[..|groups|] == groups;
    MergedComponents(groups);
  }

  method MergeOne(components: Groups, group: set<Peer>) returns (components': Groups)
    ensures components' == Merge(components, group)
  {
    var intersections := Intersections(components, group);
    if |intersections| == 0 {
      forall i | 0 <= i < |components| ensures !Touches(components[i], group) {
        assert i !in intersections;
      }
      AllApart(components, group);
      assert group + {} == group;
      return components + [group];
    }
    var rest, union := Splice(components, group, intersections);
    components' := rest + [union];
  }

  // ----- Connectivity of dial groups -----

  // Consecutive groups share a peer.
  ghost predicate Chain(groups: Groups, path: seq<nat>) {
    && path != []
    && (forall i :: 0 <= i < |path| ==> path[i] < |groups|)
    && (forall i :: 0 <= i < |path| - 1 ==> Touches(groups[path[i]], groups[path[i + 1]]))
  }

  ghost predicate Linked(groups: Groups, a: Peer, b: Peer) {
    exists path :: Chain(groups, path) && a in groups[path[0]] && b in groups[path[|path| - 1]]
  }

  ghost predicate Together(components: Groups, a: Peer, b: Peer) {
    exists i :: 0 <= i < |components| && a in components[i] && b in components[i]
  }

  predicate Disjoint(components: Groups) {
    forall i, j :: 0 <= i < j < |components| ==> components[i] !! components[j]
  }

  function Cover(groups: Groups): set<Peer> { set i, p | 0 <= i < |groups| && p in groups[i] :: p }

  lemma LinkedIsTransitive(groups: Groups, a: Peer, b: Peer, c: Peer)
    requires Linked(groups, a, b) && Linked(groups, b, c)
    ensures Linked(groups, a, c)
  {
    var p :| Chain(groups, p) && a in groups[p[0]] && b in groups[p[|p| - 1]];
    var q :| Chain(groups, q) && b in groups[q[0]] && c in groups[q[|q| - 1]];
    var path := p + q;
    forall i | 0 <= i < |path| - 1 ensures Touches(groups[path[i]], groups[path[i + 1]]) {
      if i == |p| - 1 {
        assert b in groups[path[i]] && b in groups[path[i + 1]];
      } else if i < |p| - 1 {
        assert Touches(groups[p[i]], groups[p[i + 1]]);
      } else {
        assert Touches(groups[q[i - |p|]], groups[q[i - |p| + 1]]);
      }
    }
    assert Chain(groups, path) && path[0] == p[0] && path[|path| - 1] == q[|q| - 1];
  }

  function Reverse(path: seq<nat>): seq<nat> { seq(|path|, i requires 0 <= i < |path| => path[|path| - 1 - i]) }

  lemma LinkedIsSymmetric(groups: Groups, a: Peer, b: Peer)
    requires Linked(groups, a, b)
    ensures Linked(groups, b, a)
  {
    var p :| Chain(groups, p) && a in groups[p[0]] && b in groups[p[|p| - 1]];
    var q := Reverse(p);
    forall i | 0 <= i < |q| - 1 ensures Touches(groups[q[i]], groups[q[i + 1]]) {
      var k := |p| - 2 - i;
      assert Touches(groups[p[k]], groups[p[k + 1]]);
      var x :| x in groups[p[k]] && x in groups[p[k + 1]];
      assert x in groups[q[i]] && x in groups[q[i + 1]];
    }
    assert Chain(groups, q) && q[0] == p[|p| - 1] && q[|q| - 1] == p[0];
  }

  lemma LinkedInGroup(groups: Groups, i: nat, a: Peer, b: Peer)
    requires i < |groups| && a in groups[i] && b in groups[i]
    ensures Linked(groups, a, b)
  {
    assert Chain(groups, [i]) && [i][0] == i && [i][|[i]| - 1] == i;
  }

  lemma LinkedWithMore(groups: Groups, group: set<Peer>, a: Peer, b: Peer)
    requires Linked(groups, a, b)
    ensures Linked(groups + [group], a, b)
  {
    var p :| Chain(groups, p) && a in groups[p[0]] && b in groups[p[|p| - 1]];
    var more := groups + [group];
    forall i | 0 <= i < |p| - 1 ensures Touches(more[p[i]], more[p[i + 1]]) {
      assert Touches(groups[p[i]], groups[p[i + 1]]);
    }
    assert Chain(more, p);
  }

  // ----- The components are the classes of Linked -----

  ghost predicate Correct(groups: Groups, components: Groups) {
    && Disjoint(components)
    && (forall i :: 0 <= i < |groups| ==> Inside(components, groups[i]))
    && (forall a, b :: Together(components, a, b) ==> Linked(groups, a, b))
  }

  ghost predicate Inside(components: Groups, group: set<Peer>) {
    exists j :: 0 <= j < |components| && group <= components[j]
  }

  lemma {:induction false} ApartIs(components: Groups, group: set<Peer>)
    ensures forall c :: c in Apart(components, group) <==> c in components && !Touches(c, group)
    ensures forall p :: p in Gather(components, group) <==> exists c :: c in components && Touches(c, group) && p in c
    ensures Disjoint(components) ==> Disjoint(Apart(components, group))
  {
    if components != [] {
      ApartIs(components[1..], group);
      assert components == [components[0]] + components[1..];
      if Disjoint(components) {
        ApartStaysDisjoint(components, group);
      }
    }
  }

  lemma ApartStaysDisjoint(components: Groups, group: set<Peer>)
    requires components != [] && Disjoint(components) && Disjoint(components[1..]) ==>
               Disjoint(Apart(components[1..], group))
    requires components != [] && Disjoint(components)
    requires forall c :: c in Apart(components[1..], group) ==> c in components[1..]
    ensures Disjoint(Apart(components, group))
  {
    var rest := Apart(components[1..], group);
    assert Disjoint(rest);
    forall j | 0 <= j < |rest| ensures components[0] !! rest[j] {
      assert rest[j] in components[1..];
      var k :| 0 <= k < |components[1..]| && components[1..][k] == rest[j];
      assert components[k + 1] == rest[j];
    }
  }

  lemma SameComponent(components: Groups, i: nat, j: nat, p: Peer)
    requires Disjoint(components) && i < |components| && j < |components|
    requires p in components[i] && p in components[j]
    ensures i == j
  {
  }

  lemma MergeStaysDisjoint(components: Groups, group: set<Peer>)
    requires Disjoint(components)
    ensures Disjoint(Merge(components, group))
  {
    ApartIs(components, group);
    var apart, union := Apart(components, group), group + Gather(components, group);
    forall i | 0 <= i < |apart| ensures apart[i] !! union {
      assert apart[i] in apart;
      forall p | p in apart[i] ensures p !in union {
        var k :| 0 <= k < |components| && components[k] == apart[i];
        if p in Gather(components, group) {
          var c :| c in components && Touches(c, group) && p in c;
          var j :| 0 <= j < |components| && components[j] == c;
          SameComponent(components, k, j, p);
        }
      }
    }
  }

  lemma MergeKeepsInside(components: Groups, group: set<Peer>, g: set<Peer>)
    requires g == group || Inside(components, g)
    ensures Inside(Merge(components, group), g)
  {
    ApartIs(components, group);
    var merged := Merge(components, group);
    var union := group + Gather(components, group);
    assert merged[|merged| - 1] == union;
    if g != group {
      var j :| 0 <= j < |components| && g <= components[j];
      if Touches(components[j], group) {
        assert components[j] in components && components[j] <= union;
      } else {
        assert components[j] in Apart(components, group);
        var k :| 0 <= k < |Apart(components, group)| && Apart(components, group)[k] == components[j];
        assert merged[k] == components[j];
      }
    }
  }

  // Every peer of the merged component is linked to one of the group.
  lemma MergedPeerIsLinked(groups: Groups, components: Groups, group: set<Peer>, x: Peer) returns (p: Peer)
    requires forall a, b :: Together(components, a, b) ==> Linked(groups, a, b)
    requires x in group + Gather(components, group)
    ensures p in group && Linked(groups + [group], x, p) && Linked(groups + [group], p, x)
  {
    hide Linked;
    ApartIs(components, group);
    if x in group {
      p := x;
      LinkedInGroup(groups + [group], |groups|, x, x);
    } else {
      var c :| c in components && Touches(c, group) && x in c;
      p :| p in c && p in group;
      var i :| 0 <= i < |components| && components[i] == c;
      assert Together(components, x, p);
      LinkedWithMore(groups, group, x, p);
      LinkedIsSymmetric(groups + [group], x, p);
    }
  }

  lemma MergeKeepsLinked(groups: Groups, components: Groups, group: set<Peer>, a: Peer, b: Peer)
    requires forall x, y :: Together(components, x, y) ==> Linked(groups, x, y)
    requires Together(Merge(components, group), a, b)
    ensures Linked(groups + [group], a, b)
  {
    hide Linked;
    ApartIs(components, group);
    var apart, more := Apart(components, group), groups + [group];
    var merged := Merge(components, group);
    var i :| 0 <= i < |merged| && a in merged[i] && b in merged[i];
    if i < |apart| {
      assert apart[i] in apart;
      var k :| 0 <= k < |components| && components[k] == apart[i];
      assert Together(components, a, b);
      LinkedWithMore(groups, group, a, b);
    } else {
      var p := MergedPeerIsLinked(groups, components, group, a);
      var q := MergedPeerIsLinked(groups, components, group, b);
      LinkedInGroup(more, |groups|, p, q);
      LinkedIsTransitive(more, a, p, q);
      LinkedIsTransitive(more, a, q, b);
    }
  }

  lemma {:induction false} MergeAllIsCorrect(groups: Groups)
    ensures Correct(groups, MergeAll(groups))
  {
    if groups != [] {
      var front, group := groups[..|groups| - 1], groups[|groups| - 1];
      MergeAllIsCorrect(front);
      var components := MergeAll(front);
      assert groups == front + [group];
      MergeStaysDisjoint(components, group);
      hide Linked, Merge, Inside, Together, Disjoint;
      forall i | 0 <= i < |groups| ensures Inside(Merge(components, group), groups[i]) {
        assert i < |front| ==> groups[i] == front[i];
        MergeKeepsInside(components, group, groups[i]);
      }
      forall a, b | Together(Merge(components, group), a, b) ensures Linked(groups, a, b) {
        MergeKeepsLinked(front, components, group, a, b);
      }
    }
  }

  // A chain of groups never leaves a component.
  lemma {:induction false} ChainStaysInside(groups: Groups, components: Groups, path: seq<nat>, j: nat)
    requires Correct(groups, components) && Chain(groups, path)
    requires j < |components| && groups[path[0]] <= components[j]
    ensures groups[path[|path| - 1]] <= components[j]
    decreases |path|
  {
    if |path| > 1 {
      assert Touches(groups[path[0]], groups[path[1]]);
      var p :| p in groups[path[0]] && p in groups[path[1]];
      assert Inside(components, groups[path[1]]);
      var k :| 0 <= k < |components| && groups[path[1]] <= components[k];
      SameComponent(components, j, k, p);
      var rest := path[1..];
      forall i | 0 <= i < |rest| - 1 ensures Touches(groups[rest[i]], groups[rest[i + 1]]) {
        assert Touches(groups[path[i + 1]], groups[path[i + 2]]);
      }
      ChainStaysInside(groups, components, rest, j);
    }
  }

  lemma LinkedIsTogether(groups: Groups, components: Groups, a: Peer, b: Peer)
    requires Correct(groups, components) && Linked(groups, a, b)
    ensures Together(components, a, b)
  {
    var path :| Chain(groups, path) && a in groups[path[0]] && b in groups[path[|path| - 1]];
    assert Inside(components, groups[path[0]]);
    var j :| 0 <= j < |components| && groups[path[0]] <= components[j];
    ChainStaysInside(groups, components, path, j);
  }

  // The components are disjoint, cover all peers, and hold two peers together exactly if a chain of
  // pairwise intersecting groups links them.
  lemma MergedComponents(groups: Groups)
    ensures var components := MergeAll(groups);
            && Disjoint(components) && Cover(components) == Cover(groups)
            && forall a, b :: Together(components, a, b) <==> Linked(groups, a, b)
  {
    MergeAllIsCorrect(groups);
    var components := MergeAll(groups);
    forall a, b | Linked(groups, a, b) ensures Together(components, a, b) {
      LinkedIsTogether(groups, components, a, b);
    }
    forall p ensures p in Cover(components) <==> p in Cover(groups) {
      if p in Cover(components) {
        var i :| 0 <= i < |components| && p in components[i];
        assert Together(components, p, p);
        var path :| Chain(groups, path) && p in groups[path[0]] && p in groups[path[|path| - 1]];
      }
      if p in Cover(groups) {
        var i :| 0 <= i < |groups| && p in groups[i];
        assert Inside(components, groups[i]);
        var j :| 0 <= j < |components| && groups[i] <= components[j];
        assert p in components[j];
      }
    }
  }
}
