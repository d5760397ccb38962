// Log.getReferenceSamples (packages/log/src/log.ts): ancestors of an entry, sampled at distances
// 1, 3, 7, 15, ... next steps.
//
// A JavaScript Set keeps insertion order; here it is a sequence without repetitions.
module ReferenceSamples {
  import opened Wrappers
  import opened Entries
  import opened Dag

  // The hashes reached by exactly `distance` next steps over stored entries.
  ghost function Level(store: Blocks, from: Entry, distance: nat): set<Hash>
    requires distance >= 1
  {
    if distance == 1 then set n | n in from.meta.next
    else set n, m | n in Level(store, from, distance - 1) && n in store && m in store[n].meta.next :: m
  }

  predicate IsPow2(i: nat) { i == 1 || (i > 0 && i % 2 == 0 && IsPow2(i / 2)) }

  lemma FirstDistances(i: nat)
    requires 2 <= i <= 16
    ensures IsPow2(i) <==> i == 2 || i == 4 || i == 8 || i == 16
  {
    assert IsPow2(i) <==> i % 2 == 0 && IsPow2(i / 2);
    assert IsPow2(i / 2) <==> i / 2 == 1 || (i / 2 % 2 == 0 && IsPow2(i / 4));
    assert IsPow2(i / 4) <==> i / 4 == 1 || (i / 4 > 0 && i / 4 % 2 == 0 && IsPow2(i / 8));
  }

  // The sampled distances are 2^k - 1.
  ghost predicate Sampled(store: Blocks, from: Entry, h: Hash) {
    exists i :: i >= 2 && IsPow2(i) && h in Level(store, from, i - 1)
  }

  predicate NoRepeats(s: seq<Hash>) { forall i, j :: 0 <= i < j < |s| ==> s[i] != s[j] }

  function Insert(s: seq<Hash>, h: Hash): seq<Hash> { if h in s then s else s + [h] }

  function Bytes(store: Blocks, hashes: seq<Hash>): nat {
    if hashes == [] then 0
    else
      var last := hashes[|hashes| - 1];
      Bytes(store, hashes[..|hashes| - 1]) + (if last in store then store[last].payloadSize else 0)
  }

  // The loop comes by samples level by level: a visit is a distance, less one, and a hash there.
  type Visit = (nat, Hash)

  ghost predicate IsVisit(store: Blocks, from: Entry, v: Visit) {
    v.0 >= 2 && IsPow2(v.0) && v.1 in Level(store, from, v.0 - 1)
  }

  ghost predicate Visits(store: Blocks, from: Entry, visits: seq<Visit>) {
    && (forall v :: v in visits ==> IsVisit(store, from, v))
    && (forall i, j :: 0 <= i < j < |visits| ==> visits[i] != visits[j])
  }

  function SizeOf(store: Blocks, h: Hash): nat { if h in store then store[h].payloadSize else 0 }

  function VisitBytes(store: Blocks, visits: seq<Visit>): nat {
    if visits == [] then 0 else VisitBytes(store, visits[..|visits| - 1]) + SizeOf(store, visits[|visits| - 1].1)
  }

  // Exactly `from` and what was visited is selected.
  ghost predicate IsSelected(from: Entry, visits: seq<Visit>, hashes: seq<Hash>) {
    forall h :: h in hashes <==> h == from.hash || Visited(visits, h)
  }

  ghost predicate Visited(visits: seq<Visit>, h: Hash) { exists v :: v in visits && v.1 == h }

  // The sample is missing, or does not fit any more.
  ghost predicate StopsAt(store: Blocks, from: Entry, memoryLimit: nat, visits: seq<Visit>, v: Visit) {
    && IsVisit(store, from, v) && v !in visits
    && (v.1 !in store || from.payloadSize + VisitBytes(store, visits) + SizeOf(store, v.1) > memoryLimit)
  }

  // The limit stops a sample after every nearer level is selected.
  ghost predicate Blocked(store: Blocks, from: Entry, memoryLimit: nat, maxDistance: nat, hashes: seq<Hash>,
                          visits: seq<Visit>) {
    exists v: Visit ::
      StopsAt(store, from, memoryLimit, visits, v) && v.0 < maxDistance && CompleteBelow(store, from, hashes, v.0)
  }

  // What may be selected: `from` and samples, within the count and the limit; and every sampled level
  // up to the maximal distance, unless the count is reached or the memory limit stops the next one.
  ghost predicate Selects(store: Blocks, length: nat, from: Entry, pointerCount: nat, memoryLimit: nat,
                          hashes: seq<Hash>) {
    var maxDistance := Min(pointerCount, length);
    && NoRepeats(hashes) && |hashes| <= pointerCount
    && (if maxDistance == 0 then hashes == [] else from.hash in hashes)
    && (forall h :: h in hashes ==> h == from.hash || Sampled(store, from, h))
    && (memoryLimit > 0 && |hashes| > 1 ==> Bytes(store, hashes) <= memoryLimit)
    && (|hashes| < pointerCount ==>
          || CompleteBelow(store, from, hashes, maxDistance)
          || (memoryLimit > 0 && exists visits ::
                Visits(store, from, visits) && IsSelected(from, visits, hashes)
                && Blocked(store, from, memoryLimit, maxDistance, hashes, visits)))
  }

  // `length` is entryIndex.length, `store` what get() resolves; a memory limit of 0 is no limit.
  method GetReferenceSamples(store: Blocks, length: nat, from: Entry, pointerCount: nat, memoryLimit: nat)
    returns (ret: seq<Entry>)
    requires KeyedBlocks(store) && (from.hash in store ==> store[from.hash] == from)
    ensures exists hashes ::
              Selects(store, length, from, pointerCount, memoryLimit, hashes) && ret == Resolved(store, hashes)
    ensures forall e :: e in ret ==>
              e.hash in store && store[e.hash] == e && (e == from || Sampled(store, from, e.hash))
    ensures |ret| <= pointerCount
    ensures memoryLimit > 0 && |ret| > 1 ==> Payloads(ret) <= memoryLimit
  {
    hide Selects;
    var selected := Select(store, length, from, pointerCount, memoryLimit);
    ret := [];
    for i := 0 to |selected|
      invariant ret == Resolved(store, selected[..i])
    {
      assert selected[..i + 1][..i] == selected[..i];
      if selected[i] in store {
        ret := ret + [store[selected[i]]];
      }
    }
    assert selected[..|selected|] == selected;
    ResolvedIsShorter(store, selected);
    ResolvedAreStored(store, selected);
    SelectedMeans(store, length, from, pointerCount, memoryLimit, selected);
    BytesAreReturned(store, selected);
  }

  lemma SelectedMeans(store: Blocks, length: nat, from: Entry, pointerCount: nat, memoryLimit: nat, hashes: seq<Hash>)
    requires Selects(store, length, from, pointerCount, memoryLimit, hashes)
    ensures NoRepeats(hashes) && |hashes| <= pointerCount
    ensures forall h :: h in hashes ==> h == from.hash || Sampled(store, from, h)
    ensures memoryLimit > 0 && |hashes| > 1 ==> Bytes(store, hashes) <= memoryLimit
  {
  }

  method Select(store: Blocks, length: nat, from: Entry, pointerCount: nat, memoryLimit: nat)
    returns (selected: seq<Hash>)
    requires KeyedBlocks(store) && (from.hash in store ==> store[from.hash] == from)
    ensures Selects(store, length, from, pointerCount, memoryLimit, selected)
  {
    hide Level, Sampled;
    selected := [];
    var maxDistance := Min(pointerCount, length);
    if maxDistance == 0 {
      return;
    }
    selected := Insert(selected, from.hash);
    var memoryCounter := from.payloadSize;
    if |from.meta.next| > 0 && pointerCount >= 2 {
      ghost var visits;
      selected, visits := Sample(store, from, pointerCount, memoryLimit, maxDistance);
    } else {
      assert Bytes(store, selected) <= from.payloadSize;
      if from.meta.next == [] {
        forall d: nat | d >= 1 ensures Level(store, from, d) == {} { NoNexts(store, from, d); }
      }
    }
  }

  lemma {:induction false} ResolvedAreStored(store: Blocks, hashes: seq<Hash>)
    requires KeyedBlocks(store)
    ensures forall e :: e in Resolved(store, hashes) ==> e.hash in hashes && e.hash in store && store[e.hash] == e
  {
    if hashes != [] {
      ResolvedAreStored(store, hashes[..|hashes| - 1]);
    }
  }

  // What is selected so far, all of it at a sampled distance, and within the limits.
  ghost predicate Selection(store: Blocks, from: Entry, memoryLimit: nat, hashes: seq<Hash>, counter: nat,
                            visits: seq<Visit>) {
    && hashes != [] && hashes[0] == from.hash && NoRepeats(hashes)
    && (forall h :: h in hashes ==> h == from.hash || Sampled(store, from, h))
    && (memoryLimit > 0 ==> Bytes(store, hashes) <= counter && (|hashes| > 1 ==> counter <= memoryLimit))
    && Visits(store, from, visits) && IsSelected(from, visits, hashes)
    && (memoryLimit > 0 ==> counter == from.payloadSize + VisitBytes(store, visits))
  }

  // Everything at sampled distances below i is selected.
  ghost predicate CompleteBelow(store: Blocks, from: Entry, hashes: seq<Hash>, i: nat) {
    forall k, h :: 2 <= k < i && IsPow2(k) && h in Level(store, from, k - 1) ==> h in hashes
  }

  // The doubling loop.
  method Sample(store: Blocks, from: Entry, pointerCount: nat, memoryLimit: nat, maxDistance: nat)
    returns (hashes: seq<Hash>, ghost visits: seq<Visit>)
    requires KeyedBlocks(store) && (from.hash in store ==> store[from.hash] == from)
    requires pointerCount >= 2 && maxDistance >= 1
    ensures hashes != [] && hashes[0] == from.hash && NoRepeats(hashes) && |hashes| <= pointerCount
    ensures forall h :: h in hashes ==> h == from.hash || Sampled(store, from, h)
    ensures memoryLimit > 0 && |hashes| > 1 ==> Bytes(store, hashes) <= memoryLimit
    ensures Visits(store, from, visits) && IsSelected(from, visits, hashes)
    ensures || |hashes| == pointerCount || CompleteBelow(store, from, hashes, maxDistance)
            || (memoryLimit > 0 && Blocked(store, from, memoryLimit, maxDistance, hashes, visits))
  {
    hide Selection, CompleteBelow, Visits, IsSelected, Blocked, Level, Sampled;
    hashes, visits := [from.hash], [];
    var memoryCounter := from.payloadSize;
    SampleStarts(store, from, memoryLimit);
    var next := Unique(from.meta.next);
    var prev := 2;
    var i := 2;
    while i <= maxDistance - 1
      invariant i >= 2 && IsPow2(i) && (i == prev == 2 || i == 2 * prev) && prev >= 2
      invariant NoRepeats(next) && (set n | n in next) == Level(store, from, prev - 1)
      invariant Selection(store, from, memoryLimit, hashes, memoryCounter, visits) && |hashes| < pointerCount
      invariant forall v :: v in visits ==> v.0 < i
      invariant CompleteBelow(store, from, hashes, i)
      decreases maxDistance - i
    {
      var ended := false;
      next, ended := Descend(store, from, next, prev, i);
      prev := i;
      if ended {
        CompleteForever(store, from, hashes, i, maxDistance);
        SelectionFacts(store, from, memoryLimit, hashes, memoryCounter, visits);
        return;
      }
      ghost var before := hashes;
      ended, hashes, memoryCounter, visits :=
        SelectLevel(store, from, pointerCount, memoryLimit, next, i, hashes, memoryCounter, visits);
      if ended {
        SelectionFacts(store, from, memoryLimit, hashes, memoryCounter, visits);
        if |hashes| < pointerCount {
          BlockedBelow(store, from, memoryLimit, i, maxDistance, before, hashes, visits);
        }
        return;
      }
      CompleteDoubles(store, from, before, hashes, i);
      i := i * 2;
    }
    CompleteUpTo(store, from, hashes, i, maxDistance);
    SelectionFacts(store, from, memoryLimit, hashes, memoryCounter, visits);
  }

  lemma SampleStarts(store: Blocks, from: Entry, memoryLimit: nat)
    requires from.hash in store ==> store[from.hash] == from
    ensures Selection(store, from, memoryLimit, [from.hash], from.payloadSize, [])
    ensures CompleteBelow(store, from, [from.hash], 2)
    ensures Level(store, from, 1) == set n | n in from.meta.next
  {
    assert Bytes(store, []) == 0 && [from.hash][..0] == [];
  }

  lemma CompleteUpTo(store: Blocks, from: Entry, hashes: seq<Hash>, i: nat, end: nat)
    requires CompleteBelow(store, from, hashes, i) && end <= i
    ensures CompleteBelow(store, from, hashes, end)
  {
  }

  lemma BlockedBelow(store: Blocks, from: Entry, memoryLimit: nat, i: nat, maxDistance: nat, before: seq<Hash>,
                     hashes: seq<Hash>, visits: seq<Visit>)
    requires exists n :: StopsAt(store, from, memoryLimit, visits, (i, n))
    requires i < maxDistance && CompleteBelow(store, from, before, i) && before <= hashes
    ensures Blocked(store, from, memoryLimit, maxDistance, hashes, visits)
  {
    hide StopsAt;
    var n :| StopsAt(store, from, memoryLimit, visits, (i, n));
    assert forall h :: h in before ==> h in hashes by { assert before == hashes[..|before|]; }
    assert CompleteBelow(store, from, hashes, (i, n).0);
  }

  // From distance prev - 1 to distance i - 1, unless nothing is left on the way.
  method Descend(store: Blocks, from: Entry, next0: seq<Hash>, prev: nat, i: nat) returns (next: seq<Hash>, ended: bool)
    requires 2 <= prev <= i && NoRepeats(next0) && (set n | n in next0) == Level(store, from, prev - 1)
    ensures NoRepeats(next) && (!ended ==> (set n | n in next) == Level(store, from, i - 1))
    ensures ended ==> forall d: nat :: d >= i - 1 ==> Level(store, from, d) == {}
  {
    next, ended := next0, false;
    for j := prev to i
      invariant NoRepeats(next) && (set n | n in next) == Level(store, from, j - 1)
    {
      if |next| == 0 {
        forall d: nat | d >= i - 1 ensures Level(store, from, d) == {} { EmptyStaysEmpty(store, from, j - 1, d); }
        return next, true;
      }
      var nextNext: seq<Hash> := [];
      for k := 0 to |next|
        invariant forall m :: m in nextNext <==> exists n :: n in next[..k] && n in store && m in store[n].meta.next
        invariant NoRepeats(nextNext)
      {
        assert next[..k + 1] == next[..k] + [next[k]];
        if next[k] in store {
          nextNext := InsertAll(nextNext, store[next[k]].meta.next);
        }
      }
      assert next[..|next|] == next;
      next := nextNext;
    }
  }

  // Selects the hashes of one level until a limit is hit.
  method SelectLevel(store: Blocks, from: Entry, pointerCount: nat, memoryLimit: nat, next: seq<Hash>, i: nat,
                     hashes0: seq<Hash>, counter0: nat, ghost visits0: seq<Visit>)
    returns (ended: bool, hashes: seq<Hash>, counter: nat, ghost visits: seq<Visit>)
    requires i >= 2 && IsPow2(i) && NoRepeats(next) && (set n | n in next) == Level(store, from, i - 1)
    requires Selection(store, from, memoryLimit, hashes0, counter0, visits0) && |hashes0| < pointerCount
    requires forall v :: v in visits0 ==> v.0 < i
    ensures Selection(store, from, memoryLimit, hashes, counter, visits) && |hashes| <= pointerCount
    ensures hashes0 <= hashes && forall v :: v in visits ==> v.0 <= i
    ensures !ended ==> |hashes| < pointerCount && forall h :: h in Level(store, from, i - 1) ==> h in hashes
    ensures ended && |hashes| < pointerCount ==>
              memoryLimit > 0 && exists n :: StopsAt(store, from, memoryLimit, visits, (i, n))
  {
    hide IsPow2, Level, Sampled, Selection, StopsAt;
    hashes, counter, ended, visits := hashes0, counter0, false, visits0;
    for k := 0 to |next|
      invariant Selection(store, from, memoryLimit, hashes, counter, visits) && |hashes| < pointerCount
      invariant hashes0 <= hashes && forall h :: h in next[..k] ==> h in hashes
      invariant forall v :: v in visits ==> v.0 < i || (v.0 == i && v.1 in next[..k])
    {
      var n := next[k];
      assert next[..k + 1] == next[..k] + [n];
      assert n !in next[..k];
      LevelIsSampled(store, from, i, n);
      if memoryLimit == 0 {
        InsertKeeps(store, from, memoryLimit, hashes, counter, visits, i, n, counter);
        hashes := Insert(hashes, n);
      } else {
        if n !in store {
          StopsHere(store, from, memoryLimit, hashes, counter, visits, i, n);
          return true, hashes, counter, visits;
        }
        var more := counter + store[n].payloadSize;
        if more > memoryLimit {
          StopsHere(store, from, memoryLimit, hashes, counter, visits, i, n);
          return true, hashes, counter, visits;
        }
        InsertKeeps(store, from, memoryLimit, hashes, counter, visits, i, n, more);
        counter := more;
        hashes := Insert(hashes, n);
      }
      visits := visits + [(i, n)];
      if |hashes| == pointerCount {
        return true, hashes, counter, visits;
      }
    }
    assert next[..|next|] == next;
  }

  lemma StopsHere(store: Blocks, from: Entry, memoryLimit: nat, hashes: seq<Hash>, counter: nat, visits: seq<Visit>,
                  i: nat, n: Hash)
    requires Selection(store, from, memoryLimit, hashes, counter, visits) && memoryLimit > 0
    requires IsVisit(store, from, (i, n)) && (i, n) !in visits
    requires n !in store || counter + store[n].payloadSize > memoryLimit
    ensures StopsAt(store, from, memoryLimit, visits, (i, n))
  {
    hide IsVisit, Visits, IsSelected, Sampled;
  }

  lemma LevelIsSampled(store: Blocks, from: Entry, i: nat, n: Hash)
    requires i >= 2 && IsPow2(i) && n in Level(store, from, i - 1)
    ensures Sampled(store, from, n) && IsVisit(store, from, (i, n))
  {
  }

  lemma InsertKeeps(store: Blocks, from: Entry, memoryLimit: nat, hashes: seq<Hash>, counter: nat, visits: seq<Visit>,
                    i: nat, n: Hash, counter': nat)
    requires Selection(store, from, memoryLimit, hashes, counter, visits) && Sampled(store, from, n)
    requires IsVisit(store, from, (i, n)) && (i, n) !in visits
    requires memoryLimit > 0 ==> n in store && counter' == counter + store[n].payloadSize && counter' <= memoryLimit
    ensures Selection(store, from, memoryLimit, Insert(hashes, n), counter', visits + [(i, n)])
    ensures n in Insert(hashes, n) && hashes <= Insert(hashes, n) && |Insert(hashes, n)| <= |hashes| + 1
  {
    hide Sampled, IsVisit;
    assert (hashes + [n])[..|hashes|] == hashes;
    assert (visits + [(i, n)])[..|visits|] == visits;
    VisitSelects(from, visits, hashes, (i, n));
    hide IsSelected;
  }

  lemma VisitSelects(from: Entry, visits: seq<Visit>, hashes: seq<Hash>, v: Visit)
    requires IsSelected(from, visits, hashes)
    ensures IsSelected(from, visits + [v], Insert(hashes, v.1))
  {
    var more := visits + [v];
    forall h ensures Visited(more, h) <==> h == v.1 || Visited(visits, h) {
      assert v in more;
      if u :| u in visits && u.1 == h { assert u in more; }
    }
  }

  lemma SelectionFacts(store: Blocks, from: Entry, memoryLimit: nat, hashes: seq<Hash>, counter: nat,
                       visits: seq<Visit>)
    requires Selection(store, from, memoryLimit, hashes, counter, visits)
    ensures hashes != [] && hashes[0] == from.hash && NoRepeats(hashes)
    ensures forall h :: h in hashes ==> h == from.hash || Sampled(store, from, h)
    ensures memoryLimit > 0 && |hashes| > 1 ==> Bytes(store, hashes) <= memoryLimit
    ensures Visits(store, from, visits) && IsSelected(from, visits, hashes)
  {
    hide Sampled, Visits, IsSelected;
  }

  method Unique(s: seq<Hash>) returns (u: seq<Hash>)
    ensures NoRepeats(u) && (set h | h in u) == (set h | h in s)
  {
    u := InsertAll([], s);
  }

  method InsertAll(s: seq<Hash>, t: seq<Hash>) returns (u: seq<Hash>)
    requires NoRepeats(s)
    ensures NoRepeats(u) && forall h :: h in u <==> h in s || h in t
  {
    u := s;
    for i := 0 to |t|
      invariant NoRepeats(u) && forall h :: h in u <==> h in s || h in t[..i]
    {
      assert t[..i + 1] == t[..i] + [t[i]];
      u := Insert(u, t[i]);
    }
    assert t[..|t|] == t;
  }

  // ----- Levels -----

  lemma {:induction false} EmptyStaysEmpty(store: Blocks, from: Entry, d: nat, e: nat)
    requires 1 <= d <= e && Level(store, from, d) == {}
    ensures Level(store, from, e) == {}
    decreases e
  {
    if d < e {
      EmptyStaysEmpty(store, from, d, e - 1);
    }
  }

  lemma NoNexts(store: Blocks, from: Entry, d: nat)
    requires from.meta.next == [] && d >= 1
    ensures Level(store, from, d) == {}
  {
    EmptyStaysEmpty(store, from, 1, d);
  }

  lemma {:induction false} NoPow2Between(p: nat, q: nat)
    requires p >= 1 && IsPow2(p) && IsPow2(q) && q < 2 * p
    ensures q <= p
  {
    if p > 1 && q > 1 {
      NoPow2Between(p / 2, q / 2);
    }
  }

  lemma CompleteDoubles(store: Blocks, from: Entry, before: seq<Hash>, hashes: seq<Hash>, i: nat)
    requires i >= 2 && IsPow2(i) && CompleteBelow(store, from, before, i) && before <= hashes
    requires forall h :: h in Level(store, from, i - 1) ==> h in hashes
    ensures CompleteBelow(store, from, hashes, 2 * i)
  {
    forall k, h | 2 <= k < 2 * i && IsPow2(k) && h in Level(store, from, k - 1) ensures h in hashes {
      NoPow2Between(i, k);
      if k < i {
        assert h in before && before == hashes[..|before|];
      }
    }
  }

  lemma CompleteForever(store: Blocks, from: Entry, hashes: seq<Hash>, i: nat, end: nat)
    requires i >= 2 && CompleteBelow(store, from, hashes, i)
    requires forall d: nat :: d >= i - 1 ==> Level(store, from, d) == {}
    ensures CompleteBelow(store, from, hashes, end)
  {
  }

  // ----- What the selected hashes resolve to -----

  function Resolved(store: Blocks, hashes: seq<Hash>): seq<Entry> {
    if hashes == [] then []
    else
      var front, last := Resolved(store, hashes[..|hashes| - 1]), hashes[|hashes| - 1];
      if last in store then front + [store[last]] else front
  }

  lemma {:induction false} ResolvedIsShorter(store: Blocks, hashes: seq<Hash>)
    ensures |Resolved(store, hashes)| <= |hashes|
  {
    if hashes != [] {
      ResolvedIsShorter(store, hashes[..|hashes| - 1]);
    }
  }

  function Payloads(entries: seq<Entry>): nat {
    if entries == [] then 0 else Payloads(entries[..|entries| - 1]) + entries[|entries| - 1].payloadSize
  }

  // The bytes counted are the payload bytes of the entries returned.
  lemma {:induction false} BytesAreReturned(store: Blocks, hashes: seq<Hash>)
    ensures Payloads(Resolved(store, hashes)) == Bytes(store, hashes)
  {
    if hashes != [] {
      var front, last := Resolved(store, hashes[..|hashes| - 1]), hashes[|hashes| - 1];
      BytesAreReturned(store, hashes[..|hashes| - 1]);
      if last in store {
        assert (front + [store[last]])[..|front|] == front;
      }
    }
  }

  ghost predicate Steps(store: Blocks, from: Entry, path: seq<Hash>, distance: nat, h: Hash) {
    |path| == distance >= 1 && Lineage(store, path) && path[0] in from.meta.next && path[distance - 1] == h
  }

  lemma SelfIsLineage(store: Blocks, h: Hash)
    ensures Lineage(store, [h])
  {
  }

  // A level really is a distance: its hashes are those at the end of a chain of that many steps.
  lemma {:induction false} LevelIsDistance(store: Blocks, from: Entry, distance: nat, h: Hash)
    requires distance >= 1
    ensures h in Level(store, from, distance) <==> exists path :: Steps(store, from, path, distance, h)
  {
    hide Lineage;
    if distance == 1 {
      if h in Level(store, from, 1) {
        SelfIsLineage(store, h);
        assert Steps(store, from, [h], 1, h);
      }
    } else {
      if h in Level(store, from, distance) {
        var n :| n in Level(store, from, distance - 1) && n in store && h in store[n].meta.next;
        LevelIsDistance(store, from, distance - 1, n);
        var path :| Steps(store, from, path, distance - 1, n);
        LineageExtends(store, path, h);
        assert Steps(store, from, path + [h], distance, h);
      }
      if path :| Steps(store, from, path, distance, h) {
        LineagePrefix(store, path);
        assert Steps(store, from, path[..distance - 1], distance - 1, path[distance - 2]);
        LevelIsDistance(store, from, distance - 1, path[distance - 2]);
      }
    }
  }

  lemma {:induction false} LineagePrefix(store: Blocks, path: seq<Hash>)
    requires Lineage(store, path) && |path| >= 2
    ensures Lineage(store, path[..|path| - 1])
    ensures path[|path| - 2] in store && path[|path| - 1] in store[path[|path| - 2]].meta.next
    decreases |path|
  {
    if |path| > 2 {
      LineagePrefix(store, path[1..]);
      assert path[..|path| - 1][1..] == path[1..][..|path[1..]| - 1];
    }
  }
}
