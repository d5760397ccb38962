// EntryV0.create (packages/log/src/entry-v0.ts): the clock check against the nexts and the choice
// of the gid.
module EntryCreate {
  import opened Wrappers
  import opened Clock
  import opened Entries
  import opened Dag

  // ----- The order of strings -----

  predicate Leq(a: string, b: string) {
    a == [] || (b != [] && (a[0] < b[0] || (a[0] == b[0] && Leq(a[1..], b[1..]))))
  }

  // The strings first differ at i, where a is smaller.
  predicate SmallerAt(a: string, b: string, i: nat) { i < |a| && i < |b| && a[..i] == b[..i] && a[i] < b[i] }

  lemma SmallerAtTail(a: string, b: string, i: nat)
    requires a != [] && b != [] && a[0] == b[0]
    ensures SmallerAt(a, b, i + 1) <==> SmallerAt(a[1..], b[1..], i)
    ensures !SmallerAt(a, b, 0)
  {
    if i < |a[1..]| && i < |b[1..]| {
      assert a[..i + 1] == [a[0]] + a[1..][..i] && b[..i + 1] == [b[0]] + b[1..][..i];
      assert a[..i + 1][1..] == a[1..][..i] && b[..i + 1][1..] == b[1..][..i];
    }
  }

  // The order of strings is the lexicographic one.
  lemma {:induction false} LeqIsLexicographic(a: string, b: string)
    ensures Leq(a, b) <==> a <= b || exists i: nat :: SmallerAt(a, b, i)
  {
    if a != [] && b != [] {
      if a[0] == b[0] {
        LeqIsLexicographic(a[1..], b[1..]);
        assert a == [a[0]] + a[1..] && b == [b[0]] + b[1..];
        forall i: nat ensures SmallerAt(a, b, i + 1) <==> SmallerAt(a[1..], b[1..], i) { SmallerAtTail(a, b, i); }
        hide SmallerAt;
        if i: nat :| SmallerAt(a[1..], b[1..], i) { assert SmallerAt(a, b, i + 1); }
        if i: nat :| SmallerAt(a, b, i) {
          SmallerAtTail(a, b, 0);
          SmallerAtTail(a, b, i - 1);
        }
      } else {
        assert a[0] < b[0] ==> SmallerAt(a, b, 0);
        forall i: nat ensures SmallerAt(a, b, i) ==> i == 0 {
          if 0 < i < |a| && i < |b| { assert a[..i][0] == a[0] && b[..i][0] == b[0]; }
        }
      }
    }
  }

  lemma {:induction false} LeqTotal(a: string, b: string)
    ensures Leq(a, b) || Leq(b, a)
  {
    if a != [] && b != [] {
      LeqTotal(a[1..], b[1..]);
    }
  }

  lemma {:induction false} LeqTransitive(a: string, b: string, c: string)
    requires Leq(a, b) && Leq(b, c)
    ensures Leq(a, c)
  {
    if a != [] && a[0] == b[0] && b[0] == c[0] {
      LeqTransitive(a[1..], b[1..], c[1..]);
    }
  }

  lemma {:induction false} LeqAntisymmetric(a: string, b: string)
    requires Leq(a, b) && Leq(b, a)
    ensures a == b
  {
    if a != [] {
      LeqAntisymmetric(a[1..], b[1..]);
      assert a == [a[0]] + a[1..] && b == [b[0]] + b[1..];
    }
  }

  lemma {:induction false} LeqReflexive(a: string)
    ensures Leq(a, a)
  {
    if a != [] {
      LeqReflexive(a[1..]);
    }
  }

  // ----- Creating the meta part of an entry -----

  datatype CreateError = NextNotBefore | GidWithNexts | NotAllowed | ClockFailure(error: ClockError)

  predicate AllBefore(nexts: seq<ShallowEntry>, clock: Timestamp) {
    forall n :: n in nexts ==> n.meta.timestamp.Before(clock)
  }

  // The smallest gid among the nexts.
  ghost predicate MinGid(nexts: seq<ShallowEntry>, gid: string) {
    && (exists n :: n in nexts && n.meta.gid == gid)
    && (forall n :: n in nexts ==> Leq(gid, n.meta.gid))
  }

  method CheckNexts(nexts: seq<ShallowEntry>, clock: Timestamp) returns (ok: bool)
    ensures ok <==> AllBefore(nexts, clock)
    ensures ok <==> forall n :: n in nexts ==> n.meta.timestamp.Scalar() < clock.Scalar()
  {
    for i := 0 to |nexts|
      invariant AllBefore(nexts[..i], clock)
    {
      if nexts[i].meta.timestamp.Compare(clock) >= 0 {
        assert nexts[i] in nexts;
        return false;
      }
      assert nexts[..i + 1] == nexts[..i] + [nexts[i]];
    }
    assert nexts[..|nexts|] == nexts;
    return true;
  }

  // `given` is the gid the caller passes, `random` the random or seeded one.
  method ChooseGid(nexts: seq<ShallowEntry>, given: Option<string>, random: string)
    returns (r: Result<string, CreateError>)
    ensures r == Err(GidWithNexts) <==> nexts != [] && given.Some? && given.value != ""
    ensures r.Err? ==> r.error == GidWithNexts
    ensures r.Ok? && nexts != [] ==> MinGid(nexts, r.value)
    ensures r.Ok? && nexts == [] ==> r.value == if given.Some? && given.value != "" then given.value else random
  {
    var hasGid := given.Some? && given.value != "";
    if nexts == [] {
      return Ok(if hasGid then given.value else random);
    }
    if hasGid {
      return Err(GidWithNexts);
    }
    var gid := nexts[0].meta.gid;
    LeqReflexive(gid);
    for i := 1 to |nexts|
      invariant MinGid(nexts[..i], gid)
    {
      var n := nexts[i];
      assert nexts[..i + 1] == nexts[..i] + [n];
      LeqTotal(n.meta.gid, gid);
      LeqReflexive(n.meta.gid);
      if !Leq(gid, n.meta.gid) {
        ghost var old_gid := gid;
        gid := n.meta.gid;
        forall m | m in nexts[..i] ensures Leq(gid, m.meta.gid) {
          LeqTransitive(gid, old_gid, m.meta.gid);
        }
      }
    }
    assert nexts[..|nexts|] == nexts;
    return Ok(gid);
  }

  // Without a clock from the caller, a fresh HLC is moved past every next.
  method CreateClock(nexts: seq<ShallowEntry>, physical: seq<nat>) returns (r: Result<Timestamp, CreateError>)
    requires |physical| == |nexts| + 2
    ensures r.Ok? ==> AllBefore(nexts, r.value)
    ensures r.Err? ==> r.error.ClockFailure? && r.error.error.WallTimeOverflow? && r.error.error.time > UINT64_MAX
  {
    var hlc := new HLC(Limits(0, 0, 0), physical[0], None);
    for i := 0 to |nexts|
      invariant fresh(hlc)
      invariant AllBefore(nexts[..i], hlc.last)
    {
      ghost var last := hlc.last;
      var update := hlc.Update(nexts[i].meta.timestamp, physical[i + 1]);
      if update.Err? {
        return Err(ClockFailure(update.error));
      }
      AdvanceIsAboveBoth(last, nexts[i].meta.timestamp, physical[i + 1]);
      assert nexts[..i + 1] == nexts[..i] + [nexts[i]];
    }
    assert nexts[..|nexts|] == nexts;
    ghost var last := hlc.last;
    var now := hlc.Now(physical[|nexts| + 1]);
    if now.Err? {
      return Err(ClockFailure(now.error));
    }
    AdvanceIsAboveBoth(last, last, physical[|nexts| + 1]);
    return Ok(now.value);
  }

  function NextHashes(nexts: seq<ShallowEntry>): seq<Hash> {
    seq(|nexts|, i requires 0 <= i < |nexts| => nexts[i].hash)
  }

  // What `create` promises about an entry made on top of `nexts`.
  ghost predicate CreatedOn(nexts: seq<ShallowEntry>, entry: Entry) {
    && entry.meta.next == NextHashes(nexts)
    && AllBefore(nexts, entry.meta.timestamp)
    && (nexts != [] ==> MinGid(nexts, entry.meta.gid))
  }

  // The caller may give a gid, but not together with nexts.
  predicate GidsClash(nexts: seq<ShallowEntry>, given: Option<string>) {
    nexts != [] && given.Some? && given.value != ""
  }

  // The entry that create makes unless something forbids it.
  ghost predicate IsNewEntry(entry: Entry, hash: Hash, payloadSize: nat, nexts: seq<ShallowEntry>, clock: Timestamp,
                             entryType: EntryType, given: Option<string>, random: string) {
    && entry.hash == hash && entry.payloadSize == payloadSize
    && entry.meta.timestamp == clock && entry.meta.entryType == entryType && entry.meta.next == NextHashes(nexts)
    && (nexts != [] ==> MinGid(nexts, entry.meta.gid))
    && (nexts == [] ==> entry.meta.gid == if given.Some? && given.value != "" then given.value else random)
  }

  // There is only one such entry.
  lemma NewEntryIsUnique(a: Entry, b: Entry, hash: Hash, payloadSize: nat, nexts: seq<ShallowEntry>, clock: Timestamp,
                         entryType: EntryType, given: Option<string>, random: string)
    requires IsNewEntry(a, hash, payloadSize, nexts, clock, entryType, given, random)
    requires IsNewEntry(b, hash, payloadSize, nexts, clock, entryType, given, random)
    ensures a == b
  {
    if nexts != [] {
      LeqAntisymmetric(a.meta.gid, b.meta.gid);
    }
  }

  method Create(hash: Hash, payloadSize: nat, nexts: seq<ShallowEntry>, clock: Timestamp, entryType: EntryType,
                given: Option<string>, random: string, canAppend: Entry -> bool)
    returns (r: Result<Entry, CreateError>)
    ensures r.Ok? ==> CreatedOn(nexts, r.value) && canAppend(r.value)
    ensures r.Ok? ==> IsNewEntry(r.value, hash, payloadSize, nexts, clock, entryType, given, random)
    ensures r.Ok? ==> |r.value.meta.next| == |nexts|
                      && forall i :: 0 <= i < |nexts| ==> r.value.meta.next[i] == nexts[i].hash
    ensures r == Err(NextNotBefore) <==> !AllBefore(nexts, clock)
    ensures r == Err(GidWithNexts) <==> AllBefore(nexts, clock) && GidsClash(nexts, given)
    ensures r == Err(NotAllowed) <==>
              && AllBefore(nexts, clock) && !GidsClash(nexts, given)
              && forall e :: IsNewEntry(e, hash, payloadSize, nexts, clock, entryType, given, random) ==> !canAppend(e)
    ensures r.Err? ==> !r.error.ClockFailure?
  {
    var ok := CheckNexts(nexts, clock);
    if !ok {
      return Err(NextNotBefore);
    }
    var gid := ChooseGid(nexts, given, random);
    if gid.Err? {
      return Err(gid.error);
    }
    var entry := Entry(hash, Meta(gid.value, clock, entryType, NextHashes(nexts)), payloadSize);
    assert IsNewEntry(entry, hash, payloadSize, nexts, clock, entryType, given, random);
    if !canAppend(entry) {
      forall e | IsNewEntry(e, hash, payloadSize, nexts, clock, entryType, given, random) ensures !canAppend(e) {
        NewEntryIsUnique(entry, e, hash, payloadSize, nexts, clock, entryType, given, random);
      }
      return Err(NotAllowed);
    }
    return Ok(entry);
  }

  // ----- Every graph built by create -----

  ghost predicate WellMade(universe: Blocks) {
    && KeyedBlocks(universe)
    && forall h :: h in universe ==> MadeOn(universe, universe[h])
  }

  // The nexts exist, are older, and the gid is the smallest of theirs.
  ghost predicate MadeOn(universe: Blocks, entry: Entry) {
    && (forall n :: n in entry.meta.next ==>
          n in universe && universe[n].meta.timestamp.Before(entry.meta.timestamp)
          && Leq(entry.meta.gid, universe[n].meta.gid))
    && (entry.meta.next != [] ==>
          exists n :: n in entry.meta.next && n in universe && universe[n].meta.gid == entry.meta.gid)
  }

  // An entry created on indexed entries extends a well-made universe.
  lemma CreateKeepsWellMade(universe: Blocks, v: View, nexts: seq<ShallowEntry>, entry: Entry)
    requires WellMade(universe) && Agree(universe, v) && entry.hash !in universe
    requires forall n :: n in nexts ==> n.hash in v && v[n.hash].SameContent(n)
    requires CreatedOn(nexts, entry)
    ensures WellMade(universe[entry.hash := entry])
  {
    var universe' := universe[entry.hash := entry];
    CreatedIsMade(universe, v, nexts, entry);
    hide MadeOn, Agree, CreatedOn;
    MadeOnGrows(universe, universe', entry);
    forall h | h in universe ensures MadeOn(universe', universe[h]) {
      MadeOnGrows(universe, universe', universe[h]);
    }
  }

  lemma CreatedIsMade(universe: Blocks, v: View, nexts: seq<ShallowEntry>, entry: Entry)
    requires Agree(universe, v) && CreatedOn(nexts, entry)
    requires forall n :: n in nexts ==> n.hash in v && v[n.hash].SameContent(n)
    ensures MadeOn(universe, entry)
  {
    hide Leq;
    forall n | n in entry.meta.next
      ensures n in universe && universe[n].meta.timestamp.Before(entry.meta.timestamp)
      ensures Leq(entry.meta.gid, universe[n].meta.gid)
    {
      var i :| 0 <= i < |nexts| && nexts[i].hash == n;
      assert nexts[i] in nexts && nexts[i].SameContent(universe[n].ToShallow(false));
    }
    if entry.meta.next != [] {
      var m :| m in nexts && m.meta.gid == entry.meta.gid;
      var i :| 0 <= i < |nexts| && nexts[i] == m;
      assert entry.meta.next[i] == m.hash && m.SameContent(universe[m.hash].ToShallow(false));
    }
  }

  lemma MadeOnGrows(universe: Blocks, universe': Blocks, entry: Entry)
    requires SubBlocks(universe, universe') && MadeOn(universe, entry)
    ensures MadeOn(universe', entry)
  {
    if entry.meta.next != [] {
      var n :| n in entry.meta.next && n in universe && universe[n].meta.gid == entry.meta.gid;
      assert n in universe' && universe'[n].meta.gid == entry.meta.gid;
    }
  }

  // Clocks that increase along next references leave no room for cycles.
  function ClockRank(universe: Blocks): Hash -> nat {
    h => if h in universe then universe[h].meta.timestamp.Scalar() else 0
  }

  lemma WellMadeIsAcyclic(universe: Blocks)
    requires WellMade(universe)
    ensures ContentAddressed(universe, ClockRank(universe))
  {
    forall h, n | h in universe && n in universe[h].meta.next ensures ClockRank(universe)(n) < ClockRank(universe)(h) {
      assert MadeOn(universe, universe[h]);
    }
  }

  ghost predicate RootOf(universe: Blocks, h: Hash, r: Hash) {
    r in universe && universe[r].meta.next == [] && Ancestor(universe, h, r)
  }

  // The gid of an entry is the smallest gid among its parentless ancestors.
  lemma {:induction false} GidIsSmallestRootGid(universe: Blocks, h: Hash)
    requires WellMade(universe) && h in universe
    ensures exists r :: RootOf(universe, h, r) && universe[r].meta.gid == universe[h].meta.gid
    ensures forall r :: RootOf(universe, h, r) ==> Leq(universe[h].meta.gid, universe[r].meta.gid)
    decreases universe[h].meta.timestamp.Scalar()
  {
    hide Ancestor, Leq;
    assert MadeOn(universe, universe[h]);
    if universe[h].meta.next == [] {
      SelfIsAncestor(universe, h);
      assert RootOf(universe, h, h);
    } else {
      var n :| n in universe[h].meta.next && n in universe && universe[n].meta.gid == universe[h].meta.gid;
      GidIsSmallestRootGid(universe, n);
      var r :| RootOf(universe, n, r) && universe[r].meta.gid == universe[n].meta.gid;
      AncestorOfNext(universe, h, n, r);
      assert RootOf(universe, h, r);
    }
    forall r | RootOf(universe, h, r) ensures Leq(universe[h].meta.gid, universe[r].meta.gid) {
      if r == h {
        LeqReflexive(universe[h].meta.gid);
      } else {
        var m := AncestorBeginsWithNext(universe, h, r);
        GidIsSmallestRootGid(universe, m);
        assert RootOf(universe, m, r);
        LeqTransitive(universe[h].meta.gid, universe[m].meta.gid, universe[r].meta.gid);
      }
    }
  }

  // Timestamps strictly decrease from an entry to each of its proper ancestors.
  lemma {:induction false} AncestorsAreOlder(universe: Blocks, h: Hash, a: Hash)
    requires WellMade(universe) && h in universe && Ancestor(universe, h, a) && a != h
    ensures a in universe && universe[a].meta.timestamp.Before(universe[h].meta.timestamp)
    decreases universe[h].meta.timestamp.Scalar()
  {
    var n := AncestorBeginsWithNext(universe, h, a);
    assert MadeOn(universe, universe[h]);
    if n != a {
      AncestorsAreOlder(universe, n, a);
    }
  }
}
