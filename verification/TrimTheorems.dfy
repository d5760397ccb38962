// What a trim leaves, read off the state in which its loop stops.
module TrimTheorems {
  import opened Wrappers
  import opened Entries
  import opened DeleteWalk
  import opened TrimModel
  import EntryIndexModel

  ghost predicate DistinctWalls(v: View) {
    forall h, k :: h in v && k in v && Wall(v[h]) == Wall(v[k]) ==> h == k
  }

  ghost predicate Part(v: View, w: View) { forall h :: h in w ==> h in v && w[h].SameContent(v[h]) }

  // A part of the view that goes, with any entry, all later ones.
  ghost predicate Suffix(v: View, w: View) {
    Part(v, w) && forall h, k :: h in w && k in v && Wall(v[k]) > Wall(v[h]) ==> k in w
  }

  ghost predicate MeetsTarget(c: Condition, w: View) { Done(c, w) || w == map[] }

  // ----- Targets are easier to meet with fewer entries -----

  lemma {:induction false} SmallerTotal(a: View, b: View)
    requires forall h :: h in a ==> h in b && b[h].payloadSize == a[h].payloadSize
    ensures TotalSize(a) <= TotalSize(b)
    decreases |a|
  {
    if a != map[] {
      hide TotalSize;
      var h :| h in a;
      TotalSizeSplit(a, h);
      TotalSizeSplit(b, h);
      SmallerWithout(a, h);
      SmallerTotal(a - {h}, b - {h});
    }
  }

  lemma DoneIsAntitone(c: Condition, v: View, a: View, b: View)
    requires Part(v, a) && Part(v, b) && a.Keys <= b.Keys
    ensures Done(c, b) ==> Done(c, a)
  {
    forall h | h in a ensures b[h].payloadSize == a[h].payloadSize && Wall(b[h]) == Wall(a[h]) {
      assert a[h].SameContent(v[h]) && b[h].SameContent(v[h]);
    }
    match c
    case Length(_, _) => SubsetSize(a.Keys, b.Keys);
    case ByteLength(_, _) => SmallerTotal(a, b);
    case Time(_, _) =>
  }

  // ----- No filter, distinct wall times: exactly the shortest oldest-first prefix goes -----

  lemma Unfiltered(option: TrimOption, v: View, w: View, deleted: seq<Entry>, trace: Trace)
    requires TrimState(option, v, w, deleted, trace) && option.canTrim.None?
    ensures Part(v, w) && trace.seen == v.Keys - w.Keys
    ensures forall h :: h in v && h !in w <==> h in trace.seen
  {
    hide FirstOfWall, SeenWall, Done;
    forall h ensures h in v && h !in w <==> h in trace.seen {
      assert Deleted(deleted, h) ==> h in trace.seen;
    }
  }

  // Everything older than an entry that was looked at was looked at.
  lemma SeenIsOldest(option: TrimOption, v: View, w: View, deleted: seq<Entry>, trace: Trace)
    requires TrimState(option, v, w, deleted, trace) && DistinctWalls(v)
    ensures forall a, h :: a in trace.seen && h in v && Wall(v[h]) < Wall(v[a]) ==> h in trace.seen
    ensures trace.cursor.None? ==> trace.seen == v.Keys
  {
    hide DecisionsOk, DeletedOk, NeededLast, FirstOfWall;
    forall h | h in v && SeenWall(v, trace.seen, Wall(v[h])) ensures h in trace.seen {
      var a :| a in trace.seen && Wall(v[a]) == Wall(v[h]);
    }
  }

  lemma TrimIsExact(option: TrimOption, v: View, w: View, deleted: seq<Entry>, trace: Trace)
    requires TrimEnd(option, v, w, deleted, trace) && option.canTrim.None? && DistinctWalls(v)
    ensures Suffix(v, w) && MeetsTarget(option.condition, w)
    ensures forall u :: Suffix(v, u) && w.Keys < u.Keys ==> !Done(option.condition, u)
  {
    Unfiltered(option, v, w, deleted, trace);
    SeenIsOldest(option, v, w, deleted, trace);
    forall u | Suffix(v, u) && w.Keys < u.Keys ensures !Done(option.condition, u) {
      LargerSuffix(option, v, w, deleted, trace, u);
    }
  }

  lemma LargerSuffix(option: TrimOption, v: View, w: View, deleted: seq<Entry>, trace: Trace, u: View)
    requires TrimState(option, v, w, deleted, trace) && option.canTrim.None? && DistinctWalls(v)
    requires Suffix(v, u) && w.Keys < u.Keys
    ensures !Done(option.condition, u)
  {
    hide TrimState, Done, DistinctWalls, Part;
    LastNeeded(option, v, w, deleted, trace);
    LastIsInside(option, v, w, deleted, trace, u);
    assert Part(v, u) by { SuffixIsPart(v, u); }
    DoneIsAntitone(option.condition, v, trace.before, u);
  }

  lemma SuffixIsPart(v: View, u: View)
    requires Suffix(v, u)
    ensures Part(v, u)
  {
  }

  // The last entry deleted is the newest one deleted, so any larger suffix holds it.
  lemma LastIsInside(option: TrimOption, v: View, w: View, deleted: seq<Entry>, trace: Trace, u: View)
    requires TrimState(option, v, w, deleted, trace) && option.canTrim.None?
    requires Suffix(v, u) && w.Keys < u.Keys
    ensures deleted != [] && deleted[|deleted| - 1].hash in u
  {
    hide TrimState, Deleted;
    Unfiltered(option, v, w, deleted, trace);
    DeletedFacts(option, v, w, deleted, trace);
    var d :| d in u && d !in w;
    DeletedAt(deleted, d);
    var i :| 0 <= i < |deleted| && deleted[i].hash == d;
    assert i < |deleted| - 1 ==> Wall(v[deleted[|deleted| - 1].hash]) > Wall(v[d]);
  }

  lemma LastNeeded(option: TrimOption, v: View, w: View, deleted: seq<Entry>, trace: Trace)
    requires TrimState(option, v, w, deleted, trace)
    ensures deleted != [] ==>
              && !Done(option.condition, trace.before) && Part(v, trace.before)
              && trace.before.Keys == w.Keys + {deleted[|deleted| - 1].hash}
  {
    hide FirstOfWall, SeenWall, CursorOk, SeenOk, DecisionsOk, DeletedOk, Done;
  }

  // For a length trim this fixes how many entries stay: the target, if there are that many.
  lemma LengthTrimIsExact(option: TrimOption, v: View, w: View, deleted: seq<Entry>, trace: Trace)
    requires TrimEnd(option, v, w, deleted, trace) && option.canTrim.None? && DistinctWalls(v)
    requires option.condition.Length?
    ensures |w| == Min(|v|, Max(option.condition.to, 0))
  {
    hide TrimEnd, TrimState, Suffix, DistinctWalls;
    TrimIsExact(option, v, w, deleted, trace);
    PartIsSmaller(v, w);
    if deleted != [] {
      LastGone(option, v, w, deleted, trace);
    } else {
      NothingGone(option, v, w, trace);
    }
  }

  lemma PartIsSmaller(v: View, w: View)
    ensures Suffix(v, w) ==> |w| <= |v|
  {
    if Suffix(v, w) {
      SubsetSize(w.Keys, v.Keys);
    }
  }

  lemma LastGone(option: TrimOption, v: View, w: View, deleted: seq<Entry>, trace: Trace)
    requires TrimEnd(option, v, w, deleted, trace) && deleted != []
    ensures !Done(option.condition, trace.before) && |trace.before| == |w| + 1
  {
    hide FirstOfWall, SeenWall, CursorOk, SeenOk, DecisionsOk, Done;
    var last := deleted[|deleted| - 1];
    assert last in deleted;
    assert Deleted(deleted, last.hash);
    assert trace.before.Keys == w.Keys + {last.hash};
  }

  lemma NothingGone(option: TrimOption, v: View, w: View, trace: Trace)
    requires TrimEnd(option, v, w, [], trace)
    ensures w.Keys == v.Keys && |w| == |v|
  {
    hide FirstOfWall, SeenWall, CursorOk, SeenOk, DecisionsOk, Done;
    assert forall h :: !Deleted([], h);
    assert w.Keys == v.Keys;
  }

  // ----- A whole trim in numbers -----

  // What stays is a newest part, with its content.
  ghost predicate NewestPart(v: View, w: View) {
    && (forall h :: h in w ==> h in v && w[h].meta == v[h].meta && w[h].payloadSize == v[h].payloadSize)
    && forall h, k :: h in w && k in v && v[k].meta.timestamp.wallTime > v[h].meta.timestamp.wallTime ==> k in w
  }

  // Without a filter and with distinct wall times.  A length trim of a log that has reached `from`
  // leaves `to` entries; a byte length trim leaves the largest newest part of at most `to` bytes; a
  // time trim leaves what is younger than maxAge.
  method TrimToTarget(trim: Trim, option: TrimOption) returns (deleted: seq<Entry>)
    requires trim.index.Valid() && option.canTrim.None? && DistinctWalls(trim.index.Visible())
    modifies trim.index
    ensures trim.index.Valid() && NewestPart(old(trim.index.Visible()), trim.index.Visible())
    ensures var v, w := old(trim.index.Visible()), trim.index.Visible();
      match option.condition
      case Length(to, from) =>
        |w| == if |v| < (if from.Some? then from.value else to) then |v| else Min(|v|, Max(to, 0))
      case ByteLength(to, from) =>
        if TotalSize(v) < (if from.Some? then from.value else to) then w == v
        else (TotalSize(w) <= to || w == map[])
             && forall u :: NewestPart(v, u) && w.Keys < u.Keys ==> TotalSize(u) > to
      case Time(maxAge, now) =>
        forall h :: h in w <==> h in v && now - v[h].meta.timestamp.wallTime < maxAge
  {
    hide EntryIndexModel.Buffered, EntryIndexModel.Counted, TrimEnd, TotalSize, DistinctWalls, NewestPart, Suffix;
    ghost var v, trace := trim.index.Visible(), Trace(None, map[], {}, trim.index.Visible());
    AllIsNewest(v);
    deleted, trace := trim.TrimTask(option);
    ghost var w := trim.index.Visible();
    if TrimEnd(option, v, w, deleted, trace) {
      InNumbers(option, v, w, deleted, trace);
    }
  }

  lemma AllIsNewest(v: View)
    ensures NewestPart(v, v)
  {
  }

  lemma SuffixIsNewest(v: View, w: View)
    ensures Suffix(v, w) <==> NewestPart(v, w) && forall h :: h in w ==> h in v && w[h].hash == v[h].hash
  {
  }

  // A newest part, whatever hashes its copies carry.
  ghost function Copy(v: View, u: View): View
    requires forall h :: h in u ==> h in v
  {
    map h | h in u :: v[h]
  }

  lemma NewestIsSuffix(v: View, u: View)
    requires NewestPart(v, u)
    ensures Suffix(v, Copy(v, u)) && Copy(v, u).Keys == u.Keys && TotalSize(Copy(v, u)) == TotalSize(u)
  {
    assert Copy(v, u).Keys == u.Keys;
    SameTotal(Copy(v, u), u);
  }

  lemma InNumbers(option: TrimOption, v: View, w: View, deleted: seq<Entry>, trace: Trace)
    requires TrimEnd(option, v, w, deleted, trace) && option.canTrim.None? && DistinctWalls(v)
    ensures NewestPart(v, w)
    ensures match option.condition
      case Length(to, _) => |w| == Min(|v|, Max(to, 0))
      case ByteLength(to, _) =>
        (TotalSize(w) <= to || w == map[]) && forall u :: NewestPart(v, u) && w.Keys < u.Keys ==> TotalSize(u) > to
      case Time(maxAge, now) => forall h :: h in w <==> h in v && now - v[h].meta.timestamp.wallTime < maxAge
  {
    hide TrimEnd, TotalSize, DistinctWalls, NewestPart, Suffix;
    TrimIsExact(option, v, w, deleted, trace);
    SuffixIsNewest(v, w);
    match option.condition
    case Length(_, _) => LengthTrimIsExact(option, v, w, deleted, trace);
    case ByteLength(to, _) =>
      forall u | NewestPart(v, u) && w.Keys < u.Keys ensures TotalSize(u) > to {
        NewestIsInside(v, u);
        NewestIsSuffix(v, u);
      }
    case Time(maxAge, now) => YoungStay(option, v, w, deleted, trace, maxAge, now);
  }

  lemma NewestIsInside(v: View, u: View)
    requires NewestPart(v, u)
    ensures forall h :: h in u ==> h in v
  {
  }

  // With the young entries kept as well, the target would be met; so a larger suffix than w would.
  lemma YoungStay(option: TrimOption, v: View, w: View, deleted: seq<Entry>, trace: Trace, maxAge: int, now: int)
    requires TrimEnd(option, v, w, deleted, trace) && option.canTrim.None? && DistinctWalls(v)
    requires option.condition == Time(maxAge, now)
    ensures forall h :: h in w <==> h in v && now - v[h].meta.timestamp.wallTime < maxAge
  {
    hide TrimEnd;
    TrimIsExact(option, v, w, deleted, trace);
    var young := map h | h in v && now - v[h].meta.timestamp.wallTime < maxAge :: v[h];
    assert Suffix(v, young) && Done(option.condition, young);
    forall h | h in w ensures now - v[h].meta.timestamp.wallTime < maxAge {
      assert w[h].SameContent(v[h]);
    }
    assert w.Keys <= young.Keys;
    assert !(w.Keys < young.Keys);
    assert w.Keys == young.Keys;
  }

  // ----- Survivors keep their head flags if wall times rise along next references -----

  ghost predicate Rising(v: View) {
    forall k, n :: Points(v, k, n) && n in v ==> Wall(v[n]) < Wall(v[k])
  }

  // Each hash, when its turn comes, is the oldest that is left.
  ghost predicate OldestFirst(v: View, hashes: seq<Hash>) {
    forall i, h :: 0 <= i < |hashes| && hashes[i] in v && h in v && Wall(v[h]) < Wall(v[hashes[i]]) ==> h in hashes[..i]
  }

  lemma {:induction false} DeletingOldestKeepsFlags(v: View, hashes: seq<Hash>)
    requires Rising(v) && OldestFirst(v, hashes)
    ensures DeleteAll(v, hashes) == v - (set h | h in hashes)
  {
    if hashes == [] {
      assert v - (set h | h in hashes) == v;
    } else {
      var n := |hashes| - 1;
      var front, last := hashes[..n], hashes[n];
      forall i | 0 <= i < n ensures front[..i] == hashes[..i] {}
      DeletingOldestKeepsFlags(v, front);
      var w := v - (set h | h in front);
      NothingToPromote(v, w, front, last);
      assert v - (set h | h in hashes) == w - {last} by {
        assert hashes == front + [last];
      }
    }
  }

  lemma NothingToPromote(v: View, w: View, front: seq<Hash>, last: Hash)
    requires Rising(v) && w == v - (set h | h in front)
    requires last in v ==> forall h :: h in v && Wall(v[h]) < Wall(v[last]) ==> h in front
    ensures DeleteView(w, last) == w - {last}
  {
    if last in w {
      forall n | n in Governed(w[last].meta) && n in w - {last} ensures false {
        assert Points(v, last, n);
      }
    }
  }

  lemma TrimKeepsHeadFlags(option: TrimOption, v: View, w: View, deleted: seq<Entry>, trace: Trace)
    requires TrimEnd(option, v, w, deleted, trace) && option.canTrim.None? && DistinctWalls(v) && Rising(v)
    requires w == DeleteAll(v, EntryHashes(deleted))
    ensures forall h :: h in w ==> w[h] == v[h]
  {
    DeletedAreOldestFirst(option, v, w, deleted, trace);
    DeletingOldestKeepsFlags(v, EntryHashes(deleted));
  }

  lemma DeletedAreOldestFirst(option: TrimOption, v: View, w: View, deleted: seq<Entry>, trace: Trace)
    requires TrimState(option, v, w, deleted, trace) && option.canTrim.None? && DistinctWalls(v)
    ensures OldestFirst(v, EntryHashes(deleted))
  {
    hide TrimState;
    SeenIsOldest(option, v, w, deleted, trace);
    DeletedFacts(option, v, w, deleted, trace);
    hide Deleted;
    var hashes := EntryHashes(deleted);
    forall i, h | 0 <= i < |hashes| && hashes[i] in v && h in v && Wall(v[h]) < Wall(v[hashes[i]])
      ensures h in hashes[..i]
    {
      assert deleted[i] in deleted;
      DeletedAt(deleted, h);
      var j :| 0 <= j < |deleted| && deleted[j].hash == h;
      assert j < i;
      assert hashes[..i][j] == h;
    }
  }

  lemma DeletedAt(deleted: seq<Entry>, h: Hash)
    requires Deleted(deleted, h)
    ensures exists j :: 0 <= j < |deleted| && deleted[j].hash == h
  {
    var e :| e in deleted && e.hash == h;
    var j :| 0 <= j < |deleted| && deleted[j] == e;
  }

  lemma DeletedFacts(option: TrimOption, v: View, w: View, deleted: seq<Entry>, trace: Trace)
    requires TrimState(option, v, w, deleted, trace) && option.canTrim.None?
    ensures forall i :: 0 <= i < |deleted| ==>
              deleted[i].hash in trace.seen && deleted[i].hash in v
              && Wall(v[deleted[i].hash]) == deleted[i].meta.timestamp.wallTime
    ensures forall i, j :: 0 <= i < j < |deleted| ==>
              deleted[i].meta.timestamp.wallTime < deleted[j].meta.timestamp.wallTime
    ensures forall a :: a in trace.seen ==> Deleted(deleted, a)
  {
    hide FirstOfWall, SeenWall, CursorOk, SeenOk, NeededLast, Deleted;
    forall i | 0 <= i < |deleted|
      ensures deleted[i].hash in trace.seen && deleted[i].hash in v
      ensures Wall(v[deleted[i].hash]) == deleted[i].meta.timestamp.wallTime
    {
      assert deleted[i] in deleted;
    }
  }

  // ----- With a filter -----

  // Nobody looked at h: another entry with its wall time was looked at.
  ghost predicate PassedOver(v: View, seen: set<Hash>, h: Hash)
    requires seen <= v.Keys && h in v
  {
    h !in seen && SeenWall(v, seen, Wall(v[h]))
  }

  // The trim ends with the target met or only entries of rejected gids left and entries passed
  // over, of which there are none if wall times are distinct.  No entry of a rejected gid is deleted.
  lemma FilteredTrim(option: TrimOption, v: View, w: View, deleted: seq<Entry>, trace: Trace)
    requires TrimEnd(option, v, w, deleted, trace) && option.canTrim.Some?
    ensures trace.seen <= v.Keys
    ensures MeetsTarget(option.condition, w)
            || forall h :: h in w ==>
                 PassedOver(v, trace.seen, h) || (v[h].meta.gid in trace.gids && !trace.gids[v[h].meta.gid])
    ensures DistinctWalls(v) ==> forall h :: h in v ==> !PassedOver(v, trace.seen, h)
    ensures forall h :: h in v && h !in w ==> v[h].meta.gid in trace.gids && trace.gids[v[h].meta.gid]
    ensures forall g :: g in trace.gids ==> Asked(option.canTrim.value, v, trace.seen, g, trace.gids[g])
  {
    hide FirstOfWall, SeenOk, NeededLast, Done, Asked, SeenWall;
    forall h | h in v && h !in w ensures h in trace.seen {
      assert Deleted(deleted, h);
    }
    forall h | DistinctWalls(v) && h in v && SeenWall(v, trace.seen, Wall(v[h])) ensures h in trace.seen {
      SeenWallIsSeen(v, trace.seen, h);
    }
  }

  lemma SeenWallIsSeen(v: View, seen: set<Hash>, h: Hash)
    requires DistinctWalls(v) && seen <= v.Keys && h in v && SeenWall(v, seen, Wall(v[h]))
    ensures h in seen
  {
    var a :| a in seen && Wall(v[a]) == Wall(v[h]);
  }

  // ----- Equal wall times -----

  ghost function Walls(v: View): set<nat> { set h | h in v :: Wall(v[h]) }

  lemma {:induction false} InjectiveImage(v: View, seen: set<Hash>, walls: set<nat>)
    requires seen <= v.Keys && walls == (set h | h in seen :: Wall(v[h]))
    requires forall a, b :: a in seen && b in seen && Wall(v[a]) == Wall(v[b]) ==> a == b
    ensures |walls| == |seen|
  {
    if seen == {} {
      assert walls == {};
    } else {
      var a :| a in seen;
      var rest, fewer := seen - {a}, walls - {Wall(v[a])};
      assert fewer == (set h | h in rest :: Wall(v[h])) by {
        forall x ensures x in fewer <==> x in (set h | h in rest :: Wall(v[h])) {
          if x in fewer {
            var h :| h in seen && Wall(v[h]) == x;
            assert h in rest;
          }
        }
      }
      InjectiveImage(v, rest, fewer);
      assert Wall(v[a]) in walls;
    }
  }

  // A length trim deletes at most one entry of each wall time.  So it reaches its target exactly
  // if that is enough.
  lemma LengthTrimWithTies(option: TrimOption, v: View, w: View, deleted: seq<Entry>, trace: Trace)
    requires TrimEnd(option, v, w, deleted, trace) && option.canTrim.None?
    requires option.condition.Length? && option.condition.to >= 0
    ensures |w| <= option.condition.to <==> |v| - |Walls(v)| <= option.condition.to
  {
    Unfiltered(option, v, w, deleted, trace);
    SizeAfter(v, w, trace.seen);
    var seenWalls := set h | h in trace.seen :: Wall(v[h]);
    InjectiveImage(v, trace.seen, seenWalls);
    SeenWallsAre(option, v, w, deleted, trace, seenWalls);
    SubsetSize(seenWalls, Walls(v));
  }

  lemma SizeAfter(v: View, w: View, seen: set<Hash>)
    requires w.Keys <= v.Keys && seen == v.Keys - w.Keys
    ensures |w| == |v| - |seen|
  {
    assert v.Keys == w.Keys + seen;
  }

  lemma SeenWallsAre(option: TrimOption, v: View, w: View, deleted: seq<Entry>, trace: Trace, seenWalls: set<nat>)
    requires TrimState(option, v, w, deleted, trace) && seenWalls == (set h | h in trace.seen :: Wall(v[h]))
    ensures seenWalls <= Walls(v)
    ensures trace.cursor.None? ==> seenWalls == Walls(v)
  {
    hide FirstOfWall, SeenOk, DecisionsOk, DeletedOk, NeededLast;
    if trace.cursor.None? {
      forall x | x in Walls(v) ensures x in seenWalls {
        var h :| h in v && Wall(v[h]) == x;
        assert SeenWall(v, trace.seen, x);
      }
    }
  }

  // One of the first entries of each wall time: what a trim can delete at most.
  ghost predicate Firsts(v: View, s: set<Hash>) {
    SeenOk(v, s) && forall h :: h in v ==> h in s || SeenWall(v, s, Wall(v[h]))
  }

  // A trim to any target leaves at least what lies behind the firsts that it looks at, and goes
  // that far if it has to.  So it meets its target exactly if that rest meets it.
  lemma TrimWithTies(option: TrimOption, v: View, w: View, deleted: seq<Entry>, trace: Trace, s: set<Hash>)
    requires TrimEnd(option, v, w, deleted, trace) && option.canTrim.None?
    requires s <= v.Keys && Firsts(v, s) && trace.seen <= s
    ensures MeetsTarget(option.condition, w) <==> MeetsTarget(option.condition, v - s)
  {
    hide Done, FirstOfWall, TrimState, Firsts, Part;
    Unfiltered(option, v, w, deleted, trace);
    if trace.cursor.None? {
      NothingBehind(option, v, w, deleted, trace, s);
    }
    RestDecides(option.condition, v, w, trace.seen, s);
  }

  lemma RestDecides(c: Condition, v: View, w: View, seen: set<Hash>, s: set<Hash>)
    requires Part(v, w) && (forall h :: h in v && h !in w <==> h in seen) && seen <= s <= v.Keys
    requires MeetsTarget(c, w) || s == seen
    ensures MeetsTarget(c, w) <==> MeetsTarget(c, v - s)
  {
    hide Done;
    var rest := v - s;
    assert rest.Keys <= w.Keys;
    assert Part(v, rest);
    DoneIsAntitone(c, v, rest, w);
    if s == seen {
      assert w.Keys <= rest.Keys;
      DoneIsAntitone(c, v, w, rest);
    }
    EmptyByKeys(w, rest);
  }

  lemma EmptyByKeys(a: View, b: View)
    ensures a.Keys <= b.Keys && b == map[] ==> a == map[]
    ensures b.Keys <= a.Keys && a == map[] ==> b == map[]
  {
    assert a == map[] <==> a.Keys == {};
    assert b == map[] <==> b.Keys == {};
  }

  // A trim that has come to its end has looked at one entry of each wall time.
  lemma NothingBehind(option: TrimOption, v: View, w: View, deleted: seq<Entry>, trace: Trace, s: set<Hash>)
    requires TrimState(option, v, w, deleted, trace) && trace.cursor.None?
    requires s <= v.Keys && Firsts(v, s) && trace.seen <= s
    ensures s == trace.seen
  {
    hide FirstOfWall, DecisionsOk, DeletedOk, NeededLast;
    forall h | h in s ensures h in trace.seen {
      assert SeenWall(v, trace.seen, Wall(v[h]));
    }
  }

  // With different timestamps there is one first entry of each wall time, so the rest is known
  // before the trim.
  ghost predicate DistinctStamps(v: View) {
    forall h, k :: h in v && k in v && h != k ==> v[h].meta.timestamp.Scalar() != v[k].meta.timestamp.Scalar()
  }

  ghost function Rest(v: View): View { map h | h in v && !FirstOfWall(v, h) :: v[h] }

  lemma TrimReachesTarget(option: TrimOption, v: View, w: View, deleted: seq<Entry>, trace: Trace)
    requires TrimEnd(option, v, w, deleted, trace) && option.canTrim.None? && DistinctStamps(v)
    ensures MeetsTarget(option.condition, w) <==> MeetsTarget(option.condition, Rest(v))
  {
    var s := set h | h in v && FirstOfWall(v, h);
    FirstsOf(v, s);
    RestIs(v, s);
    SeenAreFirsts(option, v, w, deleted, trace);
    hide TrimEnd, Done, Rest, DistinctStamps, Firsts, FirstOfWall, MeetsTarget;
    TrimWithTies(option, v, w, deleted, trace, s);
  }

  lemma SeenAreFirsts(option: TrimOption, v: View, w: View, deleted: seq<Entry>, trace: Trace)
    requires TrimState(option, v, w, deleted, trace)
    ensures forall a :: a in trace.seen ==> FirstOfWall(v, a)
  {
    hide FirstOfWall, CursorOk, DeletedOk, DecisionsOk, NeededLast;
  }

  lemma RestIs(v: View, s: set<Hash>)
    requires s == set h | h in v && FirstOfWall(v, h)
    ensures Rest(v) == v - s
  {
    hide FirstOfWall;
  }

  lemma FirstsOf(v: View, s: set<Hash>)
    requires DistinctStamps(v) && s == set h | h in v && FirstOfWall(v, h)
    ensures Firsts(v, s)
  {
    forall h | h in v ensures SeenWall(v, s, Wall(v[h])) {
      var a := FirstWithWall(v, h);
    }
  }

  lemma {:induction false} FirstWithWall(v: View, h: Hash) returns (a: Hash)
    requires h in v
    ensures FirstOfWall(v, a) && Wall(v[a]) == Wall(v[h])
    decreases v[h].meta.timestamp.Scalar()
  {
    if FirstOfWall(v, h) {
      a := h;
    } else {
      var k :| k in v && Wall(v[k]) == Wall(v[h]) && v[k].meta.timestamp.Scalar() < v[h].meta.timestamp.Scalar();
      a := FirstWithWall(v, k);
    }
  }

  // Two entries with one wall time, neither of which meets the target alone: one of them stays.
  lemma TieSurvivesTrim(option: TrimOption, v: View, w: View, deleted: seq<Entry>, trace: Trace, a: Hash, b: Hash)
    requires TrimEnd(option, v, w, deleted, trace) && option.canTrim.None?
    requires a != b && v.Keys == {a, b} && Wall(v[a]) == Wall(v[b])
    requires !Done(option.condition, v - {a}) && !Done(option.condition, v - {b})
    ensures |w| == 1 && !MeetsTarget(option.condition, w)
  {
    hide TrimState, Done, Part;
    Unfiltered(option, v, w, deleted, trace);
    NotDoneBefore(option.condition, v, a);
    SomethingSeen(option, v, w, deleted, trace);
    var x := OneIsSeen(option, v, w, deleted, trace, a, b);
    forall h ensures h in w <==> h in v && h != x { PartIsInside(v, w, h); }
    assert w.Keys == v.Keys - {x};
    OneIsLeft(option.condition, v, w, a, b, x);
  }

  lemma PartIsInside(v: View, w: View, h: Hash)
    requires Part(v, w)
    ensures h in w ==> h in v
  {
  }

  lemma NotDoneBefore(c: Condition, v: View, a: Hash)
    requires !Done(c, v - {a})
    ensures !Done(c, v)
  {
    DoneIsAntitone(c, v, v - {a}, v);
  }

  lemma OneIsLeft(c: Condition, v: View, w: View, a: Hash, b: Hash, x: Hash)
    requires a != b && v.Keys == {a, b} && (x == a || x == b) && !Done(c, v - {x})
    requires Part(v, w) && w.Keys == v.Keys - {x}
    ensures |w| == 1 && !MeetsTarget(c, w)
  {
    DoneIsAntitone(c, v, v - {x}, w);
    hide Done, Part;
    var y := if x == a then b else a;
    assert w.Keys == {y};
    assert |w| == |w.Keys|;
  }

  lemma OneIsSeen(option: TrimOption, v: View, w: View, deleted: seq<Entry>, trace: Trace, a: Hash, b: Hash)
    returns (x: Hash)
    requires TrimState(option, v, w, deleted, trace) && |trace.seen| > 0
    requires a != b && v.Keys == {a, b} && Wall(v[a]) == Wall(v[b])
    ensures (x == a || x == b) && trace.seen == {x}
  {
    hide FirstOfWall, CursorOk, DecisionsOk, DeletedOk, NeededLast;
    x :| x in trace.seen;
  }

  // A trim that is not done at once looks at something.
  lemma SomethingSeen(option: TrimOption, v: View, w: View, deleted: seq<Entry>, trace: Trace)
    requires TrimEnd(option, v, w, deleted, trace) && option.canTrim.None? && !Done(option.condition, v) && v != map[]
    ensures |trace.seen| > 0
  {
    if trace.seen == {} {
      CursorAtStart(option, v, w, deleted, trace);
      Unfiltered(option, v, w, deleted, trace);
      assert w.Keys == v.Keys;
      DoneIsAntitone(option.condition, v, v, w);
    }
  }

  lemma CursorAtStart(option: TrimOption, v: View, w: View, deleted: seq<Entry>, trace: Trace)
    requires TrimState(option, v, w, deleted, trace) && trace.seen == {} && v != map[]
    ensures trace.cursor.Some?
  {
    hide FirstOfWall, SeenOk, DecisionsOk, DeletedOk, NeededLast;
    var h :| h in v;
  }
}
