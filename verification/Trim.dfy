// packages/log/src/trim.ts: the eviction loop, with the order of packages/log/src/log-sorting.ts
// (LastWriteWins) and without a cacheId.
//
// The loop moves from an entry to the first one with a strictly larger wall time.  So of several
// entries with the same wall time it only ever looks at the first.
module TrimModel {
  import opened Wrappers
  import opened Clock
  import opened Entries
  import opened DeleteWalk
  import opened EntryIndexModel

  datatype Condition =
    | Length(to: int, from: Option<int>)
    | ByteLength(to: int, from: Option<int>)
    | Time(maxAge: int, now: int)

  datatype TrimOption = TrimOption(condition: Condition, canTrim: Option<ShallowEntry -> bool>)

  // ----- What a trim is asked for -----

  ghost predicate Done(c: Condition, v: View) {
    match c
    case Length(to, _) => |v| <= to
    case ByteLength(to, _) => TotalSize(v) <= to
    case Time(maxAge, now) => forall h :: h in v ==> now - v[h].meta.timestamp.wallTime < maxAge
  }

  // Below `from` nothing is trimmed at all.
  ghost predicate Starts(c: Condition, v: View) {
    match c
    case Length(to, from) => |v| >= if from.Some? then from.value else to
    case ByteLength(to, from) => TotalSize(v) >= if from.Some? then from.value else to
    case Time(_, _) => true
  }

  lemma StartsAt(c: Condition, v: View)
    ensures match c
      case Length(to, from) => Starts(c, v) <==> |v| >= if from.Some? then from.value else to
      case ByteLength(to, from) => Starts(c, v) <==> TotalSize(v) >= if from.Some? then from.value else to
      case Time(_, _) => Starts(c, v)
  {
  }

  function Wall(e: ShallowEntry): nat { e.meta.timestamp.wallTime }

  predicate Later(e: ShallowEntry, after: Option<nat>) { after.Some? ==> Wall(e) > after.value }

  // The first entry, in LastWriteWins order, of those with a wall time after the given one.
  ghost predicate FirstAfter(v: View, after: Option<nat>, r: Option<ShallowEntry>) {
    match r
    case None => forall h :: h in v ==> !Later(v[h], after)
    case Some(e) =>
      && e.hash in v && v[e.hash] == e && Later(e, after)
      && forall h :: h in v && Later(v[h], after) ==> e.meta.timestamp.Scalar() <= v[h].meta.timestamp.Scalar()
  }

  method First(v: View, after: Option<nat>) returns (r: Option<ShallowEntry>)
    requires WellKeyed(v)
    ensures FirstAfter(v, after, r)
  {
    r := None;
    var todo := v;
    while todo != map[]
      invariant forall h :: h in todo ==> h in v && todo[h] == v[h]
      invariant r.Some? ==> r.value.hash in v && v[r.value.hash] == r.value && Later(r.value, after)
      invariant forall h :: h in v && Later(v[h], after) ==>
                  h in todo || (r.Some? && r.value.meta.timestamp.Scalar() <= v[h].meta.timestamp.Scalar())
      decreases |todo|
    {
      var h :| h in todo;
      var e := todo[h];
      if Later(e, after) && (r.None? || e.meta.timestamp.Compare(r.value.meta.timestamp) < 0) {
        r := Some(e);
      }
      SmallerWithout(todo, h);
      todo := todo - {h};
    }
  }

  class Trim {
    const index: EntryIndex

    constructor (index: EntryIndex)
      ensures this.index == index
    {
      this.index := index;
    }

    // getOldest and getAfter
    method GetFirst(after: Option<nat>) returns (r: Option<ShallowEntry>)
      requires index.Valid()
      modifies index`pending, index`index
      ensures index.Valid() && index.Visible() == old(index.Visible())
      ensures FirstAfter(index.Visible(), after, r)
      ensures r.Some? ==> r.value.hash in index.Visible() && index.Visible()[r.value.hash] == r.value
                          && (after.Some? ==> r.value.meta.timestamp.wallTime > after.value)
      ensures forall h ::
                (h in index.Visible()
                 && (after.Some? ==> index.Visible()[h].meta.timestamp.wallTime > after.value)) ==>
                  r.Some? && r.value.meta.timestamp.Scalar() <= index.Visible()[h].meta.timestamp.Scalar()
    {
      hide Buffered, Counted;
      BufferedFacts(index.index, index.pending, index.store);
      index.FlushPendingWrites(None);
      assert index.index == index.Visible();
      r := First(index.index, after);
    }

    method GetLength() returns (length: nat)
      requires index.Valid()
      ensures length == |index.Visible()|
    {
      length := index.length;
    }

    method IsDone(c: Condition) returns (done: bool)
      requires index.Valid()
      modifies index`pending, index`index
      ensures index.Valid() && index.Visible() == old(index.Visible())
      ensures done <==> Done(c, index.Visible())
    {
      hide Buffered, Counted;
      match c
      case Length(to, _) =>
        var length := GetLength();
        done := length <= to;
      case ByteLength(to, _) =>
        var bytes := index.GetMemoryUsage();
        done := bytes <= to;
      case Time(maxAge, now) =>
        var oldest := GetFirst(None);
        done := oldest.None? || now - Wall(oldest.value) < maxAge;
        if oldest.Some? {
          OldestDecides(index.Visible(), oldest.value);
        }
    }

    method HasToStart(c: Condition) returns (starts: bool)
      requires index.Valid()
      ensures starts <==> Starts(c, index.Visible())
      ensures match c
        case Length(to, from) => starts <==> |index.Visible()| >= if from.Some? then from.value else to
        case ByteLength(to, from) => starts <==> TotalSize(index.Visible()) >= if from.Some? then from.value else to
        case Time(_, _) => starts
    {
      hide Buffered;
      match c
      case Length(to, from) =>
        var length := GetLength();
        starts := length >= if from.Some? then from.value else to;
      case ByteLength(to, from) =>
        var bytes := index.GetMemoryUsage();
        starts := bytes >= if from.Some? then from.value else to;
      case Time(_, _) =>
        starts := true;
    }

    // deleteNode: the entry is resolved before it is deleted.
    method DeleteNode(node: ShallowEntry) returns (entry: Entry)
      requires index.Valid() && node.hash in index.Visible()
      modifies index
      ensures index.Valid() && index.Visible() == DeleteView(old(index.Visible()), node.hash)
      ensures var e := old(index.Visible())[node.hash];
              entry.hash == node.hash && entry.meta == e.meta && entry.payloadSize == e.payloadSize
      ensures entry.ToShallow(old(index.Visible())[node.hash].head) == old(index.Visible())[node.hash]
    {
      hide Buffered, Counted, Promote;
      BufferedFacts(index.index, index.pending, index.store);
      entry := index.store[node.hash];
      var _ := index.Delete(node.hash, None);
    }

    // May this entry be deleted?  The filter is asked once per gid, and its answer stands.
    method MayDelete(option: TrimOption, node: ShallowEntry, gids: map<string, bool>)
      returns (deletable: bool, gids': map<string, bool>)
      ensures (deletable, gids') == Decide(option, node, gids)
      ensures forall g :: g in gids ==> g in gids' && gids'[g] == gids[g]
      ensures option.canTrim.Some? ==> node.meta.gid in gids' && deletable == gids'[node.meta.gid]
    {
      deletable, gids' := true, gids;
      if option.canTrim.Some? {
        if node.meta.gid in gids {
          deletable := gids[node.meta.gid];
        } else {
          deletable := option.canTrim.value(node);
          gids' := gids[node.meta.gid := deletable];
        }
      }
    }

    // One pass through the loop body: delete the node or leave it, and move to the next one.
    method TrimNode(option: TrimOption, node: ShallowEntry, gids: map<string, bool>, deleted: seq<Entry>,
                    ghost v: View, ghost trace: Trace)
      returns (node': Option<ShallowEntry>, gids': map<string, bool>, deleted': seq<Entry>, ghost trace': Trace)
      requires index.Valid() && trace.cursor == Some(node) && trace.gids == gids
      requires TrimState(option, v, index.Visible(), deleted, trace) && !Done(option.condition, index.Visible())
      modifies index
      ensures index.Valid() && trace'.cursor == node' && trace'.gids == gids'
      ensures TrimState(option, v, index.Visible(), deleted', trace')
      ensures |trace.seen| < |trace'.seen| <= |v|
      ensures old(index.Visible()) == DeleteAll(v, EntryHashes(deleted)) ==>
                index.Visible() == DeleteAll(v, EntryHashes(deleted'))
    {
      hide Buffered, Counted, Done, TrimState, FirstAfter, DeleteView, Decide;
      ghost var w := index.Visible();
      CursorFacts(option, v, w, deleted, trace);
      ghost var seen := trace.seen + {node.hash};
      var deletable: bool;
      deletable, gids' := MayDelete(option, node, gids);
      // Ask before deleteNode, else the way on might be gone
      node' := GetFirst(Some(Wall(node)));
      if deletable {
        trace' := Trace(node', gids', seen, w);
        var entry := DeleteNode(node);
        deleted' := deleted + [entry];
        assert EntryHashes(deleted')[..|deleted|] == EntryHashes(deleted);
        StateDeletes(option, v, w, index.Visible(), deleted, trace, entry, trace');
      } else {
        trace' := Trace(node', gids', seen, trace.before);
        deleted' := deleted;
        StateSkips(option, v, w, deleted, trace, trace');
      }
      SeenFits(option, v, index.Visible(), deleted', trace');
    }

    method TrimTask(option: TrimOption) returns (deleted: seq<Entry>, ghost trace: Trace)
      requires index.Valid()
      modifies index
      ensures index.Valid()
      ensures var v, w := old(index.Visible()), index.Visible();
        match option.condition
        case Length(to, from) =>
          if |v| < (if from.Some? then from.value else to) then deleted == [] && w == v
          else TrimEnd(option, v, w, deleted, trace)
        case ByteLength(to, from) =>
          if TotalSize(v) < (if from.Some? then from.value else to) then deleted == [] && w == v
          else TrimEnd(option, v, w, deleted, trace)
        case Time(_, _) => TrimEnd(option, v, w, deleted, trace)
      ensures index.Visible() == DeleteAll(old(index.Visible()), EntryHashes(deleted))
    {
      hide Buffered, Counted, Starts, TrimEnd, DeleteView, DeleteAll, TotalSize;
      ghost var v := index.Visible();
      DeleteAllNone(v);
      StartsAt(option.condition, v);
      deleted, trace := [], Trace(None, map[], {}, v);
      var starts := HasToStart(option.condition);
      if !starts {
        return;
      }
      deleted, trace := TrimLoop(option);
    }

    // From the oldest entry on, until the target is met or the way has been gone to its end.
    method TrimLoop(option: TrimOption) returns (deleted: seq<Entry>, ghost trace: Trace)
      requires index.Valid()
      modifies index
      ensures index.Valid() && TrimEnd(option, old(index.Visible()), index.Visible(), deleted, trace)
      ensures index.Visible() == DeleteAll(old(index.Visible()), EntryHashes(deleted))
    {
      hide Buffered, Counted, Done, TrimState, FirstAfter, DeleteView, DeleteAll;
      DeleteAllNone(index.Visible());
      var c := option.condition;
      ghost var v := index.Visible();
      deleted, trace := [], Trace(None, map[], {}, v);
      var tail := GetFirst(None);
      var node := tail;
      var startNode := node;
      var looped := false;
      var canTrimByGid: map<string, bool> := map[];
      trace := trace.(cursor := node);
      StateStarts(option, v, node);
      while true
        invariant index.Valid() && startNode == tail && (node.Some? ==> tail.Some?)
        invariant if looped then node == startNode && trace.cursor.None? else trace.cursor == node
        invariant trace.gids == canTrimByGid && TrimState(option, v, index.Visible(), deleted, trace)
        invariant index.Visible() == DeleteAll(v, EntryHashes(deleted))
        invariant |trace.seen| <= |v|
        decreases !looped, |v| - |trace.seen|
      {
        if node.None? {
          break;
        }
        var done := IsDone(c);
        if done {
          break;
        }
        var length := GetLength();
        if length == 0 {
          break;
        }
        if looped && node.value.hash == startNode.value.hash {
          break;
        }
        node, canTrimByGid, deleted, trace := TrimNode(option, node.value, canTrimByGid, deleted, v, trace);
        if node.None? {
          if !looped {
            node := tail;
            looped := true;
          } else {
            break;
          }
        }
      }
    }
  }

  lemma DeleteAllNone(v: View)
    ensures DeleteAll(v, EntryHashes([])) == v
  {
  }

  // ----- The invariant of the loop -----

  // What the loop has come by: where it is, the decisions per gid, the entries looked at, and the
  // view before the last deletion.
  datatype Trace = Trace(cursor: Option<ShallowEntry>, gids: map<string, bool>, seen: set<Hash>, before: View)

  function EntryHashes(entries: seq<Entry>): seq<Hash> {
    seq(|entries|, i requires 0 <= i < |entries| => entries[i].hash)
  }

  function Decide(option: TrimOption, node: ShallowEntry, gids: map<string, bool>): (bool, map<string, bool>) {
    if option.canTrim.None? then (true, gids)
    else if node.meta.gid in gids then (gids[node.meta.gid], gids)
    else (option.canTrim.value(node), gids[node.meta.gid := option.canTrim.value(node)])
  }

  predicate Deleted(deleted: seq<Entry>, h: Hash) { exists e :: e in deleted && e.hash == h }

  // Of the entries with one wall time, only a first one is ever looked at.
  ghost predicate FirstOfWall(v: View, h: Hash) {
    h in v && forall k :: k in v && Wall(v[k]) == Wall(v[h]) ==>
      v[h].meta.timestamp.Scalar() <= v[k].meta.timestamp.Scalar()
  }

  ghost predicate SeenOk(v: View, seen: set<Hash>) {
    && (forall a :: a in seen ==> FirstOfWall(v, a))
    && (forall a, b :: a in seen && b in seen && Wall(v[a]) == Wall(v[b]) ==> a == b)
  }

  // Every wall time below the cursor has been looked at, none from the cursor on.
  ghost predicate CursorOk(v: View, w: View, seen: set<Hash>, cursor: Option<ShallowEntry>)
    requires forall a :: a in seen ==> a in v
  {
    match cursor
    case None => forall h :: h in v ==> SeenWall(v, seen, Wall(v[h]))
    case Some(n) =>
      && n.hash in w && n.hash in v && n.SameContent(v[n.hash]) && FirstOfWall(v, n.hash)
      && (forall a :: a in seen ==> Wall(v[a]) < Wall(n))
      && (forall h :: h in v && Wall(v[h]) < Wall(n) ==> SeenWall(v, seen, Wall(v[h])))
  }

  ghost predicate SeenWall(v: View, seen: set<Hash>, wall: nat)
    requires forall a :: a in seen ==> a in v
  {
    exists a :: a in seen && Wall(v[a]) == wall
  }

  // The deleted entries, oldest first, with the content they had.
  ghost predicate DeletedOk(v: View, w: View, deleted: seq<Entry>, seen: set<Hash>) {
    && (forall h :: h in w <==> h in v && !Deleted(deleted, h))
    && (forall h :: h in w ==> w[h].SameContent(v[h]))
    && (forall e :: e in deleted ==> e.hash in seen && e.hash in v && e.ToShallow(v[e.hash].head) == v[e.hash])
    && (forall i, j :: 0 <= i < j < |deleted| ==>
          deleted[i].meta.timestamp.wallTime < deleted[j].meta.timestamp.wallTime)
  }

  // Without a filter everything looked at is deleted; with one, what its gid's answer says.
  ghost predicate DecisionsOk(option: TrimOption, v: View, deleted: seq<Entry>, gids: map<string, bool>,
                              seen: set<Hash>) {
    match option.canTrim
    case None => forall a :: a in seen ==> Deleted(deleted, a)
    case Some(canTrim) =>
      && (forall a :: a in seen && a in v ==>
            v[a].meta.gid in gids && (Deleted(deleted, a) <==> gids[v[a].meta.gid]))
      && (forall g :: g in gids ==> Asked(canTrim, v, seen, g, gids[g]))
  }

  // The filter gave this answer for an entry of this gid.
  ghost predicate Asked(canTrim: ShallowEntry -> bool, v: View, seen: set<Hash>, gid: string, answer: bool) {
    exists e: ShallowEntry ::
      e.hash in seen && e.hash in v && e.SameContent(v[e.hash]) && e.meta.gid == gid && canTrim(e) == answer
  }

  // Before the last deletion the target was not met.
  ghost predicate NeededLast(c: Condition, v: View, w: View, deleted: seq<Entry>, before: View) {
    deleted != [] ==>
      && !Done(c, before) && before.Keys == w.Keys + {deleted[|deleted| - 1].hash}
      && forall h :: h in before ==> h in v && before[h].SameContent(v[h])
  }

  ghost predicate TrimState(option: TrimOption, v: View, w: View, deleted: seq<Entry>, trace: Trace) {
    && trace.seen <= v.Keys
    && SeenOk(v, trace.seen)
    && CursorOk(v, w, trace.seen, trace.cursor)
    && DeletedOk(v, w, deleted, trace.seen)
    && DecisionsOk(option, v, deleted, trace.gids, trace.seen)
    && NeededLast(option.condition, v, w, deleted, trace.before)
  }

  // The loop has stopped: the target is met, nothing is left, or every wall time was looked at.
  ghost predicate TrimEnd(option: TrimOption, v: View, w: View, deleted: seq<Entry>, trace: Trace) {
    && TrimState(option, v, w, deleted, trace)
    && (Done(option.condition, w) || w == map[] || trace.cursor.None?)
  }

  lemma OldestDecides(v: View, oldest: ShallowEntry)
    requires FirstAfter(v, None, Some(oldest))
    ensures forall h :: h in v ==> Wall(oldest) <= Wall(v[h])
  {
  }

  lemma StateStarts(option: TrimOption, v: View, node: Option<ShallowEntry>)
    requires FirstAfter(v, None, node)
    ensures TrimState(option, v, v, [], Trace(node, map[], {}, v))
  {
  }

  lemma CursorFacts(option: TrimOption, v: View, w: View, deleted: seq<Entry>, trace: Trace)
    requires TrimState(option, v, w, deleted, trace) && trace.cursor.Some?
    ensures var n := trace.cursor.value;
            && n.hash in w && n.hash in v && n.hash !in trace.seen
            && w[n.hash].SameContent(n) && n.SameContent(v[n.hash])
            && forall a :: a in trace.seen ==> Wall(v[a]) < Wall(n)
  {
  }

  lemma SeenFits(option: TrimOption, v: View, w: View, deleted: seq<Entry>, trace: Trace)
    requires TrimState(option, v, w, deleted, trace)
    ensures |trace.seen| <= |v|
  {
    SubsetSize(trace.seen, v.Keys);
  }

  // ----- One step of the loop -----

  // Entries that were not looked at are all still there, and nothing changed but head flags.
  ghost predicate Shrunk(v: View, w: View, seen: set<Hash>) {
    && (forall h :: h in v && h !in seen ==> h in w)
    && (forall h :: h in w ==> h in v && w[h].SameContent(v[h]))
  }

  lemma EarlierScalarEarlierWall(a: Timestamp, b: Timestamp)
    ensures a.Scalar() <= b.Scalar() ==> a.wallTime <= b.wallTime
  {
  }

  // The first entry after n in the shrunk view is the first one after n altogether.
  lemma FirstAfterAll(v: View, w: View, seen: set<Hash>, n: ShallowEntry, next: Option<ShallowEntry>)
    requires seen <= v.Keys && CursorOk(v, w, seen, Some(n)) && FirstAfter(w, Some(Wall(n)), next)
    requires Shrunk(v, w, seen)
    ensures next.None? ==> forall h :: h in v ==> Wall(v[h]) <= Wall(n)
    ensures next.Some? ==>
              var m := next.value;
              && m.hash in v && m.SameContent(v[m.hash]) && FirstOfWall(v, m.hash) && Wall(m) > Wall(n)
              && forall h :: h in v && Wall(v[h]) > Wall(n) ==> Wall(m) <= Wall(v[h])
  {
    forall h | h in v && Wall(v[h]) > Wall(n) ensures h in w && Wall(w[h]) > Wall(n) {
      assert h !in seen;
      assert w[h].SameContent(v[h]);
    }
    if next.Some? {
      var m := next.value;
      assert w[m.hash].SameContent(v[m.hash]);
      forall h | h in v && Wall(v[h]) > Wall(n)
        ensures m.meta.timestamp.Scalar() <= v[h].meta.timestamp.Scalar() && Wall(m) <= Wall(v[h])
      {
        assert w[h].SameContent(v[h]) && Later(w[h], Some(Wall(n)));
        EarlierScalarEarlierWall(m.meta.timestamp, v[h].meta.timestamp);
      }
    }
  }

  // Moving on: the first entry after the cursor is the next cursor.
  lemma CursorMoves(v: View, w: View, seen: set<Hash>, n: ShallowEntry, next: Option<ShallowEntry>, w': View)
    requires seen <= v.Keys && SeenOk(v, seen) && CursorOk(v, w, seen, Some(n))
    requires FirstAfter(w, Some(Wall(n)), next)
    requires Shrunk(v, w, seen)
    requires next.Some? ==> next.value.hash in w'
    ensures SeenOk(v, seen + {n.hash}) && CursorOk(v, w', seen + {n.hash}, next)
  {
    FirstAfterAll(v, w, seen, n, next);
    hide FirstAfter, Shrunk;
    SeenGrows(v, w, seen, n);
    hide FirstOfWall, SeenWall, SeenOk;
  }

  // Looking at n covers every wall time up to its own.
  lemma SeenGrows(v: View, w: View, seen: set<Hash>, n: ShallowEntry)
    requires seen <= v.Keys && SeenOk(v, seen) && CursorOk(v, w, seen, Some(n))
    ensures SeenOk(v, seen + {n.hash})
    ensures forall a :: a in seen + {n.hash} ==> Wall(v[a]) <= Wall(n)
    ensures forall h :: h in v && Wall(v[h]) <= Wall(n) ==> SeenWall(v, seen + {n.hash}, Wall(v[h]))
  {
    hide FirstOfWall;
    var seen' := seen + {n.hash};
    forall h | h in v && Wall(v[h]) <= Wall(n) ensures SeenWall(v, seen', Wall(v[h])) {
      if Wall(v[h]) == Wall(n) {
        assert n.hash in seen' && Wall(v[n.hash]) == Wall(v[h]);
      } else {
        var a :| a in seen && Wall(v[a]) == Wall(v[h]);
        assert a in seen';
      }
    }
  }

  lemma UnseenStays(v: View, w: View, deleted: seq<Entry>, seen: set<Hash>)
    requires DeletedOk(v, w, deleted, seen)
    ensures Shrunk(v, w, seen)
    ensures forall h :: h in w ==> !Deleted(deleted, h)
    ensures forall h :: DeletedOk(v, w, deleted, seen + {h})
  {
    assert forall h :: Deleted(deleted, h) ==> h in seen;
  }

  lemma StateSkips(option: TrimOption, v: View, w: View, deleted: seq<Entry>, trace: Trace, trace': Trace)
    requires TrimState(option, v, w, deleted, trace) && trace.cursor.Some?
    requires FirstAfter(w, Some(Wall(trace.cursor.value)), trace'.cursor)
    requires Decide(option, trace.cursor.value, trace.gids) == (false, trace'.gids)
    requires trace'.seen == trace.seen + {trace.cursor.value.hash} && trace'.before == trace.before
    ensures TrimState(option, v, w, deleted, trace')
  {
    hide SeenOk, CursorOk, DecisionsOk, DeletedOk, NeededLast, FirstAfter, Decide, Shrunk;
    var n := trace.cursor.value;
    CursorFacts(option, v, w, deleted, trace);
    FirstIsPresent(w, Wall(n), trace'.cursor);
    UnseenStays(v, w, deleted, trace.seen);
    CursorMoves(v, w, trace.seen, n, trace'.cursor, w);
    DecisionAdded(option, v, deleted, deleted, trace, trace');
  }

  lemma FirstIsPresent(w: View, wall: nat, next: Option<ShallowEntry>)
    requires FirstAfter(w, Some(wall), next)
    ensures next.Some? ==> next.value.hash in w && Wall(w[next.value.hash]) > wall
  {
  }

  lemma DecisionAdded(option: TrimOption, v: View, deleted: seq<Entry>, deleted': seq<Entry>, trace: Trace,
                      trace': Trace)
    requires trace.cursor.Some? && trace.seen <= v.Keys
    requires var n := trace.cursor.value; n.hash in v && n.SameContent(v[n.hash]) && n.hash !in trace.seen
    requires DecisionsOk(option, v, deleted, trace.gids, trace.seen)
    requires trace'.seen == trace.seen + {trace.cursor.value.hash}
    requires var n := trace.cursor.value;
             Decide(option, n, trace.gids) == (Deleted(deleted', n.hash), trace'.gids)
    requires forall h :: h != trace.cursor.value.hash ==> (Deleted(deleted', h) <==> Deleted(deleted, h))
    ensures DecisionsOk(option, v, deleted', trace'.gids, trace'.seen)
  {
    hide Deleted, Asked;
    if option.canTrim.Some? {
      var n, canTrim := trace.cursor.value, option.canTrim.value;
      forall g | g in trace'.gids ensures Asked(canTrim, v, trace'.seen, g, trace'.gids[g]) {
        if g in trace.gids {
          AskedStays(canTrim, v, trace.seen, trace'.seen, g, trace.gids[g]);
        } else {
          AskedNow(canTrim, v, trace'.seen, n);
        }
      }
    }
  }

  lemma AskedStays(canTrim: ShallowEntry -> bool, v: View, seen: set<Hash>, seen': set<Hash>, gid: string, answer: bool)
    requires Asked(canTrim, v, seen, gid, answer) && seen <= seen'
    ensures Asked(canTrim, v, seen', gid, answer)
  {
    var e: ShallowEntry :|
      e.hash in seen && e.hash in v && e.SameContent(v[e.hash]) && e.meta.gid == gid && canTrim(e) == answer;
    assert e.hash in seen';
  }

  lemma AskedNow(canTrim: ShallowEntry -> bool, v: View, seen: set<Hash>, n: ShallowEntry)
    requires n.hash in seen && n.hash in v && n.SameContent(v[n.hash])
    ensures Asked(canTrim, v, seen, n.meta.gid, canTrim(n))
  {
  }

  lemma StateDeletes(option: TrimOption, v: View, w: View, w': View, deleted: seq<Entry>, trace: Trace, entry: Entry,
                     trace': Trace)
    requires TrimState(option, v, w, deleted, trace) && trace.cursor.Some?
    requires !Done(option.condition, w)
    requires FirstAfter(w, Some(Wall(trace.cursor.value)), trace'.cursor)
    requires Decide(option, trace.cursor.value, trace.gids) == (true, trace'.gids)
    requires trace'.seen == trace.seen + {trace.cursor.value.hash} && trace'.before == w
    requires trace.cursor.value.hash in w && w' == DeleteView(w, trace.cursor.value.hash)
    requires entry.hash == trace.cursor.value.hash && entry.ToShallow(w[entry.hash].head) == w[entry.hash]
    ensures TrimState(option, v, w', deleted + [entry], trace')
  {
    hide SeenOk, CursorOk, DecisionsOk, DeletedOk, NeededLast, FirstAfter, Decide, DeleteView, Deleted, Done, Shrunk;
    var n, deleted' := trace.cursor.value, deleted + [entry];
    CursorFacts(option, v, w, deleted, trace);
    DeletedView(w, w', n.hash, Wall(n), trace'.cursor);
    UnseenStays(v, w, deleted, trace.seen);
    DeletedGrows(deleted, entry);
    CursorMoves(v, w, trace.seen, n, trace'.cursor, w');
    DecisionAdded(option, v, deleted, deleted', trace, trace');
    DeletedStep(v, w, w', deleted, trace, entry);
    NeededStep(option.condition, v, w, w', deleted, entry, trace.seen);
  }

  lemma DeletedView(w: View, w': View, h: Hash, wall: nat, next: Option<ShallowEntry>)
    requires h in w && w' == DeleteView(w, h) && FirstAfter(w, Some(wall), next) && Wall(w[h]) == wall
    ensures w'.Keys == w.Keys - {h}
    ensures forall k :: k in w && k != h ==> w'[k].SameContent(w[k])
    ensures next.Some? ==> next.value.hash in w'
  {
    DeleteViewKeys(w, h);
  }

  lemma NeededStep(c: Condition, v: View, w: View, w': View, deleted: seq<Entry>, entry: Entry, seen: set<Hash>)
    requires !Done(c, w) && entry.hash in w && w'.Keys == w.Keys - {entry.hash} && Shrunk(v, w, seen)
    ensures NeededLast(c, v, w', deleted + [entry], w)
  {
    hide Done;
    assert w.Keys == w'.Keys + {entry.hash};
  }

  lemma DeletedGrows(deleted: seq<Entry>, entry: Entry)
    ensures forall h :: Deleted(deleted + [entry], h) <==> Deleted(deleted, h) || h == entry.hash
  {
    forall h ensures Deleted(deleted + [entry], h) <==> Deleted(deleted, h) || h == entry.hash {
      assert entry in deleted + [entry];
      if Deleted(deleted, h) {
        var e :| e in deleted && e.hash == h;
        assert e in deleted + [entry];
      }
    }
  }

  lemma DeletedStep(v: View, w: View, w': View, deleted: seq<Entry>, trace: Trace, entry: Entry)
    requires trace.cursor.Some? && trace.seen <= v.Keys && DeletedOk(v, w, deleted, trace.seen)
    requires forall a :: a in trace.seen ==> Wall(v[a]) < Wall(trace.cursor.value)
    requires entry.hash == trace.cursor.value.hash && entry.hash in w && w[entry.hash].SameContent(trace.cursor.value)
    requires entry.ToShallow(w[entry.hash].head) == w[entry.hash]
    requires w'.Keys == w.Keys - {entry.hash}
    requires forall k :: k in w && k != entry.hash ==> w'[k].SameContent(w[k])
    ensures DeletedOk(v, w', deleted + [entry], trace.seen + {entry.hash})
  {
    DeletedGrows(deleted, entry);
    hide Deleted;
    assert w[entry.hash].SameContent(v[entry.hash]);
    forall i | 0 <= i < |deleted| ensures deleted[i].meta.timestamp.wallTime < entry.meta.timestamp.wallTime {
      assert deleted[i] in deleted;
    }
    forall h | h in w' ensures w'[h].SameContent(v[h]) {
      assert w[h].SameContent(v[h]);
    }
  }
}
