// Whole runs of the entry index: puts (deferred or not), deletes and flushes in any order.
module IndexRuns {
  import opened Wrappers
  import opened Entries
  import opened EntryIndexModel

  datatype Op =
    | PutOp(entry: Entry, unique: bool, isHead: bool, defer: bool, gidHook: bool)
    | DeleteOp(hash: Hash)
    | FlushOp(hashes: Option<set<Hash>>)

  // The same step on a plain index: deferral and flushing have no counterpart there.
  ghost function Apply(v: View, op: Op): View {
    match op
    case PutOp(entry, _, isHead, _, _) => PutView(v, entry, isHead)
    case DeleteOp(hash) => DeleteView(v, hash)
    case FlushOp(_) => v
  }

  ghost function Fold(v: View, ops: seq<Op>): View {
    if ops == [] then v else Apply(Fold(v, ops[..|ops| - 1]), ops[|ops| - 1])
  }

  // Puts are of new hashes, and a deferred head is really unreferenced.
  ghost predicate Legal(v: View, op: Op) {
    op.PutOp? ==> op.entry.hash !in v && (op.defer && op.isHead ==> !Referenced(v, op.entry.hash))
  }

  ghost predicate LegalRun(v: View, ops: seq<Op>) {
    forall i :: 0 <= i < |ops| ==> Legal(Fold(v, ops[..i]), ops[i])
  }

  // ----- The write-behind buffer cannot be observed -----

  method Replay(idx: EntryIndex, ops: seq<Op>)
    requires idx.Valid() && LegalRun(idx.Visible(), ops)
    modifies idx
    ensures idx.Valid() && idx.Visible() == Fold(old(idx.Visible()), ops)
  {
    hide Buffered, Counted, PutView, DeleteView, Referenced;
    ghost var v := idx.Visible();
    for i := 0 to |ops|
      invariant idx.Valid() && idx.Visible() == Fold(v, ops[..i])
    {
      assert ops[..i + 1][..i] == ops[..i];
      assert Legal(Fold(v, ops[..i]), ops[i]);
      match ops[i]
      case PutOp(entry, unique, isHead, defer, gidHook) => idx.Put(entry, unique, isHead, true, defer, gidHook);
      case DeleteOp(hash) => var _ := idx.Delete(hash, None);
      case FlushOp(hashes) => idx.FlushPendingWrites(hashes);
    }
    assert ops[..|ops|] == ops;
  }

  // Outside such runs it can: "a" is put as a buffered head, and put again, unbuffered, as no head.
  // The second put is not seen, and "a" is in both maps.
  method BufferedFlagHidesPut() returns (idx: EntryIndex)
    ensures idx.Visible().Keys == {"a"} && idx.Visible()["a"].head && !idx.Valid()
  {
    hide Buffered, Counted;
    var a := Entry("a", Meta("g", Clock.Timestamp(0, 0), APPEND, []), 0);
    idx := new EntryIndex();
    assert !Referenced(idx.Visible(), "a");
    idx.Put(a, true, true, true, true, false);
    DemoteNothing(map["a" := a.ToShallow(true)]);
    assert idx.Visible() == map["a" := a.ToShallow(true)];
    assert "a" in idx.pending;
    idx.Put(a, false, false, true, false, false);
  }

  // ----- Incrementally maintained head flags agree with their definition -----

  lemma PutReferences(v: View, entry: Entry, isHead: bool, h: Hash)
    requires entry.hash in v ==> v[entry.hash].SameContent(entry.ToShallow(false))
    ensures Referenced(PutView(v, entry, isHead), h) <==> Referenced(v, h) || h in entry.meta.next
  {
    var w := PutView(v, entry, isHead);
    if Referenced(v, h) {
      var k :| Points(v, k, h);
      assert Points(w, k, h);
    }
    if h in entry.meta.next {
      assert Points(w, entry.hash, h);
    }
    if Referenced(w, h) {
      var k :| Points(w, k, h);
      assert k != entry.hash ==> Points(v, k, h);
    }
  }

  // The flags stay exact precisely when the caller's isHead tells the truth.
  lemma PutKeepsHeadsExact(v: View, entry: Entry, isHead: bool)
    requires HeadsExact(v) && (entry.hash in v ==> v[entry.hash].SameContent(entry.ToShallow(false)))
    requires entry.meta.entryType.APPEND? && entry.hash !in entry.meta.next
    ensures HeadsExact(PutView(v, entry, isHead)) <==> (isHead <==> !Referenced(v, entry.hash))
  {
    var w := PutView(v, entry, isHead);
    assert w[entry.hash].head == isHead;
    PutReferences(v, entry, isHead, entry.hash);
    if isHead <==> !Referenced(v, entry.hash) {
      forall h | h in w ensures w[h].head <==> !Referenced(w, h) {
        PutReferences(v, entry, isHead, h);
      }
    }
  }

  // Deleting any entry, also one in the middle, keeps the flags exact.
  lemma DeleteKeepsHeadsExact(v: View, k: Hash)
    requires HeadsExact(v) && (k in v ==> v[k].meta.entryType.APPEND?)
    ensures HeadsExact(DeleteView(v, k))
  {
    if k in v {
      var w := DeleteView(v, k);
      forall h | h in w ensures w[h].head <==> !Referenced(w, h) {
        assert SameEntries(v - {k}, w);
        SameReferences(v - {k}, w, h);
        if Referenced(v - {k}, h) {
          var j :| Points(v - {k}, j, h);
          assert Points(v, j, h);
        } else if Referenced(v, h) {
          var j :| Points(v, j, h);
          assert j == k by {
            if j != k { assert Points(v - {k}, j, h); }
          }
        }
      }
    }
  }

  // Deleting a CUT entry promotes nothing, so the flags stay exact exactly if something else still
  // lists every indexed entry that the CUT listed.
  lemma CutDeleteKeepsHeadsExact(v: View, k: Hash)
    requires HeadsExact(v) && k in v && v[k].meta.entryType.CUT?
    ensures HeadsExact(DeleteView(v, k)) <==>
              forall n :: n in v[k].meta.next && n in v && n != k ==> Referenced(v - {k}, n)
  {
    var w := v - {k};
    assert DeleteView(v, k) == w by { EntryIndexModel.PromoteNothing(w); }
    forall n | n in w && n in v[k].meta.next ensures !v[n].head {
      assert Points(v, k, n);
    }
    forall n | n in w && n !in v[k].meta.next ensures Referenced(w, n) <==> Referenced(v, n) {
      if Referenced(v, n) {
        var j :| Points(v, j, n);
        assert Points(w, j, n);
      }
      if Referenced(w, n) {
        var j :| Points(w, j, n);
        assert Points(v, j, n);
      }
    }
  }

  // A former next that stays flagged as no head.
  lemma CutDeleteLosesHead()
    ensures exists v: View, k: Hash ::
              HeadsExact(v) && k in v && v[k].meta.entryType.CUT? && !HeadsExact(DeleteView(v, k))
  {
    var t := Clock.Timestamp(0, 0);
    var a := ShallowEntry("a", Meta("g", t, APPEND, []), 0, false);
    var c := ShallowEntry("c", Meta("g", t, CUT, ["a"]), 0, true);
    var v: View := map["a" := a, "c" := c];
    assert Points(v, "c", "a");
    assert !Referenced(v, "c");
    assert HeadsExact(v);
    var w := DeleteView(v, "c");
    assert w == map["a" := a];
    assert !w["a"].head && !Referenced(w, "a");
  }

  // The conventions of the APPEND-only callers, with isHead given as "nothing references it".
  ghost predicate Truthful(v: View, op: Op) {
    op.PutOp? ==>
      && op.entry.meta.entryType.APPEND? && op.entry.hash !in op.entry.meta.next
      && (op.isHead <==> !Referenced(v, op.entry.hash))
  }

  ghost predicate TruthfulRun(v: View, ops: seq<Op>) {
    forall i :: 0 <= i < |ops| ==> Truthful(Fold(v, ops[..i]), ops[i])
  }

  lemma StepKeepsHeadsExact(v: View, op: Op)
    requires Legal(v, op) && Truthful(v, op) && HeadsExact(v) && AppendOnly(v)
    ensures HeadsExact(Apply(v, op)) && AppendOnly(Apply(v, op))
  {
    match op
    case PutOp(entry, _, isHead, _, _) =>
      PutKeepsHeadsExact(v, entry, isHead);
    case DeleteOp(hash) =>
      DeleteKeepsHeadsExact(v, hash);
    case FlushOp(_) =>
  }

  lemma {:induction false} RunKeepsHeadsExact(v: View, ops: seq<Op>)
    requires LegalRun(v, ops) && TruthfulRun(v, ops)
    requires HeadsExact(v) && AppendOnly(v)
    ensures HeadsExact(Fold(v, ops)) && AppendOnly(Fold(v, ops))
  {
    hide Legal, Truthful, HeadsExact, AppendOnly, Apply;
    if ops != [] {
      var last := |ops| - 1;
      var shorter := ops[..last];
      forall i | 0 <= i < last ensures shorter[..i] == ops[..i] {}
      RunKeepsHeadsExact(v, shorter);
      StepKeepsHeadsExact(Fold(v, shorter), ops[last]);
    }
  }
}
