// Replicas converge: two Log objects that join lists of elements, in whatever order, grouping and
// multiplicity these are delivered.
module Replicas {
  import opened Entries
  import opened Dag
  import opened JoinBatch
  import opened JoinConvergence
  import opened LogModel
  import opened Wrappers
  import Clock
  import EntryIndexModel

  // One call of join: what it is handed, and what its block store and its filter are at that time.
  datatype Delivery = Delivery(elements: seq<JoinElement>, storage: Blocks, canAppend: Entry -> bool) {
    ghost predicate Agrees(universe: Blocks) {
      SubBlocks(storage, universe) && forall e :: e in elements ==> e.Agrees(universe)
    }
  }

  function Delivered(deliveries: seq<Delivery>): set<Hash> {
    if deliveries == [] then {}
    else Delivered(deliveries[..|deliveries| - 1]) + ElementHashes(deliveries[|deliveries| - 1].elements)
  }

  // An ancestor of something delivered before.
  ghost predicate Earlier(universe: Blocks, deliveries: seq<Delivery>, h: Hash) {
    exists b :: b in Delivered(deliveries) && Ancestor(universe, b, h)
  }

  // Every ancestor of what is delivered is known at the start, an ancestor of something delivered
  // before, or allowed and at hand.
  ghost predicate SuppliedRun(universe: Blocks, known: set<Hash>, deliveries: seq<Delivery>) {
    forall i :: 0 <= i < |deliveries| ==> SuppliedNow(universe, known, deliveries[..i], deliveries[i])
  }

  ghost predicate SuppliedNow(universe: Blocks, known: set<Hash>, before: seq<Delivery>, d: Delivery) {
    forall e, h ::
      e in d.elements && Ancestor(universe, e.Hash(), h) && h !in known && !Earlier(universe, before, h) ==>
      h in universe && d.canAppend(universe[h]) && (h in d.storage || Carries(d.elements, h))
  }

  // An index in good order: closed, with exact flags.
  ghost predicate InOrder(log: Log, universe: Blocks)
    reads log.entryIndex
  {
    && log.entryIndex.Valid() && SubBlocks(log.entryIndex.store, universe)
    && Closed(log.entryIndex.Visible()) && HeadsExact(log.entryIndex.Visible())
  }

  lemma InOrderAgrees(log: Log, universe: Blocks)
    requires InOrder(log, universe) && AppendBlocks(universe)
    ensures Agree(universe, log.entryIndex.Visible()) && AppendOnly(log.entryIndex.Visible())
  {
    hide EntryIndexModel.Buffered, EntryIndexModel.Counted, Closed, HeadsExact;
    EntryIndexModel.BufferedFacts(log.entryIndex.index, log.entryIndex.pending, log.entryIndex.store);
  }

  // One call of join grows the index by the elements and their ancestors, whichever of them it
  // held before.
  method JoinDelivery(log: Log, d: Delivery, ghost universe: Blocks, ghost rank: Hash -> nat)
    returns (r: Result<(), JoinError>)
    requires ContentAddressed(universe, rank) && AppendBlocks(universe) && InOrder(log, universe) && d.Agrees(universe)
    requires Supplied(universe, log.entryIndex.Visible().Keys, d.storage, d.canAppend, d.elements)
    modifies log.entryIndex, log.hlc
    ensures r.Ok? ==>
              && InOrder(log, universe)
              && Grown(universe, old(log.entryIndex.Visible()), ElementHashes(d.elements), log.entryIndex.Visible())
    ensures r == Err(MissingBlock) <==> !Fetchable(old(log.entryIndex.Visible()).Keys, d.storage, d.elements)
    ensures r.Err? && r.error.ClockFailure? ==> Clock.NamesLimit(log.hlc.limits, r.error.error)
  {
    hide EntryIndexModel.Buffered, EntryIndexModel.Counted, Closed, HeadsExact, Supplied, BatchDone, BatchEntries,
         References, Fetchable, Acyclic, ElementHashes, ClockKeeps, Clock.NamesLimit;
    InOrderAgrees(log, universe);
    ghost var v := log.entryIndex.Visible();
    r := log.Join(d.elements, d.storage, d.canAppend, universe, rank);
    if r.Ok? {
      ReferencesAreAppend(v.Keys, d.storage, d.elements, universe);
      JoinMeetsReference(universe, rank, d.storage, d.canAppend, d.elements, v, log.entryIndex.Visible());
    }
  }

  // Delivering the same again finds every block it needs and changes nothing.
  method Redeliver(log: Log, d: Delivery, ghost universe: Blocks, ghost rank: Hash -> nat)
    returns (first: Result<(), JoinError>, second: Result<(), JoinError>, ghost between: View)
    requires ContentAddressed(universe, rank) && AppendBlocks(universe) && InOrder(log, universe) && d.Agrees(universe)
    requires Supplied(universe, log.entryIndex.Visible().Keys, d.storage, d.canAppend, d.elements)
    modifies log.entryIndex, log.hlc
    ensures first.Ok? ==> Grown(universe, old(log.entryIndex.Visible()), ElementHashes(d.elements), between)
    ensures first.Ok? ==> second != Err(MissingBlock) && (second.Ok? ==> log.entryIndex.Visible() == between)
  {
    hide InOrder, Grown, Supplied, ElementHashes, AppendBlocks, ContentAddressed;
    ghost var v := log.entryIndex.Visible();
    first := JoinDelivery(log, d, universe, rank);
    second, between := first, log.entryIndex.Visible();
    if first.Ok? {
      DeliveredIsIndexed(universe, v, d, between);
      second := JoinDelivery(log, d, universe, rank);
      if second.Ok? {
        JoinIsIdempotent(universe, v, ElementHashes(d.elements), between, log.entryIndex.Visible());
      }
    }
  }

  lemma ElementIn(elements: seq<JoinElement>, e: JoinElement)
    requires e in elements
    ensures e.Hash() in ElementHashes(elements)
  {
  }

  lemma DeliveredIsIndexed(universe: Blocks, v: View, d: Delivery, v1: View)
    requires Supplied(universe, v.Keys, d.storage, d.canAppend, d.elements)
    requires Grown(universe, v, ElementHashes(d.elements), v1)
    ensures Supplied(universe, v1.Keys, d.storage, d.canAppend, d.elements) && Fetchable(v1.Keys, d.storage, d.elements)
  {
    hide Ancestor, HeadsExact, Agree, Carries, ElementHashes;
    forall e | e in d.elements ensures e.Hash() in v1 {
      SelfIsAncestor(universe, e.Hash());
      ElementIn(d.elements, e);
    }
  }

  lemma ReferencesAreAppend(existing: set<Hash>, storage: Blocks, elements: seq<JoinElement>, universe: Blocks)
    requires AppendBlocks(universe) && KeyedBlocks(universe) && SubBlocks(storage, universe)
    requires forall e :: e in elements ==> e.Agrees(universe)
    ensures AppendBlocks(storage + References(existing, storage, elements))
  {
    hide References;
    CollectedInUniverse(existing, storage, elements, universe);
  }

  // Whatever is delivered by its hash alone can be fetched.
  ghost predicate AtHand(deliveries: seq<Delivery>) {
    forall d, e :: d in deliveries && e in d.elements && e.ByHash? ==> e.hash in d.storage
  }

  // A run of joins grows the index by everything delivered.
  method JoinAll(log: Log, deliveries: seq<Delivery>, ghost universe: Blocks, ghost rank: Hash -> nat)
    returns (r: Result<(), JoinError>)
    requires ContentAddressed(universe, rank) && AppendBlocks(universe) && InOrder(log, universe)
    requires forall d :: d in deliveries ==> d.Agrees(universe)
    requires SuppliedRun(universe, log.entryIndex.Visible().Keys, deliveries)
    modifies log.entryIndex, log.hlc
    ensures r.Ok? ==>
              && InOrder(log, universe)
              && Grown(universe, old(log.entryIndex.Visible()), Delivered(deliveries), log.entryIndex.Visible())
    ensures AtHand(deliveries) ==> r != Err(MissingBlock)
    ensures r.Err? && r.error.ClockFailure? ==> Clock.NamesLimit(log.hlc.limits, r.error.error)
  {
    hide InOrder, Grown, Supplied, SuppliedNow, ElementHashes, AppendBlocks, ContentAddressed;
    ghost var v := log.entryIndex.Visible();
    NothingDelivered(log, universe);
    for i := 0 to |deliveries|
      invariant InOrder(log, universe) && Grown(universe, v, Delivered(deliveries[..i]), log.entryIndex.Visible())
    {
      var d := deliveries[i];
      ghost var v1 := log.entryIndex.Visible();
      assert deliveries[..i + 1][..i] == deliveries[..i];
      assert SuppliedNow(universe, v.Keys, deliveries[..i], d);
      SuppliedByThen(universe, v, deliveries[..i], d, v1);
      var joined := JoinDelivery(log, d, universe, rank);
      if joined.Err? { return joined; }
      GrownComposes(universe, v, Delivered(deliveries[..i]), v1, ElementHashes(d.elements), log.entryIndex.Visible());
    }
    assert deliveries[..|deliveries|] == deliveries;
    return Ok(());
  }

  lemma NothingDelivered(log: Log, universe: Blocks)
    requires InOrder(log, universe) && AppendBlocks(universe)
    ensures Grown(universe, log.entryIndex.Visible(), {}, log.entryIndex.Visible())
  {
    InOrderAgrees(log, universe);
    hide Closed, HeadsExact, Agree, AppendBlocks;
  }

  lemma SuppliedByThen(universe: Blocks, v: View, before: seq<Delivery>, d: Delivery, v1: View)
    requires SuppliedNow(universe, v.Keys, before, d) && Grown(universe, v, Delivered(before), v1)
    ensures Supplied(universe, v1.Keys, d.storage, d.canAppend, d.elements)
  {
    hide Ancestor, HeadsExact, Agree, Carries, Delivered;
  }

  // The theorem on objects: whatever two logs hold at the start, if each joins what makes up for
  // the other, and no join fails, they end with the same entries and the same heads.
  method Converge(a: Log, b: Log, toA: seq<Delivery>, toB: seq<Delivery>, ghost universe: Blocks,
                  ghost rank: Hash -> nat)
    returns (ra: Result<(), JoinError>, rb: Result<(), JoinError>)
    requires a.entryIndex != b.entryIndex && a.hlc != b.hlc
    requires ContentAddressed(universe, rank) && AppendBlocks(universe) && InOrder(a, universe) && InOrder(b, universe)
    requires (forall d :: d in toA ==> d.Agrees(universe)) && (forall d :: d in toB ==> d.Agrees(universe))
    requires SuppliedRun(universe, a.entryIndex.Visible().Keys, toA)
    requires SuppliedRun(universe, b.entryIndex.Visible().Keys, toB)
    requires a.entryIndex.Visible().Keys + Delivered(toA) == b.entryIndex.Visible().Keys + Delivered(toB)
    modifies a.entryIndex, a.hlc, b.entryIndex, b.hlc
    ensures ra.Ok? && rb.Ok? ==> a.entryIndex.Visible() == b.entryIndex.Visible()
    ensures AtHand(toA) && AtHand(toB) ==> ra != Err(MissingBlock) && rb != Err(MissingBlock)
    ensures ra.Err? && ra.error.ClockFailure? ==> Clock.NamesLimit(a.hlc.limits, ra.error.error)
    ensures rb.Err? && rb.error.ClockFailure? ==> Clock.NamesLimit(b.hlc.limits, rb.error.error)
  {
    hide Grown, SuppliedRun, AppendBlocks, ContentAddressed, Closed, HeadsExact, Delivered,
         EntryIndexModel.Buffered, EntryIndexModel.Counted;
    ghost var v, w := a.entryIndex.Visible(), b.entryIndex.Visible();
    InOrderAgrees(a, universe);
    InOrderAgrees(b, universe);
    ra := JoinAll(a, toA, universe, rank);
    ghost var v' := a.entryIndex.Visible();
    rb := JoinAll(b, toB, universe, rank);
    if ra.Ok? && rb.Ok? {
      UnionsConverge(universe, v, Delivered(toA), v', w, Delivered(toB), b.entryIndex.Visible());
    }
  }
}
