// The connection tables of the in-memory network
// (packages/transport/libp2p-test-utils/src/inmemory-libp2p.ts): dialling puts one end of a new
// connection into the table of each peer, closing either end takes both out again. A dial waits
// between its two halves, and so does a close; other operations run in between.
module Connections {
  import opened Wrappers

  type Peer = string

  // One end of a connection: at owner, to remote, of the pair with the given number.
  datatype Connection = Connection(owner: Peer, remote: Peer, pair: nat, first: bool) {
    function Twin(): Connection { Connection(remote, owner, pair, !first) }
  }

  // The ends that one peer has, by the peer at the other end, and the tables of all peers.
  type Table = map<Peer, seq<Connection>>
  type Tables = map<Peer, Table>

  // ----- Tables -----

  predicate NoRepeats(s: seq<Connection>) { forall i, j :: 0 <= i < j < |s| ==> s[i] != s[j] }

  function Row(t: Table, r: Peer): seq<Connection> { if r in t then t[r] else [] }

  function Pushed(t: Table, c: Connection): Table { t[c.remote := Row(t, c.remote) + [c]] }

  function Without(s: seq<Connection>, c: Connection): seq<Connection> {
    if s == [] then [] else if s[0] == c then s[1..] else [s[0]] + Without(s[1..], c)
  }

  function Dropped(t: Table, c: Connection): Table {
    var row := Without(Row(t, c.remote), c);
    if row == [] then t - {c.remote} else t[c.remote := row]
  }

  function WithEnd(t: Tables, c: Connection): (t': Tables)
    requires c.owner in t
    ensures t'.Keys == t.Keys
  {
    t[c.owner := Pushed(t[c.owner], c)]
  }

  function WithoutEnd(t: Tables, c: Connection): (t': Tables)
    requires c.owner in t
    ensures t'.Keys == t.Keys
  {
    t[c.owner := Dropped(t[c.owner], c)]
  }

  predicate Lists(t: Tables, c: Connection) { c.owner in t && c in Row(t[c.owner], c.remote) }

  // Every row is under its own two peers, without repetitions, and not empty.
  predicate Tidy(t: Tables) {
    forall o, r :: o in t && r in t[o] ==> t[o][r] != [] && TidyRow(t[o][r], o, r)
  }

  predicate TidyRow(row: seq<Connection>, o: Peer, r: Peer) {
    NoRepeats(row) && forall c :: c in row ==> c.owner == o && c.remote == r
  }

  lemma AddEnd(t: Tables, c: Connection)
    requires Tidy(t) && c.owner in t && !Lists(t, c)
    ensures Tidy(WithEnd(t, c))
    ensures forall d :: Lists(WithEnd(t, c), d) <==> Lists(t, d) || d == c
  {
  }

  lemma {:induction false} WithoutOne(s: seq<Connection>, c: Connection)
    requires NoRepeats(s)
    ensures NoRepeats(Without(s, c)) && forall d :: d in Without(s, c) <==> d in s && d != c
  {
    if s != [] {
      assert s == [s[0]] + s[1..];
      assert s[0] !in s[1..];
      WithoutOne(s[1..], c);
    }
  }

  lemma DropEnd(t: Tables, c: Connection)
    requires Tidy(t) && c.owner in t
    ensures Tidy(WithoutEnd(t, c))
    ensures forall d :: Lists(WithoutEnd(t, c), d) <==> Lists(t, d) && d != c
  {
    var row := Row(t[c.owner], c.remote);
    WithoutOne(row, c);
    assert row != [] ==> TidyRow(row, c.owner, c.remote);
  }

  // ----- Pairs -----

  // made holds the first end of every pair ever made, at the pair's number.
  predicate Made(made: seq<Connection>, c: Connection) {
    c.pair < |made| && made[c.pair] == if c.first then c else c.Twin()
  }

  // Every pair joins two different peers.
  ghost predicate Numbered(made: seq<Connection>, peers: set<Peer>) {
    forall n: nat :: n < |made| ==> Made(made, made[n]) && made[n].pair == n && made[n].first && Joins(made[n], peers)
  }

  predicate Joins(c: Connection, peers: set<Peer>) {
    c.owner in peers && c.remote in peers && c.owner != c.remote
  }

  // Both ends of a live pair are in the tables, and no other connection is.
  ghost predicate ListsLive(t: Tables, made: seq<Connection>, live: set<nat>) {
    forall c :: Lists(t, c) <==> Made(made, c) && c.pair in live
  }

  // An end is open until its pair starts to close, and so is its twin.
  ghost predicate InStep(made: seq<Connection>, open: set<Connection>, closing: set<nat>) {
    forall c :: c in open <==> Made(made, c) && c.pair !in closing
  }

  // A closing pair stays in the tables until its first close resumes.
  ghost predicate Phased(pairs: nat, closing: set<nat>, resuming: set<nat>, live: set<nat>) {
    && resuming <= live
    && forall n: nat :: (n < pairs <==> n in live || n in closing) && (n in live && n in closing <==> n in resuming)
  }

  // Two peers have at most one open connection.
  ghost predicate OneOpen(made: seq<Connection>, open: set<Connection>) {
    forall c, d :: c in open && d in open && c.owner == d.owner && c.remote == d.remote ==> c == d
  }

  predicate Known(dials: seq<(Peer, Peer)>, peers: set<Peer>) {
    forall d :: d in dials ==> d.0 in peers && d.1 in peers
  }

  // A connection and its twin are in the tables of the two peers together, with the same status.
  lemma TwinsAreListed(t: Tables, made: seq<Connection>, live: set<nat>, open: set<Connection>, closing: set<nat>,
                       c: Connection)
    requires ListsLive(t, made, live) && InStep(made, open, closing) && Lists(t, c)
    ensures Lists(t, c.Twin()) && (c in open <==> c.Twin() in open)
  {
    assert Made(made, c.Twin());
  }

  lemma AddPair(t: Tables, made: seq<Connection>, live: set<nat>, a: Connection)
    requires Tidy(t) && ListsLive(t, made, live) && a.owner in t && a.remote in t
    requires a.pair == |made| && a.first && forall n :: n in live ==> n < |made|
    ensures var t' := WithEnd(WithEnd(t, a), a.Twin());
      Tidy(t') && ListsLive(t', made + [a], live + {|made|}) && Lists(t', a)
  {
    hide Tidy, WithEnd, Lists;
    AddEnd(t, a);
    AddEnd(WithEnd(t, a), a.Twin());
  }

  lemma DropPair(t: Tables, made: seq<Connection>, live: set<nat>, a: Connection)
    requires Tidy(t) && ListsLive(t, made, live) && a.owner in t && a.remote in t && Made(made, a)
    ensures var t' := WithoutEnd(WithoutEnd(t, a), a.Twin());
      Tidy(t') && ListsLive(t', made, live - {a.pair})
  {
    hide Tidy, WithoutEnd, Lists;
    DropEnd(t, a);
    DropEnd(WithoutEnd(t, a), a.Twin());
  }

  lemma RowIsListed(t: Tables, o: Peer, r: Peer, c: Connection)
    requires Tidy(t) && o in t && c in Row(t[o], r)
    ensures c.owner == o && c.remote == r && Lists(t, c)
  {
    assert TidyRow(t[o][r], o, r);
  }

  // An open connection is in the tables.
  lemma OpenIsListed(t: Tables, made: seq<Connection>, open: set<Connection>, closing: set<nat>, resuming: set<nat>,
                     live: set<nat>, c: Connection)
    requires ListsLive(t, made, live) && InStep(made, open, closing) && Phased(|made|, closing, resuming, live)
    requires c in open
    ensures Lists(t, c) && Made(made, c)
  {
    assert Made(made, c) && c.pair !in closing;
  }

  lemma NeverToItself(made: seq<Connection>, peers: set<Peer>, c: Connection)
    requires Numbered(made, peers) && Made(made, c)
    ensures Joins(c, peers)
  {
    assert Joins(made[c.pair], peers);
  }

  lemma NumberNext(made: seq<Connection>, peers: set<Peer>, a: Connection)
    requires Numbered(made, peers) && a.pair == |made| && a.first && a.owner in peers && a.remote in peers
    ensures Numbered(made + [a], peers) <==> a.owner != a.remote
  {
    var made' := made + [a];
    assert made'[|made|] == a;
    forall n: nat | n < |made'| && a.owner != a.remote
      ensures Made(made', made'[n]) && made'[n].pair == n && made'[n].first && Joins(made'[n], peers)
    {
      assert n < |made| ==> Made(made, made[n]);
    }
  }

  lemma PhaseNext(pairs: nat, closing: set<nat>, resuming: set<nat>, live: set<nat>)
    requires Phased(pairs, closing, resuming, live)
    ensures pairs !in live && pairs !in closing && Phased(pairs + 1, closing, resuming, live + {pairs})
    ensures forall n :: n in live || n in closing ==> n < pairs
  {
    assert pairs !in live && pairs !in closing;
  }

  // With no open connection from o to r, a new one is the only one between them.
  lemma OpenPair(made: seq<Connection>, open: set<Connection>, closing: set<nat>, a: Connection)
    requires InStep(made, open, closing) && OneOpen(made, open)
    requires a.pair == |made| && a.first && forall n :: n in closing ==> n < |made|
    requires forall c :: c in open ==> c.owner != a.owner || c.remote != a.remote
    ensures InStep(made + [a], open + {a, a.Twin()}, closing)
    ensures OneOpen(made + [a], open + {a, a.Twin()}) <==> a.owner != a.remote
  {
    forall c | c in open ensures c.owner != a.remote || c.remote != a.owner {
      assert Made(made, c.Twin());
    }
    assert a != a.Twin();
  }

  // ----- The network -----

  class Network {
    // The connection tables of the peers' managers.
    var tables: Tables
    // The connections whose status is open.
    var open: set<Connection>
    // Pairs with a close under way or done, and those whose close waits to go on.
    var closing: set<nat>
    var resuming: set<nat>
    // Dials that wait, each from its first peer to its second one.
    var dialQueue: seq<(Peer, Peer)>
    var offline: set<Peer>
    var dials: nat
    var connectionsOpened: nat
    var connectionsClosed: nat
    // The first ends of all pairs ever made, and the pairs whose ends are still in the tables.
    var made: seq<Connection>
    ghost var live: set<nat>

    ghost predicate Valid()
      reads this
    {
      && Tidy(tables) && Numbered(made, tables.Keys) && ListsLive(tables, made, live)
      && InStep(made, open, closing) && Phased(|made|, closing, resuming, live) && OneOpen(made, open)
      && Counted() && Known(dialQueue, tables.Keys)
    }

    // Every pair is counted when it is made, and again when it has left the tables.
    ghost predicate Counted()
      reads `made, `live, `connectionsOpened, `connectionsClosed
    {
      connectionsOpened == |made| == connectionsClosed + |live|
    }

    constructor (peers: set<Peer>)
      ensures Valid() && tables.Keys == peers && made == [] && dialQueue == []
    {
      tables := map o | o in peers :: map[];
      open, closing, resuming, dialQueue, offline := {}, {}, {}, [], {};
      dials, connectionsOpened, connectionsClosed := 0, 0, 0;
      made, live := [], {};
    }

    method FindOpen(o: Peer, r: Peer) returns (found: Option<Connection>)
      requires o in tables
      ensures found.Some? ==> found.value in Row(tables[o], r) && found.value in open
      ensures found.None? ==> forall c :: c in Row(tables[o], r) ==> c !in open
    {
      if r !in tables[o] { return None; }
      var conns := tables[o][r];
      for i := 0 to |conns|
        invariant forall j :: 0 <= j < i ==> conns[j] !in open
      {
        if conns[i] in open { return Some(conns[i]); }
      }
      return None;
    }

    method Push(c: Connection)
      requires c.owner in tables
      modifies `tables
      ensures tables == WithEnd(old(tables), c)
    {
      var conns := if c.remote in tables[c.owner] then tables[c.owner][c.remote] else [];
      tables := tables[c.owner := tables[c.owner][c.remote := conns + [c]]];
    }

    lemma NoneOpen(o: Peer, r: Peer)
      requires Valid() && o in tables && forall c :: c in Row(tables[o], r) ==> c !in open
      ensures forall c :: c in open ==> c.owner != o || c.remote != r
    {
      hide Tidy, ListsLive, InStep, Phased, OneOpen, Numbered;
      forall c | c in open ensures c.owner != o || c.remote != r {
        OpenIsListed(tables, made, open, closing, resuming, live, c);
      }
    }

    // InMemoryConnectionManager._connectTo. A dial from a peer to itself breaks the pairing.
    method ConnectTo(o: Peer, r: Peer) returns (c: Connection)
      requires Valid() && o in tables && r in tables
      modifies `tables, `open, `made, `live, `dials, `connectionsOpened
      ensures Valid() <==> o != r
      ensures OneOpen(made, open) <==> o != r
      ensures c.owner == o && c.remote == r && c in open && Lists(tables, c) && Made(made, c)
      ensures if exists d :: d in old(open) && d.owner == o && d.remote == r then unchanged(this)
              else && made == old(made) + [c] && open == old(open) + {c, c.Twin()} && live == old(live) + {c.pair}
                   && tables == WithEnd(WithEnd(old(tables), c), c.Twin()) && dials == old(dials) + 1
      ensures tables.Keys == old(tables.Keys)
    {
      hide Tidy, ListsLive, InStep, Phased, OneOpen, Numbered, WithEnd, Lists, Known;
      var existing := FindOpen(o, r);
      if existing.Some? {
        c := existing.value;
        RowIsListed(tables, o, r, c);
        OpenIsListed(tables, made, open, closing, resuming, live, c);
        NeverToItself(made, tables.Keys, c);
        return;
      }
      NoneOpen(o, r);
      PhaseNext(|made|, closing, resuming, live);
      c := Connection(o, r, connectionsOpened, true);
      AddPair(tables, made, live, c);
      NumberNext(made, tables.Keys, c);
      OpenPair(made, open, closing, c);
      Link(c);
    }

    // Puts both ends of a new pair into the tables and counts it.
    method Link(c: Connection)
      requires c.owner in tables && c.remote in tables
      modifies `tables, `open, `made, `live, `dials, `connectionsOpened
      ensures tables == WithEnd(WithEnd(old(tables), c), c.Twin())
      ensures open == old(open) + {c, c.Twin()} && made == old(made) + [c] && live == old(live) + {c.pair}
      ensures connectionsOpened == old(connectionsOpened) + 1 && dials == old(dials) + 1
    {
      hide WithEnd;
      Push(c);
      Push(c.Twin());
      open := open + {c, c.Twin()};
      dials := dials + 1;
      connectionsOpened := connectionsOpened + 1;
      made, live := made + [c], live + {c.pair};
    }

    // InMemoryConnectionManager.openConnection up to its first wait. None means that the dial waits.
    method StartDial(o: Peer, r: Peer) returns (c: Result<Option<Connection>, string>)
      requires Valid() && o in tables
      modifies `dialQueue
      ensures Valid()
      ensures c.Err? <==> o in offline || r !in tables || r in offline
      ensures c.Ok? && c.value.Some? ==> c.value.value in open && c.value.value.owner == o && c.value.value.remote == r
      ensures c.Ok? && c.value.None? ==> forall d :: d in open ==> d.owner != o || d.remote != r
      ensures dialQueue == old(dialQueue) + if c.Ok? && c.value.None? then [(o, r)] else []
    {
      if o in offline { return Err("Peer is offline"); }
      if r !in tables { return Err("No dialable address"); }
      if r in offline { return Err("Peer is offline"); }
      hide Tidy, ListsLive, InStep, Phased, OneOpen, Numbered, Lists;
      var existing := FindOpen(o, r);
      if existing.Some? {
        RowIsListed(tables, o, r, existing.value);
        return Ok(existing);
      }
      NoneOpen(o, r);
      dialQueue := dialQueue + [(o, r)];
      return Ok(None);
    }

    // The rest of that dial. Another dial may have connected the two peers in between.
    method FinishDial(i: nat) returns (c: Connection)
      requires Valid() && i < |dialQueue|
      modifies `tables, `open, `made, `live, `dials, `connectionsOpened, `dialQueue
      ensures Valid() <==> old(dialQueue[i].0 != dialQueue[i].1)
      ensures c.owner == old(dialQueue[i].0) && c.remote == old(dialQueue[i].1) && c in open && Lists(tables, c)
      ensures dialQueue == old(dialQueue[..i] + dialQueue[i + 1..]) && tables.Keys == old(tables.Keys)
    {
      hide Tidy, ListsLive, InStep, Phased, OneOpen, Numbered, Lists;
      var (o, r) := dialQueue[i];
      c := ConnectTo(o, r);
      dialQueue := dialQueue[..i] + dialQueue[i + 1..];
    }

    // ----- Closing -----

    method CloseLocal(c: Connection)
      modifies `open
      ensures open == old(open) - {c}
    {
      if c !in open { return; }
      open := open - {c};
    }

    // InMemoryConnection.close up to its first wait: InMemoryConnectionPair.close sets both ends to
    // closed. A later close of either end finds the first one under way.
    method StartClose(c: Connection)
      requires Valid() && Made(made, c)
      modifies `open, `closing, `resuming
      ensures Valid() && c !in open && c.Twin() !in open
      ensures open == old(open) - {c, c.Twin()} && closing == old(closing) + {c.pair}
      ensures resuming == old(resuming) + if c.pair in old(closing) then {} else {c.pair}
    {
      hide Tidy, ListsLive, InStep, Phased, OneOpen, Numbered, Made;
      ClosePair(made, open, closing, resuming, live, c);
      if c.pair in closing { return; }
      CloseLocal(c);
      CloseLocal(c.Twin());
      assert open == old(open) - {c, c.Twin()};
      closing := closing + {c.pair};
      resuming := resuming + {c.pair};
    }

    // Takes one end out of its owner's table, and the row with it when nothing is left in it.
    method RemoveConnectionInstance(c: Connection)
      requires Tidy(tables) && c.owner in tables
      modifies `tables
      ensures tables == WithoutEnd(old(tables), c)
    {
      var o, r := c.owner, c.remote;
      if r !in tables[o] {
        assert tables[o] - {r} == tables[o];
        return;
      }
      var conns := RemoveFirst(tables[o][r], c);
      assert tables[o][r] == conns ==> tables[o][r := conns] == tables[o];
      tables := tables[o := if conns == [] then tables[o] - {r} else tables[o][r := conns]];
    }

    // The rest of that close: both ends leave the tables, and the close is counted.
    method FinishClose(n: nat)
      requires Valid() && n in resuming
      modifies `tables, `connectionsClosed, `resuming, `live
      ensures Valid() && tables.Keys == old(tables.Keys)
      ensures resuming == old(resuming) - {n} && live == old(live) - {n}
    {
      hide Tidy, ListsLive, InStep, Phased, OneOpen, Numbered, WithoutEnd;
      ResumePair(made, tables.Keys, closing, resuming, live, n);
      var a := made[n];
      DropPair(tables, made, live, a);
      DropEnd(tables, a);
      RemoveConnectionInstance(a);
      RemoveConnectionInstance(a.Twin());
      connectionsClosed := connectionsClosed + 1;
      resuming, live := resuming - {n}, live - {n};
    }
  }

  lemma {:induction false} WithoutSkips(s: seq<Connection>, c: Connection, k: nat)
    requires k <= |s| && forall j :: 0 <= j < k ==> s[j] != c
    ensures Without(s, c) == s[..k] + Without(s[k..], c)
  {
    if k == 0 {
      assert s[0..] == s;
    } else {
      WithoutSkips(s[1..], c, k - 1);
      assert s[1..][k - 1..] == s[k..] && [s[0]] + s[1..][..k - 1] == s[..k];
    }
  }

  // indexOf and splice.
  method RemoveFirst(conns: seq<Connection>, c: Connection) returns (rest: seq<Connection>)
    ensures rest == Without(conns, c)
  {
    hide Without;
    var idx := 0;
    while idx < |conns| && conns[idx] != c
      invariant idx <= |conns| && forall j :: 0 <= j < idx ==> conns[j] != c
    {
      idx := idx + 1;
    }
    WithoutSkips(conns, c, idx);
    WithoutFirst(conns[idx..], c);
    if idx == |conns| {
      return conns;
    }
    rest := conns[..idx] + conns[idx + 1..];
  }

  lemma WithoutFirst(s: seq<Connection>, c: Connection)
    ensures s == [] ==> Without(s, c) == []
    ensures s != [] && s[0] == c ==> Without(s, c) == s[1..]
  {
  }

  lemma ClosePair(made: seq<Connection>, open: set<Connection>, closing: set<nat>, resuming: set<nat>, live: set<nat>,
                  c: Connection)
    requires InStep(made, open, closing) && Phased(|made|, closing, resuming, live) && OneOpen(made, open)
    requires Made(made, c)
    ensures c.pair in closing ==>
              c !in open && c.Twin() !in open && open == open - {c, c.Twin()} && closing == closing + {c.pair}
    ensures InStep(made, open - {c, c.Twin()}, closing + {c.pair}) && OneOpen(made, open - {c, c.Twin()})
    ensures c.pair !in closing ==> Phased(|made|, closing + {c.pair}, resuming + {c.pair}, live)
  {
    assert Made(made, c.Twin());
    forall d | Made(made, d) && d.pair == c.pair ensures d == c || d == c.Twin() {
    }
  }

  lemma ResumePair(made: seq<Connection>, peers: set<Peer>, closing: set<nat>, resuming: set<nat>, live: set<nat>,
                   n: nat)
    requires Numbered(made, peers) && Phased(|made|, closing, resuming, live) && n in resuming
    ensures n < |made| && n in live && made[n].pair == n && Made(made, made[n]) && Joins(made[n], peers)
    ensures Phased(|made|, closing, resuming - {n}, live - {n})
  {
    assert n in live && n in closing;
  }

  // ----- Runs -----

  // What the event loop does next: a step that does not apply is skipped.
  datatype Step =
    | StartDial(from: Peer, to: Peer)
    | FinishDial(dial: nat)
    | StartClose(pair: nat, first: bool)
    | FinishClose(pair: nat)
    | SetOffline(peer: Peer, offline: bool)

  // However dials to other peers and closes of either end are interleaved, connections stay paired.
  method Run(peers: set<Peer>, steps: seq<Step>) returns (net: Network)
    requires forall s :: s in steps && s.StartDial? ==> s.from != s.to
    ensures fresh(net) && net.Valid() && net.tables.Keys == peers
    ensures forall c :: Lists(net.tables, c) ==>
              Lists(net.tables, c.Twin()) && (c in net.open <==> c.Twin() in net.open)
    ensures forall c :: c in net.open ==> Lists(net.tables, c)
    ensures OneOpen(net.made, net.open)
    ensures net.connectionsOpened - net.connectionsClosed
         == |set n | 0 <= n < |net.made| && Lists(net.tables, net.made[n])|
  {
    hide Tidy, ListsLive, InStep, Phased, OneOpen, Numbered, Lists, Made;
    net := new Network(peers);
    for i := 0 to |steps|
      invariant fresh(net) && net.Valid() && net.tables.Keys == peers
      invariant forall d :: d in net.dialQueue ==> d.0 != d.1
    {
      match steps[i] {
        case StartDial(o, r) =>
          if o in peers { var _ := net.StartDial(o, r); }
        case FinishDial(k) =>
          if k < |net.dialQueue| { var _ := net.FinishDial(k); }
        case StartClose(n, first) =>
          if n < |net.made| {
            EndsAreMade(net.made, net.tables.Keys, n);
            net.StartClose(if first then net.made[n] else net.made[n].Twin());
          }
        case FinishClose(n) =>
          if n in net.resuming { net.FinishClose(n); }
        case SetOffline(p, b) =>
          net.offline := if b then net.offline + {p} else net.offline - {p};
      }
    }
    forall c | Lists(net.tables, c) ensures Lists(net.tables, c.Twin()) && (c in net.open <==> c.Twin() in net.open) {
      TwinsAreListed(net.tables, net.made, net.live, net.open, net.closing, c);
    }
    forall c | c in net.open ensures Lists(net.tables, c) {
      OpenIsListed(net.tables, net.made, net.open, net.closing, net.resuming, net.live, c);
    }
    LiveAreListed(net.tables, net.made, net.closing, net.resuming, net.live, peers);
  }

  lemma EndsAreMade(made: seq<Connection>, peers: set<Peer>, n: nat)
    requires Numbered(made, peers) && n < |made|
    ensures Made(made, made[n]) && Made(made, made[n].Twin()) && made[n].pair == n
  {
  }

  lemma LiveAreListed(t: Tables, made: seq<Connection>, closing: set<nat>, resuming: set<nat>, live: set<nat>,
                      peers: set<Peer>)
    requires Numbered(made, peers) && ListsLive(t, made, live) && Phased(|made|, closing, resuming, live)
    ensures live == set n | 0 <= n < |made| && Lists(t, made[n])
  {
    hide Lists;
    forall n: nat ensures n in live <==> n < |made| && Lists(t, made[n]) {
      if n < |made| { EndsAreMade(made, peers, n); }
    }
  }
}
