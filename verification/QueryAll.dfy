// queryAll (packages/programs/rpc/src/utils.ts): ask one member of every group per round, moving on
// through the members until one of them answers.
//
// The environment is a function from the round to the peers whose responses arrive in it.
module QueryAll {
  type Peer = string

  type Groups = seq<seq<Peer>>

  predicate NoRepeats(g: seq<Peer>) { forall i, j :: 0 <= i < j < |g| ==> g[i] != g[j] }

  predicate Apart(a: seq<Peer>, b: seq<Peer>) { forall p :: p in a ==> p !in b }

  // Groups as queryAll is meant to get them.
  predicate Disjoint(groups: Groups) { forall i, j :: 0 <= i < j < |groups| ==> Apart(groups[i], groups[j]) }

  // ----- The reference: round by round -----

  function Member(g: seq<Peer>, rng: nat): Peer
    requires g != []
  {
    g[rng % |g|]
  }

  // The member of g that is asked in round k.
  function Asked(g: seq<Peer>, start: nat, k: nat): Peer
    requires g != []
  {
    Member(g, start + k)
  }

  // Some member of g answered when it was asked, before round k.
  ghost predicate Answered(g: seq<Peer>, start: nat, respond: nat -> seq<Peer>, k: nat)
    requires g != []
  {
    exists j: nat :: j < k && Asked(g, start, j) in respond(j)
  }

  // Still being asked in round k: not answered yet, and not every member asked.
  ghost predicate Live(g: seq<Peer>, start: nat, respond: nat -> seq<Peer>, k: nat)
    requires g != []
  {
    k < |g| && !Answered(g, start, respond, k)
  }

  // Given up: every member was asked once and none answered.
  ghost predicate Lost(g: seq<Peer>, start: nat, respond: nat -> seq<Peer>)
    requires g != []
  {
    !Answered(g, start, respond, |g|)
  }

  predicate NonEmpty(groups: Groups) { forall g :: g in groups ==> g != [] }

  ghost function LiveGroups(groups: Groups, start: nat, respond: nat -> seq<Peer>, k: nat): (live: Groups)
    requires NonEmpty(groups)
    ensures NonEmpty(live) && forall g :: g in live <==> g in groups && Live(g, start, respond, k)
  {
    if groups == [] then []
    else
      var front, last := groups[..|groups| - 1], groups[|groups| - 1];
      assert last in groups && forall g :: g in groups <==> g in front || g == last;
      LiveGroups(front, start, respond, k) + (if Live(last, start, respond, k) then [last] else [])
  }

  function AskedPeers(groups: Groups, start: nat, k: nat): seq<Peer>
    requires NonEmpty(groups)
  {
    seq(|groups|, i requires 0 <= i < |groups| => assert groups[i] in groups; Asked(groups[i], start, k))
  }

  // The groups that do not contain the asking peer.
  function Others(groups: Groups, self: Peer): (others: Groups)
    ensures forall g :: g in others <==> g in groups && self !in g
  {
    if groups == [] then []
    else
      var front, last := groups[..|groups| - 1], groups[|groups| - 1];
      assert forall g :: g in groups <==> g in front || g == last;
      Others(front, self) + (if self in last then [] else [last])
  }

  // All of them, in their order and as often as they are given.
  lemma OthersOf(front: Groups, g: seq<Peer>, self: Peer)
    ensures Others([], self) == []
    ensures Others(front + [g], self) == if self in g then Others(front, self) else Others(front, self) + [g]
  {
    assert (front + [g])[..|front|] == front;
  }

  function MaxLength(groups: Groups): nat {
    if groups == [] then 0
    else
      var front, last := MaxLength(groups[..|groups| - 1]), |groups[|groups| - 1]|;
      if front < last then last else front
  }

  lemma {:induction false} MaxLengthBounds(groups: Groups)
    ensures forall g :: g in groups ==> |g| <= MaxLength(groups)
  {
    if groups != [] {
      MaxLengthBounds(groups[..|groups| - 1]);
      assert groups == groups[..|groups| - 1] + [groups[|groups| - 1]];
    }
  }

  // ----- Positions modulo the length of a group -----

  lemma {:induction false} Multiples(n: nat, a: nat, b: nat)
    requires a < b
    ensures n * a + n <= n * b
    decreases b - a
  {
    assert n * b == n * (b - 1) + n;
    if a + 1 < b {
      Multiples(n, a, b - 1);
    }
  }

  lemma {:induction false} DivModUnique(x: nat, n: nat, q: nat, r: nat)
    requires n > 0 && r < n && x == n * q + r
    ensures x % n == r
  {
    var q', r' := x / n, x % n;
    assert x == n * q' + r' && r' < n;
    if q > q' {
      Multiples(n, q', q);
    } else if q < q' {
      Multiples(n, q, q');
    }
  }

  // Moving d steps on, at most once around.
  lemma {:induction false} ModAdd(start: nat, d: nat, n: nat)
    requires n > 0 && d <= n
    ensures (start + d) % n == if start % n + d < n then start % n + d else start % n + d - n
  {
    var q, r := start / n, start % n;
    if r + d < n {
      DivModUnique(start + d, n, q, r + d);
    } else {
      assert n * (q + 1) == n * q + n;
      DivModUnique(start + d, n, q + 1, r + d - n);
    }
  }

  // The first return to the starting position is after exactly n steps.
  lemma BackAtStart(start: nat, d: nat, n: nat)
    requires 0 < d <= n
    ensures (start + d) % n == start % n <==> d == n
  {
    ModAdd(start, d, n);
  }

  // ----- One round -----

  // The positions of the peers that did not respond.
  function Silent(peers: seq<Peer>, results: seq<Peer>): set<nat> {
    set i | 0 <= i < |peers| && peers[i] !in results
  }

  // Of each group the member at this position, around the group.
  ghost predicate AtPosition(groups: Groups, rng: nat, peers: seq<Peer>) {
    |peers| == |groups|
    && forall i :: 0 <= i < |groups| ==> groups[i] != [] && peers[i] == groups[i][rng % |groups[i]|]
  }

  // One member per group, and the group it was chosen for: of several groups, the last one.
  method ChoosePeers(groups: Groups, rng: nat) returns (peers: seq<Peer>, indexOf: map<Peer, nat>)
    requires NonEmpty(groups)
    ensures peers == AskedPeers(groups, rng, 0) && LastIndices(peers, indexOf)
    ensures AtPosition(groups, rng, peers)
  {
    peers, indexOf := [], map[];
    for i := 0 to |groups|
      invariant |peers| == i && forall j :: 0 <= j < i ==> groups[j] != [] && peers[j] == Member(groups[j], rng)
      invariant LastIndices(peers, indexOf)
    {
      var group := groups[i];
      assert group in groups;
      var peer := group[rng % |group|];
      assert peer == Member(group, rng);
      peers := peers + [peer];
      indexOf := indexOf[peer := i];
    }
  }

  // Every peer that was chosen is mapped to the last position it was chosen for.
  ghost predicate LastIndices(peers: seq<Peer>, indexOf: map<Peer, nat>) {
    && (forall i :: 0 <= i < |peers| ==> peers[i] in indexOf)
    && (forall p :: p in indexOf ==> IsLast(peers, indexOf[p]) && peers[indexOf[p]] == p)
  }

  predicate IsLast(peers: seq<Peer>, i: nat) { i < |peers| && forall j :: i < j < |peers| ==> peers[j] != peers[i] }

  // The groups whose chosen member did not respond.
  method WithoutResponders(peers: seq<Peer>, indexOf: map<Peer, nat>, results: seq<Peer>) returns (left: set<nat>)
    requires LastIndices(peers, indexOf)
    ensures left == LastSilent(peers, results)
  {
    var remaining := indexOf;
    for r := 0 to |results|
      invariant remaining.Keys == (set p | p in indexOf && p !in results[..r])
      invariant forall p :: p in remaining ==> remaining[p] == indexOf[p]
    {
      assert results[..r + 1] == results[..r] + [results[r]];
      remaining := remaining - {results[r]};
    }
    assert results[..|results|] == results;
    left := set p | p in remaining :: remaining[p];
    forall i: nat ensures i in left <==> i in LastSilent(peers, results) {
      if i in left {
        var p :| p in remaining && remaining[p] == i;
      }
      if i in LastSilent(peers, results) {
        SameLast(peers, i, indexOf[peers[i]]);
        assert peers[i] in remaining && remaining[peers[i]] == i;
      }
    }
  }

  lemma SameLast(peers: seq<Peer>, i: nat, j: nat)
    requires IsLast(peers, i) && IsLast(peers, j) && peers[i] == peers[j]
    ensures i == j
  {
  }

  // The positions that are left: those of silent peers, but only the last one for each peer.
  function LastSilent(peers: seq<Peer>, results: seq<Peer>): set<nat> {
    set i | 0 <= i < |peers| && peers[i] !in results && IsLast(peers, i)
  }

  // A peer chosen for two groups drops the earlier one, as if it had been answered.  So answers
  // are told apart exactly if the chosen peers are all different.
  lemma AnswersToldApart(peers: seq<Peer>)
    ensures (forall results :: LastSilent(peers, results) == Silent(peers, results)) <==> NoRepeats(peers)
  {
    if NoRepeats(peers) {
      forall i: nat | i < |peers| ensures IsLast(peers, i) {
      }
    } else {
      var i, j :| 0 <= i < j < |peers| && peers[i] == peers[j];
      assert i in Silent(peers, []) && i !in LastSilent(peers, []);
    }
  }

  // Disjoint groups choose different peers.
  lemma DisjointChooseApart(groups: Groups, start: nat, k: nat)
    requires Disjoint(groups) && NonEmpty(groups)
    ensures NoRepeats(AskedPeers(groups, start, k))
  {
    var peers := AskedPeers(groups, start, k);
    forall i, j | 0 <= i < j < |peers| ensures peers[i] != peers[j] {
      AskedAt(groups, start, k, i);
      AskedAt(groups, start, k, j);
      assert Apart(groups[i], groups[j]);
      MemberIsMember(groups[i], start + k);
      MemberIsMember(groups[j], start + k);
    }
  }

  lemma MemberIsMember(g: seq<Peer>, rng: nat)
    requires g != []
    ensures Member(g, rng) in g
  {
  }

  lemma AskedAt(groups: Groups, start: nat, k: nat, i: nat)
    requires NonEmpty(groups) && i < |groups|
    ensures |AskedPeers(groups, start, k)| == |groups| && groups[i] != []
    ensures AskedPeers(groups, start, k)[i] == Asked(groups[i], start, k)
  {
    assert groups[i] in groups;
  }

  lemma AskedLater(groups: Groups, start: nat, k: nat)
    requires NonEmpty(groups)
    ensures AskedPeers(groups, start + k, 0) == AskedPeers(groups, start, k)
  {
    forall i | 0 <= i < |groups| ensures AskedPeers(groups, start + k, 0)[i] == AskedPeers(groups, start, k)[i] {
      AskedAt(groups, start + k, 0, i);
      AskedAt(groups, start, k, i);
    }
  }

  // A group that is live in round k drops out if it is answered then or was asked up to its last member.
  lemma NextFate(g: seq<Peer>, start: nat, respond: nat -> seq<Peer>, k: nat)
    requires g != [] && Live(g, start, respond, k)
    ensures Answered(g, start, respond, k + 1) <==> Asked(g, start, k) in respond(k)
    ensures Live(g, start, respond, k + 1) <==> Asked(g, start, k) !in respond(k) && |g| != k + 1
  {
    AnsweredNext(g, start, respond, k);
  }

  // ----- Rounds of the reference -----

  lemma AnsweredNext(g: seq<Peer>, start: nat, respond: nat -> seq<Peer>, k: nat)
    requires g != []
    ensures Answered(g, start, respond, k + 1) <==> Answered(g, start, respond, k) || Asked(g, start, k) in respond(k)
  {
    if Answered(g, start, respond, k) {
      var j: nat :| j < k && Asked(g, start, j) in respond(j);
      assert j < k + 1;
    }
  }

  lemma AnsweredStays(g: seq<Peer>, start: nat, respond: nat -> seq<Peer>, k: nat, k': nat)
    requires g != [] && k <= k'
    ensures Answered(g, start, respond, k) ==> Answered(g, start, respond, k')
  {
    if j: nat :| j < k && Asked(g, start, j) in respond(j) {
      assert j < k';
    }
  }

  lemma {:induction false} EveryoneStarts(groups: Groups, start: nat, respond: nat -> seq<Peer>)
    requires NonEmpty(groups)
    ensures LiveGroups(groups, start, respond, 0) == groups
  {
    if groups != [] {
      var front, last := groups[..|groups| - 1], groups[|groups| - 1];
      assert groups == front + [last];
      assert last in groups && forall g :: g in front ==> g in groups;
      assert Live(last, start, respond, 0);
      hide Live;
      EveryoneStarts(front, start, respond);
    }
  }

  lemma {:induction false} LiveInTwoSteps(groups: Groups, start: nat, respond: nat -> seq<Peer>, k: nat)
    requires NonEmpty(groups)
    ensures LiveGroups(LiveGroups(groups, start, respond, k), start, respond, k + 1) ==
              LiveGroups(groups, start, respond, k + 1)
  {
    if groups != [] {
      var front, last := groups[..|groups| - 1], groups[|groups| - 1];
      assert last in groups && forall g :: g in front ==> g in groups;
      LiveInTwoSteps(front, start, respond, k);
      AnsweredNext(last, start, respond, k);
      var live := LiveGroups(front, start, respond, k);
      if Live(last, start, respond, k) {
        assert (live + [last])[..|live|] == live;
      } else {
        assert live + [] == live;
      }
    }
  }

  // ----- What the loop keeps -----

  // Of the groups at the positions that are left, those with members to ask in round n, ...
  function Keep(groups: Groups, left: set<nat>, n: nat): Groups {
    if groups == [] then []
    else
      var front, last := groups[..|groups| - 1], groups[|groups| - 1];
      Keep(front, left, n) + (if |front| in left && |last| != n then [last] else [])
  }

  // ... and those without.
  function GiveUp(groups: Groups, left: set<nat>, n: nat): Groups {
    if groups == [] then []
    else
      var front, last := groups[..|groups| - 1], groups[|groups| - 1];
      GiveUp(front, left, n) + (if |front| in left && |last| == n then [last] else [])
  }

  ghost predicate At(groups: Groups, left: set<nat>, g: seq<Peer>) {
    exists i :: 0 <= i < |groups| && i in left && groups[i] == g
  }

  lemma AtSnoc(front: Groups, last: seq<Peer>, left: set<nat>, g: seq<Peer>)
    ensures At(front + [last], left, g) <==> At(front, left, g) || (|front| in left && g == last)
  {
    var groups := front + [last];
    if At(front, left, g) {
      var i :| 0 <= i < |front| && i in left && front[i] == g;
      assert groups[i] == g;
    }
    if |front| in left && g == last {
      assert groups[|front|] == g;
    }
  }

  lemma {:induction false} Divided(groups: Groups, left: set<nat>, n: nat)
    ensures forall g :: g in Keep(groups, left, n) <==> |g| != n && At(groups, left, g)
    ensures forall g :: g in GiveUp(groups, left, n) <==> |g| == n && At(groups, left, g)
  {
    if groups != [] {
      var front, last := groups[..|groups| - 1], groups[|groups| - 1];
      Divided(front, left, n);
      assert groups == front + [last];
      forall g ensures At(groups, left, g) <==> At(front, left, g) || (|front| in left && g == last) {
        AtSnoc(front, last, left, g);
      }
      hide At;
    }
  }

  lemma {:induction false} DividedOnce(groups: Groups, left: set<nat>, n: nat)
    ensures multiset(Keep(groups, left, n)) + multiset(GiveUp(groups, left, n)) <= multiset(groups)
  {
    if groups != [] {
      DividedOnce(groups[..|groups| - 1], left, n);
      assert groups == groups[..|groups| - 1] + [groups[|groups| - 1]];
    }
  }

  // The groups still asked in round k: the one defined by running the loop.
  ghost function Remaining(groups: Groups, start: nat, respond: nat -> seq<Peer>, k: nat): (remaining: Groups)
    requires NonEmpty(groups)
    ensures forall g :: g in remaining ==> g in groups && k < |g|
  {
    if k == 0 then groups
    else
      var before := Remaining(groups, start, respond, k - 1);
      Divided(before, Left(before, start, respond, k - 1), k);
      Keep(before, Left(before, start, respond, k - 1), k)
  }

  // The positions left after round k.
  function Left(groups: Groups, start: nat, respond: nat -> seq<Peer>, k: nat): set<nat>
    requires NonEmpty(groups)
  {
    LastSilent(AskedPeers(groups, start, k), respond(k))
  }

  // The groups reported missing before round k.
  ghost function Reported(groups: Groups, start: nat, respond: nat -> seq<Peer>, k: nat): Groups
    requires NonEmpty(groups)
  {
    if k == 0 then []
    else
      var before := Remaining(groups, start, respond, k - 1);
      Reported(groups, start, respond, k - 1) + GiveUp(before, Left(before, start, respond, k - 1), k)
  }

  // Of the groups asked in round k that chose the same peer as g, g itself is the last.
  ghost predicate LastToChoose(groups: Groups, start: nat, k: nat, g: seq<Peer>)
    requires NonEmpty(groups)
  {
    exists i :: 0 <= i < |groups| && groups[i] == g && IsLast(AskedPeers(groups, start, k), i)
  }

  // So it was in every round before k.
  ghost predicate NeverShadowed(groups: Groups, start: nat, respond: nat -> seq<Peer>, g: seq<Peer>, k: nat)
    requires NonEmpty(groups)
  {
    forall j: nat :: j < k ==> LastToChoose(Remaining(groups, start, respond, j), start, j, g)
  }

  lemma LeftMeans(groups: Groups, start: nat, respond: nat -> seq<Peer>, k: nat, g: seq<Peer>)
    requires NonEmpty(groups)
    ensures At(groups, Left(groups, start, respond, k), g) <==>
              g in groups && LastToChoose(groups, start, k, g) && Asked(g, start, k) !in respond(k)
  {
    hide IsLast, Asked, AskedPeers;
    forall i | 0 <= i < |groups| ensures groups[i] != [] && |AskedPeers(groups, start, k)| == |groups|
                                         && AskedPeers(groups, start, k)[i] == Asked(groups[i], start, k) {
      AskedAt(groups, start, k, i);
    }
  }

  // One round on.
  lemma RoundDivides(groups: Groups, start: nat, respond: nat -> seq<Peer>, k: nat, g: seq<Peer>)
    requires NonEmpty(groups)
    ensures var before := Remaining(groups, start, respond, k);
      var stays := g in before && LastToChoose(before, start, k, g) && Asked(g, start, k) !in respond(k);
      && (g in Remaining(groups, start, respond, k + 1) <==> stays && |g| != k + 1)
      && (g in Reported(groups, start, respond, k + 1) <==>
            g in Reported(groups, start, respond, k) || (stays && |g| == k + 1))
  {
    hide Left, LastToChoose, Asked, Keep, GiveUp, At;
    var before := Remaining(groups, start, respond, k);
    LoopSteps(groups, start, respond, k);
    hide Remaining, Reported;
    Divided(before, Left(before, start, respond, k), k + 1);
    LeftMeans(before, start, respond, k, g);
  }

  lemma NeverShadowedNext(groups: Groups, start: nat, respond: nat -> seq<Peer>, g: seq<Peer>, k: nat)
    requires NonEmpty(groups)
    ensures NeverShadowed(groups, start, respond, g, k + 1) <==>
              NeverShadowed(groups, start, respond, g, k)
              && LastToChoose(Remaining(groups, start, respond, k), start, k, g)
  {
    hide LastToChoose, Remaining;
  }

  // It has members left, none of them answered, and no later group ever chose the same peer.
  ghost predicate StillAsked(groups: Groups, start: nat, respond: nat -> seq<Peer>, g: seq<Peer>, k: nat)
    requires NonEmpty(groups)
  {
    g in groups && Live(g, start, respond, k) && NeverShadowed(groups, start, respond, g, k)
  }

  lemma StillAskedNext(groups: Groups, start: nat, respond: nat -> seq<Peer>, g: seq<Peer>, k: nat)
    requires NonEmpty(groups)
    ensures StillAsked(groups, start, respond, g, k + 1) <==>
              && StillAsked(groups, start, respond, g, k) && |g| != k + 1
              && LastToChoose(Remaining(groups, start, respond, k), start, k, g) && Asked(g, start, k) !in respond(k)
  {
    hide Asked, LastToChoose, Answered, Remaining, NeverShadowed;
    NeverShadowedNext(groups, start, respond, g, k);
    if g in groups { AnsweredNext(g, start, respond, k); }
  }

  lemma StillAskedAtFirst(groups: Groups, start: nat, respond: nat -> seq<Peer>, g: seq<Peer>)
    requires NonEmpty(groups)
    ensures StillAsked(groups, start, respond, g, 0) <==> g in groups
  {
  }

  lemma RemainingNext(groups: Groups, start: nat, respond: nat -> seq<Peer>, k: nat, g: seq<Peer>)
    requires NonEmpty(groups)
    requires g in Remaining(groups, start, respond, k) <==> StillAsked(groups, start, respond, g, k)
    ensures g in Remaining(groups, start, respond, k + 1) <==> StillAsked(groups, start, respond, g, k + 1)
  {
    hide Asked, LastToChoose, StillAsked, Remaining;
    RoundDivides(groups, start, respond, k, g);
    StillAskedNext(groups, start, respond, g, k);
  }

  // Those are exactly the groups that are still asked.
  lemma {:induction false} RemainingExactly(groups: Groups, start: nat, respond: nat -> seq<Peer>, k: nat, g: seq<Peer>)
    requires NonEmpty(groups)
    ensures g in Remaining(groups, start, respond, k) <==> StillAsked(groups, start, respond, g, k)
  {
    hide Asked, LastToChoose, StillAsked, Remaining, NonEmpty;
    if k == 0 {
      LoopStarts(groups, start, respond);
      StillAskedAtFirst(groups, start, respond, g);
    } else {
      RemainingExactly(groups, start, respond, k - 1, g);
      RemainingNext(groups, start, respond, k - 1, g);
    }
  }

  // A group is reported exactly if every member was asked, none answered, and no later group ever
  // chose the same peer.
  lemma {:induction false} ReportedExactly(groups: Groups, start: nat, respond: nat -> seq<Peer>, k: nat, g: seq<Peer>)
    requires NonEmpty(groups)
    ensures g in Reported(groups, start, respond, k) <==>
              g in groups && |g| <= k && Lost(g, start, respond) && NeverShadowed(groups, start, respond, g, |g|)
  {
    hide Asked, LastToChoose, Answered, Remaining, Reported, NeverShadowed;
    if k == 0 {
      LoopStarts(groups, start, respond);
    } else {
      NeverShadowedNext(groups, start, respond, g, k - 1);
      ReportedExactly(groups, start, respond, k - 1, g);
      RemainingExactly(groups, start, respond, k - 1, g);
      RoundDivides(groups, start, respond, k - 1, g);
      if g in groups { AnsweredNext(g, start, respond, k - 1); }
    }
  }

  // With "a" in two groups and no response at all, the first group is never reported, although
  // nobody in it answered, and "b" was not even asked.
  lemma SharedPeerForgetsGroup(respond: nat -> seq<Peer>, k: nat)
    requires forall j :: respond(j) == []
    ensures var groups: Groups := [["a", "b"], ["a"]];
      && NonEmpty(groups) && Lost(groups[0], 0, respond) && groups[0] !in Reported(groups, 0, respond, k)
      && groups[0] !in Remaining(groups, 0, respond, 1)
  {
    hide Remaining, Reported, Asked, AskedPeers, Left;
    var groups: Groups := [["a", "b"], ["a"]];
    SharedPeerIsChosenTwice(groups);
    LoopStarts(groups, 0, respond);
    ReportedExactly(groups, 0, respond, k, groups[0]);
    RoundDivides(groups, 0, respond, 0, groups[0]);
  }

  lemma SharedPeerIsChosenTwice(groups: Groups)
    requires groups == [["a", "b"], ["a"]] && NonEmpty(groups)
    ensures AskedPeers(groups, 0, 0) == ["a", "a"] && !LastToChoose(groups, 0, 0, groups[0])
  {
    AskedAt(groups, 0, 0, 0);
    AskedAt(groups, 0, 0, 1);
    hide AskedPeers;
    var asked := AskedPeers(groups, 0, 0);
    assert asked == ["a", "a"] && asked[0] == asked[1] && groups[0] != groups[1];
  }

  // No group is reported more often than it was given.
  lemma {:induction false} ReportedOnce(groups: Groups, start: nat, respond: nat -> seq<Peer>, k: nat)
    requires NonEmpty(groups)
    ensures var remaining, reported := Remaining(groups, start, respond, k), Reported(groups, start, respond, k);
      multiset(remaining) + multiset(reported) <= multiset(groups)
  {
    hide LastSilent, AskedPeers, Keep, GiveUp, Remaining, Reported;
    LoopStarts(groups, start, respond);
    if k > 0 {
      var before := Remaining(groups, start, respond, k - 1);
      ReportedOnce(groups, start, respond, k - 1);
      LoopSteps(groups, start, respond, k - 1);
      DividedOnce(before, Left(before, start, respond, k - 1), k);
    }
  }

  // ----- Disjoint groups: the loop follows the reference -----

  lemma {:induction false} KeepIsLive(groups: Groups, ix: nat, start: nat, respond: nat -> seq<Peer>, k: nat)
    requires NonEmpty(groups) && ix <= |groups| && NoRepeats(AskedPeers(groups, start, k))
    requires forall g :: g in groups ==> Live(g, start, respond, k)
    ensures NonEmpty(groups[..ix])
    ensures Keep(groups[..ix], Left(groups, start, respond, k), k + 1) ==
              LiveGroups(groups[..ix], start, respond, k + 1)
  {
    hide AskedPeers, Live, Asked, NoRepeats;
    assert forall g :: g in groups[..ix] ==> g in groups;
    if ix > 0 {
      KeepIsLive(groups, ix - 1, start, respond, k);
      var upTo, g := groups[..ix], groups[ix - 1];
      assert upTo[..|upTo| - 1] == groups[..ix - 1] && upTo[|upTo| - 1] == g && g in groups;
      AskedAt(groups, start, k, ix - 1);
      AnswersToldApart(AskedPeers(groups, start, k));
      assert LastSilent(AskedPeers(groups, start, k), respond(k)) == Silent(AskedPeers(groups, start, k), respond(k));
      assert ix - 1 in Left(groups, start, respond, k) <==> Asked(g, start, k) !in respond(k);
      NextFate(g, start, respond, k);
    }
  }

  lemma {:induction false} RemainingIsLive(groups: Groups, start: nat, respond: nat -> seq<Peer>, k: nat)
    requires NonEmpty(groups) && Disjoint(groups)
    ensures Remaining(groups, start, respond, k) == LiveGroups(groups, start, respond, k)
  {
    hide Live, LiveGroups, Remaining, Keep, LastSilent, Disjoint, AskedPeers, NoRepeats;
    if k == 0 {
      LoopStarts(groups, start, respond);
      EveryoneStarts(groups, start, respond);
    } else {
      RemainingIsLive(groups, start, respond, k - 1);
      LoopSteps(groups, start, respond, k - 1);
      var live := LiveGroups(groups, start, respond, k - 1);
      LiveAreDisjoint(groups, start, respond, k - 1);
      DisjointChooseApart(live, start, k - 1);
      KeepIsLive(live, |live|, start, respond, k - 1);
      assert live[..|live|] == live;
      LiveInTwoSteps(groups, start, respond, k - 1);
    }
  }

  lemma {:induction false} LiveAreDisjoint(groups: Groups, start: nat, respond: nat -> seq<Peer>, k: nat)
    requires NonEmpty(groups) && Disjoint(groups)
    ensures Disjoint(LiveGroups(groups, start, respond, k))
  {
    if groups != [] {
      hide Live;
      var front, last := groups[..|groups| - 1], groups[|groups| - 1];
      assert last in groups && forall g :: g in front ==> g in groups;
      forall i, j | 0 <= i < j < |front| ensures Apart(front[i], front[j]) {
        assert Apart(groups[i], groups[j]);
      }
      LiveAreDisjoint(front, start, respond, k);
      var live := LiveGroups(front, start, respond, k);
      forall i | 0 <= i < |live| ensures Apart(live[i], last) {
        assert live[i] in live;
        var x :| 0 <= x < |front| && front[x] == live[i];
        assert Apart(groups[x], groups[|groups| - 1]);
      }
    }
  }

  // ----- When exactly those are missing of which nobody answered -----

  // In round j both groups still have members to ask, and it is the same peer's turn in both.
  ghost predicate Collide(a: seq<Peer>, b: seq<Peer>, start: nat, j: nat) {
    a != b && j < |a| && j < |b| && Asked(a, start, j) == Asked(b, start, j)
  }

  ghost predicate CollisionFreeBelow(groups: Groups, start: nat, n: nat) {
    forall a, b, j: nat :: a in groups && b in groups && j < n ==> !Collide(a, b, start, j)
  }

  // This speaks of the groups and the drawn position alone, and is known before anybody is asked.
  ghost predicate CollisionFree(groups: Groups, start: nat) {
    forall a, b, j: nat :: a in groups && b in groups ==> !Collide(a, b, start, j)
  }

  // Whoever responds, a group of which nobody answers is reported once its members are through.
  ghost predicate KeepsPromise(groups: Groups, start: nat)
    requires NonEmpty(groups)
  {
    forall respond: nat -> seq<Peer>, g ::
      g in groups && Lost(g, start, respond) ==> g in Reported(groups, start, respond, |g|)
  }

  lemma FreeBelow(groups: Groups, start: nat, n: nat)
    requires CollisionFree(groups, start)
    ensures CollisionFreeBelow(groups, start, n)
  {
    hide Collide;
  }

  // Of the positions with one peer there is a last one.
  lemma {:induction false} SomeLast(peers: seq<Peer>, i: nat) returns (l: nat)
    requires i < |peers|
    ensures IsLast(peers, l) && peers[l] == peers[i]
    decreases |peers| - i
  {
    if IsLast(peers, i) {
      l := i;
    } else {
      var j :| i < j < |peers| && peers[j] == peers[i];
      l := SomeLast(peers, j);
    }
  }

  lemma OnlyOneChooses(groups: Groups, start: nat, k: nat, g: seq<Peer>)
    requires NonEmpty(groups) && g in groups && k < |g|
    requires forall h :: h in groups ==> k < |h| && !Collide(g, h, start, k)
    ensures LastToChoose(groups, start, k, g)
  {
    hide Asked, AskedPeers, IsLast;
    var i :| 0 <= i < |groups| && groups[i] == g;
    AskedAt(groups, start, k, i);
    var l := SomeLast(AskedPeers(groups, start, k), i);
    LastIsInside(AskedPeers(groups, start, k), l);
    AskedAt(groups, start, k, l);
    assert groups[l] in groups && !Collide(g, groups[l], start, k);
  }

  lemma LastIsInside(peers: seq<Peer>, l: nat)
    requires IsLast(peers, l)
    ensures l < |peers|
  {
  }

  lemma {:induction false} FreeIsNeverShadowed(groups: Groups, start: nat, respond: nat -> seq<Peer>, n: nat,
                                               g: seq<Peer>, k: nat)
    requires NonEmpty(groups) && CollisionFreeBelow(groups, start, n) && k <= n
    requires g in groups && k <= |g| && !Answered(g, start, respond, k)
    ensures NeverShadowed(groups, start, respond, g, k)
  {
    hide Remaining, Answered, Collide, LastToChoose, NeverShadowed, Asked, NonEmpty;
    if k == 0 {
      StillAskedAtFirst(groups, start, respond, g);
    } else {
      AnsweredStays(g, start, respond, k - 1, k);
      FreeIsNeverShadowed(groups, start, respond, n, g, k - 1);
      FreeStepIsLast(groups, start, respond, n, g, k - 1);
      NeverShadowedNext(groups, start, respond, g, k - 1);
    }
  }

  lemma FreeStepIsLast(groups: Groups, start: nat, respond: nat -> seq<Peer>, n: nat, g: seq<Peer>, k: nat)
    requires NonEmpty(groups) && CollisionFreeBelow(groups, start, n) && k < n
    requires g in groups && k < |g| && !Answered(g, start, respond, k) && NeverShadowed(groups, start, respond, g, k)
    ensures LastToChoose(Remaining(groups, start, respond, k), start, k, g)
  {
    hide Answered, Collide, LastToChoose, NeverShadowed, Asked, NonEmpty, Remaining;
    RemainingExactly(groups, start, respond, k, g);
    RemainingAreNonEmpty(groups, start, respond, k);
    OnlyOneChooses(Remaining(groups, start, respond, k), start, k, g);
  }

  // The first round in which two groups collide.
  lemma {:induction false} FirstCollision(groups: Groups, start: nat, n: nat)
    returns (a: seq<Peer>, b: seq<Peer>, j: nat)
    requires !CollisionFreeBelow(groups, start, n)
    ensures a in groups && b in groups && Collide(a, b, start, j) && CollisionFreeBelow(groups, start, j)
  {
    hide Collide;
    if CollisionFreeBelow(groups, start, n - 1) {
      a, b, j :| a in groups && b in groups && j < n && Collide(a, b, start, j);
      assert j == n - 1;
    } else {
      a, b, j := FirstCollision(groups, start, n - 1);
    }
  }

  // Only one group can be the last to choose a peer, so of two that collide one is shadowed.
  lemma LastToChooseIsUnique(groups: Groups, start: nat, j: nat, a: seq<Peer>, b: seq<Peer>)
    requires NonEmpty(groups) && a != [] && b != [] && Asked(a, start, j) == Asked(b, start, j)
    requires LastToChoose(groups, start, j, a) && LastToChoose(groups, start, j, b)
    ensures a == b
  {
    hide AskedPeers, Asked;
    var i :| 0 <= i < |groups| && groups[i] == a && IsLast(AskedPeers(groups, start, j), i);
    var l :| 0 <= l < |groups| && groups[l] == b && IsLast(AskedPeers(groups, start, j), l);
    AskedAt(groups, start, j, i);
    AskedAt(groups, start, j, l);
    SameLast(AskedPeers(groups, start, j), i, l);
  }

  // The promise is kept exactly if no two groups collide.
  lemma PromiseKeptIffCollisionFree(groups: Groups, start: nat)
    requires NonEmpty(groups)
    ensures KeepsPromise(groups, start) <==> CollisionFree(groups, start)
  {
    hide NeverShadowed, Collide, Answered, Reported;
    if CollisionFree(groups, start) {
      forall respond: nat -> seq<Peer>, g | g in groups && Lost(g, start, respond)
        ensures g in Reported(groups, start, respond, |g|)
      {
        FreeIsNeverShadowed(groups, start, respond, |g|, g, |g|);
        ReportedExactly(groups, start, respond, |g|, g);
      }
    } else {
      CollisionBreaksPromise(groups, start);
    }
  }

  lemma CollisionBreaksPromise(groups: Groups, start: nat)
    requires NonEmpty(groups) && !CollisionFree(groups, start)
    ensures !KeepsPromise(groups, start)
  {
    hide Remaining, LastToChoose, Reported;
    var x, y, n: nat :| x in groups && y in groups && Collide(x, y, start, n);
    assert !CollisionFreeBelow(groups, start, n + 1);
    var a, b, j := FirstCollision(groups, start, n + 1);
    var nobody: nat -> seq<Peer> := _ => [];
    var remaining := Remaining(groups, start, nobody, j);
    if LastToChoose(remaining, start, j, a) && LastToChoose(remaining, start, j, b) {
      LastToChooseIsUnique(remaining, start, j, a, b);
      assert false;
    }
    assert Lost(a, start, nobody) && Lost(b, start, nobody);
    ReportedExactly(groups, start, nobody, |a|, a);
    ReportedExactly(groups, start, nobody, |b|, b);
  }

  // Disjoint groups do not collide.
  lemma DisjointIsCollisionFree(groups: Groups, start: nat)
    requires NonEmpty(groups) && Disjoint(groups)
    ensures CollisionFree(groups, start)
  {
    forall a, b, j: nat | a in groups && b in groups ensures !Collide(a, b, start, j) {
      if a != b && j < |a| && j < |b| {
        MembersApart(groups, a, b);
        MemberIsMember(a, start + j);
        MemberIsMember(b, start + j);
      }
    }
  }

  lemma MembersApart(groups: Groups, a: seq<Peer>, b: seq<Peer>)
    requires Disjoint(groups) && a in groups && b in groups && a != b
    ensures Apart(a, b)
  {
    var i :| 0 <= i < |groups| && groups[i] == a;
    var j :| 0 <= j < |groups| && groups[j] == b;
    assert i < j ==> Apart(groups[i], groups[j]);
    assert j < i ==> Apart(groups[j], groups[i]);
  }

  // ----- The source's loop -----

  method QueryAll(groups0: Groups, self: Peer, start: nat, respond: nat -> seq<Peer>)
    returns (requests: seq<seq<Peer>>, missing: Groups)
    requires NonEmpty(groups0)
    ensures var groups := Others(groups0, self);
            && |requests| <= MaxLength(groups) && multiset(missing) <= multiset(groups)
            && Remaining(groups, start, respond, |requests|) == []
            && Rounds(groups, start, respond, requests)
            && AskedInTurn(groups, start, respond, requests)
            && (forall g :: g in missing <==>
                  && g in groups0 && self !in g && Lost(g, start, respond)
                  && NeverShadowed(groups, start, respond, g, |g|))
            && (CollisionFree(groups, start) ==>
                  forall g :: g in missing <==> g in groups0 && self !in g && Lost(g, start, respond))
  {
    hide Live, Lost, Member, Asked, AskedPeers, NonEmpty, MaxLength, Others, Rounds, LastSilent, LastIndices,
         NoRepeats, Remaining, Reported, NeverShadowed, CollisionFree, Keep, GiveUp, IsLast, AskedInTurn,
         AtPosition, Left;
    OthersAreNonEmpty(groups0, self);
    ghost var all := Others(groups0, self);
    MaxLengthBounds(all);
    var groups := Others(groups0, self);
    var rng := start;
    var startRng := rng;
    requests, missing := [], [];
    LoopStarts(all, start, respond);
    while |groups| > 0
      invariant groups == Remaining(all, start, respond, |requests|) && rng == start + |requests|
      invariant missing == Reported(all, start, respond, |requests|)
      invariant Rounds(all, start, respond, requests)
      invariant |requests| <= MaxLength(all)
      decreases MaxLength(all) - |requests|
    {
      ghost var k := |requests|;
      RemainingAreNonEmpty(all, start, respond, k);
      assert k < MaxLength(all) by { assert groups[0] in groups && groups[0] in all && k < |groups[0]|; }
      var peersToQuery, peerToGroupIndex := ChoosePeers(groups, rng);
      AskedLater(groups, start, k);
      OneMoreRound(all, start, respond, requests);
      var results := respond(|requests|);
      requests := requests + [peersToQuery];
      var indicesLeft := WithoutResponders(peersToQuery, peerToGroupIndex, results);
      rng := rng + 1;
      groups, missing := NextRound(groups, indicesLeft, rng, startRng, k, missing);
      LoopSteps(all, start, respond, k);
    }
    LoopEnds(all, start, respond, |requests|);
    InTurn(all, start, respond, requests);
  }

  // In round k every group asks the member at position start + k, around the group.
  ghost predicate AskedInTurn(groups: Groups, start: nat, respond: nat -> seq<Peer>, requests: seq<seq<Peer>>)
    requires NonEmpty(groups)
  {
    forall k, i :: 0 <= k < |requests| && 0 <= i < |requests[k]| ==>
      var asked := Remaining(groups, start, respond, k);
      i < |asked| && asked[i] != [] && requests[k][i] == asked[i][(start + k) % |asked[i]|]
  }

  lemma InTurn(groups: Groups, start: nat, respond: nat -> seq<Peer>, requests: seq<seq<Peer>>)
    requires NonEmpty(groups) && Rounds(groups, start, respond, requests)
    ensures AskedInTurn(groups, start, respond, requests)
  {
    hide Remaining;
    forall k: nat, i: nat | k < |requests| && i < |requests[k]|
      ensures var asked := Remaining(groups, start, respond, k);
              i < |asked| && asked[i] != [] && requests[k][i] == asked[i][(start + k) % |asked[i]|]
    {
      var asked := Remaining(groups, start, respond, k);
      assert requests[k] == AskedPeers(asked, start, k);
      assert |AskedPeers(asked, start, k)| == |asked|;
      RemainingAreNonEmpty(groups, start, respond, k);
      AskedAt(asked, start, k, i);
    }
  }

  lemma {:induction false} OthersAreNonEmpty(groups: Groups, self: Peer)
    requires NonEmpty(groups)
    ensures NonEmpty(Others(groups, self))
  {
  }

  lemma RemainingAreNonEmpty(groups: Groups, start: nat, respond: nat -> seq<Peer>, k: nat)
    requires NonEmpty(groups)
    ensures NonEmpty(Remaining(groups, start, respond, k))
  {
  }

  // Round k asks the chosen members of the groups that remain in it.
  ghost predicate Rounds(groups: Groups, start: nat, respond: nat -> seq<Peer>, requests: seq<seq<Peer>>)
    requires NonEmpty(groups)
  {
    forall k :: 0 <= k < |requests| ==> requests[k] == AskedPeers(Remaining(groups, start, respond, k), start, k)
  }

  lemma LoopStarts(groups: Groups, start: nat, respond: nat -> seq<Peer>)
    requires NonEmpty(groups)
    ensures Remaining(groups, start, respond, 0) == groups && Reported(groups, start, respond, 0) == []
    ensures Rounds(groups, start, respond, [])
  {
  }

  lemma OneMoreRound(groups: Groups, start: nat, respond: nat -> seq<Peer>, requests: seq<seq<Peer>>)
    requires NonEmpty(groups) && Rounds(groups, start, respond, requests)
    ensures var k := |requests|;
      Rounds(groups, start, respond, requests + [AskedPeers(Remaining(groups, start, respond, k), start, k)])
  {
    hide AskedPeers, Remaining;
  }

  lemma LoopSteps(groups: Groups, start: nat, respond: nat -> seq<Peer>, k: nat)
    requires NonEmpty(groups)
    ensures var before := Remaining(groups, start, respond, k);
      var left := LastSilent(AskedPeers(before, start, k), respond(k));
      && Remaining(groups, start, respond, k + 1) == Keep(before, left, k + 1)
      && Reported(groups, start, respond, k + 1) == Reported(groups, start, respond, k) + GiveUp(before, left, k + 1)
  {
  }

  lemma LoopEnds(groups: Groups, start: nat, respond: nat -> seq<Peer>, k: nat)
    requires NonEmpty(groups) && Remaining(groups, start, respond, k) == []
    ensures var missing := Reported(groups, start, respond, k);
      && multiset(missing) <= multiset(groups)
      && (forall g :: g in missing <==>
            g in groups && Lost(g, start, respond) && NeverShadowed(groups, start, respond, g, |g|))
      && (CollisionFree(groups, start) ==> forall g :: g in missing <==> g in groups && Lost(g, start, respond))
  {
    hide LastToChoose, CollisionFree, Asked, Remaining, Reported;
    ReportedOnce(groups, start, respond, k);
    forall g ensures g in Reported(groups, start, respond, k) <==>
                       g in groups && Lost(g, start, respond) && NeverShadowed(groups, start, respond, g, |g|) {
      ReportedExactly(groups, start, respond, k, g);
      if g in groups && Lost(g, start, respond) && k < |g| {
        AnsweredStays(g, start, respond, k, |g|);
        RemainingExactly(groups, start, respond, k, g);
      }
    }
    forall g | CollisionFree(groups, start) && g in groups && Lost(g, start, respond)
      ensures NeverShadowed(groups, start, respond, g, |g|)
    {
      FreeBelow(groups, start, |g|);
      FreeIsNeverShadowed(groups, start, respond, |g|, g, |g|);
    }
  }

  // Keeps the unanswered groups that have members left to ask, and reports those that have none:
  // the next round would start their members over.
  method NextRound(groups: Groups, left: set<nat>, rng: nat, startRng: nat, ghost k: nat, missing: Groups)
    returns (groups': Groups, missing': Groups)
    requires (forall g :: g in groups ==> k < |g|) && rng == startRng + k + 1
    ensures groups' == Keep(groups, left, k + 1) && missing' == missing + GiveUp(groups, left, k + 1)
  {
    groups', missing' := [], missing;
    for ix := 0 to |groups|
      invariant groups' == Keep(groups[..ix], left, k + 1) && missing' == missing + GiveUp(groups[..ix], left, k + 1)
    {
      var v := groups[ix];
      assert v in groups;
      assert groups[..ix + 1][..ix] == groups[..ix];
      if ix in left {
        var peerIndex := rng % |v|;
        BackAtStart(startRng, k + 1, |v|);
        if rng == startRng || peerIndex == startRng % |v| {
          missing' := missing' + [v];
        } else {
          groups' := groups' + [v];
        }
      }
    }
    assert groups[..|groups|] == groups;
  }

  // ----- What this means for one group -----

  // The members of a group are asked in distinct rounds, one after the other around the group.
  lemma MemberHasItsRound(g: seq<Peer>, start: nat, m: Peer) returns (k: nat)
    requires NoRepeats(g) && m in g
    ensures k < |g| && Asked(g, start, k) == m
    ensures forall j: nat :: j < |g| && Asked(g, start, j) == m ==> j == k
  {
    var idx: nat :| idx < |g| && g[idx] == m;
    var r := start % |g|;
    k := if idx >= r then idx - r else idx + |g| - r;
    ModAdd(start, k, |g|);
    forall j: nat | j < |g| && Asked(g, start, j) == m ensures j == k {
      ModAdd(start, j, |g|);
    }
  }

  // A group that is reported missing had every member asked in exactly one round, and none of
  // them answered.
  lemma MissingGroupWasAskedOnce(groups: Groups, start: nat, respond: nat -> seq<Peer>, g: seq<Peer>, m: Peer)
    returns (k: nat)
    requires Disjoint(groups) && NonEmpty(groups) && g in groups && NoRepeats(g) && Lost(g, start, respond) && m in g
    ensures m in AskedPeers(LiveGroups(groups, start, respond, k), start, k) && m !in respond(k)
    ensures forall j: nat :: m in AskedPeers(LiveGroups(groups, start, respond, j), start, j) ==> j == k
  {
    k := MemberHasItsRound(g, start, m);
    LostIsLive(g, start, respond, k);
    AskedInRound(groups, start, respond, k, g);
    forall j: nat | m in AskedPeers(LiveGroups(groups, start, respond, j), start, j) ensures j == k {
      AskedOnlyForOwnGroup(groups, start, respond, j, g, m);
    }
  }

  lemma LostIsLive(g: seq<Peer>, start: nat, respond: nat -> seq<Peer>, k: nat)
    requires g != [] && Lost(g, start, respond) && k < |g|
    ensures Live(g, start, respond, k) && Asked(g, start, k) !in respond(k)
  {
    AnsweredStays(g, start, respond, k, |g|);
    AnsweredNext(g, start, respond, k);
    AnsweredStays(g, start, respond, k + 1, |g|);
  }

  lemma AskedInRound(groups: Groups, start: nat, respond: nat -> seq<Peer>, k: nat, g: seq<Peer>)
    requires NonEmpty(groups) && g in groups && Live(g, start, respond, k)
    ensures Asked(g, start, k) in AskedPeers(LiveGroups(groups, start, respond, k), start, k)
  {
    var live := LiveGroups(groups, start, respond, k);
    assert g in live;
    var i :| 0 <= i < |live| && live[i] == g;
    assert AskedPeers(live, start, k)[i] == Asked(g, start, k);
  }

  lemma AskedOnlyForOwnGroup(groups: Groups, start: nat, respond: nat -> seq<Peer>, j: nat, g: seq<Peer>, m: Peer)
    requires Disjoint(groups) && NonEmpty(groups) && g in groups && m in g
    requires m in AskedPeers(LiveGroups(groups, start, respond, j), start, j)
    ensures j < |g| && Asked(g, start, j) == m
  {
    var live := LiveGroups(groups, start, respond, j);
    var i :| 0 <= i < |live| && AskedPeers(live, start, j)[i] == m;
    var h := live[i];
    assert h in live && h in groups && Live(h, start, respond, j);
    assert m in h;
    SameGroup(groups, g, h, m);
  }

  lemma SameGroup(groups: Groups, g: seq<Peer>, h: seq<Peer>, m: Peer)
    requires Disjoint(groups) && g in groups && h in groups && m in g && m in h
    ensures g == h
  {
    var x :| 0 <= x < |groups| && groups[x] == g;
    var y :| 0 <= y < |groups| && groups[y] == h;
    assert x < y ==> Apart(groups[x], groups[y]);
    assert y < x ==> Apart(groups[y], groups[x]);
  }
}
