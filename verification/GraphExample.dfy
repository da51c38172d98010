/** The election as the graphExample program runs it: the first test looks two hops out, and the search only
    follows links with an end next to the candidate. */
module GraphExample {
  import opened Network
  import opened Walks
  import opened Election
  import opened Traversal
  import opened Backbone
  import opened GraphRider

  /** Step 4 as graphExample decides it. */
  ghost predicate TopOfTwoHops(net: Net, v: nat) {
    forall j | j in Ball(net, v, 2) && j != v :: Outranks(net, v, j)
  }

  ghost predicate NearHop(net: Net, v: nat, x: nat, w: nat) {
    Adjacent(net, x, w) && w != v && (Adjacent(net, v, x) || Adjacent(net, v, w))
  }

  ghost predicate Onward(net: Net, v: nat, p: seq<nat>, k: nat)
    requires 0 < k < |p|
  {
    NearHop(net, v, p[k - 1], p[k]) && (k > 1 ==> Outranks(net, p[k - 1], v))
  }

  /** p goes from m to y past v, near v, and after m only from interfaces that outrank v. */
  ghost predicate LeadsNear(net: Net, v: nat, p: seq<nat>, m: nat, y: nat) {
    && |p| > 0 && p[0] == m && p[|p| - 1] == y
    && forall k: nat | 0 < k < |p| :: Onward(net, v, p, k)
  }

  ghost predicate SearchedNear(net: Net, v: nat, m: nat, y: nat) {
    exists p :: LeadsNear(net, v, p, m, y)
  }

  ghost predicate NearSearchMisses(net: Net, v: nat) {
    exists m, y :: IsBestNeighbour(net, v, m) && Adjacent(net, v, y) && !SearchedNear(net, v, m, y)
  }

  ghost predicate IsNearRelay(net: Net, v: nat) {
    v < |net.links| && !InLeafNode(net, v) && (TopOfTwoHops(net, v) || NearSearchMisses(net, v))
  }

  ghost function NearRelays(net: Net): set<nat> {
    set i | i in Ifaces(net) && IsNearRelay(net, i)
  }

  /** From m to y in one hop or, past v, by way of one interface that outranks v. */
  ghost predicate WithinOneDetour(net: Net, v: nat, m: nat, y: nat) {
    || y == m
    || Adjacent(net, m, y)
    || exists x :: x != v && Adjacent(net, m, x) && Outranks(net, x, v) && Adjacent(net, x, y)
  }

  /** A candidate on top of its neighbours, but not of its two-hop neighbourhood, whose best neighbour is at most one
      detour away from all the others. */
  ghost predicate IsLostTop(net: Net, v: nat) {
    && v < |net.links| && !InLeafNode(net, v)
    && TopOfOneHop(net, v) && !TopOfTwoHops(net, v)
    && forall m, y | IsBestNeighbour(net, v, m) && Adjacent(net, v, y) :: WithinOneDetour(net, v, m, y)
  }

  ghost function LostTops(net: Net): set<nat> {
    set i | i in Ifaces(net) && IsLostTop(net, i)
  }

  lemma NearHopEndsInside(net: Net, v: nat, x: nat, w: nat)
    requires NearHop(net, v, x, w)
    ensures w in Ball(net, v, 2) && w != v && w < |net.links| && Adjacent(net, x, w)
  {
    BallOfOneHop(net, v, x);
    BallOfOneHop(net, v, w);
    BallGrows(net, v, 1, 2);
    if Adjacent(net, v, x) {
      BallStep(net, v, 1, x, w);
    }
  }

  /** What the restricted search visits, GraphRider's search visits too. */
  lemma NearSearchVisitsLess(net: Net, v: nat, m: nat, y: nat)
    requires SearchedNear(net, v, m, y) && Adjacent(net, v, m)
    ensures Searched(net, v, m, y)
  {
    hide Ball, Adjacent, NearHop;
    var p :| LeadsNear(net, v, p, m, y);
    var via := Above(net, v) * Ball(net, v, 2);
    MIsAdjacent(net, v, m);
    forall k: nat | 0 < k < |p|
      ensures Adjacent(net, p[k - 1], p[k]) && p[k] in Ball(net, v, 2) && p[k] != v && p[k] < |net.links|
    {
      assert Onward(net, v, p, k);
      NearHopEndsInside(net, v, p[k - 1], p[k]);
    }
    forall k: nat | 0 < k < |p| - 1 ensures p[k] in via {
      assert Onward(net, v, p, k + 1);
    }
    assert Leads(net, p, via, m, y);
  }

  /** Around a candidate on top of its neighbours the search ends after at most one detour: what outranks the candidate
      is two hops away, and the hop after it must come back to a neighbour, which does not outrank the candidate. */
  lemma SearchAroundTop(net: Net, v: nat, m: nat, y: nat)
    requires TopOfOneHop(net, v) && Adjacent(net, v, m) && Adjacent(net, v, y)
    ensures SearchedNear(net, v, m, y) <==> WithinOneDetour(net, v, m, y)
  {
    hide Outranks;
    if SearchedNear(net, v, m, y) {
      var p :| LeadsNear(net, v, p, m, y);
      DetourIsShort(net, v, p, m, y);
    }
    if WithinOneDetour(net, v, m, y) {
      DetourIsSearched(net, v, m, y);
    }
  }

  lemma DetourIsSearched(net: Net, v: nat, m: nat, y: nat)
    requires Adjacent(net, v, m) && Adjacent(net, v, y) && WithinOneDetour(net, v, m, y)
    ensures SearchedNear(net, v, m, y)
  {
    hide Outranks;
    if y == m {
      assert LeadsNear(net, v, [m], m, y);
    } else if Adjacent(net, m, y) {
      assert Onward(net, v, [m, y], 1);
      assert LeadsNear(net, v, [m, y], m, y);
    } else {
      var x :| x != v && Adjacent(net, m, x) && Outranks(net, x, v) && Adjacent(net, x, y);
      var p := [m, x, y];
      assert Onward(net, v, p, 1) && Onward(net, v, p, 2);
      assert LeadsNear(net, v, p, m, y);
    }
  }

  lemma DetourIsShort(net: Net, v: nat, p: seq<nat>, m: nat, y: nat)
    requires TopOfOneHop(net, v) && LeadsNear(net, v, p, m, y)
    ensures WithinOneDetour(net, v, m, y)
  {
    if |p| > 1 {
      assert Onward(net, v, p, 1);
    }
    if |p| > 2 {
      assert Onward(net, v, p, 2);
      NotBothHigher(net, v, p[1]);
    }
    if |p| > 3 {
      assert Onward(net, v, p, 3);
      NotBothHigher(net, v, p[2]);
    }
  }

  lemma NotBothHigher(net: Net, v: nat, x: nat)
    requires TopOfOneHop(net, v) && Outranks(net, x, v)
    ensures !Adjacent(net, v, x)
  {
    if Adjacent(net, v, x) {
      RanksAreTotallyOrdered(net, v, x, v);
    }
  }

  /** Which of GraphRider's relays this election turns down, read off the graph. */
  lemma LosesExactlyTheLostTops(net: Net)
    requires SingleInterface(net)
    ensures Relays(net) - NearRelays(net) == LostTops(net)
  {
    hide Ball, InLeafNode, Adjacent, SearchedNear, Searched, WithinOneDetour, IsBestNeighbour, TopOfTwoHops, Outranks;
    forall v: nat | v < |net.links| ensures v in Relays(net) - NearRelays(net) <==> v in LostTops(net) {
      if !InLeafNode(net, v) {
        HasNeighbour(net, v);
        if TopOfOneHop(net, v) {
          LostIffDetours(net, v);
        } else if SearchMisses(net, v) {
          MissesMore(net, v);
        }
      }
    }
  }

  lemma LostIffDetours(net: Net, v: nat)
    requires TopOfOneHop(net, v)
    ensures NearSearchMisses(net, v) <==>
            exists m, y :: IsBestNeighbour(net, v, m) && Adjacent(net, v, y) && !WithinOneDetour(net, v, m, y)
  {
    hide Ball, Outranks, SearchedNear, WithinOneDetour;
    forall m: nat, y: nat | IsBestNeighbour(net, v, m) && Adjacent(net, v, y)
      ensures SearchedNear(net, v, m, y) <==> WithinOneDetour(net, v, m, y)
    {
      SearchAroundTop(net, v, m, y);
    }
  }

  /** What GraphRider's search misses, the restricted search misses too. */
  lemma MissesMore(net: Net, v: nat)
    requires SearchMisses(net, v)
    ensures NearSearchMisses(net, v)
  {
    hide Ball, Outranks, SearchedNear, Searched;
    var m, y :| IsBestNeighbour(net, v, m) && Adjacent(net, v, y) && !Searched(net, v, m, y);
    if SearchedNear(net, v, m, y) {
      NearSearchVisitsLess(net, v, m, y);
    }
  }

  lemma KeepsEveryRelayIff(net: Net)
    requires SingleInterface(net)
    ensures Relays(net) <= NearRelays(net) <==> LostTops(net) == {}
  {
    LosesExactlyTheLostTops(net);
    hide IsLostTop, IsRelay, IsNearRelay;
    if LostTops(net) == {} {
      forall v | v in Relays(net) ensures v in NearRelays(net) {
        assert v !in LostTops(net);
      }
    }
  }

  // ----- when the elected nodes connect

  lemma JoinedOverBackbone(net: Net, s: set<nat>, a: nat, b: nat)
    requires ConnectedDominatingSet(net, s) && SingleInterface(net) && a in Ifaces(net) && b in Ifaces(net)
    ensures Joined(net, s, a, b)
  {
    var x, y := NextTo(net, s, a), NextTo(net, s, b);
    JoinedToNext(net, s, a, x);
    JoinedToNext(net, s, b, y);
    JoinedBackwards(net, s, b, y);
    JoinedThrough(net, s, a, x, y);
    JoinedThrough(net, s, a, y, b);
  }

  /** Adding members to a connected dominating set leaves one. */
  lemma LargerSetStillConnects(net: Net, s: set<nat>, t: set<nat>)
    requires ConnectedDominatingSet(net, s) && s <= t <= Ifaces(net) && SingleInterface(net)
    ensures ConnectedDominatingSet(net, t)
  {
    forall i | i in Ifaces(net) ensures Dominates(net, t, net.owner[i]) {
      var r: nat, c: nat :|
        r in s && c < |net.links| && net.owner[c] == net.owner[i] && (r == c || net.Linked(r, c));
    }
    forall a, b | a in t && b in t ensures Joined(net, t, a, b) {
      JoinedOverBackbone(net, s, a, b);
      JoinedIsMonotone(net, s, t, a, b);
    }
  }

  ghost function NextTo(net: Net, s: set<nat>, i: nat): (r: nat)
    requires ConnectedDominatingSet(net, s) && i in Ifaces(net) && SingleInterface(net)
    ensures r in s && (r == i || Adjacent(net, i, r))
  {
    assert Dominates(net, s, net.owner[i]);
    var r: nat :|
      r in s && exists c: nat :: c < |net.links| && net.owner[c] == net.owner[i] && (r == c || net.Linked(r, c));
    r
  }

  lemma JoinedToNext(net: Net, via: set<nat>, i: nat, r: nat)
    requires i in Ifaces(net) && (r == i || Adjacent(net, i, r))
    ensures Joined(net, via, i, r)
  {
    if r == i { JoinedToItself(net, via, i); } else { JoinedByHop(net, via, i, r); }
  }

  /** The lost tops can be taken out of the interior of walks when the neighbours of each are joined without them. */
  lemma {:induction false} TakeOutLost(net: Net, base: set<nat>, lost: set<nat>, a: nat, b: nat)
    requires Joined(net, base + lost, a, b)
    requires forall v, y, z | v in lost && Adjacent(net, v, y) && Adjacent(net, v, z) :: Joined(net, base, y, z)
    ensures Joined(net, base, a, b)
  {
    hide Adjacent;
    if lost == {} {
      assert base + lost == base;
    } else {
      var v :| v in lost;
      var via := base + (lost - {v});
      assert via + {v} == base + lost;
      forall y, z | Adjacent(net, v, y) && Adjacent(net, v, z) ensures Joined(net, via, y, z) {
        JoinedIsMonotone(net, base, via, y, z);
      }
      var p :| Leads(net, p, base + lost, a, b);
      RouteRound(net, via, v, {}, p, a, b);
      TakeOutLost(net, base, lost - {v}, a, b);
    }
  }

  ghost predicate LostTopsAreBridged(net: Net) {
    forall v, y, z | v in LostTops(net) && Adjacent(net, v, y) && Adjacent(net, v, z) ::
      Joined(net, NearRelays(net), y, z)
  }

  /** With every lost top bridged, the elected nodes join any two nodes, as far as these are no leaves themselves. */
  lemma JoinedOverNearRelays(net: Net, a: nat, b: nat)
    requires SingleInterface(net) && WhollyConnected(net) && LostTopsAreBridged(net)
    requires a in Ifaces(net) && b in Ifaces(net)
    ensures Joined(net, NearRelays(net) + {a, b}, a, b)
    ensures !InLeafNode(net, a) && !InLeafNode(net, b) ==> Joined(net, NearRelays(net), a, b)
  {
    hide Adjacent, Joined, InLeafNode, IsRelay, IsNearRelay, IsLostTop;
    assert Connected(net, a, b);
    WalksNeedOnlyRelays(net, a, b);
    LosesExactlyTheLostTops(net);
    var near, lost, leaves := NearRelays(net), LostTops(net), SparedLeaf(net, {net.owner[a], net.owner[b]});
    var base := near + leaves;
    JoinedIsMonotone(net, Relays(net) + leaves, base + lost, a, b);
    forall v, y, z | v in lost && Adjacent(net, v, y) && Adjacent(net, v, z) ensures Joined(net, base, y, z) {
      JoinedIsMonotone(net, near, base, y, z);
    }
    TakeOutLost(net, base, lost, a, b);
    assert leaves <= {a, b};
    JoinedIsMonotone(net, base, near + {a, b}, a, b);
    if !InLeafNode(net, a) && !InLeafNode(net, b) {
      assert base == near;
    }
  }

  lemma HigherTwoHopsAway(net: Net, t: nat) returns (x: nat)
    requires t in LostTops(net)
    ensures t in Ifaces(net) && x in Ifaces(net) && x != t && !Adjacent(net, t, x)
  {
    hide Ball, InLeafNode, IsBestNeighbour, WithinOneDetour;
    x :| x in Ball(net, t, 2) && x != t && !Outranks(net, t, x);
    BallInIfaces(net, t, 2);
  }

  lemma SomeRelay(net: Net) returns (r: nat)
    requires SingleInterface(net) && WhollyConnected(net) && |net.links| >= 3
    ensures r in Relays(net)
  {
    assert ThreeNodes(net, 0, 1, 2);
    ElectionIsConnectedDominating(net);
    r :| r in Relays(net);
  }

  /** Some node is elected: a lost top and a higher node two hops away are not joined by nothing. */
  lemma SomeNearRelay(net: Net)
    requires SingleInterface(net) && WhollyConnected(net) && LostTopsAreBridged(net) && |net.links| >= 3
    ensures NearRelays(net) != {}
  {
    hide Relays, NearRelays, LostTops, LostTopsAreBridged, WhollyConnected, Adjacent, Joined, InLeafNode;
    var t := SomeRelay(net);
    LosesExactlyTheLostTops(net);
    if NearRelays(net) == {} {
      assert t in Relays(net) - NearRelays(net);
      var x := HigherTwoHopsAway(net, t);
      JoinedOverNearRelays(net, t, x);
      var c := FirstHop(net, NearRelays(net) + {t, x}, t, x);
    }
  }

  /** On a connected network of three or more nodes, the elected nodes connect and dominate it if and only if they
      join the neighbours of every lost top. */
  lemma NearElectionConnectsIff(net: Net)
    requires SingleInterface(net) && WhollyConnected(net) && |net.links| >= 3
    ensures ConnectedDominatingSet(net, NearRelays(net)) <==> LostTopsAreBridged(net)
  {
    var near := NearRelays(net);
    hide Joined, InLeafNode, IsNearRelay, Outranks;
    if LostTopsAreBridged(net) {
      SomeNearRelay(net);
      var r :| r in near;
      forall i | i in Ifaces(net) ensures Dominates(net, near, net.owner[i]) {
        if i != r {
          JoinedOverNearRelays(net, i, r);
          var c := FirstHop(net, near + {i, r}, i, r);
          assert c in near && net.Linked(c, i);
        }
      }
      forall a, b | a in near && b in near ensures Joined(net, near, a, b) {
        NearRelayIsNoLeaf(net, a);
        NearRelayIsNoLeaf(net, b);
        JoinedOverNearRelays(net, a, b);
      }
    }
    if ConnectedDominatingSet(net, near) {
      forall v, y, z | v in LostTops(net) && Adjacent(net, v, y) && Adjacent(net, v, z)
        ensures Joined(net, near, y, z)
      {
        JoinedOverBackbone(net, near, y, z);
      }
    }
  }

  lemma NearRelayIsNoLeaf(net: Net, a: nat)
    requires a in NearRelays(net)
    ensures a in Ifaces(net) && !InLeafNode(net, a)
  {
  }

  /** In particular when whoever is on top of its neighbours is also on top of its two-hop neighbourhood. */
  lemma TwoHopTopsConnect(net: Net)
    requires SingleInterface(net) && WhollyConnected(net) && |net.links| >= 3
    requires forall v | v in Ifaces(net) && TopOfOneHop(net, v) :: TopOfTwoHops(net, v)
    ensures ConnectedDominatingSet(net, NearRelays(net)) && Relays(net) <= NearRelays(net)
  {
    hide ConnectedDominatingSet, Ball, Joined;
    assert LostTops(net) == {};
    KeepsEveryRelayIff(net);
    NearElectionConnectsIff(net);
  }

  // ----- the election in place

  /** Where the search stands while the members of todo may still have unvisited neighbours. */
  ghost predicate SearchingNear(net: Net, v: nat, m: nat, flags: seq<bool>, todo: seq<nat>) {
    && |flags| == |net.links| && m < |flags| && flags[m] && Adjacent(net, v, m)
    && (forall y | y in Ball(net, v, 2) && y != v && y < |flags| && flags[y] :: SearchedNear(net, v, m, y))
    && (forall x | x in todo :: Expands(net, v, m, x) && x < |flags| && flags[x])
    && (forall x: nat, w: nat |
          Expands(net, v, m, x) && x < |flags| && flags[x] && x !in todo && NearHop(net, v, x, w) ::
          w < |flags| && flags[w])
  }

  lemma StartNearSearch(net: Net, v: nat, m: nat, flags: seq<bool>)
    requires |flags| == |net.links| && Adjacent(net, v, m)
    requires forall y | y in Ball(net, v, 2) && y != v && y < |flags| :: !flags[y]
    ensures SearchingNear(net, v, m, flags[m := true], [m])
  {
    MIsAdjacent(net, v, m);
    assert LeadsNear(net, v, [m], m, m);
    hide Ball, Adjacent, NearHop;
  }

  lemma VisitNear(net: Net, v: nat, m: nat, flags: seq<bool>, todo: seq<nat>, x: nat, w: nat)
    requires SearchingNear(net, v, m, flags, todo) && x in todo && NearHop(net, v, x, w) && w < |flags| && !flags[w]
    ensures SearchingNear(net, v, m, flags[w := true], if Outranks(net, w, v) then todo + [w] else todo)
  {
    hide Ball, Adjacent;
    NearHopEndsInside(net, v, x, w);
    hide NearHop;
    assert Expands(net, v, m, x);
    if x == m {
      assert Onward(net, v, [m, w], 1);
      assert LeadsNear(net, v, [m, w], m, w);
    } else {
      var p :| LeadsNear(net, v, p, m, x);
      var q := p + [w];
      forall k: nat | 0 < k < |q| ensures Onward(net, v, q, k) {
        assert k < |p| ==> Onward(net, v, p, k);
      }
      assert LeadsNear(net, v, q, m, w);
    }
  }

  lemma CloseNear(net: Net, v: nat, m: nat, flags: seq<bool>, x: nat, rest: seq<nat>)
    requires SearchingNear(net, v, m, flags, [x] + rest)
    requires forall w: nat | NearHop(net, v, x, w) :: w < |flags| && flags[w]
    ensures SearchingNear(net, v, m, flags, rest)
  {
    hide Ball, Adjacent, NearHop;
    forall y | y in rest ensures y in [x] + rest {
    }
  }

  lemma {:induction false} WalkIsVisited(net: Net, v: nat, m: nat, flags: seq<bool>, p: seq<nat>, y: nat)
    requires SearchingNear(net, v, m, flags, []) && LeadsNear(net, v, p, m, y)
    ensures y < |flags| && flags[y]
    decreases |p|
  {
    hide Ball, Adjacent, NearHop;
    var n := |p|;
    if n > 1 {
      var q := p[..n - 1];
      forall k: nat | 0 < k < |q| ensures Onward(net, v, q, k) {
        assert Onward(net, v, p, k);
      }
      assert LeadsNear(net, v, q, m, q[n - 2]);
      WalkIsVisited(net, v, m, flags, q, q[n - 2]);
      assert Onward(net, v, p, n - 1);
      MIsAdjacent(net, v, m);
      if n > 2 {
        assert Onward(net, v, p, n - 2);
        NearHopEndsInside(net, v, p[n - 3], p[n - 2]);
      }
      assert Expands(net, v, m, p[n - 2]);
    }
  }

  lemma NearSearchComplete(net: Net, v: nat, m: nat, flags: seq<bool>)
    requires SearchingNear(net, v, m, flags, [])
    ensures forall y: nat | y in Ball(net, v, 2) && y != v :: y < |flags| && (flags[y] <==> SearchedNear(net, v, m, y))
  {
    hide Ball;
    BallInIfaces(net, v, 2);
    forall y: nat | y in Ball(net, v, 2) && y != v ensures y < |flags| && (flags[y] <==> SearchedNear(net, v, m, y)) {
      if SearchedNear(net, v, m, y) {
        var p :| LeadsNear(net, v, p, m, y);
        WalkIsVisited(net, v, m, flags, p, y);
      }
    }
  }

  lemma NearOutcome(net: Net, v: nat, m: nat, flags: seq<bool>)
    requires IsBestNeighbour(net, v, m) && |flags| == |net.links|
    requires forall y: nat | y in Ball(net, v, 2) && y != v :: y < |flags| && (flags[y] <==> SearchedNear(net, v, m, y))
    ensures forall y: nat | Adjacent(net, v, y) :: y < |flags|
    ensures (exists y: nat :: Adjacent(net, v, y) && !flags[y]) <==> NearSearchMisses(net, v)
  {
    hide SearchedNear, Ball;
    forall y: nat | Adjacent(net, v, y) ensures y in Ball(net, v, 2) && y != v {
      MIsAdjacent(net, v, y);
    }
    forall m': nat | IsBestNeighbour(net, v, m') ensures m' == m {
      RanksAreTotallyOrdered(net, m, m', m);
    }
  }

  lemma TwoHops(net: Net, v: nat, y: nat)
    requires SingleInterface(net) && v < |net.links|
    ensures y in Ball(net, v, 2) && y != v <==>
      Adjacent(net, v, y) || (y != v && exists n: nat :: Adjacent(net, v, n) && Adjacent(net, n, y))
  {
    if Adjacent(net, v, y) { MIsAdjacent(net, v, y); }
    if n: nat :| Adjacent(net, v, n) && Adjacent(net, n, y) {
      BallOfOneHop(net, v, n);
      BallStep(net, v, 1, n, y);
    }
    if y in Ball(net, v, 2) && y != v && y !in Ball(net, v, 1) {
      var n :| n in Ball(net, v, 1) && Adjacent(net, n, y);
      BallOfOneHop(net, v, n);
    }
    BallOfOneHop(net, v, y);
  }

  function ByPriorityAndId(links: seq<seq<nat>>, priority: seq<nat>, id: seq<nat>): Layout
    requires |links| == |priority| == |id|
  {
    var n := |links|;
    Layout(links, seq(n, i => i), seq(n, i requires 0 <= i < n => Rank(priority[i], 0, id[i])))
  }

  class GraphExample {
    const net: Net
    const visited: array<bool>
    const relay: array<bool>

    /** Nodes have one interface each and are ranked by priority, then by id; the flags hold anything. */
    constructor (links: seq<seq<nat>>, priority: seq<nat>, id: seq<nat>)
      requires |links| == |priority| == |id| && ByPriorityAndId(links, priority, id).Wf()
      ensures Valid() && net == ByPriorityAndId(links, priority, id) && fresh(visited) && fresh(relay)
    {
      net := ByPriorityAndId(links, priority, id);
      visited, relay := new bool[|links|], new bool[|links|];
    }

    ghost predicate Valid() {
      && SingleInterface(net)
      && visited.Length == relay.Length == |net.links| && visited != relay
      && forall i | 0 <= i < |net.ranks| :: net.ranks[i].degree == 0
    }

    predicate Exceeds(i: nat, j: nat)
      requires i < |net.ranks| && j < |net.ranks|
    {
      var a, b := net.ranks[i], net.ranks[j];
      a.priority > b.priority || (a.priority == b.priority && a.address > b.address)
    }

    predicate HasEdgeTo(i: nat, j: nat)
      requires i < |net.links|
    {
      j in net.links[i]
    }

    /** What Steps 4 and 5 have done to the interfaces in seen: unmarked them and compared them with v. */
    ghost predicate Scanned(v: nat, seen: set<nat>, top: bool)
      requires Valid()
      reads visited
    {
      && (forall y | y in seen :: y in Ball(net, v, 2) && y != v && y < |net.links| && !visited[y])
      && (top <==> forall y | y in seen :: Outranks(net, v, y))
    }

    lemma ExceedsIsRank(i: nat, j: nat)
      requires Valid() && i < |net.ranks| && j < |net.ranks|
      ensures Exceeds(i, j) <==> Outranks(net, i, j)
      ensures i != j ==> (Outranks(net, i, j) <==> !Outranks(net, j, i))
    {
      RanksAreTotallyOrdered(net, i, j, i);
    }

    /** Unmarks one interface and compares it with v. */
    method ScanOne(v: nat, y: nat, ghost before: set<nat>, top: bool) returns (after: bool, ghost seen: set<nat>)
      requires Valid() && v < |net.links| && Scanned(v, before, top)
      requires y in Ball(net, v, 2) && y != v && y < |net.links|
      modifies visited
      ensures seen == before + {y} && Scanned(v, seen, after)
    {
      hide Ball, Outranks;
      visited[y] := false;
      ExceedsIsRank(y, v);
      after := top && !Exceeds(y, v);
      seen := before + {y};
    }

    /** Step 4 and 5 for the neighbours of v's neighbour n1. */
    method ScanSecondHop(v: nat, n1: nat, ghost before: set<nat>, top: bool) returns (after: bool, ghost seen: set<nat>)
      requires Valid() && Scanned(v, before, top) && v < |net.links| && net.Linked(v, n1)
      modifies visited
      ensures before <= seen && Scanned(v, seen, after)
      ensures forall y: nat | net.Linked(n1, y) :: y == v || y in seen || net.Linked(v, y)
    {
      hide Ball, Outranks;
      after, seen := top, before;
      var links := net.links[n1];
      for b := 0 to |links|
        invariant before <= seen && Scanned(v, seen, after)
        invariant forall c | 0 <= c < b :: links[c] == v || links[c] in seen || net.Linked(v, links[c])
      {
        var n2 := links[b];
        if n2 == v { continue; }
        if HasEdgeTo(v, n2) { continue; }
        assert Adjacent(net, v, n1) && Adjacent(net, n1, n2);
        TwoHops(net, v, n2);
        after, seen := ScanOne(v, n2, seen, after);
      }
    }

    /** Steps 3 to 6: unmarks everything within two hops of v, finds its best neighbour and compares with all of
        them. */
    method Scan(v: nat) returns (best: nat, top: bool)
      requires Valid() && v < |net.links| && net.links[v] != []
      modifies visited
      ensures IsBestNeighbour(net, v, best)
      ensures top <==> TopOfTwoHops(net, v)
      ensures forall y | y in Ball(net, v, 2) && y != v && y < visited.Length :: !visited[y]
    {
      hide Ball, Outranks;
      var links := net.links[v];
      best, top := links[0], true;
      ghost var seen: set<nat> := {};
      for a := 0 to |links|
        invariant best < |net.links| && net.Linked(v, best) && (a == 0 ==> best == links[0])
        invariant forall b | 0 <= b < a && links[b] != best :: Outranks(net, best, links[b])
        invariant Scanned(v, seen, top)
        invariant forall b | 0 <= b < a :: links[b] in seen
        invariant forall b, y: nat | 0 <= b < a && net.Linked(links[b], y) :: y == v || y in seen || net.Linked(v, y)
      {
        var n1 := links[a];
        BetterOf(links, a, best);
        if a > 0 && Exceeds(n1, best) {
          best := n1;
        }
        assert net.Linked(v, n1);
        TwoHops(net, v, n1);
        top, seen := ScanOne(v, n1, seen, top);
        top, seen := ScanSecondHop(v, n1, seen, top);
      }
      ScannedAll(v, seen, top);
      forall j: nat | Adjacent(net, v, j) && j != best ensures Outranks(net, best, j) {
        assert net.Linked(v, j);
      }
    }

    lemma BetterOf(links: seq<nat>, a: nat, best: nat)
      requires Valid() && a < |links| && best < |net.links| && forall b | 0 <= b < |links| :: links[b] < |net.links|
      requires forall b | 0 <= b < a && links[b] != best :: Outranks(net, best, links[b])
      requires a == 0 ==> best == links[0]
      ensures var after := if a > 0 && Exceeds(links[a], best) then links[a] else best;
        forall b | 0 <= b <= a && links[b] != after :: Outranks(net, after, links[b])
    {
      ExceedsIsRank(links[a], best);
      forall b | 0 <= b < a && Outranks(net, links[a], best) && links[b] != links[a]
        ensures Outranks(net, links[a], links[b])
      {
        if links[b] != best {
          RanksAreTotallyOrdered(net, links[a], best, links[b]);
        }
      }
    }

    lemma ScannedAll(v: nat, seen: set<nat>, top: bool)
      requires Valid() && v < |net.links| && Scanned(v, seen, top)
      requires forall n: nat | net.Linked(v, n) :: n in seen
      requires forall n: nat, y: nat | net.Linked(v, n) && net.Linked(n, y) :: y == v || y in seen || net.Linked(v, y)
      ensures top <==> TopOfTwoHops(net, v)
      ensures forall y | y in Ball(net, v, 2) && y != v && y < visited.Length :: !visited[y]
    {
      hide Ball, Outranks;
      forall y | y in Ball(net, v, 2) && y != v ensures y in seen {
        TwoHops(net, v, y);
        if !Adjacent(net, v, y) {
          var n: nat :| Adjacent(net, v, n) && Adjacent(net, n, y);
          assert net.Linked(v, n) && net.Linked(n, y);
        } else {
          assert net.Linked(v, y);
        }
      }
    }

    /** Steps 7 and 8: the search from m along links with an end next to v. */
    method PathSearch(v: nat, m: nat)
      requires Valid() && v < |net.links| && Adjacent(net, v, m)
      requires forall y | y in Ball(net, v, 2) && y != v && y < visited.Length :: !visited[y]
      modifies visited
      ensures forall y: nat | y in Ball(net, v, 2) && y != v ::
                y < visited.Length && (visited[y] <==> SearchedNear(net, v, m, y))
    {
      hide Ball, SearchingNear, SearchedNear;
      StartNearSearch(net, v, m, visited[..]);
      var q := [m];
      visited[m] := true;
      while q != []
        invariant SearchingNear(net, v, m, visited[..], q)
        decreases Unvisited(visited[..]), |q|
      {
        var x := q[0];
        NearTodoInRange(net, v, m, visited[..], q);
        assert q == [x] + q[1..];
        q := q[1..];
        var xIsInN1 := HasEdgeTo(x, v);
        var links := net.links[x];
        ghost var unvisited, rest := Unvisited(visited[..]), q;
        for k := 0 to |links|
          invariant SearchingNear(net, v, m, visited[..], [x] + q)
          invariant forall i | 0 <= i < k && NearHop(net, v, x, links[i]) :: visited[links[i]]
          invariant Unvisited(visited[..]) < unvisited || (Unvisited(visited[..]) == unvisited && q == rest)
        {
          var n := links[k];
          if n == v { continue; }
          var nIsInN1 := HasEdgeTo(n, v);
          assert net.Linked(x, n);
          assert NearHop(net, v, x, n) <==> xIsInN1 || nIsInN1;
          if !xIsInN1 && !nIsInN1 { continue; }
          if !visited[n] {
            VisitNear(net, v, m, visited[..], [x] + q, x, n);
            assert n in Unvisited(visited[..]);
            visited[n] := true;
            assert n !in Unvisited(visited[..]);
            assert [x] + q + [n] == [x] + (q + [n]);
            ExceedsIsRank(n, v);
            if Exceeds(n, v) {
              q := q + [n];
            }
          }
        }
        forall w: nat | NearHop(net, v, x, w) ensures w < visited.Length && visited[w] {
          assert net.Linked(x, w);
        }
        CloseNear(net, v, m, visited[..], x, q);
      }
      NearSearchComplete(net, v, m, visited[..]);
    }

    /** Step 9: is some neighbour of v unvisited? */
    method SomeNeighbourUnvisited(v: nat) returns (found: bool)
      requires Valid() && v < |net.links|
      ensures found <==> exists y: nat :: Adjacent(net, v, y) && !visited[y]
    {
      var links := net.links[v];
      for k := 0 to |links|
        invariant forall i | 0 <= i < k :: visited[links[i]]
      {
        if !visited[links[k]] {
          assert Adjacent(net, v, links[k]);
          return true;
        }
      }
      forall y: nat | Adjacent(net, v, y) ensures visited[y] {
        assert net.Linked(v, y);
      }
      return false;
    }

    /** The whole decision for one interface. */
    method Elect(v: nat) returns (isRelay: bool)
      requires Valid() && v < |net.links|
      modifies visited
      ensures isRelay == IsNearRelay(net, v)
    {
      hide Ball, Adjacent, Outranks, TopOfTwoHops, SearchedNear, NearSearchMisses;
      LeafIffFewLinks(net, v);
      if |net.links[v]| < 2 {
        return false;
      }
      var best, top := Scan(v);
      if top {
        return true;
      }
      PathSearch(v, best);
      NearOutcome(net, v, best, visited[..]);
      isRelay := SomeNeighbourUnvisited(v);
    }

    /** Elects over all interfaces and lists the relays in the order they were found. */
    method CalculateFullECDS(order: seq<nat>) returns (numberOfRelays: nat, relayList: seq<nat>)
      requires Valid() && Enumerates(order, relay.Length)
      modifies visited, relay
      ensures forall v | 0 <= v < relay.Length :: relay[v] == IsNearRelay(net, v)
      ensures numberOfRelays == |relayList| == |NearRelays(net)| && Distinct(relayList)
      ensures forall v: nat :: v in relayList <==> v in NearRelays(net)
    {
      hide IsNearRelay;
      numberOfRelays, relayList := 0, [];
      for k := 0 to |order|
        invariant forall j | 0 <= j < k :: relay[order[j]] == IsNearRelay(net, order[j]) == (order[j] in relayList)
        invariant forall v | v in relayList :: v in NearRelays(net) && v in order[..k]
        invariant numberOfRelays == |relayList| && Distinct(relayList)
      {
        var v := order[k];
        var isRelay := Elect(v);
        if isRelay {
          numberOfRelays, relayList := numberOfRelays + 1, relayList + [v];
        }
        relay[v] := isRelay;
      }
      forall v | 0 <= v < relay.Length ensures relay[v] == IsNearRelay(net, v) == (v in relayList) {
        assert v in order;
      }
      DistinctSize(relayList, NearRelays(net));
    }
  }

  lemma NearTodoInRange(net: Net, v: nat, m: nat, flags: seq<bool>, todo: seq<nat>)
    requires SearchingNear(net, v, m, flags, todo) && todo != []
    ensures todo[0] < |flags| && todo[0] != v
  {
    assert todo[0] in todo;
  }
}
