/** The relay rule in plain terms of the priorities, links and addresses that a network is read from, and its
    agreement with the elections: who beats whom, who is elected, who is turned down. */
module RelayRule {
  import opened Network
  import opened Walks
  import opened Election
  import opened Traversal
  import opened Backbone
  import GR = GraphRider
  import GE = GraphExample

  /** A network as it is read, and how its elections are to rank: per node or (MECDS) per interface. */
  datatype Ballot = Ballot(t: GR.Topology, useDegree: bool, mecds: bool) {

    ghost predicate Wf() {
      t.Wf()
    }

    ghost predicate Hop(i: nat, j: nat)
      requires Wf()
    {
      i < |t.links| && j < |t.links| && i != j && (t.owner[i] == t.owner[j] || j in t.links[i])
    }

    ghost predicate WithinTwoHops(v: nat, x: nat)
      requires Wf()
    {
      x == v || Hop(v, x) || exists n: nat :: Hop(v, n) && Hop(n, x)
    }

    /** The number of different nodes at the other ends of node n's links. */
    ghost function NodesNextTo(n: nat): nat
      requires Wf()
    {
      |set i: nat, k: nat | i < |t.links| && t.owner[i] == n && k < |t.links[i]| :: t.owner[t.links[i][k]]|
    }

    ghost function Priority(i: nat): nat
      requires Wf() && i < |t.links|
    {
      if mecds then t.ifacePriority[i] else t.nodePriority[t.owner[i]]
    }

    ghost function Degree(i: nat): nat
      requires Wf() && i < |t.links|
    {
      if mecds then |t.links[i]| + |set j: nat | j < |t.links| && j != i && t.owner[j] == t.owner[i]|
      else NodesNextTo(t.owner[i])
    }

    /** The larger priority wins, then (if asked for) the larger degree, then the larger address. */
    ghost predicate Beats(i: nat, j: nat)
      requires Wf()
    {
      && i < |t.links| && j < |t.links|
      && (|| Priority(i) > Priority(j)
          || (Priority(i) == Priority(j) && useDegree && Degree(i) > Degree(j))
          || (Priority(i) == Priority(j) && (useDegree ==> Degree(i) == Degree(j)) && t.address[i] > t.address[j]))
    }

    /** p goes hop by hop from m to y, within two hops of v but not through v, and passes only what beats v. */
    ghost predicate GoesAround(v: nat, m: nat, y: nat, p: seq<nat>)
      requires Wf()
    {
      && |p| > 0 && p[0] == m && p[|p| - 1] == y
      && (forall k | 0 <= k < |p| :: p[k] != v && WithinTwoHops(v, p[k]))
      && (forall k | 0 < k < |p| :: Hop(p[k - 1], p[k]))
      && (forall k | 0 < k < |p| - 1 :: Beats(p[k], v))
    }

    /** m is the neighbour of v that beats all its other neighbours, and no way around v leads from m to y. */
    ghost predicate CannotReach(v: nat, m: nat, y: nat)
      requires Wf()
    {
      && Hop(v, m) && Hop(v, y)
      && (forall j | Hop(v, j) && j != m :: Beats(m, j))
      && !exists p :: GoesAround(v, m, y, p)
    }

    ghost predicate BeatsItsNeighbours(v: nat)
      requires Wf()
    {
      forall j | Hop(v, j) :: Beats(v, j)
    }

    /** Who becomes a relay: not in a leaf node, with a neighbour, and either on top of all neighbours or needed to
        reach one of them from the best. */
    ghost predicate Elected(v: nat)
      requires Wf()
    {
      && v < |t.links| && NodesNextTo(t.owner[v]) >= 2 && (exists j :: Hop(v, j))
      && (BeatsItsNeighbours(v) || exists m, y :: CannotReach(v, m, y))
    }

    ghost function Net(): (net: Net)
      requires Wf()
      ensures net.links == t.links && net.owner == t.owner
    {
      if mecds then t.MecdsNet(useDegree) else t.EcdsNet(useDegree)
    }
  }

  lemma HopIsAdjacent(b: Ballot, i: nat, j: nat)
    requires b.Wf()
    ensures b.Hop(i, j) <==> Adjacent(b.Net(), i, j)
  {
  }

  lemma NodesNextToIs(b: Ballot, net: Net, n: nat)
    requires b.Wf() && net.links == b.t.links && net.owner == b.t.owner
    ensures b.NodesNextTo(n) == |NeighbourNodes(net, n)|
  {
    var t := b.t;
    var nodes := set i: nat, k: nat | i < |t.links| && t.owner[i] == n && k < |t.links[i]| :: t.owner[t.links[i][k]];
    forall x: nat ensures x in nodes <==> x in NeighbourNodes(net, n) {
      if x in nodes {
        var i: nat, k: nat :| i < |t.links| && t.owner[i] == n && k < |t.links[i]| && x == t.owner[t.links[i][k]];
        assert net.Linked(i, t.links[i][k]) && i in Ifaces(net) && t.links[i][k] in Ifaces(net);
      }
      if x in NeighbourNodes(net, n) {
        var i: nat, j: nat :|
          i in Ifaces(net) && j in Ifaces(net) && net.owner[i] == n && net.Linked(i, j) && net.owner[j] == x;
        var k :| 0 <= k < |t.links[i]| && t.links[i][k] == j;
      }
    }
    assert nodes == NeighbourNodes(net, n);
  }

  lemma CofaceCount(net: Net, i: nat)
    requires i < |net.links|
    ensures |Cofaces(net, net.owner[i])| == 1 + |set j: nat | j < |net.links| && j != i && net.owner[j] == net.owner[i]|
  {
    var others := set j: nat | j < |net.links| && j != i && net.owner[j] == net.owner[i];
    DistinctSize(Cofaces(net, net.owner[i]), others + {i});
  }

  /** The rank of an interface holds the fields that Beats compares. */
  lemma RankOf(b: Ballot, i: nat)
    requires b.Wf() && i < |b.t.links|
    ensures b.Net().ranks[i] == Rank(b.Priority(i), if b.useDegree then b.Degree(i) else 0, b.t.address[i])
  {
    var bare: Net := b.t.Unranked();
    if b.mecds {
      CofaceCount(bare, i);
    } else {
      NodesNextToIs(b, bare, b.t.owner[i]);
    }
    hide NeighbourNodes, Cofaces;
  }

  lemma BeatsIsOutranks(b: Ballot, i: nat, j: nat)
    requires b.Wf()
    ensures b.Beats(i, j) <==> Outranks(b.Net(), i, j)
  {
    hide b.Degree, b.Priority, b.Net;
    if i < |b.t.links| && j < |b.t.links| {
      RankOf(b, i);
      RankOf(b, j);
    }
  }

  lemma TwoHopsIsBall(b: Ballot, v: nat, x: nat)
    requires b.Wf() && v < |b.t.links|
    ensures b.WithinTwoHops(v, x) <==> x in Ball(b.Net(), v, 2)
  {
    var net := b.Net();
    hide b.Net, Adjacent, b.Hop;
    BallOfOneHop(net, v, x);
    HopIsAdjacent(b, v, x);
    BallGrows(net, v, 1, 2);
    BallGrows(net, v, 0, 2);
    if b.WithinTwoHops(v, x) && x !in Ball(net, v, 1) {
      var n: nat :| b.Hop(v, n) && b.Hop(n, x);
      HopIsAdjacent(b, v, n);
      HopIsAdjacent(b, n, x);
      BallOfOneHop(net, v, n);
      BallStep(net, v, 1, n, x);
    }
    if x in Ball(net, v, 2) && x !in Ball(net, v, 1) {
      var n: nat :| n in Ball(net, v, 1) && Adjacent(net, n, x);
      BallOfOneHop(net, v, n);
      HopIsAdjacent(b, v, n);
      HopIsAdjacent(b, n, x);
    }
  }

  lemma AroundIsSearched(b: Ballot, v: nat, m: nat, y: nat)
    requires b.Wf() && b.Hop(v, m) && b.Hop(v, y)
    ensures (exists p :: b.GoesAround(v, m, y, p)) <==> Searched(b.Net(), v, m, y)
  {
    var net := b.Net();
    var via := Above(net, v) * Ball(net, v, 2);
    hide b.Net, Ball, Adjacent, b.Hop, b.Beats, Outranks, b.WithinTwoHops;
    forall i: nat, j: nat ensures b.Hop(i, j) <==> Adjacent(net, i, j) { HopIsAdjacent(b, i, j); }
    forall i: nat, j: nat ensures b.Beats(i, j) <==> Outranks(net, i, j) { BeatsIsOutranks(b, i, j); }
    NeighbourIsNear(net, v, m);
    NeighbourIsNear(net, v, y);
    forall x: nat ensures b.WithinTwoHops(v, x) <==> x in Ball(net, v, 2) { TwoHopsIsBall(b, v, x); }
    RanksAreTotallyOrdered(net, v, v, v);
    BallInIfaces(net, v, 2);
    if p :| b.GoesAround(v, m, y, p) {
      AroundLeads(b, net, via, v, m, y, p);
    }
    if p :| Leads(net, p, via, m, y) {
      LeadsAround(b, net, via, v, m, y, p);
    }
  }

  /** b's hops and victories, as those of net; via is what outranks v within two hops. */
  ghost predicate Matches(b: Ballot, net: Net, via: set<nat>, v: nat)
    requires b.Wf()
  {
    && (forall i: nat, j: nat :: b.Hop(i, j) <==> Adjacent(net, i, j))
    && forall x: nat :: x in via <==> b.Beats(x, v) && b.WithinTwoHops(v, x)
  }

  lemma AroundLeads(b: Ballot, net: Net, via: set<nat>, v: nat, m: nat, y: nat, p: seq<nat>)
    requires b.Wf() && Matches(b, net, via, v) && m in Ifaces(net) && b.GoesAround(v, m, y, p)
    ensures Leads(net, p, via, m, y)
  {
    hide b.Hop, b.Beats, b.WithinTwoHops, Adjacent;
  }

  lemma LeadsAround(b: Ballot, net: Net, via: set<nat>, v: nat, m: nat, y: nat, p: seq<nat>)
    requires b.Wf() && Matches(b, net, via, v) && Leads(net, p, via, m, y)
    requires v !in via && m != v && y != v && b.WithinTwoHops(v, m) && b.WithinTwoHops(v, y)
    ensures b.GoesAround(v, m, y, p)
  {
    hide b.Hop, b.Beats, b.WithinTwoHops, Adjacent;
    forall k | 0 <= k < |p| ensures p[k] != v && b.WithinTwoHops(v, p[k]) {
      assert k == 0 || k == |p| - 1 || p[k] in via;
    }
  }

  lemma NeighbourIsNear(net: Net, v: nat, m: nat)
    requires Adjacent(net, v, m)
    ensures m in Ball(net, v, 2) && m != v && v < |net.links| && m in Ifaces(net) && v in Ifaces(net)
  {
    BallOfOneHop(net, v, m);
    BallGrows(net, v, 1, 2);
  }

  lemma TopIff(b: Ballot, v: nat)
    requires b.Wf()
    ensures b.BeatsItsNeighbours(v) <==> TopOfOneHop(b.Net(), v)
  {
    var net := b.Net();
    hide b.Net, b.Hop, b.Beats, Adjacent, Outranks;
    forall j: nat ensures b.Hop(v, j) <==> Adjacent(net, v, j) { HopIsAdjacent(b, v, j); }
    forall j: nat ensures b.Beats(v, j) <==> Outranks(net, v, j) { BeatsIsOutranks(b, v, j); }
  }

  lemma CannotReachIff(b: Ballot, v: nat, m: nat, y: nat)
    requires b.Wf()
    ensures b.CannotReach(v, m, y) <==>
            IsBestNeighbour(b.Net(), v, m) && Adjacent(b.Net(), v, y) && !Searched(b.Net(), v, m, y)
  {
    var net := b.Net();
    hide b.Net, b.Hop, b.Beats, Adjacent, Outranks, b.GoesAround, Searched;
    forall j: nat ensures b.Hop(v, j) <==> Adjacent(net, v, j) { HopIsAdjacent(b, v, j); }
    forall j: nat ensures b.Beats(m, j) <==> Outranks(net, m, j) { BeatsIsOutranks(b, m, j); }
    if b.Hop(v, m) && b.Hop(v, y) {
      AroundIsSearched(b, v, m, y);
    }
  }

  /** The election elects exactly those that the plain rule names. */
  lemma ElectedIff(b: Ballot, v: nat)
    requires b.Wf()
    ensures b.Elected(v) <==> IsRelay(b.Net(), v)
  {
    var net := b.Net();
    hide b.Net, b.Hop, Adjacent, b.CannotReach, b.BeatsItsNeighbours, TopOfOneHop, IsBestNeighbour, Searched,
         NeighbourNodes, b.NodesNextTo;
    if v < |net.links| {
      NodesNextToIs(b, net, net.owner[v]);
      TopIff(b, v);
      forall j: nat ensures b.Hop(v, j) <==> Adjacent(net, v, j) { HopIsAdjacent(b, v, j); }
      forall m: nat, y: nat
        ensures b.CannotReach(v, m, y) <==>
                IsBestNeighbour(net, v, m) && Adjacent(net, v, y) && !Searched(net, v, m, y)
      {
        CannotReachIff(b, v, m, y);
      }
    }
  }

  /** A whole election from what was read: the flags follow the plain rule. In particular whoever has two neighbour
      nodes and beats all its neighbours is a relay. */
  method Elect(b: Ballot, order: seq<nat>) returns (flags: seq<bool>, red: seq<nat>)
    requires b.Wf() && GR.Enumerates(order, |b.t.nodePriority|)
    requires !b.mecds ==> |b.t.nodePriority| == |b.t.links| && forall i | 0 <= i < |b.t.owner| :: b.t.owner[i] == i
    ensures |flags| == |b.t.links| && forall v: nat | v < |flags| :: flags[v] <==> b.Elected(v)
    ensures !b.mecds ==> forall v: nat | v < |flags| && |b.t.links[v]| >= 2 :: b.BeatsItsNeighbours(v) ==> flags[v]
    ensures WhollyConnected(b.Net()) && flags != [] ==> (red == [] <==> HasThreeNodes(b.Net()))
  {
    var rider := new GR.GraphRider(b.t, b.useDegree, b.mecds);
    red := rider.RunEpoch(order, b.mecds);
    flags := rider.relay[..];
    forall v: nat | v < |flags| ensures flags[v] <==> b.Elected(v) {
      ElectedIff(b, v);
    }
    if !b.mecds {
      forall v: nat | v < |flags| && |b.t.links[v]| >= 2 && b.BeatsItsNeighbours(v) ensures b.Elected(v) {
        LinksAreNodes(b, v);
        assert b.Hop(v, b.t.links[v][0]) by { assert b.Net().Linked(v, b.t.links[v][0]); }
      }
    }
  }

  lemma LinksAreNodes(b: Ballot, v: nat)
    requires b.Wf() && v < |b.t.links| && forall i | 0 <= i < |b.t.owner| :: b.t.owner[i] == i
    ensures |b.t.links[v]| >= 2 ==> b.NodesNextTo(v) >= 2
  {
    NodesNextToIs(b, b.Net(), v);
    GR.LeafIffFewLinks(b.Net(), v);
  }

  // ----- the rule of graphExample

  /** Nodes with one interface each, ranked by priority and then by id. */
  datatype IdBallot = IdBallot(links: seq<seq<nat>>, priority: seq<nat>, id: seq<nat>) {

    ghost predicate Wf() {
      |links| == |priority| == |id| && GE.ByPriorityAndId(links, priority, id).Wf()
    }

    ghost predicate Hop(i: nat, j: nat) {
      i < |links| && j in links[i]
    }

    ghost predicate Beats(i: nat, j: nat)
      requires Wf()
    {
      && i < |links| && j < |links|
      && (priority[i] > priority[j] || (priority[i] == priority[j] && id[i] > id[j]))
    }

    ghost predicate BeatsBothHops(v: nat)
      requires Wf()
    {
      && (forall j | Hop(v, j) :: Beats(v, j))
      && (forall n: nat, j: nat | Hop(v, n) && Hop(n, j) && j != v :: Beats(v, j))
    }

    /** p goes from m to y not through v, only over links with an end next to v, and passes only what beats v. */
    ghost predicate GoesNear(v: nat, m: nat, y: nat, p: seq<nat>)
      requires Wf()
    {
      && |p| > 0 && p[0] == m && p[|p| - 1] == y
      && (forall k | 0 < k < |p| :: p[k] != v && Hop(p[k - 1], p[k]) && (Hop(v, p[k - 1]) || Hop(v, p[k])))
      && (forall k | 0 < k < |p| - 1 :: Beats(p[k], v))
    }

    ghost predicate CannotReach(v: nat, m: nat, y: nat)
      requires Wf()
    {
      && Hop(v, m) && Hop(v, y)
      && (forall j | Hop(v, j) && j != m :: Beats(m, j))
      && !exists p :: GoesNear(v, m, y, p)
    }

    ghost predicate Elected(v: nat)
      requires Wf()
    {
      v < |links| && |links[v]| >= 2 && (BeatsBothHops(v) || exists m, y :: CannotReach(v, m, y))
    }

    ghost function Net(): (net: Net)
      requires Wf()
      ensures net.links == links && GR.SingleInterface(net)
    {
      GE.ByPriorityAndId(links, priority, id)
    }
  }

  lemma IdHopIsAdjacent(b: IdBallot, i: nat, j: nat)
    requires b.Wf()
    ensures b.Hop(i, j) <==> Adjacent(b.Net(), i, j)
  {
    var net := b.Net();
    if b.Hop(i, j) {
      var k :| 0 <= k < |b.links[i]| && b.links[i][k] == j;
      assert net.links[i][k] < |net.links| && net.owner[i] != net.owner[net.links[i][k]];
    }
  }

  lemma IdBeatsIsOutranks(b: IdBallot, i: nat, j: nat)
    requires b.Wf()
    ensures b.Beats(i, j) <==> Outranks(b.Net(), i, j)
  {
  }

  lemma BothHopsAreTwo(b: IdBallot, v: nat)
    requires b.Wf() && v < |b.links|
    ensures b.BeatsBothHops(v) <==> GE.TopOfTwoHops(b.Net(), v)
  {
    var net := b.Net();
    hide b.Net, b.Hop, b.Beats, Adjacent, Outranks, Ball;
    forall i: nat, j: nat ensures b.Hop(i, j) <==> Adjacent(net, i, j) { IdHopIsAdjacent(b, i, j); }
    forall i: nat, j: nat ensures b.Beats(i, j) <==> Outranks(net, i, j) { IdBeatsIsOutranks(b, i, j); }
    forall y: nat ensures y in Ball(net, v, 2) && y != v <==>
      Adjacent(net, v, y) || (y != v && exists n: nat :: Adjacent(net, v, n) && Adjacent(net, n, y))
    {
      GE.TwoHops(net, v, y);
    }
  }

  lemma NearIsSearched(b: IdBallot, v: nat, m: nat, y: nat)
    requires b.Wf() && v < |b.links|
    ensures (exists p :: b.GoesNear(v, m, y, p)) <==> GE.SearchedNear(b.Net(), v, m, y)
  {
    var net := b.Net();
    hide b.Net, b.Hop, b.Beats, Adjacent, Outranks;
    forall i: nat, j: nat ensures b.Hop(i, j) <==> Adjacent(net, i, j) { IdHopIsAdjacent(b, i, j); }
    forall i: nat, j: nat ensures b.Beats(i, j) <==> Outranks(net, i, j) { IdBeatsIsOutranks(b, i, j); }
    if p :| b.GoesNear(v, m, y, p) {
      forall k: nat | 0 < k < |p| ensures GE.Onward(net, v, p, k) {
        assert k > 1 ==> b.Beats(p[k - 1], v);
      }
      assert GE.LeadsNear(net, v, p, m, y);
    }
    if p :| GE.LeadsNear(net, v, p, m, y) {
      forall k: nat | 0 < k < |p|
        ensures p[k] != v && b.Hop(p[k - 1], p[k]) && (b.Hop(v, p[k - 1]) || b.Hop(v, p[k]))
        ensures k < |p| - 1 ==> b.Beats(p[k], v)
      {
        assert GE.Onward(net, v, p, k);
        assert k < |p| - 1 ==> GE.Onward(net, v, p, k + 1);
      }
      assert b.GoesNear(v, m, y, p);
    }
  }

  lemma IdElectedIff(b: IdBallot, v: nat)
    requires b.Wf()
    ensures b.Elected(v) <==> GE.IsNearRelay(b.Net(), v)
  {
    var net := b.Net();
    hide b.Net, b.Hop, b.Beats, Adjacent, Outranks, b.GoesNear, GE.SearchedNear, GE.TopOfTwoHops, b.BeatsBothHops;
    if v < |net.links| {
      GR.LeafIffFewLinks(net, v);
      BothHopsAreTwo(b, v);
      forall i: nat, j: nat ensures b.Hop(i, j) <==> Adjacent(net, i, j) { IdHopIsAdjacent(b, i, j); }
      forall i: nat, j: nat ensures b.Beats(i, j) <==> Outranks(net, i, j) { IdBeatsIsOutranks(b, i, j); }
      forall m: nat, y: nat ensures (exists p :: b.GoesNear(v, m, y, p)) <==> GE.SearchedNear(net, v, m, y) {
        NearIsSearched(b, v, m, y);
      }
      if m, y :| b.CannotReach(v, m, y) {
        assert IsBestNeighbour(net, v, m) && !GE.SearchedNear(net, v, m, y);
      }
      if m, y :| IsBestNeighbour(net, v, m) && Adjacent(net, v, y) && !GE.SearchedNear(net, v, m, y) {
        assert b.CannotReach(v, m, y);
      }
    }
  }

  /** A whole election of graphExample follows its plain rule. */
  method ElectById(b: IdBallot, order: seq<nat>) returns (flags: seq<bool>, relayList: seq<nat>)
    requires b.Wf() && GR.Enumerates(order, |b.links|)
    ensures |flags| == |b.links| && forall v: nat | v < |flags| :: flags[v] <==> b.Elected(v)
    ensures Distinct(relayList) && forall v: nat :: v in relayList <==> b.Elected(v)
  {
    var graph := new GE.GraphExample(b.links, b.priority, b.id);
    var _, list := graph.CalculateFullECDS(order);
    flags, relayList := graph.relay[..], list;
    forall v: nat ensures b.Elected(v) <==> GE.IsNearRelay(b.Net(), v) {
      IdElectedIff(b, v);
    }
  }
}
