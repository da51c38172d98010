/** Six nodes on which the election of graphExample elects two relays that are not connected to each other, and a
    seventh that makes it safe although the same node is still turned down. */
module GraphExampleCounterexample {
  import opened Network
  import opened Walks
  import opened Election
  import opened Backbone
  import opened GraphRider
  import opened GraphExample

  // 0 is linked to 1, 2 and 3; 1 to 2 and 3; 4 hangs off 2 and 5 off 3. In rank order: 4, 5, 0, 1, 3, 2.
  // The seventh node hangs off 1 and ranks lowest.
  function Example(n: nat): Layout {
    Layout([[1, 2, 3], if n == 7 then [0, 2, 3, 6] else [0, 2, 3], [0, 1, 4], [0, 1, 5], [2], [3]] +
           (if n == 7 then [[1]] else []),
           [0, 1, 2, 3, 4, 5] + (if n == 7 then [6] else []),
           [Rank(0, 0, 4), Rank(0, 0, 3), Rank(0, 0, 1), Rank(0, 0, 2), Rank(0, 0, 6), Rank(0, 0, 5)] +
           (if n == 7 then [Rank(0, 0, 0)] else []))
  }

  predicate Edge(n: nat, i: nat, j: nat) {
    || (i, j) in {(0, 1), (0, 2), (0, 3), (1, 0), (1, 2), (1, 3), (2, 0), (2, 1), (2, 4),
                  (3, 0), (3, 1), (3, 5), (4, 2), (5, 3)}
    || (n == 7 && (i, j) in {(1, 6), (6, 1)})
  }

  function Strength(i: nat): nat {
    if i == 4 then 6 else if i == 5 then 5 else if i == 0 then 4 else if i == 1 then 3 else if i == 3 then 2
    else if i == 2 then 1 else 0
  }

  /** What matters about the six or seven nodes. */
  ghost predicate IsExample(net: Net, n: nat) {
    && 6 <= n <= 7 && SingleInterface(net) && |net.links| == n
    && (forall i: nat, j: nat :: net.Linked(i, j) <==> Edge(n, i, j))
    && (forall i: nat, j: nat :: Adjacent(net, i, j) <==> Edge(n, i, j))
    && (forall i: nat, j: nat | i < n && j < n :: Outranks(net, i, j) <==> Strength(i) > Strength(j))
  }

  lemma ExampleEdges(n: nat, i: nat, k: nat)
    requires 6 <= n <= 7 && i < n && k < |Example(n).links[i]|
    ensures var j := Example(n).links[i][k]; j < n && Edge(n, i, j) && Edge(n, j, i)
    ensures forall m | 0 <= m < k :: Example(n).links[i][m] != Example(n).links[i][k]
  {
  }

  lemma ExampleLinked(n: nat, i: nat, j: nat)
    requires 6 <= n <= 7
    ensures Example(n).Linked(i, j) <==> Edge(n, i, j)
  {
    if Edge(n, i, j) {
      var l := Example(n).links[i];
      assert j == l[0] || j == l[1] || j == l[2] || j == l[3];
    }
  }

  lemma ExampleRanks(n: nat, i: nat)
    requires 6 <= n <= 7 && i < n
    ensures Example(n).ranks[i] == Rank(0, 0, Strength(i)) && Example(n).owner[i] == i
  {
  }

  lemma ExampleSizes(n: nat)
    requires 6 <= n <= 7
    ensures |Example(n).links| == |Example(n).ranks| == |Example(n).owner| == n
  {
  }

  lemma ExampleIsWf(n: nat)
    requires 6 <= n <= 7
    ensures Example(n).Wf()
  {
    var ex := Example(n);
    ExampleSizes(n);
    hide Example, Edge;
    forall i, k | 0 <= i < n && 0 <= k < |ex.links[i]|
      ensures ex.links[i][k] < n && ex.Linked(ex.links[i][k], i) && ex.owner[i] != ex.owner[ex.links[i][k]]
      ensures forall m | 0 <= m < k :: ex.links[i][m] != ex.links[i][k]
    {
      ExampleEdges(n, i, k);
      NoLoops(n, i, ex.links[i][k]);
      ExampleLinked(n, ex.links[i][k], i);
      ExampleRanks(n, i);
      ExampleRanks(n, ex.links[i][k]);
    }
    forall i, j | 0 <= i < j < n ensures ex.ranks[i].address != ex.ranks[j].address {
      ExampleRanks(n, i);
      ExampleRanks(n, j);
    }
  }

  lemma NoLoops(n: nat, i: nat, j: nat)
    requires Edge(n, i, j)
    ensures i != j
  {
  }

  lemma ExampleExists(n: nat) returns (net: Net)
    requires 6 <= n <= 7
    ensures IsExample(net, n)
  {
    ExampleIsWf(n);
    ExampleSizes(n);
    net := Example(n);
    hide Example, Edge;
    forall i: nat, j: nat ensures net.Linked(i, j) <==> Edge(n, i, j) {
      ExampleLinked(n, i, j);
    }
    forall i: nat, j: nat | i < n && j < n
      ensures net.owner[i] == i && (Outranks(net, i, j) <==> Strength(i) > Strength(j))
    {
      ExampleRanks(n, i);
      ExampleRanks(n, j);
    }
  }

  lemma ExampleIsConnected(net: Net, n: nat)
    requires IsExample(net, n)
    ensures WhollyConnected(net)
  {
    hide IsExample, Joined;
    forall a, b | a in Ifaces(net) && b in Ifaces(net) ensures Connected(net, a, b) {
      JoinedToHub(net, n, a);
      JoinedToHub(net, n, b);
      JoinedBackwards(net, Ifaces(net), b, 1);
      JoinedInIfaces(net, Ifaces(net), a, 1);
      JoinedThrough(net, Ifaces(net), a, 1, b);
    }
  }

  lemma JoinedToHub(net: Net, n: nat, a: nat)
    requires IsExample(net, n) && a in Ifaces(net)
    ensures Joined(net, Ifaces(net), a, 1)
  {
    hide Joined, Adjacent, Outranks;
    if a == 1 {
      JoinedToItself(net, Ifaces(net), a);
    } else if a == 4 || a == 5 {
      var b := a - 2;
      assert Edge(n, a, b) && Edge(n, b, 1);
      JoinedByHop(net, Ifaces(net), a, b);
      JoinedByHop(net, Ifaces(net), b, 1);
      JoinedInIfaces(net, Ifaces(net), b, 1);
      JoinedThrough(net, Ifaces(net), a, b, 1);
    } else {
      assert Edge(n, a, 1);
      JoinedByHop(net, Ifaces(net), a, 1);
    }
  }

  lemma ExampleLeaves(net: Net, n: nat, i: nat)
    requires IsExample(net, n) && i < n
    ensures InLeafNode(net, i) <==> i >= 4
  {
    hide Adjacent, Outranks, NeighbourNodes;
    forall j: nat ensures j in NeighbourNodes(net, i) <==> Edge(n, i, j) {
      ExampleNeighbour(net, n, i, j);
    }
    var nodes := NeighbourNodes(net, i);
    if i >= 4 {
      var only := if i == 6 then 1 else i - 2;
      assert nodes <= {only};
      SubsetSize(nodes, {only});
    } else {
      var a, b := if i == 0 then 1 else 0, if i == 1 || i == 0 then 2 else 1;
      assert Edge(n, i, a) && Edge(n, i, b);
      SubsetSize({a, b}, nodes);
    }
  }

  lemma ExampleNeighbour(net: Net, n: nat, i: nat, j: nat)
    requires IsExample(net, n) && i < n
    ensures j in NeighbourNodes(net, i) <==> Edge(n, i, j)
  {
    hide Adjacent, Outranks, Edge;
    if j in NeighbourNodes(net, i) {
      var a: nat, b: nat :|
        a in Ifaces(net) && b in Ifaces(net) && net.owner[a] == i && net.Linked(a, b) && j == net.owner[b];
    }
    if Edge(n, i, j) {
      assert net.Linked(i, j) && i in Ifaces(net) && j in Ifaces(net);
    }
  }

  /** 4 is two hops away from 0 and ranks higher. */
  lemma NotOnTop(net: Net, n: nat, v: nat)
    requires IsExample(net, n) && v < 2
    ensures !TopOfTwoHops(net, v)
  {
    hide Adjacent, Outranks, Ball;
    assert Edge(n, v, 2) && Edge(n, 2, 4) && Adjacent(net, v, 2) && Adjacent(net, 2, 4) && !Outranks(net, v, 4);
    BallOfOneHop(net, v, 2);
    BallStep(net, v, 1, 2, 4);
  }

  lemma BestOfTwo(net: Net, n: nat, v: nat, m: nat)
    requires IsExample(net, n) && v < 2 && IsBestNeighbour(net, v, m)
    ensures m == 1 - v
  {
    hide Adjacent, Outranks;
    var other: nat := 1 - v;
    assert Edge(n, v, other) && Adjacent(net, v, other) && Edge(n, v, m);
    assert m == other || Outranks(net, m, other);
  }

  /** 0 is on top of its neighbours, and turned down because its search from 1 visits them all at once. */
  lemma ZeroIsLost(net: Net, n: nat)
    requires IsExample(net, n)
    ensures IsLostTop(net, 0)
  {
    NotOnTop(net, n, 0);
    ExampleLeaves(net, n, 0);
    hide Adjacent, Outranks, TopOfTwoHops, InLeafNode;
    assert TopOfOneHop(net, 0);
    hide TopOfOneHop;
    forall m: nat, y: nat | IsBestNeighbour(net, 0, m) && Adjacent(net, 0, y) ensures WithinOneDetour(net, 0, m, y) {
      BestOfTwo(net, n, 0, m);
      assert Edge(n, 0, y) && (y == 1 || Edge(n, 1, y));
    }
  }

  lemma ZeroIsTurnedDown(net: Net, n: nat)
    requires IsExample(net, n)
    ensures !IsNearRelay(net, 0)
  {
    ZeroIsLost(net, n);
    LosesExactlyTheLostTops(net);
    hide IsLostTop, IsNearRelay, IsExample;
    assert 0 in LostTops(net);
  }

  /** 1 searches from 0, which is linked to all its neighbours but the seventh node; that one only 1 itself reaches. */
  lemma OneIsElectedIff(net: Net, n: nat)
    requires IsExample(net, n)
    ensures IsNearRelay(net, 1) <==> n == 7
  {
    NotOnTop(net, n, 1);
    ExampleLeaves(net, n, 1);
    hide Adjacent, Outranks, TopOfTwoHops, InLeafNode, Ball;
    if n == 7 {
      BestNeighbourOfOne(net, n);
      if SearchedNear(net, 1, 0, 6) {
        var p :| LeadsNear(net, 1, p, 0, 6);
        SeventhIsOutOfReach(net, p, 6);
      }
      hide SearchedNear;
      assert Adjacent(net, 1, 6);
    } else {
      forall m: nat, y: nat | IsBestNeighbour(net, 1, m) && Adjacent(net, 1, y) ensures SearchedNear(net, 1, m, y) {
        BestOfTwo(net, n, 1, m);
        assert Edge(n, 1, y) && Edge(n, 1, 0) && (y == 0 || Edge(n, 0, y));
        DetourIsSearched(net, 1, 0, y);
      }
      hide SearchedNear, IsExample;
    }
  }

  lemma BestNeighbourOfOne(net: Net, n: nat)
    requires IsExample(net, n)
    ensures IsBestNeighbour(net, 1, 0)
  {
    hide Adjacent, Outranks;
    assert Edge(n, 1, 0);
    forall j: nat | Adjacent(net, 1, j) && j != 0 ensures Outranks(net, 0, j) {
      assert Edge(n, 1, j) && j < n;
    }
  }

  lemma SeventhIsOutOfReach(net: Net, p: seq<nat>, y: nat)
    requires IsExample(net, 7) && LeadsNear(net, 1, p, 0, y)
    ensures y != 6
  {
    hide Adjacent, Outranks;
    if |p| > 1 {
      var k: nat := |p| - 1;
      assert k > 1 ==> Onward(net, 1, p, k - 1);
      assert Onward(net, 1, p, k) && Edge(7, p[k - 1], y);
    }
  }

  lemma StuckAtLeaf(net: Net, n: nat, v: nat, p: seq<nat>, y: nat)
    requires IsExample(net, n) && 2 <= v < 4 && LeadsNear(net, v, p, v + 2, y)
    ensures y == v + 2
  {
    hide Adjacent, Outranks;
    assert |p| > 1 ==> Onward(net, v, p, 1) && Edge(n, v + 2, p[1]);
  }

  /** 2 and 3 are elected: their best neighbour is a leaf, from which the search gets nowhere. */
  lemma Elects(net: Net, n: nat, v: nat)
    requires IsExample(net, n) && 2 <= v < 4
    ensures IsNearRelay(net, v)
  {
    ExampleLeaves(net, n, v);
    hide Adjacent, Outranks, TopOfTwoHops, InLeafNode;
    var m := v + 2;
    assert Edge(n, v, m) && Edge(n, v, 0);
    assert IsBestNeighbour(net, v, m);
    if SearchedNear(net, v, m, 0) {
      var p :| LeadsNear(net, v, p, m, 0);
      StuckAtLeaf(net, n, v, p, 0);
    }
    hide SearchedNear;
    assert Adjacent(net, v, 0);
  }

  lemma ElectedInExample(net: Net, n: nat)
    requires IsExample(net, n)
    ensures NearRelays(net) == if n == 7 then {1, 2, 3} else {2, 3}
  {
    hide Adjacent, IsNearRelay;
    forall i: nat | i < n ensures IsNearRelay(net, i) <==> i == 2 || i == 3 || (i == 1 && n == 7) {
      if i == 0 {
        ZeroIsTurnedDown(net, n);
      } else if i == 1 {
        OneIsElectedIff(net, n);
      } else if i < 4 {
        Elects(net, n, i);
      } else {
        LeafIsNotElected(net, n, i);
      }
    }
  }

  lemma LeafIsNotElected(net: Net, n: nat, i: nat)
    requires IsExample(net, n) && 4 <= i < n
    ensures !IsNearRelay(net, i)
  {
    ExampleLeaves(net, n, i);
  }

  /** The network is connected, yet the relays 2 and 3 that get elected are not adjacent: node 0 is lost. */
  lemma NearElectionCanDisconnect() returns (net: Net)
    ensures SingleInterface(net) && |net.links| == 6 && WhollyConnected(net)
    ensures NearRelays(net) == {2, 3} && !ConnectedDominatingSet(net, NearRelays(net))
    ensures LostTops(net) != {}
  {
    net := ExampleExists(6);
    ExampleIsConnected(net, 6);
    ElectedInExample(net, 6);
    TwoApart(net);
    ZeroIsLost(net, 6);
    hide IsLostTop, IsNearRelay, ConnectedDominatingSet, Adjacent, Outranks, WhollyConnected;
    assert 0 in LostTops(net);
  }

  lemma TwoApart(net: Net)
    requires IsExample(net, 6)
    ensures !ConnectedDominatingSet(net, {2, 3})
  {
    hide Adjacent, Outranks, Joined;
    if ConnectedDominatingSet(net, {2, 3}) {
      assert Joined(net, {2, 3}, 2, 3);
      var c := FirstHop(net, {2, 3}, 2, 3);
    }
  }

  /** Losing a relay need not do harm: with the seventh node, 0 is still lost, but 1 is elected in its place. */
  lemma LosingATopCanBeHarmless() returns (net: Net)
    ensures SingleInterface(net) && |net.links| == 7 && WhollyConnected(net)
    ensures LostTops(net) != {} && ConnectedDominatingSet(net, NearRelays(net))
  {
    net := ExampleExists(7);
    ExampleIsConnected(net, 7);
    ElectedInExample(net, 7);
    ThreeConnect(net);
    ZeroIsLost(net, 7);
    hide IsLostTop, IsNearRelay, ConnectedDominatingSet, Adjacent, Outranks, WhollyConnected;
    assert 0 in LostTops(net);
  }

  lemma ThreeConnect(net: Net)
    requires IsExample(net, 7)
    ensures ConnectedDominatingSet(net, {1, 2, 3})
  {
    hide Adjacent, Outranks, Joined;
    var s := {1, 2, 3};
    forall i | i in Ifaces(net) ensures Dominates(net, s, net.owner[i]) {
      var r := if i == 4 || i == 5 then i - 2 else 1;
      assert r == i || Edge(7, r, i);
      assert r in s && net.owner[i] == net.owner[i] && (r == i || net.Linked(r, i));
    }
    forall r, t | r in s && t in s ensures Joined(net, s, r, t) {
      JoinedToOne(net, r);
      JoinedToOne(net, t);
      JoinedBackwards(net, s, t, 1);
      JoinedThrough(net, s, r, 1, t);
    }
  }

  lemma JoinedToOne(net: Net, r: nat)
    requires IsExample(net, 7) && 1 <= r <= 3
    ensures Joined(net, {1, 2, 3}, r, 1)
  {
    hide Adjacent, Outranks, Joined;
    if r == 1 {
      assert r in Ifaces(net);
      JoinedToItself(net, {1, 2, 3}, r);
    } else {
      assert Edge(7, r, 1);
      JoinedByHop(net, {1, 2, 3}, r, 1);
    }
  }
}
