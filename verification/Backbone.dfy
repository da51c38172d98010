/** Purely local decisions give a global backbone: the elected relays connect and dominate the network. */
module Backbone {
  import opened Network
  import opened Walks
  import opened Election

  /** Interfaces of leaf nodes other than the spared ones. */
  ghost function Dropped(net: Net, spared: set<nat>): set<nat> {
    set i | i in Ifaces(net) && InLeafNode(net, i) && net.owner[i] !in spared
  }

  ghost function SparedLeaf(net: Net, spared: set<nat>): set<nat> {
    set i | i in Ifaces(net) && InLeafNode(net, i) && net.owner[i] in spared
  }

  lemma LeafHasOneNeighbourNode(net: Net, i: nat, x: nat, j: nat, y: nat)
    requires net.Linked(i, x) && net.Linked(j, y)
    requires net.owner[i] == net.owner[j] && InLeafNode(net, i)
    ensures net.owner[x] == net.owner[y]
  {
    var nbrs := NeighbourNodes(net, net.owner[i]);
    assert net.owner[x] in nbrs && net.owner[y] in nbrs;
    if net.owner[x] != net.owner[y] {
      var pair := {net.owner[x], net.owner[y]};
      assert pair <= nbrs;
      assert |pair| <= |nbrs| by { SubsetSize(pair, nbrs); }
    }
  }

  /** Where a walk has got to once the dropped leaf nodes are cut out of it: at c itself, or at an
      interface e, across the link from the leaf node that c belongs to. */
  ghost predicate CutTo(net: Net, via: set<nat>, spared: set<nat>, a: nat, c: nat, e: nat) {
    && Joined(net, via - Dropped(net, spared), a, e) && e < |net.links| && c < |net.links|
    && e !in Dropped(net, spared) && (e in via || e == a)
    && c in Dropped(net, spared)
    && exists i: nat, x: nat :: net.Linked(i, x) && net.owner[i] == net.owner[c] && net.owner[x] == net.owner[e]
  }

  lemma CutOneHop(net: Net, via: set<nat>, spared: set<nat>, a: nat, c: nat, y: nat)
    requires a in Ifaces(net) && a !in Dropped(net, spared) && Adjacent(net, c, y)
    requires c == a || c in via
    requires if c in Dropped(net, spared) then exists e: nat :: CutTo(net, via, spared, a, c, e)
             else Joined(net, via - Dropped(net, spared), a, c)
    ensures if y in Dropped(net, spared) then exists e: nat :: CutTo(net, via, spared, a, y, e)
            else Joined(net, via - Dropped(net, spared), a, y)
  {
    var kept := via - Dropped(net, spared);
    if c !in Dropped(net, spared) {
      if y in Dropped(net, spared) {
        assert net.Linked(c, y) && net.Linked(y, c);
        assert CutTo(net, via, spared, a, y, c);
      } else {
        JoinedByHop(net, kept, c, y);
        JoinedThrough(net, kept, a, c, y);
      }
    } else {
      var e: nat :| CutTo(net, via, spared, a, c, e);
      var i: nat, x: nat :| net.Linked(i, x) && net.owner[i] == net.owner[c] && net.owner[x] == net.owner[e];
      if net.owner[c] == net.owner[y] {
        assert CutTo(net, via, spared, a, y, e);
      } else {
        LeafHasOneNeighbourNode(net, c, y, i, x);
        assert net.owner[y] == net.owner[e];
        assert y !in Dropped(net, spared);
        if y != e {
          JoinedByHop(net, kept, e, y);
          JoinedThrough(net, kept, a, e, y);
        }
      }
    }
  }

  /** A walk between interfaces that are not dropped can go round every dropped leaf node. */
  lemma {:induction false} CutLeaves(net: Net, via: set<nat>, spared: set<nat>, p: seq<nat>, a: nat, b: nat)
    requires Leads(net, p, via, a, b) && a !in Dropped(net, spared)
    ensures if b in Dropped(net, spared) then exists e: nat :: CutTo(net, via, spared, a, b, e)
            else Joined(net, via - Dropped(net, spared), a, b)
    decreases |p|
  {
    if |p| == 1 {
      JoinedToItself(net, via - Dropped(net, spared), a);
    } else {
      var c := p[|p| - 2];
      var q := p[..|p| - 1];
      assert Leads(net, q, via, a, c);
      CutLeaves(net, via, spared, q, a, c);
      assert Adjacent(net, p[|p| - 2], p[|p| - 1]);
      CutOneHop(net, via, spared, a, c, b);
    }
  }

  /** Once v's neighbours are joined without v, no walk needs v on its way. */
  lemma {:induction false} RouteRound(net: Net, via: set<nat>, v: nat, shut: set<nat>, p: seq<nat>, a: nat, b: nat)
    requires Leads(net, p, via + {v}, a, b) && via !! shut && a !in shut && b !in shut && v !in shut
    requires forall x, y | Adjacent(net, v, x) && Adjacent(net, v, y) && x !in shut && y !in shut ::
      Joined(net, via, x, y)
    ensures Joined(net, via, a, b)
    decreases |p|
  {
    if |p| == 1 {
      JoinedToItself(net, via, a);
    } else {
      var c := p[|p| - 2];
      var q := p[..|p| - 1];
      assert Leads(net, q, via + {v}, a, c);
      RouteRound(net, via, v, shut, q, a, c);
      assert Adjacent(net, p[|p| - 2], p[|p| - 1]);
      if c in via || c == a {
        JoinedByHop(net, via, c, b);
        JoinedThrough(net, via, a, c, b);
      } else {
        assert c == v;
        var x := LastHop(net, via, a, v);
        AdjacentIsSymmetric(net, x, v);
        assert Joined(net, via, x, b);
        JoinedThrough(net, via, a, x, b);
      }
    }
  }

  /** The interfaces that were turned down can be taken out of service one by one, lowest rank first. */
  lemma {:induction false} TakeOut(net: Net, spared: set<nat>, turned: set<nat>, a: nat, b: nat)
    requires turned <= Ifaces(net)
    requires forall v | v in turned :: !InLeafNode(net, v) && !IsRelay(net, v)
    requires forall v, w | v in turned && w in Above(net, v) && !InLeafNode(net, w) && !IsRelay(net, w) :: w in turned
    requires a !in Dropped(net, spared) && b !in Dropped(net, spared)
    requires Joined(net, Relays(net) + SparedLeaf(net, spared) + turned, a, b)
    ensures Joined(net, Relays(net) + SparedLeaf(net, spared), a, b)
    decreases |turned|
  {
    var base := Relays(net) + SparedLeaf(net, spared);
    if turned == {} {
      assert base + turned == base;
    } else {
      var v := Lowest(net, turned);
      var rest := turned - {v};
      var via := base + rest;
      forall x, y | Adjacent(net, v, x) && Adjacent(net, v, y) && x !in Dropped(net, spared) &&
        y !in Dropped(net, spared)
        ensures Joined(net, via, x, y)
      {
        TurnedDownMeansCovered(net, v, x, y);
        var p :| Leads(net, p, Above(net, v), x, y);
        CutLeaves(net, Above(net, v), spared, p, x, y);
        RanksAreTotallyOrdered(net, v, v, v);
        JoinedIsMonotone(net, Above(net, v) - Dropped(net, spared), via, x, y);
      }
      assert base + turned == via + {v};
      var p :| Leads(net, p, via + {v}, a, b);
      RouteRound(net, via, v, Dropped(net, spared), p, a, b);
      forall u, w | u in rest && w in Above(net, u) && !InLeafNode(net, w) && !IsRelay(net, w)
        ensures w in rest
      {
        RanksAreTotallyOrdered(net, u, v, w);
      }
      TakeOut(net, spared, rest, a, b);
    }
  }

  lemma {:induction false} Lowest(net: Net, s: set<nat>) returns (m: nat)
    requires s != {} && s <= Ifaces(net)
    ensures m in s && forall j | j in s && j != m :: Outranks(net, j, m)
  {
    var x :| x in s;
    if s == {x} {
      m := x;
    } else {
      var n := Lowest(net, s - {x});
      m := if Outranks(net, n, x) then x else n;
      forall j | j in s && j != m ensures Outranks(net, j, m) {
        RanksAreTotallyOrdered(net, j, n, m);
        RanksAreTotallyOrdered(net, x, n, m);
      }
    }
  }

  /** Whatever is connected at all is connected through relays (and the two end nodes themselves, where they are
      leaves). */
  lemma WalksNeedOnlyRelays(net: Net, a: nat, b: nat)
    requires Connected(net, a, b)
    ensures a < |net.links| && b < |net.links|
    ensures Joined(net, Relays(net) + SparedLeaf(net, {net.owner[a], net.owner[b]}), a, b)
  {
    JoinedInIfaces(net, Ifaces(net), a, b);
    var spared := {net.owner[a], net.owner[b]};
    var p :| Leads(net, p, Ifaces(net), a, b);
    CutLeaves(net, Ifaces(net), spared, p, a, b);
    var turned := set i | i in Ifaces(net) && !InLeafNode(net, i) && !IsRelay(net, i);
    assert Ifaces(net) - Dropped(net, spared) == Relays(net) + SparedLeaf(net, spared) + turned;
    TakeOut(net, spared, turned, a, b);
  }

  ghost predicate Connected(net: Net, a: nat, b: nat) {
    Joined(net, Ifaces(net), a, b)
  }

  ghost predicate WhollyConnected(net: Net) {
    forall a, b | a in Ifaces(net) && b in Ifaces(net) :: Connected(net, a, b)
  }

  /** i lies in a component of at least three nodes: it is neither an orphan nor one of an orphan pair. */
  ghost predicate InLargeComponent(net: Net, i: nat) {
    && i < |net.links|
    && exists j: nat, k: nat :: Connected(net, i, j) && Connected(net, i, k) && ThreeNodes(net, i, j, k)
  }

  ghost predicate ThreeNodes(net: Net, i: nat, j: nat, k: nat) {
    && i < |net.links| && j < |net.links| && k < |net.links|
    && net.owner[i] != net.owner[j] && net.owner[i] != net.owner[k] && net.owner[j] != net.owner[k]
  }

  ghost predicate HasThreeNodes(net: Net) {
    exists i: nat, j: nat, k: nat :: ThreeNodes(net, i, j, k)
  }

  /** Node n has an interface in s, or a link to one. */
  ghost predicate Dominates(net: Net, s: set<nat>, n: nat) {
    exists r: nat, c: nat :: r in s && c < |net.links| && net.owner[c] == n && (r == c || net.Linked(r, c))
  }

  /** A walk to another node crosses a first link out of its own node. */
  lemma {:induction false} FirstExit(net: Net, via: set<nat>, p: seq<nat>, a: nat, b: nat) returns (c: nat, d: nat)
    requires Leads(net, p, via, a, b) && b < |net.links| && a < |net.links| && net.owner[a] != net.owner[b]
    ensures net.Linked(c, d) && net.owner[c] == net.owner[a] && net.owner[d] != net.owner[a]
    ensures d == b || d in via
    decreases |p|
  {
    assert Adjacent(net, p[0], p[1]);
    if net.owner[p[1]] != net.owner[a] {
      c, d := a, p[1];
    } else {
      assert Leads(net, p[1..], via, p[1], b);
      c, d := FirstExit(net, via, p[1..], p[1], b);
    }
  }

  /** Walking from node a towards node b, the first node met is b's or has a relay at its near end. */
  lemma FirstExitMeetsRelay(net: Net, a: nat, b: nat) returns (c: nat, d: nat)
    requires Connected(net, a, b)
    requires a < |net.links| && b < |net.links| && net.owner[a] != net.owner[b]
    ensures net.Linked(c, d) && net.owner[c] == net.owner[a]
    ensures d in Relays(net) || net.owner[d] == net.owner[b]
    ensures b in Relays(net) ==> d in Relays(net)
  {
    WalksNeedOnlyRelays(net, a, b);
    var via := Relays(net) + SparedLeaf(net, {net.owner[a], net.owner[b]});
    var p :| Leads(net, p, via, a, b);
    c, d := FirstExit(net, via, p, a, b);
  }

  lemma LinkedIsConnected(net: Net, a: nat, c: nat, d: nat)
    requires a < |net.links| && net.Linked(c, d) && net.owner[c] == net.owner[a]
    ensures Connected(net, a, c) && Connected(net, a, d)
  {
    if a == c { JoinedToItself(net, Ifaces(net), a); } else { JoinedByHop(net, Ifaces(net), a, c); }
    JoinedByHop(net, Ifaces(net), c, d);
    JoinedThrough(net, Ifaces(net), a, c, d);
  }

  lemma {:induction false} RelayInLargeComponent(net: Net, i: nat) returns (r: nat)
    requires InLargeComponent(net, i)
    ensures r in Relays(net) && Connected(net, i, r)
  {
    var all := Ifaces(net);
    var j: nat, k: nat :| Connected(net, i, j) && Connected(net, i, k) && ThreeNodes(net, i, j, k);
    var component := set x | x in all && Connected(net, i, x);
    JoinedToItself(net, all, i);
    assert i in component && j in component && k in component;
    var m := Highest(net, component);
    JoinedBackwards(net, all, i, m);
    var u := if net.owner[i] != net.owner[m] then i else j;
    var w := if net.owner[k] != net.owner[m] then k else j;
    JoinedThrough(net, all, m, i, u);
    JoinedThrough(net, all, m, i, w);
    var c, d := FirstExitMeetsRelay(net, m, u);
    var c', d' := FirstExitMeetsRelay(net, m, w);
    LinkedIsConnected(net, m, c, d);
    LinkedIsConnected(net, m, c', d');
    if d in Relays(net) {
      JoinedThrough(net, all, i, m, d);
      r := d;
    } else if d' in Relays(net) {
      JoinedThrough(net, all, i, m, d');
      r := d';
    } else {
      if InLeafNode(net, m) {
        LeafHasOneNeighbourNode(net, c, d, c', d');
        assert false;
      }
      forall x | Adjacent(net, m, x) ensures Outranks(net, m, x) {
        JoinedByHop(net, all, m, x);
        JoinedThrough(net, all, i, m, x);
        assert x in component;
      }
      assert Adjacent(net, m, if c == m then d else c);
      r := m;
    }
  }

  lemma TwoMembers(s: set<nat>) returns (x: nat, y: nat)
    requires |s| >= 2
    ensures x in s && y in s && x != y
  {
    x :| x in s;
    assert |s - {x}| >= 1;
    y :| y in s - {x};
  }

  lemma {:induction false} NonLeafComponentIsLarge(net: Net, r: nat)
    requires r < |net.links| && !InLeafNode(net, r)
    ensures InLargeComponent(net, r)
  {
    var nbrs := NeighbourNodes(net, net.owner[r]);
    var n, n' := TwoMembers(nbrs);
    var c, d :| c in Ifaces(net) && d in Ifaces(net) && net.owner[c] == net.owner[r] && net.Linked(c, d) &&
      net.owner[d] == n;
    var c', d' :| c' in Ifaces(net) && d' in Ifaces(net) && net.owner[c'] == net.owner[r] && net.Linked(c', d') &&
      net.owner[d'] == n';
    LinkedIsConnected(net, r, c, d);
    LinkedIsConnected(net, r, c', d');
    assert ThreeNodes(net, r, d, d');
  }

  lemma LargenessIsShared(net: Net, i: nat, r: nat)
    requires InLargeComponent(net, r) && Connected(net, i, r)
    ensures InLargeComponent(net, i)
  {
    var all := Ifaces(net);
    JoinedInIfaces(net, all, i, r);
    var j: nat, k: nat :| Connected(net, r, j) && Connected(net, r, k) && ThreeNodes(net, r, j, k);
    JoinedThrough(net, all, i, r, j);
    JoinedThrough(net, all, i, r, k);
    JoinedToItself(net, all, i);
    if net.owner[i] == net.owner[r] {
      assert ThreeNodes(net, i, j, k);
    } else if net.owner[i] == net.owner[j] {
      assert ThreeNodes(net, i, r, k);
    } else {
      assert ThreeNodes(net, i, r, j);
    }
  }

  /** The relays dominate exactly the nodes that are neither orphans nor orphan pairs. */
  lemma DominatedIffInLargeComponent(net: Net, i: nat)
    requires i < |net.links|
    ensures Dominates(net, Relays(net), net.owner[i]) <==> InLargeComponent(net, i)
  {
    if InLargeComponent(net, i) {
      var r := RelayInLargeComponent(net, i);
      if net.owner[r] == net.owner[i] {
        assert Dominates(net, Relays(net), net.owner[i]);
      } else {
        var c, d := FirstExitMeetsRelay(net, i, r);
        assert d in Relays(net) && net.Linked(d, c);
      }
    }
    if Dominates(net, Relays(net), net.owner[i]) {
      var r: nat, c: nat :| r in Relays(net) && c < |net.links| && net.owner[c] == net.owner[i] &&
        (r == c || net.Linked(r, c));
      if r == c && c == i {
        JoinedToItself(net, Ifaces(net), i);
      } else if r == c {
        JoinedByHop(net, Ifaces(net), i, c);
      } else {
        LinkedIsConnected(net, i, c, r);
      }
      NonLeafComponentIsLarge(net, r);
      LargenessIsShared(net, i, r);
    }
  }

  /** Node by node, every interface outside leaf nodes is a relay or one hop from one. */
  lemma NonLeafInterfaceIsNextToRelay(net: Net, i: nat) returns (r: nat)
    requires i < |net.links| && !InLeafNode(net, i)
    ensures r in Relays(net) && (r == i || Adjacent(net, i, r))
  {
    NonLeafComponentIsLarge(net, i);
    r := RelayInLargeComponent(net, i);
    WalksNeedOnlyRelays(net, i, r);
    assert Relays(net) + SparedLeaf(net, {net.owner[i], net.owner[r]}) == Relays(net);
    if r != i {
      r := FirstHop(net, Relays(net), i, r);
    }
  }

  /** Relays that are connected at all are connected by a walk of relays. */
  lemma RelaysAreConnected(net: Net, r: nat, s: nat)
    requires r in Relays(net) && s in Relays(net) && Connected(net, r, s)
    ensures Joined(net, Relays(net), r, s)
  {
    WalksNeedOnlyRelays(net, r, s);
    assert Relays(net) + SparedLeaf(net, {net.owner[r], net.owner[s]}) == Relays(net);
  }

  ghost predicate ConnectedDominatingSet(net: Net, s: set<nat>) {
    && s != {} && s <= Ifaces(net)
    && (forall i | i in Ifaces(net) :: Dominates(net, s, net.owner[i]))
    && (forall r, t | r in s && t in s :: Joined(net, s, r, t))
  }

  /** On a connected network the relays form a connected dominating set if and only if there are at least three
      nodes. */
  lemma ElectionIsConnectedDominating(net: Net)
    requires net.links != [] && WhollyConnected(net)
    ensures ConnectedDominatingSet(net, Relays(net)) <==> HasThreeNodes(net)
  {
    if i: nat, j: nat, k: nat :| ThreeNodes(net, i, j, k) {
      assert InLargeComponent(net, i);
      var m := RelayInLargeComponent(net, i);
      forall x | x in Ifaces(net) ensures Dominates(net, Relays(net), net.owner[x]) {
        LargenessIsShared(net, x, i);
        DominatedIffInLargeComponent(net, x);
      }
      forall r, t | r in Relays(net) && t in Relays(net) ensures Joined(net, Relays(net), r, t) {
        RelaysAreConnected(net, r, t);
      }
    }
    if ConnectedDominatingSet(net, Relays(net)) {
      var r :| r in Relays(net);
      NonLeafComponentIsLarge(net, r);
      var j: nat, k: nat :| Connected(net, r, j) && Connected(net, r, k) && ThreeNodes(net, r, j, k);
    }
  }

  /** A connected network lies in one component, which is large if and only if there are three nodes. */
  lemma LargeIffThreeNodes(net: Net, x: nat)
    requires WhollyConnected(net) && x in Ifaces(net)
    ensures InLargeComponent(net, x) <==> HasThreeNodes(net)
  {
    hide Joined;
    if i: nat, j: nat, k: nat :| ThreeNodes(net, i, j, k) {
      assert i in Ifaces(net) && j in Ifaces(net) && k in Ifaces(net);
      assert InLargeComponent(net, i);
      LargenessIsShared(net, x, i);
    }
  }

  /** When no node is a leaf, the relays are a connected dominating set of the interface graph itself, in which the
      interfaces of one node are one hop apart. */
  lemma InterfaceBackbone(net: Net)
    requires net.links != [] && forall i | i in Ifaces(net) :: !InLeafNode(net, i)
    requires WhollyConnected(net)
    ensures Relays(net) != {}
    ensures forall i: nat | i in Ifaces(net) :: exists r: nat :: r in Relays(net) && (r == i || Adjacent(net, r, i))
    ensures forall r, s | r in Relays(net) && s in Relays(net) :: Joined(net, Relays(net), r, s)
  {
    hide IsRelay, InLeafNode, Joined;
    forall i: nat | i in Ifaces(net) ensures exists r: nat :: r in Relays(net) && (r == i || Adjacent(net, r, i)) {
      var r := NonLeafInterfaceIsNextToRelay(net, i);
      AdjacentIsSymmetric(net, i, r);
    }
    assert 0 in Ifaces(net);
    forall r, s | r in Relays(net) && s in Relays(net) ensures Joined(net, Relays(net), r, s) {
      RelaysAreConnected(net, r, s);
    }
  }
}
