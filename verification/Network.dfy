/** The interface graph that the relay elections work on, and the order in which they rank its interfaces. */
module Network {

  /** What an interface (or a single-interface node) is ranked by. */
  datatype Rank = Rank(priority: nat, degree: nat, address: nat)

  /** 1 when a outranks b, -1 when b outranks a, 0 when they are equal. */
  function ComparePriority(a: Rank, b: Rank): int {
    if a.priority > b.priority then 1
    else if a.priority < b.priority then -1
    else if a.degree > b.degree then 1
    else if a.degree < b.degree then -1
    else if a.address > b.address then 1
    else if a.address < b.address then -1
    else 0
  }

  /** Interfaces are numbered from 0; owner[i] is the node that interface i belongs to. */
  datatype Layout = Layout(links: seq<seq<nat>>, owner: seq<nat>, ranks: seq<Rank>) {

    predicate Linked(i: nat, j: nat) {
      i < |links| && j < |links| && j in links[i]
    }

    /** Links are duplex, join two nodes and are listed once; addresses are distinct. */
    predicate Wf() {
      && |owner| == |links| == |ranks|
      && (forall i, k | 0 <= i < |links| && 0 <= k < |links[i]| ::
            links[i][k] < |links| && Linked(links[i][k], i) && owner[i] != owner[links[i][k]])
      && (forall i | 0 <= i < |links| :: forall j, k | 0 <= j < k < |links[i]| :: links[i][j] != links[i][k])
      && (forall i, j | 0 <= i < j < |ranks| :: ranks[i].address != ranks[j].address)
    }
  }

  type Net = n: Layout | n.Wf() witness Layout([], [], [])

  predicate IsIface(net: Net, i: nat) {
    i < |net.links|
  }

  function Ifaces(net: Net): set<nat> {
    set i: nat | i < |net.links| && IsIface(net, i)
  }

  /** One hop: to another interface of the same node, or over a link. */
  predicate Adjacent(net: Net, i: nat, j: nat) {
    && i < |net.links| && j < |net.links| && i != j
    && (net.owner[i] == net.owner[j] || j in net.links[i])
  }

  lemma AdjacentIsSymmetric(net: Net, i: nat, j: nat)
    ensures Adjacent(net, i, j) <==> Adjacent(net, j, i)
  {
  }

  predicate Outranks(net: Net, i: nat, j: nat) {
    i < |net.ranks| && j < |net.ranks| && ComparePriority(net.ranks[i], net.ranks[j]) > 0
  }

  /** The larger priority wins; with equal ones the larger degree; with these equal too, the larger address. */
  lemma OutranksIff(net: Net, i: nat, j: nat)
    requires i < |net.links| && j < |net.links|
    ensures var a, b := net.ranks[i], net.ranks[j];
      Outranks(net, i, j) <==>
        || a.priority > b.priority
        || (a.priority == b.priority && a.degree > b.degree)
        || (a.priority == b.priority && a.degree == b.degree && a.address > b.address)
  {
  }

  ghost function Above(net: Net, v: nat): set<nat> {
    set i | i in Ifaces(net) && Outranks(net, i, v)
  }

  lemma RanksAreTotallyOrdered(net: Net, i: nat, j: nat, k: nat)
    requires i < |net.links| && j < |net.links| && k < |net.links|
    ensures !Outranks(net, i, i)
    ensures i != j ==> Outranks(net, i, j) != Outranks(net, j, i)
    ensures Outranks(net, i, j) && Outranks(net, j, k) ==> Outranks(net, i, k)
  {
  }

  /** The nodes that node n has a link to. */
  function NeighbourNodes(net: Net, n: nat): set<nat> {
    set i, j | i in Ifaces(net) && j in Ifaces(net) && net.owner[i] == n && net.Linked(i, j) :: net.owner[j]
  }

  ghost predicate InLeafNode(net: Net, i: nat)
    requires i < |net.links|
  {
    |NeighbourNodes(net, net.owner[i])| < 2
  }

  /** The interfaces within k hops of v. */
  ghost function Ball(net: Net, v: nat, k: nat): set<nat> {
    if k == 0 then {v}
    else
      var inner := Ball(net, v, k - 1);
      inner + set j | j in Ifaces(net) && exists i :: i in inner && Adjacent(net, i, j)
  }

  lemma {:induction false} BallStep(net: Net, v: nat, k: nat, i: nat, j: nat)
    requires i in Ball(net, v, k) && Adjacent(net, i, j)
    ensures j in Ball(net, v, k + 1)
  {
  }

  lemma {:induction false} BallGrows(net: Net, v: nat, k: nat, m: nat)
    requires k <= m
    ensures Ball(net, v, k) <= Ball(net, v, m)
    decreases m
  {
    if k < m {
      BallGrows(net, v, k, m - 1);
    }
  }

  lemma BallOfOneHop(net: Net, v: nat, x: nat)
    ensures x in Ball(net, v, 1) <==> x == v || Adjacent(net, v, x)
    ensures !Adjacent(net, v, v) && Ball(net, v, 0) == {v}
  {
    assert Ball(net, v, 0) == {v};
  }

  /** A closed set that holds v holds every ball around v. */
  lemma {:induction false} BallInClosed(net: Net, v: nat, k: nat, closed: set<nat>)
    requires v in closed && forall i, j | i in closed && Adjacent(net, i, j) :: j in closed
    ensures Ball(net, v, k) <= closed
  {
    if k > 0 {
      BallInClosed(net, v, k - 1, closed);
    }
  }

  lemma {:induction false} BallInIfaces(net: Net, v: nat, k: nat)
    requires v in Ifaces(net)
    ensures v in Ball(net, v, k) && Ball(net, v, k) <= Ifaces(net)
  {
    if k > 0 {
      BallInIfaces(net, v, k - 1);
    }
  }

  // ----- finite sets and lists

  lemma {:induction false} SubsetSize(s: set<nat>, t: set<nat>)
    requires s <= t
    ensures |s| <= |t|
  {
    if s != {} {
      var x :| x in s;
      SubsetSize(s - {x}, t - {x});
    }
  }

  ghost predicate Distinct(s: seq<nat>) {
    forall i, j | 0 <= i < j < |s| :: s[i] != s[j]
  }

  lemma {:induction false} DistinctSize(s: seq<nat>, elements: set<nat>)
    requires Distinct(s) && forall x: nat :: x in s <==> x in elements
    ensures |s| == |elements|
  {
    if s != [] {
      var last := s[|s| - 1];
      var front := s[..|s| - 1];
      forall x: nat ensures x in front <==> x in elements - {last} {
        if x in elements && x != last {
          assert x in s;
        }
      }
      DistinctSize(front, elements - {last});
    } else {
      assert elements == {};
    }
  }
}
