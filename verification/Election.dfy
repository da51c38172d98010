/** What one relay election decides, stated on the graph alone: which interfaces become relays. */
module Election {
  import opened Network
  import opened Walks

  ghost predicate IsBestNeighbour(net: Net, v: nat, m: nat) {
    && Adjacent(net, v, m)
    && forall j | Adjacent(net, v, j) && j != m :: Outranks(net, m, j)
  }

  /** Step 4 as GraphRider decides it: v outranks everything one hop away. */
  ghost predicate TopOfOneHop(net: Net, v: nat) {
    forall j | Adjacent(net, v, j) :: Outranks(net, v, j)
  }

  /** Step 8: y can be reached from m inside v's two-hop neighbourhood, past v, only through interfaces that outrank
      v. */
  ghost predicate Searched(net: Net, v: nat, m: nat, y: nat) {
    && y in Ball(net, v, 2) && y != v
    && Joined(net, Above(net, v) * Ball(net, v, 2), m, y)
  }

  /** The search goes on from its start m, and from whatever outranks v. */
  ghost predicate Expands(net: Net, v: nat, m: nat, x: nat) {
    x in Ball(net, v, 2) && x != v && (x == m || Outranks(net, x, v))
  }

  /** Step 9: the search from the best neighbour leaves some neighbour unvisited. */
  ghost predicate SearchMisses(net: Net, v: nat) {
    exists m, y :: IsBestNeighbour(net, v, m) && Adjacent(net, v, y) && !Searched(net, v, m, y)
  }

  ghost predicate IsRelay(net: Net, v: nat) {
    && v < |net.links|
    && !InLeafNode(net, v)
    && (exists j :: Adjacent(net, v, j))
    && (TopOfOneHop(net, v) || SearchMisses(net, v))
  }

  ghost function Relays(net: Net): set<nat> {
    set i | i in Ifaces(net) && IsRelay(net, i)
  }

  /** The highest-ranked member of a nonempty set of interfaces. */
  lemma {:induction false} Highest(net: Net, s: set<nat>) returns (m: nat)
    requires s != {} && s <= Ifaces(net)
    ensures m in s && forall j | j in s && j != m :: Outranks(net, m, j)
  {
    var x :| x in s;
    if s == {x} {
      m := x;
    } else {
      var n := Highest(net, s - {x});
      m := if Outranks(net, x, n) then x else n;
      forall j | j in s && j != m ensures Outranks(net, m, j) {
        RanksAreTotallyOrdered(net, m, n, j);
        RanksAreTotallyOrdered(net, x, n, j);
      }
    }
  }

  lemma BestNeighbourExists(net: Net, v: nat, j: nat) returns (m: nat)
    requires Adjacent(net, v, j)
    ensures IsBestNeighbour(net, v, m)
  {
    var s := set i | i in Ifaces(net) && Adjacent(net, v, i);
    assert j in s;
    m := Highest(net, s);
  }

  /** An interface that is turned down leaves its neighbours joined to each other above its own rank. */
  lemma TurnedDownMeansCovered(net: Net, v: nat, x: nat, y: nat)
    requires v < |net.links| && !InLeafNode(net, v) && !IsRelay(net, v)
    requires Adjacent(net, v, x) && Adjacent(net, v, y)
    ensures Joined(net, Above(net, v), x, y)
  {
    var via := Above(net, v) * Ball(net, v, 2);
    var m := BestNeighbourExists(net, v, x);
    var j :| Adjacent(net, v, j) && !Outranks(net, v, j);
    RanksAreTotallyOrdered(net, j, v, m);
    RanksAreTotallyOrdered(net, m, j, v);
    assert m in Above(net, v);
    assert Searched(net, v, m, x) && Searched(net, v, m, y);
    JoinedIsMonotone(net, via, Above(net, v), m, x);
    JoinedIsMonotone(net, via, Above(net, v), m, y);
    JoinedBackwards(net, Above(net, v), m, x);
    JoinedThrough(net, Above(net, v), x, m, y);
  }
}
