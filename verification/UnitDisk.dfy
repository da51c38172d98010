/** Keeping the links of graphExample's nodes in step with their positions. */
module UnitDisk {

  const RANGE_MAX: real := 300.0

  datatype Point = Point(x: real, y: real)

  function SquaredDistance(a: Point, b: Point): real {
    (a.x - b.x) * (a.x - b.x) + (a.y - b.y) * (a.y - b.y)
  }

  predicate InRange(a: Point, b: Point) {
    SquaredDistance(a, b) <= RANGE_MAX * RANGE_MAX
  }

  lemma RangeIsMutual(a: Point, b: Point)
    ensures SquaredDistance(a, b) == SquaredDistance(b, a)
    ensures InRange(a, b) <==> InRange(b, a)
  {
    assert (a.x - b.x) * (a.x - b.x) == (b.x - a.x) * (b.x - a.x);
    assert (a.y - b.y) * (a.y - b.y) == (b.y - a.y) * (b.y - a.y);
  }

  /** In range is within 300 units, told without roots. */
  lemma InRangeIff(a: Point, b: Point)
    ensures InRange(a, b) <==> (a.x - b.x) * (a.x - b.x) + (a.y - b.y) * (a.y - b.y) <= 90000.0
  {
  }

  type Links = seq<set<nat>>

  /** Links run both ways, between two different nodes. */
  ghost predicate Duplex(links: Links) {
    forall u: nat, v: nat {:trigger v in links[u]} | u < |links| && v in links[u] ::
      v < |links| && v != u && u in links[v]
  }

  /** The links after node u alone has been linked to exactly the nodes of the set joined. */
  ghost function Retied(links: Links, u: nat, joined: set<nat>): (r: Links)
    requires u < |links|
    ensures |r| == |links| && r[u] == joined
  {
    seq(|links|, v requires 0 <= v < |links| =>
      if v == u then joined else if v in joined then links[v] + {u} else links[v] - {u})
  }

  /** What makes links r the retied ones: u has the joined nodes, they have u, and nothing else changes. */
  lemma RetiedIs(links: Links, u: nat, joined: set<nat>, r: Links)
    requires u < |links| && |r| == |links| && r[u] == joined
    requires forall v: nat, w: nat | v < |r| && v != u && w != u :: w in r[v] <==> w in links[v]
    requires forall v: nat | v < |r| && v != u :: u in r[v] <==> v in joined
    ensures r == Retied(links, u, joined)
  {
    forall v: nat | v < |r| ensures r[v] == Retied(links, u, joined)[v] {
      if v != u {
        forall w: nat ensures w in r[v] <==> w in Retied(links, u, joined)[v] {}
      }
    }
  }

  lemma RetiedToItself(links: Links, u: nat)
    requires u < |links| && Duplex(links)
    ensures Retied(links, u, links[u]) == links
  {
    RetiedIs(links, u, links[u], links);
  }

  lemma RetiedTwice(links: Links, u: nat, a: set<nat>, b: set<nat>)
    requires u < |links|
    ensures Retied(Retied(links, u, a), u, b) == Retied(links, u, b)
  {
    RetiedIs(links, u, b, Retied(Retied(links, u, a), u, b));
  }

  lemma RetiedIsDuplex(links: Links, u: nat, joined: set<nat>)
    requires u < |links| && Duplex(links) && u !in joined && forall v: nat | v in joined :: v < |links|
    ensures Duplex(Retied(links, u, joined))
  {
  }

  /** The nodes other than u that are within range of it. */
  ghost function Near(position: seq<Point>, u: nat): set<nat>
    requires u < |position|
  {
    set v: nat | v < |position| && v != u && InRange(position[u], position[v])
  }

  /** The order in which a space yields its nodes around one of them: each node once, none before a nearer one. */
  ghost predicate NearestFirst(position: seq<Point>, u: nat, order: seq<nat>)
    requires u < |position|
  {
    && (forall i | 0 <= i < |order| :: order[i] < |position|)
    && (forall v: nat | v < |position| :: v in order)
    && (forall i, j | 0 <= i < j < |order| :: order[i] != order[j])
    && (forall i, j | 0 <= i < j < |order| ::
          SquaredDistance(position[u], position[order[i]]) <= SquaredDistance(position[u], position[order[j]]))
  }

  /** The nodes other than u among the first j of the order. */
  ghost function Earlier(u: nat, order: seq<nat>, j: nat): set<nat>
    requires j <= |order|
  {
    set i | 0 <= i < j && order[i] != u :: order[i]
  }

  lemma EarlierGrows(u: nat, order: seq<nat>, j: nat)
    requires j < |order|
    ensures Earlier(u, order, j + 1) ==
            if order[j] == u then Earlier(u, order, j) else Earlier(u, order, j) + {order[j]}
  {
    forall v: nat | v in Earlier(u, order, j) + {order[j]} && v != u ensures v in Earlier(u, order, j + 1) {
      var i :| 0 <= i < j + 1 && order[i] == v;
    }
  }

  lemma OutOfRangeFrom(position: seq<Point>, u: nat, order: seq<nat>, j: nat, i: nat)
    requires u < |position| && NearestFirst(position, u, order)
    requires j < |order| && !InRange(position[u], position[order[j]]) && i < |order|
    ensures i >= j ==> !InRange(position[u], position[order[i]])
  {
    hide SquaredDistance;
    if i > j {
      assert SquaredDistance(position[u], position[order[j]]) <= SquaredDistance(position[u], position[order[i]]);
    }
  }

  /** The nodes before an out-of-range one are all the nodes in range. */
  lemma CutOffIsComplete(position: seq<Point>, u: nat, order: seq<nat>, j: nat, seen: set<nat>)
    requires u < |position| && NearestFirst(position, u, order)
    requires j < |order| && !InRange(position[u], position[order[j]])
    requires seen == Earlier(u, order, j) && seen <= Near(position, u)
    ensures seen == Near(position, u)
  {
    hide SquaredDistance;
    forall v: nat | v in Near(position, u) ensures v in seen {
      assert v in order;
      var i :| 0 <= i < |order| && order[i] == v;
      OutOfRangeFrom(position, u, order, j, i);
    }
  }

  /** When no node is out of range, the nodes seen are all of them, former neighbours included. */
  lemma NoCutOffIsComplete(position: seq<Point>, u: nat, order: seq<nat>, links: Links)
    requires u < |position| == |links| && Duplex(links) && NearestFirst(position, u, order)
    requires Earlier(u, order, |order|) <= Near(position, u)
    ensures Earlier(u, order, |order|) == Near(position, u) && links[u] <= Near(position, u)
  {
    hide InRange, SquaredDistance;
    forall v: nat | v < |position| && v != u ensures v in Earlier(u, order, |order|) {
      assert v in order;
    }
  }

  /** Nodes before k already have the links that their positions call for. */
  ghost predicate SettledBelow(position: seq<Point>, links: Links, k: nat) {
    && |links| == |position|
    && forall u: nat, v: nat | u < k && u < |links| && v < |links| && u != v ::
      v in links[u] <==> InRange(position[u], position[v])
  }

  /** Settling one more node leaves those before it settled. */
  lemma OneMoreSettled(position: seq<Point>, links: Links, k: nat)
    requires k < |position| && Duplex(links) && SettledBelow(position, links, k)
    ensures var r := Retied(links, k, Near(position, k)); Duplex(r) && SettledBelow(position, r, k + 1)
  {
    hide InRange;
    var r := Retied(links, k, Near(position, k));
    RetiedIsDuplex(links, k, Near(position, k));
    forall u: nat, v: nat | u < k + 1 && v < |r| && u != v ensures v in r[u] <==> InRange(position[u], position[v]) {
      RangeIsMutual(position[u], position[v]);
    }
  }

  class ExampleGraph {
    const position: seq<Point>
    var links: Links

    ghost predicate Valid()
      reads this
    {
      |links| == |position| && Duplex(links)
    }

    constructor (position: seq<Point>)
      ensures Valid() && this.position == position && forall u | 0 <= u < |position| :: links[u] == {}
    {
      this.position := position;
      links := seq(|position|, _ => {});
    }

    method Connect(u: nat, v: nat)
      requires Valid() && u < |position| && v < |position| && u != v
      modifies this`links
      ensures Valid() && links == Retied(old(links), u, old(links)[u] + {v})
    {
      ghost var was := links;
      links := links[u := links[u] + {v}][v := links[v] + {u}];
      RetiedIs(was, u, was[u] + {v}, links);
      RetiedIsDuplex(was, u, was[u] + {v});
    }

    method Disconnect(u: nat, v: nat)
      requires Valid() && u < |position| && v < |position| && u != v
      modifies this`links
      ensures Valid() && links == Retied(old(links), u, old(links)[u] - {v})
    {
      ghost var was := links;
      links := links[u := links[u] - {v}][v := links[v] - {u}];
      RetiedIs(was, u, was[u] - {v}, links);
      RetiedIsDuplex(was, u, was[u] - {v});
    }

    method DisconnectAll(u: nat, former: set<nat>)
      requires Valid() && u < |position| && former <= links[u]
      modifies this`links
      ensures Valid() && links == Retied(old(links), u, old(links)[u] - former)
    {
      hide Retied;
      ghost var was := links;
      RetiedToItself(was, u);
      var rest := former;
      ghost var left := was[u];
      while rest != {}
        invariant rest <= former && left == was[u] - (former - rest)
        invariant Valid() && links == Retied(was, u, left)
      {
        var v: nat :| v in rest;
        assert v in was[u];
        Disconnect(u, v);
        RetiedTwice(was, u, left, left - {v});
        rest, left := rest - {v}, left - {v};
      }
      assert left == was[u] - former;
    }

    /** One node's turn: its neighbours in range are kept or connected, the others are disconnected. */
    method UpdateNode(u: nat, order: seq<nat>)
      requires Valid() && u < |position| && NearestFirst(position, u, order)
      modifies this`links
      ensures Valid() && links == Retied(old(links), u, Near(position, u))
    {
      hide Retied, Duplex, InRange;
      ghost var was := links;
      RetiedToItself(was, u);
      var former := links[u];
      ghost var seen: set<nat> := {};
      assert was[u] + seen == was[u];
      for j := 0 to |order|
        invariant Valid() && former == was[u] - seen && seen <= Near(position, u)
        invariant seen == Earlier(u, order, j)
        invariant links == Retied(was, u, was[u] + seen)
      {
        var nbr := order[j];
        EarlierGrows(u, order, j);
        if nbr == u { continue; }
        if InRange(position[u], position[nbr]) {
          if nbr !in former {
            Connect(u, nbr);
            RetiedTwice(was, u, was[u] + seen, was[u] + seen + {nbr});
            assert was[u] + (seen + {nbr}) == was[u] + seen + {nbr};
          } else {
            former := former - {nbr};
            assert was[u] + (seen + {nbr}) == was[u] + seen;
          }
          seen := seen + {nbr};
        } else {
          CutOffIsComplete(position, u, order, j, seen);
          DisconnectAll(u, former);
          RetiedTwice(was, u, was[u] + seen, seen);
          assert was[u] + seen - former == seen;
          return;
        }
      }
      NoCutOffIsComplete(position, u, order, was);
      assert was[u] + seen == seen;
    }

    /** The order in which the space yields its nodes around node u is orders[u]. */
    method UpdateGraphFromSpace(orders: seq<seq<nat>>)
      requires Valid() && |orders| == |position|
      requires forall u | 0 <= u < |orders| :: NearestFirst(position, u, orders[u])
      modifies this`links
      ensures Valid()
      ensures forall u: nat, v: nat | u < |position| && v < |position| && u != v ::
        v in links[u] <==> InRange(position[u], position[v])
    {
      for u := 0 to |position|
        invariant Valid() && SettledBelow(position, links, u)
      {
        OneMoreSettled(position, links, u);
        UpdateNode(u, orders[u]);
      }
    }
  }
}
