/** Breadth-first traversal of the interface graph, with the running hop count that the elections rely on. */
module Traversal {
  import opened Network

  datatype Step = Done | Visit(iface: nat, level: nat)

  datatype Mark = NoMark | Mark(iface: nat)

  /** The interfaces of node n, in the order of their numbers. */
  function Cofaces(net: Net, n: nat): (s: seq<nat>)
    ensures forall i: nat :: i in s <==> i < |net.owner| && net.owner[i] == n
    ensures forall k | 0 <= k < |s| :: s[k] < |net.owner| && net.owner[s[k]] == n
    ensures Distinct(s)
  {
    var s := CofacesUpTo(net, n, |net.owner|);
    assert forall k | 0 <= k < |s| :: s[k] in s;
    s
  }

  function {:induction false} CofacesUpTo(net: Net, n: nat, k: nat): (s: seq<nat>)
    requires k <= |net.owner|
    ensures forall i: nat :: i in s <==> i < k && net.owner[i] == n
    ensures Distinct(s)
  {
    if k == 0 then []
    else if net.owner[k - 1] == n then CofacesUpTo(net, n, k - 1) + [k - 1]
    else CofacesUpTo(net, n, k - 1)
  }

  /** The interfaces one hop from x as an iteration meets them: its co-interfaces (x among them), then its links. */
  function Adjacencies(net: Net, x: nat): (s: seq<nat>)
    requires x < |net.links|
    ensures forall y: nat :: y in s <==> y == x || Adjacent(net, x, y)
    ensures forall k | 0 <= k < |s| :: s[k] < |net.links|
  {
    var s := Cofaces(net, net.owner[x]) + net.links[x];
    assert forall k | 0 <= k < |s| :: s[k] in Cofaces(net, net.owner[x]) || s[k] in net.links[x];
    s
  }

  /** done have been yielded; the first near of pend are still to come at this level, the rest at the next one. */
  ghost predicate Layered(net: Net, start: nat, done: seq<nat>, pend: seq<nat>, near: nat, level: nat) {
    && start < |net.links| && near <= |pend|
    && Distinct(pend)
    && (forall i | 0 <= i < |pend| :: pend[i] < |net.links| && pend[i] !in done)
    && (forall u, w | u in done && Adjacent(net, u, w) :: w in done || w in pend)
    && (forall x | x in done :: x in Ball(net, start, level))
    && (forall x | x in Ball(net, start, level) :: x in done || x in pend)
    && (forall i | 0 <= i < |pend| :: pend[i] in Ball(net, start, level) <==> i < near)
    && (forall i | near <= i < |pend| :: exists u :: u in done && Adjacent(net, u, pend[i]))
    && (level > 0 ==> forall x | x in Ball(net, start, level - 1) :: x in done)
  }

  /** Once a level is used up, all that is pending makes up the next one. */
  lemma NextLevel(net: Net, start: nat, done: seq<nat>, pend: seq<nat>, level: nat)
    requires Layered(net, start, done, pend, 0, level)
    ensures Layered(net, start, done, pend, |pend|, level + 1)
  {
    BallGrows(net, start, level, level + 1);
    forall i | 0 <= i < |pend| ensures pend[i] in Ball(net, start, level + 1) {
      var u :| u in done && Adjacent(net, u, pend[i]);
      BallStep(net, start, level, u, pend[i]);
    }
  }

  lemma Head(net: Net, start: nat, done: seq<nat>, pend: seq<nat>, near: nat, level: nat)
    requires Layered(net, start, done, pend, near, level) && near > 0
    ensures near <= |pend| && pend[0] < |net.links| && pend[0] !in done && (near < |pend| ==> pend[near] != pend[0])
    ensures pend[0] in Ball(net, start, level)
    ensures level > 0 ==> pend[0] !in Ball(net, start, level - 1)
    ensures level > 0 ==> forall x | x in Ball(net, start, level - 1) :: x in done
  {
  }

  lemma AllYielded(net: Net, start: nat, done: seq<nat>, near: nat, level: nat)
    requires Layered(net, start, done, [], near, level)
    ensures start in done && forall u, w | u in done && Adjacent(net, u, w) :: w in done
  {
    BallInIfaces(net, start, level);
  }

  /** Taking the first pending interface and queueing its unseen neighbours keeps the layers. */
  lemma TakeFirst(net: Net, start: nat, done: seq<nat>, pend: seq<nat>, near: nat, level: nat, kids: seq<nat>)
    requires Layered(net, start, done, pend, near, level) && near > 0
    requires Distinct(kids) && forall x | x in kids :: Adjacent(net, pend[0], x) && x !in done && x !in pend
    requires forall w | Adjacent(net, pend[0], w) :: w in done || w in pend || w in kids
    ensures Layered(net, start, done + [pend[0]], pend[1..] + kids, near - 1, level)
  {
    var after := pend[1..] + kids;
    forall i | 0 <= i < |after|
      ensures after[i] in Ball(net, start, level) <==> i < near - 1
      ensures after[i] < |net.links| && after[i] !in done + [pend[0]]
      ensures i >= near - 1 ==> exists u :: u in done + [pend[0]] && Adjacent(net, u, after[i])
      ensures forall j | 0 <= j < i :: after[j] != after[i]
    {
      if i < |pend| - 1 {
        assert after[i] == pend[i + 1];
      } else {
        assert after[i] in kids && Adjacent(net, pend[0], after[i]);
        assert pend[0] in done + [pend[0]];
      }
    }
    forall x | x in done || x in pend || x in kids ensures x in done + [pend[0]] || x in after {
      if x in pend && x != pend[0] {
        assert x in pend[1..];
      }
    }
  }

  class SimpleTraversal {
    const net: Net
    const start: nat
    var pending: seq<nat>
    var visited: seq<nat>
    var level: nat
    var trans: Mark       // the first pending interface of the next level, once there is one
    ghost var near: nat   // how many pending interfaces belong to the current level

    ghost predicate Valid()
      reads this
    {
      && Layered(net, start, visited, pending, near, level)
      && trans == (if near < |pending| then Mark(pending[near]) else NoMark)
    }

    constructor (net: Net, start: nat)
      requires start < |net.links|
      ensures Valid() && this.net == net && this.start == start
      ensures visited == [] && pending == [start]
    {
      this.net, this.start := net, start;
      pending, visited := [start], [];
      level, trans, near := 0, NoMark, 1;
    }

    /** Queues whatever is adjacent to current and has not been seen; returns the first of them. */
    method QueueAdjacencies(current: nat) returns (first: Mark, ghost kids: seq<nat>)
      requires current < |net.links| && current in visited
      modifies this`pending
      ensures pending == old(pending) + kids
      ensures Distinct(kids) && forall x | x in kids :: Adjacent(net, current, x) && x !in visited && x !in old(pending)
      ensures forall w | Adjacent(net, current, w) :: w in visited || w in old(pending) || w in kids
      ensures first == if kids == [] then NoMark else Mark(kids[0])
    {
      var adjacencies := Adjacencies(net, current);
      first, kids := NoMark, [];
      for k := 0 to |adjacencies|
        invariant pending == old(pending) + kids && Distinct(kids)
        invariant forall x | x in kids :: Adjacent(net, current, x) && x !in visited && x !in old(pending)
        invariant forall i | 0 <= i < k :: adjacencies[i] in visited || adjacencies[i] in pending
        invariant first == if kids == [] then NoMark else Mark(kids[0])
      {
        var next := adjacencies[k];
        assert next in adjacencies;
        if next !in visited && next !in pending {
          pending, kids := pending + [next], kids + [next];
          if first == NoMark {
            first := Mark(next);
          }
        }
      }
    }

    /** Yields every interface that can be reached, once each, in order of hop distance and with that distance. */
    method GetNextInterface() returns (r: Step)
      requires Valid()
      modifies this
      ensures Valid()
      ensures r.Done? ==> visited == old(visited) && forall u, w | u in visited && Adjacent(net, u, w) :: w in visited
      ensures r.Done? ==> start in visited
      ensures r.Visit? ==> visited == old(visited) + [r.iface] && r.iface !in old(visited)
      ensures r.Visit? ==> r.level == level >= old(level)
      ensures r.Visit? ==> r.iface in Ball(net, start, r.level)
      ensures r.Visit? && r.level > 0 ==> r.iface !in Ball(net, start, r.level - 1)
      ensures r.Visit? && r.level > 0 ==> forall x | x in Ball(net, start, r.level - 1) :: x in old(visited)
    {
      hide Layered, Ball, Adjacent;
      if pending == [] {
        AllYielded(net, start, visited, near, level);
        return Done;
      }
      var current := pending[0];
      ghost var done, pend, level' := visited, pending, level;
      if near == 0 {
        NextLevel(net, start, visited, pending, level);
        near, level' := |pending|, level + 1;
      }
      Head(net, start, done, pend, near, level');
      assert level' == if trans == Mark(current) then level + 1 else level;
      pending, visited := pending[1..], visited + [current];
      var first;
      ghost var kids;
      first, kids := QueueAdjacencies(current);
      TakeFirst(net, start, done, pend, near, level', kids);
      near := near - 1;
      assert visited == done + [current] && pending == pend[1..] + kids;
      if trans == NoMark {
        trans := first;
      } else if trans == Mark(current) {
        level := level + 1;
        trans := first;
      }
      assert level == level';
      r := Visit(current, level);
    }
  }
}
