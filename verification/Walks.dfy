/** Walks in the interface graph, and what can be reached through a given set of interfaces. */
module Walks {
  import opened Network

  ghost predicate Walk(net: Net, p: seq<nat>) {
    && |p| > 0
    && p[0] in Ifaces(net)
    && forall k | 0 < k < |p| :: Adjacent(net, p[k - 1], p[k])
  }

  /** p leads from a to b and only passes through members of via on the way. */
  ghost predicate Leads(net: Net, p: seq<nat>, via: set<nat>, a: nat, b: nat) {
    && Walk(net, p)
    && p[0] == a && p[|p| - 1] == b
    && forall k | 0 < k < |p| - 1 :: p[k] in via
  }

  ghost predicate Joined(net: Net, via: set<nat>, a: nat, b: nat) {
    exists p :: Leads(net, p, via, a, b)
  }

  lemma JoinedToItself(net: Net, via: set<nat>, a: nat)
    requires a in Ifaces(net)
    ensures Joined(net, via, a, a)
  {
    assert Leads(net, [a], via, a, a);
  }

  lemma JoinedByHop(net: Net, via: set<nat>, a: nat, b: nat)
    requires Adjacent(net, a, b)
    ensures Joined(net, via, a, b)
  {
    assert Leads(net, [a, b], via, a, b);
  }

  lemma JoinedIsMonotone(net: Net, via: set<nat>, more: set<nat>, a: nat, b: nat)
    requires Joined(net, via, a, b) && via <= more
    ensures Joined(net, more, a, b)
  {
    var p :| Leads(net, p, via, a, b);
    assert Leads(net, p, more, a, b);
  }

  lemma JoinedInIfaces(net: Net, via: set<nat>, a: nat, b: nat)
    requires Joined(net, via, a, b)
    ensures a in Ifaces(net) && b in Ifaces(net)
  {
    var p :| Leads(net, p, via, a, b);
    if |p| > 1 {
      assert Adjacent(net, p[|p| - 2], p[|p| - 1]);
    }
  }

  /** Two walks that meet at an allowed interface (or where the first one starts) make one. */
  lemma JoinedThrough(net: Net, via: set<nat>, a: nat, b: nat, c: nat)
    requires Joined(net, via, a, b) && Joined(net, via, b, c)
    requires b in via || b == a || b == c
    ensures Joined(net, via, a, c)
  {
    if b != a && b != c {
      var p :| Leads(net, p, via, a, b);
      var q :| Leads(net, q, via, b, c);
      var r := p + q[1..];
      forall k | 0 < k < |r| ensures Adjacent(net, r[k - 1], r[k]) {
        assert k >= |p| ==> r[k] == q[k - |p| + 1] && r[k - 1] == q[k - |p|];
      }
      assert Leads(net, r, via, a, c);
    }
  }

  lemma JoinedBackwards(net: Net, via: set<nat>, a: nat, b: nat)
    requires Joined(net, via, a, b)
    ensures Joined(net, via, b, a)
  {
    var p :| Leads(net, p, via, a, b);
    JoinedInIfaces(net, via, a, b);
    var n := |p|;
    var r := seq(n, k requires 0 <= k < n => p[n - 1 - k]);
    forall k | 0 < k < n ensures Adjacent(net, r[k - 1], r[k]) {
      AdjacentIsSymmetric(net, p[n - 1 - k], p[n - k]);
    }
    assert Leads(net, r, via, b, a);
  }

  /** A walk that leaves its start does so over a first hop, after which it is still allowed to go on. */
  lemma FirstHop(net: Net, via: set<nat>, a: nat, b: nat) returns (c: nat)
    requires Joined(net, via, a, b) && a != b
    ensures Adjacent(net, a, c) && (c == b || (c in via && Joined(net, via, c, b)))
  {
    var p :| Leads(net, p, via, a, b);
    c := p[1];
    assert Adjacent(net, p[0], p[1]);
    if |p| > 2 {
      assert Leads(net, p[1..], via, c, b);
    }
  }

  /** The last hop of a nontrivial walk comes from an allowed interface or from the start. */
  lemma LastHop(net: Net, via: set<nat>, a: nat, b: nat) returns (c: nat)
    requires Joined(net, via, a, b) && a != b
    ensures Adjacent(net, c, b) && Joined(net, via, a, c) && (c == a || c in via)
  {
    var p :| Leads(net, p, via, a, b);
    c := p[|p| - 2];
    var q := p[..|p| - 1];
    assert Leads(net, q, via, a, c);
    assert Adjacent(net, p[|p| - 2], p[|p| - 1]);
  }

  /** Nothing that can be reached lies outside a set that is closed under the allowed hops. */
  lemma {:induction false} JoinedStaysInside(net: Net, via: set<nat>, p: seq<nat>, a: nat, b: nat, closed: set<nat>)
    requires Leads(net, p, via, a, b) && a in closed
    requires forall i, j :: i in closed && (i == a || i in via) && Adjacent(net, i, j) ==> j in closed
    ensures b in closed
    decreases |p|
  {
    if |p| > 1 {
      var q := p[..|p| - 1];
      assert Leads(net, q, via, a, p[|p| - 2]);
      JoinedStaysInside(net, via, q, a, p[|p| - 2], closed);
      assert Adjacent(net, p[|p| - 2], p[|p| - 1]);
    }
  }

  /** The k-hop neighbourhood is what a walk of at most k hops reaches. */
  lemma {:induction false} BallIffShortWalk(net: Net, v: nat, k: nat, y: nat)
    requires v in Ifaces(net)
    ensures y in Ball(net, v, k) <==> exists p :: Leads(net, p, Ifaces(net), v, y) && |p| <= k + 1
  {
    if y in Ball(net, v, k) {
      var p := WalkInBall(net, v, k, y);
    }
    if p :| Leads(net, p, Ifaces(net), v, y) && |p| <= k + 1 {
      WalkStaysInBall(net, v, k, p);
    }
  }

  lemma {:induction false} WalkInBall(net: Net, v: nat, k: nat, y: nat) returns (p: seq<nat>)
    requires v in Ifaces(net) && y in Ball(net, v, k)
    ensures Leads(net, p, Ifaces(net), v, y) && |p| <= k + 1
  {
    if k == 0 {
      p := [v];
    } else if y in Ball(net, v, k - 1) {
      p := WalkInBall(net, v, k - 1, y);
    } else {
      var x :| x in Ball(net, v, k - 1) && Adjacent(net, x, y);
      var q := WalkInBall(net, v, k - 1, x);
      p := q + [y];
    }
  }

  lemma {:induction false} WalkStaysInBall(net: Net, v: nat, k: nat, p: seq<nat>)
    requires Walk(net, p) && p[0] == v && |p| <= k + 1
    ensures p[|p| - 1] in Ball(net, v, k)
  {
    if |p| == 1 {
      BallGrows(net, v, 0, k);
    } else {
      var q := p[..|p| - 1];
      WalkStaysInBall(net, v, k - 1, q);
      BallStep(net, v, k - 1, p[|p| - 2], p[|p| - 1]);
    }
  }
}
