/** Counting the simple paths between two nodes by backtracking over visited flags. */
module PathCount {
  import opened Network

  /** p goes over links from s to d, through no node twice and through none of the shut ones. */
  ghost predicate IsSimplePath(net: Net, p: seq<nat>, s: nat, d: nat, shut: set<nat>) {
    && |p| > 0 && p[0] == s && p[|p| - 1] == d
    && (forall k | 0 < k < |p| :: net.Linked(p[k - 1], p[k]))
    && (forall i, j | 0 <= i < j < |p| :: p[i] != p[j])
    && (forall k | 0 <= k < |p| :: p[k] !in shut)
  }

  ghost function Prepend(s: nat, paths: set<seq<nat>>): set<seq<nat>> {
    set p | p in paths :: [s] + p
  }

  /** The paths that the recursion goes through, neighbour by neighbour. */
  ghost function Paths(net: Net, s: nat, d: nat, shut: set<nat>): set<seq<nat>>
    requires s < |net.links| && s !in shut
    decreases Ifaces(net) - shut, |net.links[s]| + 1
  {
    if s == d then {[s]} else PathsVia(net, s, d, shut, |net.links[s]|)
  }

  ghost function PathsVia(net: Net, s: nat, d: nat, shut: set<nat>, k: nat): set<seq<nat>>
    requires s < |net.links| && s !in shut && k <= |net.links[s]|
    decreases Ifaces(net) - shut, k
  {
    if k == 0 then {}
    else
      var n := net.links[s][k - 1];
      assert s in Ifaces(net) - shut && s !in Ifaces(net) - (shut + {s});
      PathsVia(net, s, d, shut, k - 1) + if n in shut + {s} then {} else Prepend(s, Paths(net, n, d, shut + {s}))
  }

  lemma {:induction false} PathsAreSimple(net: Net, s: nat, d: nat, shut: set<nat>, p: seq<nat>)
    requires s < |net.links| && s !in shut && p in Paths(net, s, d, shut)
    ensures IsSimplePath(net, p, s, d, shut)
    decreases |p|
  {
    if s != d {
      var n := ViaSome(net, s, d, shut, |net.links[s]|, p);
      PathsAreSimple(net, n, d, shut + {s}, p[1..]);
      assert p == [s] + p[1..];
      assert forall k | 0 < k < |p| :: p[k] == p[1..][k - 1];
      assert net.Linked(p[0], p[1]);
      forall k | 1 < k < |p| ensures net.Linked(p[k - 1], p[k]) {
        assert net.Linked(p[1..][k - 2], p[1..][k - 1]);
      }
    }
  }

  lemma {:induction false} ViaSome(net: Net, s: nat, d: nat, shut: set<nat>, k: nat, p: seq<nat>) returns (n: nat)
    requires s < |net.links| && s !in shut && k <= |net.links[s]| && p in PathsVia(net, s, d, shut, k)
    ensures n in net.links[s][..k] && n < |net.links| && n !in shut + {s} && net.Linked(s, n)
    ensures |p| > 0 && p[0] == s && p[1..] in Paths(net, n, d, shut + {s})
    decreases k
  {
    if p in PathsVia(net, s, d, shut, k - 1) {
      n := ViaSome(net, s, d, shut, k - 1, p);
    } else {
      n := net.links[s][k - 1];
      var q :| q in Paths(net, n, d, shut + {s}) && p == [s] + q;
      assert p[1..] == q;
    }
  }

  lemma {:induction false} SimpleIsInPaths(net: Net, s: nat, d: nat, shut: set<nat>, p: seq<nat>)
    requires s < |net.links| && IsSimplePath(net, p, s, d, shut)
    ensures s !in shut && p in Paths(net, s, d, shut)
    decreases |p|
  {
    if s == d {
      assert p == [s];
    } else {
      var q := p[1..];
      assert net.Linked(p[0], p[1]);
      forall k | 0 < k < |q| ensures net.Linked(q[k - 1], q[k]) {
        assert net.Linked(p[k], p[k + 1]);
      }
      SimpleIsInPaths(net, p[1], d, shut + {s}, q);
      var j :| 0 <= j < |net.links[s]| && net.links[s][j] == p[1];
      assert p == [s] + q;
      InVia(net, s, d, shut, j, |net.links[s]|, q);
    }
  }

  lemma {:induction false} InVia(net: Net, s: nat, d: nat, shut: set<nat>, j: nat, k: nat, q: seq<nat>)
    requires s < |net.links| && s !in shut && j < k <= |net.links[s]|
    requires net.links[s][j] !in shut + {s} && q in Paths(net, net.links[s][j], d, shut + {s})
    ensures [s] + q in PathsVia(net, s, d, shut, k)
    decreases k
  {
    if j < k - 1 {
      InVia(net, s, d, shut, j, k - 1, q);
    }
  }

  /** The recursion goes through exactly the simple paths. */
  lemma PathsIffSimple(net: Net, s: nat, d: nat, shut: set<nat>)
    requires s < |net.links| && s !in shut
    ensures forall p :: p in Paths(net, s, d, shut) <==> IsSimplePath(net, p, s, d, shut)
  {
    forall p ensures p in Paths(net, s, d, shut) <==> IsSimplePath(net, p, s, d, shut) {
      if p in Paths(net, s, d, shut) { PathsAreSimple(net, s, d, shut, p); }
      if IsSimplePath(net, p, s, d, shut) { SimpleIsInPaths(net, s, d, shut, p); }
    }
  }

  /** Those of the given paths that have the given number of hops. */
  ghost function WithHops(paths: set<seq<nat>>, hops: int): set<seq<nat>> {
    set p | p in paths && |p| - 1 == hops
  }

  lemma {:induction false} PrependSize(s: nat, paths: set<seq<nat>>)
    ensures |Prepend(s, paths)| == |paths|
  {
    if paths != {} {
      var p :| p in paths;
      PrependSize(s, paths - {p});
      assert Prepend(s, paths) == Prepend(s, paths - {p}) + {[s] + p};
      forall q | q in paths - {p} ensures [s] + q != [s] + p {
        assert ([s] + q)[1..] == q && ([s] + p)[1..] == p;
      }
    }
  }

  lemma SecondNode(net: Net, s: nat, d: nat, shut: set<nat>, k: nat, p: seq<nat>)
    requires s < |net.links| && s !in shut && k <= |net.links[s]| && p in PathsVia(net, s, d, shut, k)
    ensures |p| > 1 && p[1] in net.links[s][..k]
  {
    var m := ViaSome(net, s, d, shut, k, p);
    PathsAreSimple(net, m, d, shut + {s}, p[1..]);
  }

  lemma ViaOneMore(net: Net, s: nat, d: nat, shut: set<nat>, k: nat)
    requires s < |net.links| && s !in shut && k < |net.links[s]| && net.links[s][k] !in shut + {s}
    ensures PathsVia(net, s, d, shut, k + 1) ==
      PathsVia(net, s, d, shut, k) + Prepend(s, Paths(net, net.links[s][k], d, shut + {s}))
  {
  }

  /** A path through the k-th neighbour goes through no earlier one. */
  lemma NewPathsAreNew(net: Net, s: nat, d: nat, shut: set<nat>, k: nat)
    requires s < |net.links| && s !in shut && k < |net.links[s]| && net.links[s][k] !in shut + {s}
    ensures PathsVia(net, s, d, shut, k) !! Prepend(s, Paths(net, net.links[s][k], d, shut + {s}))
  {
    hide Paths, PathsVia;
    var n := net.links[s][k];
    forall p | p in Prepend(s, Paths(net, n, d, shut + {s})) ensures p !in PathsVia(net, s, d, shut, k) {
      var q :| q in Paths(net, n, d, shut + {s}) && p == [s] + q;
      PathsAreSimple(net, n, d, shut + {s}, q);
      assert p[1] == n && n !in net.links[s][..k];
      if p in PathsVia(net, s, d, shut, k) {
        SecondNode(net, s, d, shut, k, p);
      }
    }
  }

  /** Going on to the k-th neighbour adds paths that were not there, hop count by hop count. */
  lemma OneMoreNeighbour(net: Net, s: nat, d: nat, shut: set<nat>, k: nat, hops: int)
    requires s < |net.links| && s !in shut && k < |net.links[s]| && net.links[s][k] !in shut + {s}
    ensures var more := Paths(net, net.links[s][k], d, shut + {s});
      && |PathsVia(net, s, d, shut, k + 1)| == |PathsVia(net, s, d, shut, k)| + |more|
      && |WithHops(PathsVia(net, s, d, shut, k + 1), hops)| ==
         |WithHops(PathsVia(net, s, d, shut, k), hops)| + |WithHops(more, hops - 1)|
  {
    hide Paths, PathsVia, WithHops, Prepend;
    ViaOneMore(net, s, d, shut, k);
    NewPathsAreNew(net, s, d, shut, k);
    AddedSize(s, PathsVia(net, s, d, shut, k), Paths(net, net.links[s][k], d, shut + {s}), hops);
  }

  lemma AddedSize(s: nat, before: set<seq<nat>>, more: set<seq<nat>>, hops: int)
    requires before !! Prepend(s, more)
    ensures |before + Prepend(s, more)| == |before| + |more|
    ensures |WithHops(before + Prepend(s, more), hops)| == |WithHops(before, hops)| + |WithHops(more, hops - 1)|
  {
    var added := Prepend(s, more);
    PrependSize(s, more);
    PrependSize(s, WithHops(more, hops - 1));
    assert WithHops(added, hops) == Prepend(s, WithHops(more, hops - 1));
    assert WithHops(before + added, hops) == WithHops(before, hops) + WithHops(added, hops);
  }

  lemma OnlyOnePath(net: Net, s: nat, shut: set<nat>)
    requires s < |net.links| && s !in shut
    ensures |Paths(net, s, s, shut)| == 1 && forall h: int ::
      |WithHops(Paths(net, s, s, shut), h)| == if h == 0 then 1 else 0
  {
    forall h: int ensures |WithHops({[s]}, h)| == if h == 0 then 1 else 0 {
      assert WithHops({[s]}, h) == if h == 0 then {[s]} else {};
    }
  }

  lemma NoneYet(net: Net, s: nat, d: nat, shut: set<nat>)
    requires s < |net.links| && s !in shut
    ensures PathsVia(net, s, d, shut, 0) == {} && forall h: int :: WithHops({}, h) == {}
    ensures s != d ==> Paths(net, s, d, shut) == PathsVia(net, s, d, shut, |net.links[s]|)
  {
  }

  lemma SkipNeighbour(net: Net, s: nat, d: nat, shut: set<nat>, k: nat)
    requires s < |net.links| && s !in shut && k < |net.links[s]|
    ensures net.links[s][k] in shut + {s} ==> PathsVia(net, s, d, shut, k + 1) == PathsVia(net, s, d, shut, k)
  {
  }

  lemma AddUp(net: Net, s: nat, d: nat, shut: set<nat>, k: nat, depth: nat, first: seq<int>, before: seq<int>,
              after: seq<int>)
    requires s < |net.links| && s !in shut && k < |net.links[s]| && net.links[s][k] !in shut + {s}
    requires |first| == |before| == |after|
    requires forall h | 0 <= h < |first| :: before[h] == first[h] + |WithHops(PathsVia(net, s, d, shut, k), h - depth)|
    requires forall h | 0 <= h < |first| ::
      after[h] == before[h] + |WithHops(Paths(net, net.links[s][k], d, shut + {s}), h - (depth + 1))|
    ensures forall h | 0 <= h < |first| ::
      after[h] == first[h] + |WithHops(PathsVia(net, s, d, shut, k + 1), h - depth)|
  {
    hide PathsVia, Paths, WithHops;
    forall h | 0 <= h < |first| ensures after[h] == first[h] + |WithHops(PathsVia(net, s, d, shut, k + 1), h - depth)| {
      OneMoreNeighbour(net, s, d, shut, k, h - depth);
    }
  }

  // ----- how deep the recursion goes

  /** Going on from s, the recursion gets room levels deeper before it meets d: there it ends the program. */
  ghost predicate TooDeep(net: Net, s: nat, d: nat, shut: set<nat>, room: nat)
    requires s < |net.links| && s !in shut
    decreases room, |net.links[s]| + 1
  {
    room == 0 || (s != d && TooDeepVia(net, s, d, shut, room, |net.links[s]|))
  }

  ghost predicate TooDeepVia(net: Net, s: nat, d: nat, shut: set<nat>, room: nat, k: nat)
    requires s < |net.links| && s !in shut && k <= |net.links[s]| && room > 0
    decreases room, k
  {
    && k > 0
    && var n := net.links[s][k - 1];
       TooDeepVia(net, s, d, shut, room, k - 1) || (n !in shut + {s} && TooDeep(net, n, d, shut + {s}, room - 1))
  }

  lemma {:induction false} TooDeepViaSome(net: Net, s: nat, d: nat, shut: set<nat>, room: nat, k: nat) returns (n: nat)
    requires s < |net.links| && s !in shut && k <= |net.links[s]| && room > 0 && TooDeepVia(net, s, d, shut, room, k)
    ensures net.Linked(s, n) && n !in shut + {s} && TooDeep(net, n, d, shut + {s}, room - 1)
    decreases k
  {
    if TooDeepVia(net, s, d, shut, room, k - 1) {
      n := TooDeepViaSome(net, s, d, shut, room, k - 1);
    } else {
      n := net.links[s][k - 1];
    }
  }

  lemma {:induction false} TooDeepViaMore(net: Net, s: nat, d: nat, shut: set<nat>, room: nat, j: nat, k: nat)
    requires s < |net.links| && s !in shut && j < k <= |net.links[s]| && room > 0
    requires var n := net.links[s][j]; n !in shut + {s} && TooDeep(net, n, d, shut + {s}, room - 1)
    ensures TooDeepVia(net, s, d, shut, room, k)
    decreases k
  {
    if j < k - 1 {
      TooDeepViaMore(net, s, d, shut, room, j, k - 1);
    }
  }

  lemma NoneDeepYet(net: Net, s: nat, d: nat, shut: set<nat>, room: nat)
    requires s < |net.links| && s !in shut && room > 0
    ensures !TooDeepVia(net, s, d, shut, room, 0)
  {
  }

  lemma {:induction false} DeepStaysDeep(net: Net, s: nat, d: nat, shut: set<nat>, room: nat, j: nat, k: nat)
    requires s < |net.links| && s !in shut && j <= k <= |net.links[s]| && room > 0
    requires TooDeepVia(net, s, d, shut, room, j)
    ensures TooDeepVia(net, s, d, shut, room, k)
    decreases k
  {
    if j < k {
      DeepStaysDeep(net, s, d, shut, room, j, k - 1);
    }
  }

  /** p goes from s past the shut nodes, takes that many hops and does not come to d before the last of them. */
  ghost predicate IsTrail(net: Net, p: seq<nat>, s: nat, d: nat, shut: set<nat>, hops: nat) {
    |p| == hops + 1 && IsSimplePath(net, p, s, p[hops], shut) && d !in p[..hops]
  }

  /** The program ends in the recursion if and only if some trail is too long. */
  lemma TooDeepIffTrail(net: Net, s: nat, d: nat, shut: set<nat>, room: nat)
    requires s < |net.links| && s !in shut
    ensures TooDeep(net, s, d, shut, room) <==> exists p :: IsTrail(net, p, s, d, shut, room)
  {
    if TooDeep(net, s, d, shut, room) {
      var p := TrailOf(net, s, d, shut, room);
    }
    if p :| IsTrail(net, p, s, d, shut, room) {
      TrailIsTooDeep(net, s, d, shut, room, p);
    }
  }

  lemma {:induction false} TrailOf(net: Net, s: nat, d: nat, shut: set<nat>, room: nat) returns (p: seq<nat>)
    requires s < |net.links| && s !in shut && TooDeep(net, s, d, shut, room)
    ensures IsTrail(net, p, s, d, shut, room)
    decreases room
  {
    if room == 0 {
      p := [s];
    } else {
      var n := TooDeepViaSome(net, s, d, shut, room, |net.links[s]|);
      var q := TrailOf(net, n, d, shut + {s}, room - 1);
      p := [s] + q;
      assert net.Linked(p[0], p[1]);
      forall i | 1 < i < |p| ensures net.Linked(p[i - 1], p[i]) {
        assert net.Linked(q[i - 2], q[i - 1]);
      }
      assert p[..room] == [s] + q[..room - 1];
    }
  }

  lemma {:induction false} TrailIsTooDeep(net: Net, s: nat, d: nat, shut: set<nat>, room: nat, p: seq<nat>)
    requires s < |net.links| && IsTrail(net, p, s, d, shut, room)
    ensures s !in shut && TooDeep(net, s, d, shut, room)
    decreases room
  {
    assert p[0] !in shut;
    if room > 0 {
      var q := p[1..];
      assert net.Linked(p[0], p[1]) && p[0] in p[..room];
      forall i | 0 < i < |q| ensures net.Linked(q[i - 1], q[i]) {
        assert net.Linked(p[i], p[i + 1]);
      }
      assert q[..room - 1] == p[1..room] && p[..room] == [s] + p[1..room];
      TrailIsTooDeep(net, p[1], d, shut + {s}, room - 1, q);
      var k :| 0 <= k < |net.links[s]| && net.links[s][k] == p[1];
      TooDeepViaMore(net, s, d, shut, room, k, |net.links[s]|);
    }
  }

  /** No trail, and no path, takes as many hops as there are nodes left. */
  lemma TrailIsShort(net: Net, p: seq<nat>, s: nat, e: nat, shut: set<nat>)
    requires IsSimplePath(net, p, s, e, shut) && s < |net.links|
    ensures |p| <= |Ifaces(net) - shut|
  {
    var nodes := set k | 0 <= k < |p| :: p[k];
    forall k | 0 <= k < |p| ensures p[k] in Ifaces(net) - shut {
      if k > 0 { assert net.Linked(p[k - 1], p[k]); }
    }
    DistinctSize(p, nodes);
    SubsetSize(nodes, Ifaces(net) - shut);
  }

  /** With no more nodes than maxdepth the program neither ends early nor writes past its array. */
  lemma FewNodesAreSafe(net: Net, s: nat, d: nat, maxdepth: nat)
    requires s < |net.links| <= maxdepth
    ensures !TooDeep(net, s, d, {}, maxdepth + 1) && WithHops(Paths(net, s, d, {}), maxdepth) == {}
  {
    hide TooDeep, Paths;
    assert Ifaces(net) - {} == Ifaces(net);
    IfaceCount(net, |net.links|);
    var room := maxdepth + 1;
    TooDeepIffTrail(net, s, d, {}, room);
    if p :| IsTrail(net, p, s, d, {}, room) {
      TrailIsShort(net, p, s, p[room], {});
    }
    forall p | p in Paths(net, s, d, {}) ensures |p| - 1 != maxdepth {
      PathsAreSimple(net, s, d, {}, p);
      TrailIsShort(net, p, s, d, {});
    }
  }

  lemma IfaceCount(net: Net, n: nat)
    requires n == |net.links|
    ensures |Ifaces(net)| == n
  {
    CountBelow(n, Ifaces(net));
  }

  lemma {:induction false} CountBelow(n: nat, s: set<nat>)
    requires forall x: nat :: x in s <==> x < n
    ensures |s| == n
  {
    if n == 0 {
      assert s == {};
    } else {
      CountBelow(n - 1, s - {n - 1});
    }
  }

  class PathCounter {
    const net: Net
    const maxdepth: nat
    const visited: array<bool>
    const patharray: array<int>   // paths by hop count; the last cell is what lies just past the allocated ones

    constructor (net: Net, maxdepth: nat)
      ensures Valid() && this.net == net && this.maxdepth == maxdepth && fresh(visited) && fresh(patharray)
      ensures forall i | 0 <= i < visited.Length :: !visited[i]
      ensures forall h | 0 <= h < patharray.Length :: patharray[h] == 0
    {
      this.net, this.maxdepth := net, maxdepth;
      visited := new bool[|net.links|](_ => false);
      patharray := new int[maxdepth + 1](_ => 0);
    }

    ghost predicate Valid() {
      visited.Length == |net.links| && patharray.Length == maxdepth + 1
    }

    ghost function Shut(): set<nat>
      reads visited
    {
      set i: nat | i < visited.Length && visited[i]
    }

    /** How many levels deeper the recursion may go before it ends the program. */
    function Room(depth: nat): nat {
      if depth > maxdepth then 0 else maxdepth + 1 - depth
    }

    /** What patharray holds after the paths from s via its first k neighbours were added to first. */
    ghost predicate Tallied(s: nat, d: nat, depth: nat, shut: set<nat>, k: nat, first: seq<int>)
      requires s < |net.links| && s !in shut && k <= |net.links[s]|
      reads patharray
    {
      |first| == patharray.Length && forall h | 0 <= h < |first| ::
        patharray[h] == first[h] + |WithHops(PathsVia(net, s, d, shut, k), h - depth)|
    }

    /** Ends the program if and only if some trail gets deeper than maxdepth. Otherwise returns the number of simple
        paths from s to d past the visited nodes, adds them to patharray by their number of hops, those of maxdepth
        hops past its end, and leaves every visited flag as it was. */
    method CountPaths(s: nat, d: nat, depth: nat) returns (paths: nat, exited: bool)
      requires Valid() && s < |net.links| && !visited[s]
      modifies visited, patharray
      ensures exited <==> TooDeep(net, s, d, old(Shut()), Room(depth))
      ensures !exited ==> visited[..] == old(visited[..])
      ensures !exited ==> paths == |Paths(net, s, d, old(Shut()))|
      ensures !exited ==> forall h | 0 <= h < patharray.Length ::
        patharray[h] == old(patharray[h]) + |WithHops(Paths(net, s, d, old(Shut())), h - depth)|
      decreases Ifaces(net) - Shut(), 0
    {
      if depth > maxdepth { return 0, true; }
      hide PathsVia, WithHops, Paths, TooDeepVia;
      ghost var shut := Shut();
      assert s in Ifaces(net) - shut && s !in Ifaces(net) - (shut + {s});
      if s == d {
        OnlyOnePath(net, s, shut);
        patharray[depth] := patharray[depth] + 1;
        return 1, false;
      }
      visited[s] := true;
      assert Shut() == shut + {s};
      NoneYet(net, s, d, shut);
      paths, exited := TryNeighbours(s, d, depth, shut);
      if exited { return; }
      visited[s] := false;
    }

    /** The loop over the neighbours of s, which is marked as visited. */
    method TryNeighbours(s: nat, d: nat, depth: nat, ghost shut: set<nat>) returns (paths: nat, exited: bool)
      requires Valid() && s < |net.links| && s !in shut && Shut() == shut + {s} && depth <= maxdepth
      modifies visited, patharray
      ensures exited <==> TooDeepVia(net, s, d, shut, Room(depth), |net.links[s]|)
      ensures !exited ==> visited[..] == old(visited[..])
      ensures !exited ==> paths == |PathsVia(net, s, d, shut, |net.links[s]|)|
      ensures !exited ==> Tallied(s, d, depth, shut, |net.links[s]|, old(patharray[..]))
      decreases Ifaces(net) - Shut(), 2
    {
      hide WithHops, Paths, PathsVia, TooDeep, TooDeepVia;
      NoneYet(net, s, d, shut);
      NoneDeepYet(net, s, d, shut, Room(depth));
      paths := 0;
      for k := 0 to |net.links[s]|
        invariant visited[..] == old(visited[..]) && Shut() == shut + {s}
        invariant paths == |PathsVia(net, s, d, shut, k)|
        invariant !TooDeepVia(net, s, d, shut, Room(depth), k)
        invariant Tallied(s, d, depth, shut, k, old(patharray[..]))
      {
        var count, ended := TryNeighbour(s, d, depth, k, shut, old(patharray[..]));
        if ended {
          DeepStaysDeep(net, s, d, shut, Room(depth), k + 1, |net.links[s]|);
          return paths, true;
        }
        paths := paths + count;
      }
      return paths, false;
    }

    /** The step for the k-th neighbour of s, which goes no further from a visited one. */
    method TryNeighbour(s: nat, d: nat, depth: nat, k: nat, ghost shut: set<nat>, ghost first: seq<int>)
        returns (count: nat, exited: bool)
      requires Valid() && s < |net.links| && s !in shut && Shut() == shut + {s} && k < |net.links[s]|
      requires depth <= maxdepth && Tallied(s, d, depth, shut, k, first)
      requires !TooDeepVia(net, s, d, shut, Room(depth), k)
      modifies visited, patharray
      ensures exited <==> TooDeepVia(net, s, d, shut, Room(depth), k + 1)
      ensures !exited ==> visited[..] == old(visited[..]) && Shut() == old(Shut())
      ensures !exited ==> |PathsVia(net, s, d, shut, k + 1)| == |PathsVia(net, s, d, shut, k)| + count
      ensures !exited ==> Tallied(s, d, depth, shut, k + 1, first)
      decreases Ifaces(net) - Shut(), 1
    {
      hide PathsVia, WithHops, Paths, TooDeep;
      var n := net.links[s][k];
      SkipNeighbour(net, s, d, shut, k);
      count, exited := 0, false;
      if !visited[n] {
        ghost var before := patharray[..];
        count, exited := CountPaths(n, d, depth + 1);
        if !exited {
          AddUp(net, s, d, shut, k, depth, first, before, patharray[..]);
          OneMoreNeighbour(net, s, d, shut, k, 0);
        }
      }
    }
  }

  /** Counts the paths between the first two interfaces, in an array for twenty hop counts. The program ends early if
      and only if some trail takes 21 hops; else it writes past the array if and only if some path takes 20. */
  method CalculatePaths(net: Net) returns (paths: nat, exited: bool, overrun: bool)
    requires |net.links| >= 2
    ensures exited <==> exists p :: IsTrail(net, p, 0, 1, {}, 21)
    ensures !exited ==> paths == |Paths(net, 0, 1, {})|
    ensures !exited ==> (overrun <==> exists p :: IsSimplePath(net, p, 0, 1, {}) && |p| == 21)
    ensures |net.links| <= 20 ==> !exited && !overrun
  {
    hide TooDeep, Paths;
    var counter := new PathCounter(net, 20);
    assert counter.Shut() == {};
    paths, exited := counter.CountPaths(0, 1, 0);
    overrun := counter.patharray[20] != 0;
    TooDeepIffTrail(net, 0, 1, {}, 21);
    PathsIffSimple(net, 0, 1, {});
    NoneOfLength(Paths(net, 0, 1, {}), 20);
    if |net.links| <= 20 {
      FewNodesAreSafe(net, 0, 1, 20);
    }
  }

  lemma NoneOfLength(paths: set<seq<nat>>, hops: int)
    ensures |WithHops(paths, hops)| != 0 <==> exists p :: p in paths && |p| - 1 == hops
  {
    if p :| p in paths && |p| - 1 == hops {
      assert p in WithHops(paths, hops);
    }
  }
}
