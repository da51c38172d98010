/** The relay set selection of the GraphRider program, run in place on the flags of its nodes and interfaces. */
module GraphRider {
  import opened Network
  import opened Walks
  import opened Election
  import opened Traversal
  import opened Backbone

  /** The nodes and links read from the input: what the priorities and degrees are taken from. */
  datatype Topology = Topology(links: seq<seq<nat>>, owner: seq<nat>, nodePriority: seq<nat>,
                               ifacePriority: seq<nat>, address: seq<nat>) {
    function Unranked(): Layout
      requires |address| == |links|
    {
      Layout(links, owner, seq(|links|, i requires 0 <= i < |links| => Rank(0, 0, address[i])))
    }

    /** Every node has an interface; ifaces are numbered from 0 and so are nodes. */
    predicate Wf() {
      && |address| == |links| == |owner| == |ifacePriority|
      && Unranked().Wf()
      && (forall i | 0 <= i < |owner| :: owner[i] < |nodePriority|)
      && (forall n | 0 <= n < |nodePriority| :: n in owner)
    }

    function Ranked(ranks: seq<Rank>): (net: Net)
      requires Wf() && |ranks| == |links| && forall i | 0 <= i < |links| :: ranks[i].address == address[i]
      ensures net.links == links && net.owner == owner && net.ranks == ranks
    {
      RankedIsWf(ranks);
      Layout(links, owner, ranks)
    }

    lemma RankedIsWf(ranks: seq<Rank>)
      requires Wf() && |ranks| == |links| && forall i | 0 <= i < |links| :: ranks[i].address == address[i]
      ensures Layout(links, owner, ranks).Wf()
    {
      var bare := Unranked();
      var layout := Layout(links, owner, ranks);
      forall i, k | 0 <= i < |links| && 0 <= k < |links[i]|
        ensures links[i][k] < |links| && layout.Linked(links[i][k], i) && owner[i] != owner[links[i][k]]
      {
        assert bare.Linked(bare.links[i][k], i);
      }
      forall i, j | 0 <= i < j < |ranks| ensures ranks[i].address != ranks[j].address {
        assert bare.ranks[i].address != bare.ranks[j].address;
      }
    }

    /** E-CDS ranks nodes: by priority, then (if asked) by neighbour count, then by address. */
    function EcdsNet(useDegree: bool): (net: Net)
      requires Wf()
      ensures net.links == links && net.owner == owner
    {
      var bare: Net := Unranked();
      Ranked(seq(|links|, i requires 0 <= i < |links| =>
        Rank(nodePriority[owner[i]], if useDegree then |NeighbourNodes(bare, owner[i])| else 0, address[i])))
    }

    /** MECDS ranks interfaces: by priority, then (if asked) by links plus co-interfaces, then by address. */
    function MecdsNet(useDegree: bool): (net: Net)
      requires Wf()
      ensures net.links == links && net.owner == owner
    {
      var bare: Net := Unranked();
      Ranked(seq(|links|, i requires 0 <= i < |links| =>
        Rank(ifacePriority[i],
             if useDegree then Max(|links[i]| + |Cofaces(bare, owner[i])| - 1, 0) else 0,
             address[i])))
    }
  }

  function Max(a: int, b: int): int {
    if a > b then a else b
  }

  datatype Candidate = Nobody | Best(iface: nat)

  /** y is marked as Step 5 leaves it: unvisited within two hops of v, visited at three. */
  ghost predicate Marked(net: Net, v: nat, flags: seq<bool>) {
    && |flags| == |net.links|
    && (forall y | y in Ball(net, v, 2) && y != v && y < |flags| :: !flags[y])
    && (forall y | y in Ball(net, v, 3) && y !in Ball(net, v, 2) && y < |flags| :: flags[y])
  }

  /** The marks, and the best neighbour among the interfaces in done, as the traversal has got that far. */
  ghost predicate MarkedSoFar(net: Net, v: nat, done: seq<nat>, flags: seq<bool>, best: Candidate) {
    && |flags| == |net.links|
    && (forall y | y in done && y != v && y < |flags| :: flags[y] == (y !in Ball(net, v, 2)))
    && (best.Nobody? ==> forall y | y in done :: !Adjacent(net, v, y))
    && (best.Best? ==> Adjacent(net, v, best.iface)
                       && forall y | y in done && y != best.iface && Adjacent(net, v, y) ::
                         Outranks(net, best.iface, y))
  }

  ghost predicate AtLevel(net: Net, v: nat, x: nat, level: nat) {
    x in Ball(net, v, level) && (level > 0 ==> x !in Ball(net, v, level - 1))
  }

  lemma LevelFacts(net: Net, v: nat, x: nat, level: nat)
    requires AtLevel(net, v, x, level) && level <= 3 && v < |net.links|
    ensures x < |net.links|
    ensures x in Ball(net, v, 2) <==> level < 3
    ensures Adjacent(net, v, x) <==> x != v && level < 2
  {
    hide Adjacent, Ball;
    BallInIfaces(net, v, level);
    BallOfOneHop(net, v, x);
    if level < 3 { BallGrows(net, v, level, 2); }
    if level < 2 { BallGrows(net, v, level, 1); } else { BallGrows(net, v, 1, level - 1); }
  }

  /** What a step of the traversal up to three hops out has to write. */
  lemma MarkOne(net: Net, v: nat, done: seq<nat>, flags: seq<bool>, best: Candidate, x: nat, level: nat)
    requires MarkedSoFar(net, v, done, flags, best) && AtLevel(net, v, x, level) && level <= 3 && v < |net.links|
    ensures x < |flags| && (best.Best? ==> best.iface < |flags|)
    ensures x == v ==> MarkedSoFar(net, v, done + [x], flags, best)
    ensures x != v && level >= 2 ==> MarkedSoFar(net, v, done + [x], flags[x := level == 3], best)
    ensures x != v && level < 2 ==>
      MarkedSoFar(net, v, done + [x], flags[x := false],
                  if best.Nobody? || Outranks(net, x, best.iface) then Best(x) else best)
  {
    hide Ball;
    LevelFacts(net, v, x, level);
    if best.Best? && Adjacent(net, v, x) {
      forall y | y in done && Adjacent(net, v, y) && Outranks(net, x, best.iface) && y != x
        ensures Outranks(net, x, y)
      {
        RanksAreTotallyOrdered(net, x, best.iface, y);
      }
      RanksAreTotallyOrdered(net, best.iface, x, x);
    }
  }

  /** Once everything within three hops has been marked, the marks and the best neighbour are final. */
  lemma MarkedEnough(net: Net, v: nat, done: seq<nat>, flags: seq<bool>, best: Candidate)
    requires MarkedSoFar(net, v, done, flags, best) && v < |net.links|
    requires forall x | x in Ball(net, v, 3) :: x in done
    ensures Marked(net, v, flags)
    ensures best.Nobody? ==> forall j :: !Adjacent(net, v, j)
    ensures best.Best? ==> IsBestNeighbour(net, v, best.iface)
  {
    forall j | Adjacent(net, v, j) ensures j in done {
      BallOfOneHop(net, v, j);
      BallGrows(net, v, 1, 3);
    }
    BallGrows(net, v, 2, 3);
    BallInIfaces(net, v, 2);
  }

  ghost function Unseen(net: Net, done: seq<nat>): set<nat> {
    set i | i in Ifaces(net) && i !in done
  }

  lemma StartMarking(net: Net, v: nat, flags: seq<bool>)
    requires |flags| == |net.links|
    ensures MarkedSoFar(net, v, [], flags, Nobody)
  {
  }

  lemma AllBallsDone(net: Net, v: nat, done: seq<nat>)
    requires v in done && forall u, w | u in done && Adjacent(net, u, w) :: w in done
    ensures forall x | x in Ball(net, v, 3) :: x in done
  {
    BallInClosed(net, v, 3, set x | x in done);
  }

  /** Where the search of Step 8 stands while the members of todo may still have unvisited neighbours. */
  ghost predicate Searching(net: Net, v: nat, m: nat, flags: seq<bool>, todo: seq<nat>) {
    && |flags| == |net.links| && m < |flags| && flags[m] && Adjacent(net, v, m)
    && (forall y | y in Ball(net, v, 3) && y !in Ball(net, v, 2) && y < |flags| :: flags[y])
    && (forall y | y in Ball(net, v, 2) && y != v && y < |flags| && flags[y] :: Searched(net, v, m, y))
    && (forall x | x in todo :: Expands(net, v, m, x) && x < |flags| && flags[x])
    && (forall x: nat, w: nat |
          Expands(net, v, m, x) && x < |flags| && flags[x] && x !in todo && Adjacent(net, x, w) && w != v ::
          flags[w])
  }

  lemma StartSearch(net: Net, v: nat, m: nat, flags: seq<bool>)
    requires Marked(net, v, flags) && Adjacent(net, v, m)
    ensures Searching(net, v, m, flags[m := true], [m])
  {
    hide Ball, Adjacent;
    MIsAdjacent(net, v, m);
    JoinedToItself(net, Above(net, v) * Ball(net, v, 2), m);
  }

  lemma MIsAdjacent(net: Net, v: nat, m: nat)
    requires Adjacent(net, v, m)
    ensures m in Ball(net, v, 2) && m != v && m in Ifaces(net) && v in Ifaces(net)
  {
    BallOfOneHop(net, v, m);
    BallGrows(net, v, 1, 2);
  }

  /** A neighbour of an expanded interface that is still unvisited lies within two hops and is searched. */
  lemma SearchedNext(net: Net, v: nat, m: nat, x: nat, w: nat)
    requires Expands(net, v, m, x) && Searched(net, v, m, x) && Adjacent(net, x, w) && w != v && w in Ball(net, v, 2)
    ensures Searched(net, v, m, w)
  {
    hide Ball, Outranks;
    var via := Above(net, v) * Ball(net, v, 2);
    JoinedByHop(net, via, x, w);
    JoinedThrough(net, via, m, x, w);
  }

  lemma VisitNext(net: Net, v: nat, m: nat, flags: seq<bool>, todo: seq<nat>, x: nat, w: nat)
    requires Searching(net, v, m, flags, todo) && x in todo && Adjacent(net, x, w) && w != v && !flags[w]
    ensures Searching(net, v, m, flags[w := true], if Outranks(net, w, v) then todo + [w] else todo)
    ensures Outranks(net, w, v) ==> w !in todo
  {
    UnvisitedIsNear(net, v, m, flags, todo, x, w);
    hide Ball, Above, Outranks, Searched, Adjacent;
  }

  lemma UnvisitedIsNear(net: Net, v: nat, m: nat, flags: seq<bool>, todo: seq<nat>, x: nat, w: nat)
    requires Searching(net, v, m, flags, todo) && x in todo && Adjacent(net, x, w) && w != v && !flags[w]
    ensures w in Ball(net, v, 2) && Searched(net, v, m, w)
  {
    BallStep(net, v, 2, x, w);
    hide Ball, Above, Outranks, Searched, Adjacent;
    assert Expands(net, v, m, x) && Searched(net, v, m, x);
    SearchedNext(net, v, m, x, w);
  }

  lemma TodoInRange(net: Net, v: nat, m: nat, flags: seq<bool>, todo: seq<nat>)
    requires Searching(net, v, m, flags, todo) && todo != []
    ensures todo[0] < |flags|
  {
    assert todo[0] in todo;
  }

  lemma CloseOne(net: Net, v: nat, m: nat, flags: seq<bool>, x: nat, rest: seq<nat>)
    requires Searching(net, v, m, flags, [x] + rest)
    requires forall w: nat | Adjacent(net, x, w) && w != v :: w < |flags| && flags[w]
    ensures Searching(net, v, m, flags, rest)
  {
    forall y | y in rest ensures y in [x] + rest {
    }
  }

  lemma SearchComplete(net: Net, v: nat, m: nat, flags: seq<bool>)
    requires Searching(net, v, m, flags, [])
    ensures forall y | y in Ball(net, v, 2) && y != v :: y < |flags| && (flags[y] <==> Searched(net, v, m, y))
  {
    var via := Above(net, v) * Ball(net, v, 2);
    BallInIfaces(net, v, 2);
    MIsAdjacent(net, v, m);
    RanksAreTotallyOrdered(net, v, v, v);
    hide Ball;
    var closed := set i | i in Ifaces(net) && (flags[i] || i == v);
    forall y | y in Ball(net, v, 2) && y != v && Searched(net, v, m, y) ensures flags[y] {
      var p :| Leads(net, p, via, m, y);
      forall i, j | i in closed && (i == m || i in via) && Adjacent(net, i, j) ensures j in closed {
        assert Expands(net, v, m, i);
      }
      JoinedStaysInside(net, via, p, m, y, closed);
    }
  }

  ghost function Unvisited(flags: seq<bool>): set<nat> {
    set i: nat | i < |flags| && !flags[i]
  }

  lemma Step4Decides(net: Net, v: nat, m: nat)
    requires IsBestNeighbour(net, v, m)
    ensures Outranks(net, v, m) <==> TopOfOneHop(net, v)
  {
    if Outranks(net, v, m) {
      forall j | Adjacent(net, v, j) ensures Outranks(net, v, j) {
        RanksAreTotallyOrdered(net, v, m, j);
      }
    }
  }

  lemma Step9Decides(net: Net, v: nat, m: nat, flags: seq<bool>)
    requires IsBestNeighbour(net, v, m) && |flags| == |net.links|
    requires forall y | y in Ball(net, v, 2) && y != v :: y < |flags| && (flags[y] <==> Searched(net, v, m, y))
    ensures (exists y: nat :: Adjacent(net, v, y) && !flags[y]) <==> SearchMisses(net, v)
  {
    forall y: nat | Adjacent(net, v, y) ensures flags[y] <==> Searched(net, v, m, y) {
      MIsAdjacent(net, v, y);
    }
    forall m' | IsBestNeighbour(net, v, m') ensures m' == m {
      RanksAreTotallyOrdered(net, m, m', m);
    }
  }

  ghost predicate NoEmptyNode(net: Net, nodes: nat) {
    forall n: nat | n < nodes :: n in net.owner
  }

  class GraphRider {
    const net: Net
    const visited: array<bool>
    const relay: array<bool>      // per interface
    const nodeRelay: array<bool>  // per node

    constructor (t: Topology, useDegree: bool, mecds: bool)
      requires t.Wf()
      ensures Valid() && net == if mecds then t.MecdsNet(useDegree) else t.EcdsNet(useDegree)
      ensures nodeRelay.Length == |t.nodePriority| && fresh({visited, relay, nodeRelay})
    {
      net := if mecds then t.MecdsNet(useDegree) else t.EcdsNet(useDegree);
      visited, relay, nodeRelay := new bool[|t.links|], new bool[|t.links|], new bool[|t.nodePriority|];
    }

    ghost predicate Valid() {
      && visited.Length == relay.Length == |net.links|
      && visited != relay && visited != nodeRelay && relay != nodeRelay
      && (forall i | 0 <= i < |net.owner| :: net.owner[i] < nodeRelay.Length)
      && NoEmptyNode(net, nodeRelay.Length)
    }

    /** Steps 3, 5 and 6: marks the surroundings of v and finds its best neighbour, whatever the flags were. */
    method MarkNeighbourhood(v: nat) returns (best: Candidate)
      requires Valid() && v < |net.links|
      modifies visited
      ensures Marked(net, v, visited[..])
      ensures best.Nobody? ==> forall j :: !Adjacent(net, v, j)
      ensures best.Best? ==> IsBestNeighbour(net, v, best.iface)
    {
      hide Ball, Adjacent, MarkedSoFar, Marked, Layered;
      best := Nobody;
      var bfs := new SimpleTraversal(net, v);
      StartMarking(net, v, visited[..]);
      ghost var done := bfs.visited;
      while true
        invariant bfs.Valid() && bfs.net == net && bfs.start == v && fresh(bfs)
        invariant done == bfs.visited && MarkedSoFar(net, v, done, visited[..], best)
        decreases Unseen(net, done)
      {
        ghost var flags, was := visited[..], best;
        var step := bfs.GetNextInterface();
        if step.Done? {
          AllBallsDone(net, v, done);
          break;
        }
        var x := step.iface;
        if step.level > 3 {
          BallGrows(net, v, 3, step.level - 1);
          break;
        }
        MarkOne(net, v, done, flags, was, x, step.level);
        if x != v {
          if step.level < 2 {
            visited[x] := false;
            if best.Nobody? || ComparePriority(net.ranks[x], net.ranks[best.iface]) > 0 {
              best := Best(x);
            }
          } else if step.level < 3 {
            visited[x] := false;
          } else {
            visited[x] := true;
          }
        }
        assert x in Unseen(net, done) && x !in Unseen(net, done + [x]);
        done := done + [x];
      }
      MarkedEnough(net, v, done, visited[..], best);
    }

    /** Steps 7 and 8: the queue-driven search from m, past v, through what outranks v. */
    method PathSearch(v: nat, m: nat)
      requires Valid() && v < |net.links| && Marked(net, v, visited[..]) && Adjacent(net, v, m)
      modifies visited
      ensures forall y | y in Ball(net, v, 2) && y != v :: y < |net.links| && (visited[y] <==> Searched(net, v, m, y))
    {
      hide Ball, Searching, Marked;
      StartSearch(net, v, m, visited[..]);
      visited[m] := true;
      var q := [m];
      while q != []
        invariant Searching(net, v, m, visited[..], q)
        decreases Unvisited(visited[..]), |q|
      {
        var x := q[0];
        TodoInRange(net, v, m, visited[..], q);
        assert q == [x] + q[1..];
        q := q[1..];
        var neighbours := Adjacencies(net, x);
        ghost var unvisited, rest := Unvisited(visited[..]), q;
        for k := 0 to |neighbours|
          invariant Searching(net, v, m, visited[..], [x] + q)
          invariant forall i | 0 <= i < k :: neighbours[i] == x || neighbours[i] == v || visited[neighbours[i]]
          invariant Unvisited(visited[..]) < unvisited || (Unvisited(visited[..]) == unvisited && q == rest)
        {
          var n := neighbours[k];
          if n == x || n == v { continue; }
          if !visited[n] {
            VisitNext(net, v, m, visited[..], [x] + q, x, n);
            assert n in Unvisited(visited[..]);
            visited[n] := true;
            assert n !in Unvisited(visited[..]);
            assert [x] + q + [n] == [x] + (q + [n]);
            if ComparePriority(net.ranks[n], net.ranks[v]) > 0 {
              q := q + [n];
            }
          }
        }
        CloseOne(net, v, m, visited[..], x, q);
      }
      SearchComplete(net, v, m, visited[..]);
    }

    /** Step 9: is some neighbour of v unvisited? */
    method SomeNeighbourUnvisited(v: nat) returns (found: bool)
      requires Valid() && v < |net.links|
      ensures found <==> exists y: nat :: Adjacent(net, v, y) && !visited[y]
    {
      var neighbours := Adjacencies(net, v);
      for k := 0 to |neighbours|
        invariant forall i | 0 <= i < k :: neighbours[i] == v || visited[neighbours[i]]
      {
        if neighbours[k] == v { continue; }
        if !visited[neighbours[k]] {
          assert Adjacent(net, v, neighbours[k]);
          return true;
        }
      }
      forall y: nat | Adjacent(net, v, y) ensures visited[y] {
        assert y in neighbours;
      }
      return false;
    }

    /** Counts each neighbour node once, however many links lead to it. */
    method GetDegree(node: nat) returns (count: nat)
      ensures count == |NeighbourNodes(net, node)|
    {
      var seen: seq<nat> := [];
      count := 0;
      var ifaces := Cofaces(net, node);
      for a := 0 to |ifaces|
        invariant count == |seen| && Distinct(seen) && forall n | n in seen :: n in NeighbourNodes(net, node)
        invariant forall i, j: nat | 0 <= i < a && net.Linked(ifaces[i], j) :: net.owner[j] in seen
      {
        var iface := ifaces[a];
        count, seen := CountNew(iface, node, seen);
      }
      DistinctSize(seen, NeighbourNodes(net, node));
    }

    /** Counts the nodes that one interface of the node has links to and that were not counted before. */
    method CountNew(iface: nat, ghost node: nat, seen: seq<nat>) returns (count: nat, after: seq<nat>)
      requires iface < |net.links| && net.owner[iface] == node
      requires Distinct(seen) && forall n | n in seen :: n in NeighbourNodes(net, node)
      ensures count == |after| && Distinct(after) && seen <= after
      ensures forall n | n in after :: n in NeighbourNodes(net, node)
      ensures forall j: nat | net.Linked(iface, j) :: net.owner[j] in after
    {
      count, after := |seen|, seen;
      var links := net.links[iface];
      for b := 0 to |links|
        invariant count == |after| && Distinct(after) && seen <= after
        invariant forall n | n in after :: n in NeighbourNodes(net, node)
        invariant forall j | 0 <= j < b :: net.owner[links[j]] in after
      {
        if net.owner[links[b]] !in after {
          assert net.Linked(iface, links[b]);
          after, count := after + [net.owner[links[b]]], count + 1;
        }
      }
    }

    /** Steps 3 to 9 for one candidate v that has a neighbour. */
    method Elect(v: nat) returns (isRelay: bool)
      requires Valid() && v < |net.links| && exists j :: Adjacent(net, v, j)
      modifies visited
      ensures isRelay <==> TopOfOneHop(net, v) || SearchMisses(net, v)
    {
      hide Ball, Adjacent, Searched, Marked;
      var best := MarkNeighbourhood(v);
      if best.Nobody? {
        assert false;
      }
      var m := best.iface;
      Step4Decides(net, v, m);
      MIsAdjacent(net, v, m);
      if ComparePriority(net.ranks[v], net.ranks[m]) > 0 {
        return true;
      }
      PathSearch(v, m);
      Step9Decides(net, v, m, visited[..]);
      isRelay := SomeNeighbourUnvisited(v);
    }

    /** Steps 2 to 9 for a node with one interface. */
    method ElectNode(node: nat) returns (isRelay: bool)
      requires Valid() && SingleInterface(net) && node < relay.Length == nodeRelay.Length
      modifies visited
      ensures isRelay == IsRelay(net, node)
    {
      hide Ball, Adjacent, Outranks, Searched, Marked, TopOfOneHop, SearchMisses;
      visited[node] := false;
      var degree := GetDegree(node);
      if degree < 2 { return false; }
      HasNeighbour(net, node);
      isRelay := Elect(node);
    }

    /** The E-CDS election over nodes with one interface each; relay ends up independent of what the flags
        held before and of the order in which the nodes are visited. */
    method CalculateFullECDS(order: seq<nat>) returns (numberOfRelays: nat)
      requires Valid() && SingleInterface(net) && nodeRelay.Length == relay.Length && Enumerates(order, relay.Length)
      modifies visited, relay, nodeRelay
      ensures forall v | 0 <= v < relay.Length :: relay[v] == nodeRelay[v] == IsRelay(net, v)
      ensures numberOfRelays == |Relays(net)|
      ensures forall v | 0 <= v < relay.Length && |net.links[v]| >= 2 :: WinsByItsFields(net, v) ==> relay[v]
    {
      hide IsRelay, NoEmptyNode, WinsByItsFields;
      numberOfRelays := 0;
      ghost var chosen: set<nat>, done: seq<nat> := {}, [];
      for k := 0 to |order|
        invariant done == order[..k] && numberOfRelays == |chosen|
        invariant forall v | v in done :: relay[v] == nodeRelay[v] == IsRelay(net, v)
        invariant forall v | v in Ifaces(net) :: v in chosen <==> v in done && IsRelay(net, v)
        invariant chosen <= Ifaces(net)
      {
        var node := order[k];
        assert node !in done && order[..k + 1] == done + [node];
        done := done + [node];
        var isRelay := ElectNode(node);
        nodeRelay[node], relay[node] := isRelay, isRelay;
        if isRelay {
          numberOfRelays, chosen := numberOfRelays + 1, chosen + {node};
        }
      }
      assert done == order;
      assert chosen == Relays(net);
      forall v: nat | v < relay.Length && |net.links[v]| >= 2 && WinsByItsFields(net, v) ensures relay[v] {
        WinnerIsRelay(net, v);
      }
    }

    method ElectInterface(iface: nat, nodeDegree: nat, ifaceCount: nat) returns (isRelay: bool)
      requires Valid() && iface < |net.links|
      requires nodeDegree == |NeighbourNodes(net, net.owner[iface])|
      requires ifaceCount == |Cofaces(net, net.owner[iface])|
      modifies visited
      ensures isRelay == IsRelay(net, iface)
    {
      hide Ball, Adjacent, Outranks, TopOfOneHop, SearchMisses;
      if nodeDegree < 2 {
        return false;
      }
      var degree := |net.links[iface]| + ifaceCount - 1;
      HasInterfaceNeighbour(net, iface);
      if degree == 0 {
        return false;
      }
      isRelay := Elect(iface);
    }

    method MarkInterface(iface: nat, node: nat, nodeDegree: nat, ifaceCount: nat) returns (isRelay: bool)
      requires Valid() && iface < |net.links| && net.owner[iface] == node
      requires nodeDegree == |NeighbourNodes(net, node)| && ifaceCount == |Cofaces(net, node)|
      modifies visited, relay, nodeRelay
      ensures isRelay == IsRelay(net, iface)
      ensures relay[..] == old(relay[..])[iface := isRelay]
      ensures nodeRelay[..] == old(nodeRelay[..])[node := old(nodeRelay[node]) || isRelay]
    {
      hide IsRelay;
      isRelay := ElectInterface(iface, nodeDegree, ifaceCount);
      relay[iface] := isRelay;
      if isRelay {
        nodeRelay[node] := true;
      }
    }

    /** The election for each interface of one node; the node is a relay when any of its interfaces is. */
    method ElectInterfaces(node: nat) returns (count: nat)
      requires Valid() && node < nodeRelay.Length
      modifies visited, relay, nodeRelay
      ensures forall i | 0 <= i < relay.Length ::
        relay[i] == if net.owner[i] == node then IsRelay(net, i) else old(relay[i])
      ensures forall n | 0 <= n < nodeRelay.Length ::
        nodeRelay[n] == if n == node then RelaysOf(net, node) != {} else old(nodeRelay[n])
      ensures count == |RelaysOf(net, node)|
    {
      hide IsRelay, NoEmptyNode, NeighbourNodes;
      nodeRelay[node] := false;
      count := 0;
      ghost var chosen: set<nat>, done: seq<nat> := {}, [];
      var nodeDegree := GetDegree(node);
      var ifaces := Cofaces(net, node);
      for a := 0 to |ifaces|
        invariant done == ifaces[..a]
        invariant forall i | 0 <= i < relay.Length :: relay[i] == if i in done then IsRelay(net, i) else old(relay[i])
        invariant nodeRelay[node] == (chosen != {})
        invariant forall n | 0 <= n < nodeRelay.Length && n != node :: nodeRelay[n] == old(nodeRelay[n])
        invariant forall i | i in Ifaces(net) :: i in chosen <==> i in done && IsRelay(net, i)
        invariant chosen <= Ifaces(net) && count == |chosen|
      {
        var iface := ifaces[a];
        assert iface !in done && ifaces[..a + 1] == done + [iface];
        done := done + [iface];
        var isRelay := MarkInterface(iface, node, nodeDegree, |ifaces|);
        if isRelay {
          count, chosen := count + 1, chosen + {iface};
        }
      }
      assert done == ifaces;
      assert chosen == RelaysOf(net, node);
    }

    /** The E-CDS election per interface, for nodes with any number of interfaces. */
    method CalculateFullMECDS(order: seq<nat>) returns (numberOfRelays: nat)
      requires Valid() && Enumerates(order, nodeRelay.Length)
      modifies visited, relay, nodeRelay
      ensures forall i | 0 <= i < relay.Length :: relay[i] == IsRelay(net, i)
      ensures forall n | 0 <= n < nodeRelay.Length :: nodeRelay[n] <==> RelaysOf(net, n) != {}
      ensures numberOfRelays == |Relays(net)|
    {
      hide IsRelay, NoEmptyNode, RelaysOf;
      numberOfRelays := 0;
      ghost var chosen: set<nat>, done: seq<nat> := {}, [];
      for k := 0 to |order|
        invariant done == order[..k]
        invariant forall i | 0 <= i < relay.Length && net.owner[i] in done :: relay[i] == IsRelay(net, i)
        invariant forall n | n in done :: nodeRelay[n] <==> RelaysOf(net, n) != {}
        invariant forall i | i in Relays(net) :: i in chosen <==> net.owner[i] in done
        invariant chosen <= Relays(net) && numberOfRelays == |chosen|
      {
        var node := order[k];
        assert node !in done && order[..k + 1] == done + [node];
        var count := ElectInterfaces(node);
        CountMore(net, chosen, done, node);
        numberOfRelays, chosen, done := numberOfRelays + count, chosen + RelaysOf(net, node), done + [node];
      }
      assert done == order;
      forall n | 0 <= n < nodeRelay.Length ensures nodeRelay[n] <==> RelaysOf(net, n) != {} {
        assert n in order;
      }
      assert chosen == Relays(net);
    }

    /** Colours the network: what is left over is neither a relay node nor linked to a relay. */
    method Disconnected(order: seq<nat>) returns (disconnected: seq<nat>)
      requires Valid() && Enumerates(order, nodeRelay.Length)
      requires forall i | 0 <= i < relay.Length :: relay[i] == IsRelay(net, i)
      requires forall n | 0 <= n < nodeRelay.Length :: nodeRelay[n] <==> RelaysOf(net, n) != {}
      ensures forall n: nat :: n in disconnected <==> n < nodeRelay.Length && !Dominates(net, Relays(net), n)
    {
      hide IsRelay;
      disconnected := order;
      for k := 0 to |order|
        invariant forall n | n in disconnected :: n in order
        invariant forall n | n in order && n !in disconnected :: Dominates(net, Relays(net), n)
        invariant forall j | 0 <= j < k && RelaysOf(net, order[j]) != {} :: order[j] !in disconnected
        invariant forall r: nat, c: nat | r in Relays(net) && net.Linked(r, c) && net.owner[r] in order[..k] ::
                    net.owner[c] !in disconnected
      {
        var node := order[k];
        if nodeRelay[node] {
          ghost var r :| r in RelaysOf(net, node);
          assert Dominates(net, Relays(net), node);
          disconnected := Without(disconnected, node);
        }
        disconnected := DisconnectLinked(node, order, disconnected);
        assert order[..k + 1] == order[..k] + [node];
      }
      assert order[..|order|] == order;
      NoneLeftDominated(net, order, disconnected);
    }

    /** Takes off the list every node that a link of this node joins to a relay. */
    method DisconnectLinked(node: nat, ghost order: seq<nat>, before: seq<nat>) returns (after: seq<nat>)
      requires Valid() && node < nodeRelay.Length
      requires forall i | 0 <= i < relay.Length :: relay[i] == IsRelay(net, i)
      requires forall n | n in order && n !in before :: Dominates(net, Relays(net), n)
      ensures forall n | n in after :: n in before
      ensures forall n | n in order && n !in after :: Dominates(net, Relays(net), n)
      ensures forall r: nat, c: nat | r in Relays(net) && net.Linked(r, c) && net.owner[r] == node ::
        net.owner[c] !in after
    {
      hide IsRelay;
      after := before;
      var ifaces := Cofaces(net, node);
      for a := 0 to |ifaces|
        invariant forall n | n in after :: n in before
        invariant forall n | n in order && n !in after :: Dominates(net, Relays(net), n)
        invariant forall r: nat, c: nat | r in Relays(net) && net.Linked(r, c) && r in ifaces[..a] ::
          net.owner[c] !in after
      {
        var iface1 := ifaces[a];
        var links := net.links[iface1];
        for b := 0 to |links|
          invariant forall n | n in after :: n in before
          invariant forall n | n in order && n !in after :: Dominates(net, Relays(net), n)
          invariant forall r: nat, c: nat | r in Relays(net) && net.Linked(r, c) && r in ifaces[..a] ::
            net.owner[c] !in after
          invariant forall d | 0 <= d < b && iface1 in Relays(net) :: net.owner[links[d]] !in after
        {
          var iface2 := links[b];
          if relay[iface1] || relay[iface2] {
            LinkDominates(net, Relays(net), iface1, iface2);
            after := Without(after, net.owner[iface2]);
          }
        }
        assert ifaces[..a + 1] == ifaces[..a] + [iface1];
      }
      assert ifaces[..|ifaces|] == ifaces;
    }

    /** One epoch: elects the relays and lists the nodes to be painted red, which are exactly the orphans and
        the orphan pairs, whatever the flags and the order of the nodes. */
    method RunEpoch(order: seq<nat>, mecds: bool) returns (red: seq<nat>)
      requires Valid() && Enumerates(order, nodeRelay.Length)
      requires !mecds ==> SingleInterface(net) && nodeRelay.Length == relay.Length
      modifies visited, relay, nodeRelay
      ensures forall i | 0 <= i < relay.Length :: relay[i] == IsRelay(net, i)
      ensures forall n | n in red :: n < nodeRelay.Length
      ensures forall i | 0 <= i < |net.owner| :: net.owner[i] in red <==> !InLargeComponent(net, i)
      ensures WhollyConnected(net) && net.links != [] ==> (red == [] <==> HasThreeNodes(net))
    {
      if mecds {
        var _ := CalculateFullMECDS(order);
      } else {
        var _ := CalculateFullECDS(order);
        forall n | 0 <= n < nodeRelay.Length ensures nodeRelay[n] <==> RelaysOf(net, n) != {} {
          assert n in RelaysOf(net, n) <==> IsRelay(net, n);
        }
      }
      red := Disconnected(order);
      forall i | 0 <= i < |net.owner| ensures net.owner[i] in red <==> !InLargeComponent(net, i) {
        DominatedIffInLargeComponent(net, i);
      }
      if WhollyConnected(net) && net.links != [] {
        EmptyIffThreeNodes(net, red);
      }
    }
  }

  /** The list of a connected network is empty if and only if there are three nodes. */
  lemma EmptyIffThreeNodes(net: Net, red: seq<nat>)
    requires WhollyConnected(net) && net.links != [] && forall n | n in red :: n in net.owner
    requires forall i | 0 <= i < |net.owner| :: net.owner[i] in red <==> !InLargeComponent(net, i)
    ensures red == [] <==> HasThreeNodes(net)
  {
    hide WhollyConnected, HasThreeNodes, InLargeComponent;
    assert 0 in Ifaces(net);
    LargeIffThreeNodes(net, 0);
    if red != [] {
      assert red[0] in net.owner;
      var i: nat :| i < |net.owner| && net.owner[i] == red[0];
      assert i in Ifaces(net);
      LargeIffThreeNodes(net, i);
    }
  }

  function Without(s: seq<nat>, x: nat): (r: seq<nat>)
    ensures forall y: nat :: y in r <==> y in s && y != x
  {
    if s == [] then []
    else if s[0] == x then Without(s[1..], x)
    else [s[0]] + Without(s[1..], x)
  }

  lemma LinkDominates(net: Net, s: set<nat>, i: nat, j: nat)
    requires net.Linked(i, j) && (i in s || j in s)
    ensures Dominates(net, s, net.owner[j])
  {
    if i in s {
      assert i in s && net.owner[j] == net.owner[j] && net.Linked(i, j);
    }
  }

  /** When the relay nodes are off the list, and what their relays link to, no dominated node is on it. */
  lemma NoneLeftDominated(net: Net, order: seq<nat>, rest: seq<nat>)
    requires forall j | 0 <= j < |order| && RelaysOf(net, order[j]) != {} :: order[j] !in rest
    requires forall r: nat, c: nat | r in Relays(net) && net.Linked(r, c) && net.owner[r] in order ::
      net.owner[c] !in rest
    requires forall r | 0 <= r < |net.owner| :: net.owner[r] in order
    ensures forall n: nat | Dominates(net, Relays(net), n) :: n !in rest
  {
    hide IsRelay;
    forall n: nat | Dominates(net, Relays(net), n) ensures n !in rest {
      var r: nat, c: nat :| r in Relays(net) && c < |net.links| && net.owner[c] == n && (r == c || net.Linked(r, c));
      assert net.owner[r] in order;
      assert r in RelaysOf(net, net.owner[r]);
    }
  }

  ghost function RelaysOf(net: Net, node: nat): set<nat> {
    set i | i in Relays(net) && net.owner[i] == node
  }

  /** The relays of one more node are counted on top of those of the nodes done. */
  lemma CountMore(net: Net, chosen: set<nat>, done: seq<nat>, node: nat)
    requires chosen <= Relays(net) && node !in done
    requires forall i | i in Relays(net) :: i in chosen <==> net.owner[i] in done
    ensures |chosen + RelaysOf(net, node)| == |chosen| + |RelaysOf(net, node)|
    ensures chosen + RelaysOf(net, node) <= Relays(net)
    ensures forall i | i in Relays(net) :: i in chosen + RelaysOf(net, node) <==> net.owner[i] in done + [node]
  {
    hide IsRelay;
    assert chosen !! RelaysOf(net, node);
  }

  /** v has a larger priority than each of its neighbours, or the same and a larger degree, or both the same and a
      larger address. */
  ghost predicate WinsByItsFields(net: Net, v: nat)
    requires v < |net.links|
  {
    forall j: nat | net.Linked(v, j) ::
      var a, b := net.ranks[v], net.ranks[j];
      || a.priority > b.priority
      || (a.priority == b.priority && a.degree > b.degree)
      || (a.priority == b.priority && a.degree == b.degree && a.address > b.address)
  }

  lemma WinnerIsRelay(net: Net, v: nat)
    requires v < |net.links| && SingleInterface(net) && |net.links[v]| >= 2 && WinsByItsFields(net, v)
    ensures IsRelay(net, v)
  {
    hide Outranks;
    LeafIffFewLinks(net, v);
    HasNeighbour(net, v);
    forall j | Adjacent(net, v, j) ensures Outranks(net, v, j) {
      assert net.Linked(v, j);
      OutranksIff(net, v, j);
    }
  }

  lemma LeafIffFewLinks(net: Net, v: nat)
    requires v < |net.links| && SingleInterface(net)
    ensures InLeafNode(net, v) <==> |net.links[v]| < 2
  {
    forall y: nat ensures y in net.links[v] <==> y in NeighbourNodes(net, v) {
      if y in net.links[v] {
        assert net.Linked(v, y) && v in Ifaces(net) && y in Ifaces(net);
      }
    }
    DistinctSize(net.links[v], NeighbourNodes(net, v));
  }

  lemma HasInterfaceNeighbour(net: Net, i: nat)
    requires i < |net.links|
    ensures |net.links[i]| + |Cofaces(net, net.owner[i])| - 1 > 0 <==> exists j :: Adjacent(net, i, j)
  {
    var co := Cofaces(net, net.owner[i]);
    assert i in co;
    if j: nat :| Adjacent(net, i, j) {
      if net.owner[j] == net.owner[i] {
        assert j in co;
      }
    } else if |net.links[i]| > 0 {
      assert Adjacent(net, i, net.links[i][0]);
    } else if |co| > 1 {
      assert Adjacent(net, i, if co[0] == i then co[1] else co[0]);
    }
  }

  lemma HasNeighbour(net: Net, v: nat)
    requires v < |net.links| && SingleInterface(net) && !InLeafNode(net, v)
    ensures exists j :: Adjacent(net, v, j)
  {
    var nbrs := NeighbourNodes(net, net.owner[v]);
    assert nbrs != {};
    var n :| n in nbrs;
    assert Adjacent(net, v, n);
  }

  ghost predicate SingleInterface(net: Net) {
    forall i | 0 <= i < |net.owner| :: net.owner[i] == i
  }

  /** order lists the numbers below n, each once. */
  ghost predicate Enumerates(order: seq<nat>, n: nat) {
    && Distinct(order)
    && (forall k | 0 <= k < |order| :: order[k] < n)
    && (forall x: nat | x < n :: x in order)
  }
}
