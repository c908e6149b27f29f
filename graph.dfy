/** The graph held by the node registry: nodes addressed by their positional id, each with a map
    from neighbour id to distance, and the list of connections in the order they were made. */
module NodeGraph {
  import opened Base

  /** A connection or a route mark: the ids of its two nodes, in the order they were given. */
  type Edge = (nat, nat)

  /** A node: its id, its coordinates and, per neighbour id, the distance to that neighbour. */
  datatype Node = Node(id: nat, x: int32, y: int32, connected: map<nat, int32>)

  /** The node list and the connection list (`Routes`) of the registry. */
  datatype Graph = Graph(nodes: seq<Node>, routes: seq<Edge>)

  /** `CalcDist` up to its final square root: dx*dx + dy*dy in wrapping 32-bit arithmetic. */
  function SquaredDistance(x1: int32, y1: int32, x2: int32, y2: int32): (d: int32)
    ensures x1 == x2 && y1 == y2 ==> d == 0
  {
    var dx := Wrap32(x1 - x2);
    var dy := Wrap32(y1 - y2);
    Wrap32(Wrap32(dx * dx) + Wrap32(dy * dy))
  }

  /** `CalcDist(a, b)` between two nodes: 0 between two nodes at one place; `DistSymmetric`
      shows it is the same in either order. */
  function Dist(a: Node, b: Node): (d: int32)
    ensures a.x == b.x && a.y == b.y ==> d == 0
  {
    SquaredDistance(a.x, a.y, b.x, b.y)
  }

  /** Squaring a wrapped difference gives the same wrapped square for the opposite difference. */
  lemma WrappedSquareNegate(v: int)
    ensures Wrap32(Wrap32(-v) * Wrap32(-v)) == Wrap32(Wrap32(v) * Wrap32(v))
  {
    WrapNegate(v);
    var r, r' := Wrap32(v) as int, Wrap32(-v) as int;
    if r' == -r {
      assert r' * r' == r * r;
    }
  }

  /** The distance does not depend on the order of the two points. */
  lemma DistSymmetric(x1: int32, y1: int32, x2: int32, y2: int32)
    ensures SquaredDistance(x1, y1, x2, y2) == SquaredDistance(x2, y2, x1, y1)
  {
    assert x2 - x1 == -(x1 - x2) && y2 - y1 == -(y1 - y2);
    WrappedSquareNegate(x1 - x2);
    WrappedSquareNegate(y1 - y2);
  }

  /** `Nodes.Find(n => n.Id == id)`: the first node carrying `id`, by position, or `null`. */
  function FindById(nodes: seq<Node>, id: int): (r: Option<nat>)
    ensures r.Some? ==> r.value < |nodes| && nodes[r.value].id == id
    ensures r.Some? ==> forall j :: 0 <= j < r.value ==> nodes[j].id != id
    ensures r.None? ==> forall j :: 0 <= j < |nodes| ==> nodes[j].id != id
  {
    if nodes == [] then None
    else if nodes[0].id == id then Some(0)
    else
      match FindById(nodes[1..], id)
      case None => None
      case Some(k) => Some(k + 1)
  }

  /** Every node's id is its position in the list. */
  ghost predicate Positional(nodes: seq<Node>)
  {
    forall i :: 0 <= i < |nodes| ==> nodes[i].id == i
  }

  /** With positional ids, looking a node up by id finds exactly the ids 0 .. |nodes| - 1. */
  lemma FindPositional(nodes: seq<Node>, id: int)
    requires Positional(nodes)
    ensures FindById(nodes, id) == if 0 <= id < |nodes| then Some(id as nat) else None
  {
    if 0 <= id < |nodes| {
      assert nodes[id].id == id;
    }
  }

  /** Whether `a` and `b` are joined by a recorded connection, in either order. */
  predicate Linked(routes: seq<Edge>, a: nat, b: nat)
  {
    (a, b) in routes || (b, a) in routes
  }

  ghost predicate InRange(es: seq<Edge>, n: nat)
  {
    forall k :: 0 <= k < |es| ==> es[k].0 < n && es[k].1 < n
  }

  /** Each recorded connection joins two different nodes not joined by an earlier one. */
  ghost predicate Simple(routes: seq<Edge>)
  {
    forall l :: 0 <= l < |routes| ==>
      routes[l].0 != routes[l].1 && !Linked(routes[..l], routes[l].0, routes[l].1)
  }

  /** Every neighbour id is the id of a node. */
  ghost predicate Closed(nodes: seq<Node>)
  {
    forall i, j :: 0 <= i < |nodes| && j in nodes[i].connected ==> j < |nodes|
  }

  /** Neighbour maps are symmetric: both ends know each other, at the same distance. */
  ghost predicate Symmetric(nodes: seq<Node>)
  {
    forall i, j :: 0 <= i < |nodes| && 0 <= j < |nodes| && j in nodes[i].connected ==>
      i in nodes[j].connected && nodes[j].connected[i] == nodes[i].connected[j]
  }

  /** Every stored distance is the distance between the two nodes' coordinates. */
  ghost predicate Weighted(nodes: seq<Node>)
  {
    forall i, j :: 0 <= i < |nodes| && 0 <= j < |nodes| && j in nodes[i].connected ==>
      nodes[i].connected[j] == Dist(nodes[i], nodes[j])
  }

  /** Two different nodes are neighbours exactly when a recorded connection joins them. */
  ghost predicate MatchesRoutes(g: Graph)
  {
    forall i, j :: 0 <= i < |g.nodes| && 0 <= j < |g.nodes| && i != j ==>
      (j in g.nodes[i].connected <==> Linked(g.routes, i, j))
  }

  /** The graph part of the registry invariant `Valid`, which every state reached through the
      program's operations keeps (a lone `AddConnection` or `RemoveConnection` can break it).
      A node may map to itself: connecting a node to itself leaves such a self-entry behind
      (see `ConnectSelf`). */
  ghost predicate WellFormed(g: Graph)
  {
    && Positional(g.nodes)
    && InRange(g.routes, |g.nodes|)
    && Simple(g.routes)
    && Closed(g.nodes)
    && Symmetric(g.nodes)
    && Weighted(g.nodes)
    && MatchesRoutes(g)
  }

  /** `n.AddConnection(other, dist)`: `Dictionary.Add`, which throws (false) on a present key. */
  function AddConnection(n: Node, other: nat, dist: int32): (r: (Node, bool))
    ensures r.1 <==> other !in n.connected
    ensures !r.1 ==> r.0 == n
    ensures r.1 ==> r.0.id == n.id && r.0.x == n.x && r.0.y == n.y
    ensures r.1 ==> other in r.0.connected && r.0.connected[other] == dist
    ensures r.1 ==> r.0.connected - {other} == n.connected
  {
    if other in n.connected then (n, false)
    else (n.(connected := n.connected[other := dist]), true)
  }

  /** `n.RemoveConnection(other)`: `Dictionary.Remove`, which does not throw on a missing key,
      so the answer is always true. */
  function RemoveConnection(n: Node, other: nat): (r: (Node, bool))
    ensures r.1
    ensures r.0.id == n.id && r.0.x == n.x && r.0.y == n.y
    ensures r.0.connected.Keys == n.connected.Keys - {other}
    ensures forall k :: k in r.0.connected ==> r.0.connected[k] == n.connected[k]
  {
    (n.(connected := n.connected - {other}), true)
  }

  /** Removing a neighbour that was just added gives back the node as it was. */
  lemma AddThenRemove(n: Node, other: nat, dist: int32)
    requires other !in n.connected
    ensures AddConnection(n, other, dist).1
    ensures RemoveConnection(AddConnection(n, other, dist).0, other) == (n, true)
  {
    assert n.connected[other := dist] - {other} == n.connected;
  }

  /** `ConnectNodes(a, b)` on the value of the graph: add `b` to `a`'s map, then `a` to `b`'s map,
      and record the connection only when both additions succeed. A failed second addition is
      not undone. */
  function Connect(g: Graph, a: nat, b: nat): (r: (Graph, bool))
    requires a < |g.nodes| && b < |g.nodes|
    ensures |r.0.nodes| == |g.nodes|
    ensures forall i :: 0 <= i < |g.nodes| ==>
      r.0.nodes[i].id == g.nodes[i].id && r.0.nodes[i].x == g.nodes[i].x && r.0.nodes[i].y == g.nodes[i].y
    ensures r.0.routes == if r.1 then g.routes + [(a, b)] else g.routes
  {
    var d := Dist(g.nodes[a], g.nodes[b]);
    var (na, first) := AddConnection(g.nodes[a], b, d);
    if !first then (g, false)
    else
      var nodes := g.nodes[a := na];
      var (nb, second) := AddConnection(nodes[b], a, d);
      if !second then (Graph(nodes, g.routes), false)
      else (Graph(nodes[b := nb], g.routes + [(a, b)]), true)
  }

  /** Connecting two different nodes succeeds exactly when no connection joins them yet; then
      both maps gain the other node at the same distance, the connection is appended, and nothing
      else changes. Otherwise nothing changes at all. Either way the graph stays well formed. */
  lemma ConnectDistinct(g: Graph, a: nat, b: nat)
    requires WellFormed(g) && a < |g.nodes| && b < |g.nodes| && a != b
    ensures var (h, ok) := Connect(g, a, b);
      && WellFormed(h)
      && (ok <==> !Linked(g.routes, a, b))
      && (!ok ==> h == g)
      && (ok ==> var d := Dist(g.nodes[a], g.nodes[b]);
            && h.nodes[a] == g.nodes[a].(connected := g.nodes[a].connected[b := d])
            && h.nodes[b] == g.nodes[b].(connected := g.nodes[b].connected[a := d])
            && (forall i :: 0 <= i < |g.nodes| && i != a && i != b ==> h.nodes[i] == g.nodes[i]))
  {
    var (h, ok) := Connect(g, a, b);
    if b in g.nodes[a].connected {
      assert Linked(g.routes, a, b);
    } else {
      assert a !in g.nodes[b].connected;
      assert !Linked(g.routes, a, b);
      ConnectPreserves(g, a, b);
    }
  }

  /** Both neighbour maps after a successful `ConnectNodes(a, b)` with distance `d`. */
  function LinkBoth(nodes: seq<Node>, a: nat, b: nat, d: int32): seq<Node>
    requires a < |nodes| && b < |nodes|
  {
    nodes[a := nodes[a].(connected := nodes[a].connected[b := d])]
         [b := nodes[b].(connected := nodes[b].connected[a := d])]
  }

  lemma LinkSymmetric(nodes: seq<Node>, a: nat, b: nat, d: int32)
    requires Closed(nodes) && Symmetric(nodes) && a < |nodes| && b < |nodes| && a != b
    requires b !in nodes[a].connected && a !in nodes[b].connected
    ensures Closed(LinkBoth(nodes, a, b, d)) && Symmetric(LinkBoth(nodes, a, b, d))
  {
    var h := LinkBoth(nodes, a, b, d);
    forall i, j | 0 <= i < |h| && j in h[i].connected
      ensures j < |h|
    {
      if (i == a && j == b) || (i == b && j == a) {
      } else {
        assert j in nodes[i].connected;
      }
    }
    forall i, j | 0 <= i < |h| && 0 <= j < |h| && j in h[i].connected
      ensures i in h[j].connected && h[j].connected[i] == h[i].connected[j]
    {
      if (i == a && j == b) || (i == b && j == a) {
      } else {
        assert j in nodes[i].connected;
      }
    }
  }

  lemma LinkWeighted(nodes: seq<Node>, a: nat, b: nat)
    requires Weighted(nodes) && a < |nodes| && b < |nodes| && a != b
    ensures Weighted(LinkBoth(nodes, a, b, Dist(nodes[a], nodes[b])))
  {
    var d := Dist(nodes[a], nodes[b]);
    DistSymmetric(nodes[a].x, nodes[a].y, nodes[b].x, nodes[b].y);
    var h := LinkBoth(nodes, a, b, d);
    forall i, j | 0 <= i < |h| && 0 <= j < |h| && j in h[i].connected
      ensures h[i].connected[j] == Dist(h[i], h[j])
    {
      assert Dist(h[i], h[j]) == Dist(nodes[i], nodes[j]);
      if (i == a && j == b) || (i == b && j == a) {
      } else {
        assert j in nodes[i].connected;
      }
    }
  }

  lemma LinkMatches(g: Graph, a: nat, b: nat, d: int32)
    requires MatchesRoutes(g) && a < |g.nodes| && b < |g.nodes| && a != b
    ensures MatchesRoutes(Graph(LinkBoth(g.nodes, a, b, d), g.routes + [(a, b)]))
  {
    var h := Graph(LinkBoth(g.nodes, a, b, d), g.routes + [(a, b)]);
    forall i, j | 0 <= i < |h.nodes| && 0 <= j < |h.nodes| && i != j
      ensures j in h.nodes[i].connected <==> Linked(h.routes, i, j)
    {
      assert Linked(h.routes, i, j) <==> Linked(g.routes, i, j) || (i == a && j == b) || (i == b && j == a);
    }
  }

  lemma LinkSimple(routes: seq<Edge>, a: nat, b: nat)
    requires Simple(routes) && a != b && !Linked(routes, a, b)
    ensures Simple(routes + [(a, b)])
  {
    var h := routes + [(a, b)];
    forall l | 0 <= l < |h|
      ensures h[l].0 != h[l].1 && !Linked(h[..l], h[l].0, h[l].1)
    {
      if l < |routes| {
        assert h[..l] == routes[..l];
      } else {
        assert h[..l] == routes;
      }
    }
  }

  /** The well-formedness half of `ConnectDistinct`, for a successful connection. */
  lemma ConnectPreserves(g: Graph, a: nat, b: nat)
    requires WellFormed(g) && a < |g.nodes| && b < |g.nodes| && a != b
    requires b !in g.nodes[a].connected
    ensures Connect(g, a, b).1 && WellFormed(Connect(g, a, b).0)
  {
    var h := Connect(g, a, b).0;
    var d := Dist(g.nodes[a], g.nodes[b]);
    assert a !in g.nodes[b].connected;
    assert !Linked(g.routes, a, b);
    assert h == Graph(LinkBoth(g.nodes, a, b, d), g.routes + [(a, b)]);
    LinkSymmetric(g.nodes, a, b, d);
    LinkWeighted(g.nodes, a, b);
    LinkMatches(g, a, b, d);
    LinkSimple(g.routes, a, b);
    assert Positional(h.nodes);
    assert InRange(h.routes, |h.nodes|);
  }

  /** Connecting a node to itself never records a connection: the node's map gains the node
      itself at distance 0 (unless already present) and the second addition fails. */
  lemma ConnectSelf(g: Graph, a: nat)
    requires WellFormed(g) && a < |g.nodes|
    ensures var (h, ok) := Connect(g, a, a);
      && !ok && WellFormed(h) && h.routes == g.routes
      && a in h.nodes[a].connected && h.nodes[a].connected[a] == 0
      && h.nodes == g.nodes[a := g.nodes[a].(connected := g.nodes[a].connected[a := 0])]
  {
    var (h, ok) := Connect(g, a, a);
    if a in g.nodes[a].connected {
      assert g.nodes[a].connected[a] == Dist(g.nodes[a], g.nodes[a]) == 0;
      assert g.nodes[a].connected[a := 0] == g.nodes[a].connected;
      assert g.nodes[a].(connected := g.nodes[a].connected) == g.nodes[a];
    } else {
      assert h.nodes == g.nodes[a := g.nodes[a].(connected := g.nodes[a].connected[a := 0])];
      forall i, j | 0 <= i < |h.nodes| && j in h.nodes[i].connected
        ensures j < |h.nodes|
      {
        if i != a || j != a {
          assert j in g.nodes[i].connected;
        }
      }
      forall i, j | 0 <= i < |h.nodes| && 0 <= j < |h.nodes| && j in h.nodes[i].connected
        ensures i in h.nodes[j].connected && h.nodes[j].connected[i] == h.nodes[i].connected[j]
      {
        if i != a || j != a {
          assert j in g.nodes[i].connected;
        }
      }
      assert Weighted(h.nodes) by {
        forall i, j | 0 <= i < |h.nodes| && 0 <= j < |h.nodes| && j in h.nodes[i].connected
          ensures h.nodes[i].connected[j] == Dist(h.nodes[i], h.nodes[j])
        {
          assert Dist(h.nodes[i], h.nodes[j]) == Dist(g.nodes[i], g.nodes[j]);
        }
      }
    }
  }

  /** A second `ConnectNodes` on a pair, in either order, returns false and changes nothing. */
  lemma ConnectTwice(g: Graph, a: nat, b: nat)
    requires WellFormed(g) && a < |g.nodes| && b < |g.nodes|
    ensures var h := Connect(g, a, b).0;
      && !Connect(h, a, b).1 && Connect(h, a, b).0 == h
      && !Connect(h, b, a).1 && Connect(h, b, a).0 == h
  {
    var h := Connect(g, a, b).0;
    if a == b {
      ConnectSelf(g, a);
    } else {
      ConnectDistinct(g, a, b);
      assert Linked(h.routes, a, b);
      ConnectDistinct(h, a, b);
      ConnectDistinct(h, b, a);
    }
  }

  /** Whatever the pair, `ConnectNodes` on a well-formed graph leaves it well formed and records
      the connection exactly when the two nodes differ and are not yet joined. */
  lemma ConnectOutcome(g: Graph, a: nat, b: nat)
    requires WellFormed(g) && a < |g.nodes| && b < |g.nodes|
    ensures var (h, ok) := Connect(g, a, b);
      && WellFormed(h)
      && (ok <==> a != b && !Linked(g.routes, a, b))
      && h.routes == if ok then g.routes + [(a, b)] else g.routes
  {
    if a == b {
      ConnectSelf(g, a);
    } else {
      ConnectDistinct(g, a, b);
    }
  }

  /** `new NodeButton(x, y)` on the value of the graph: a node with the next id, the given
      coordinates and no neighbours, appended to the node list. */
  function AddNode(g: Graph, x: int32, y: int32): (h: Graph)
    ensures |h.nodes| == |g.nodes| + 1 && h.nodes[..|g.nodes|] == g.nodes && h.routes == g.routes
    ensures h.nodes[|g.nodes|].id == |g.nodes|
    ensures h.nodes[|g.nodes|].x == x && h.nodes[|g.nodes|].y == y && h.nodes[|g.nodes|].connected == map[]
  {
    Graph(g.nodes + [Node(|g.nodes|, x, y, map[])], g.routes)
  }

  /** A new node keeps the graph well formed: its id is its position, and no node, not even
      itself, has it as a neighbour. */
  lemma AddNodeWellFormed(g: Graph, x: int32, y: int32)
    requires WellFormed(g)
    ensures WellFormed(AddNode(g, x, y))
    ensures forall i :: 0 <= i < |g.nodes| ==> AddNode(g, x, y).nodes[i] == g.nodes[i]
  {
    var h := AddNode(g, x, y);
    var n := |g.nodes|;
    forall i | 0 <= i < n
      ensures h.nodes[i] == g.nodes[i]
    {
      AppendLeft(g.nodes, [Node(n, x, y, map[])], i);
    }
    forall i, j | 0 <= i < |h.nodes| && j in h.nodes[i].connected
      ensures j < n
    {
    }
    forall i, j | 0 <= i < |h.nodes| && 0 <= j < |h.nodes| && j in h.nodes[i].connected
      ensures i in h.nodes[j].connected && h.nodes[j].connected[i] == h.nodes[i].connected[j]
    {
      assert i < n && j < n;
    }
    forall i, j | 0 <= i < |h.nodes| && 0 <= j < |h.nodes| && j in h.nodes[i].connected
      ensures h.nodes[i].connected[j] == Dist(h.nodes[i], h.nodes[j])
    {
      assert i < n && j < n;
    }
    forall i, j | 0 <= i < |h.nodes| && 0 <= j < |h.nodes| && i != j
      ensures j in h.nodes[i].connected <==> Linked(h.routes, i, j)
    {
      if i == n || j == n {
        assert !Linked(g.routes, i, j) by {
          assert (i, j) !in g.routes && (j, i) !in g.routes;
        }
      }
    }
  }
}
