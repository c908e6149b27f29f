/** The text format of `Export` and `Import`: three counts and a blank line, the route marks, a
    blank line, the node coordinates, a blank line, the connections; fields separated by a tab. */
module Serial {
  import opened Base
  import opened Text
  import opened NodeGraph

  // ---------------------------------------------------------------------------------------------
  // Export

  /** One `id\tid` line per pair, in order. */
  function PairLines(es: seq<Edge>): (lines: seq<string>)
    ensures |lines| == |es|
  {
    seq(|es|, k requires 0 <= k < |es| => PairLine(es[k].0, es[k].1))
  }

  /** One `x\ty` line per node, in creation order. */
  function CoordLines(nodes: seq<Node>): (lines: seq<string>)
    ensures |lines| == |nodes|
  {
    seq(|nodes|, k requires 0 <= k < |nodes| => PairLine(nodes[k].x, nodes[k].y))
  }

  /** Number of lines before the route marks: three counts and a blank line. `Import` reads
      and ignores them. */
  const HEADER_LINES: nat := 4

  /** The lines of the exported document, in order. */
  function Layout(g: Graph, marks: seq<Edge>): (lines: seq<string>)
    ensures |lines| == HEADER_LINES + |marks| + |g.nodes| + |g.routes| + 2
  {
    [ShowInt(|marks|), ShowInt(|g.nodes|), ShowInt(|g.routes|), ""]
      + PairLines(marks) + [""] + CoordLines(g.nodes) + [""] + PairLines(g.routes)
  }

  /** The text `Export` returns for the graph `g` and the route marks `marks`. */
  function ExportText(g: Graph, marks: seq<Edge>): (text: string)
    ensures text != [] && text[|text| - 1] == '\n'
  {
    JoinLines(Layout(g, marks))
  }

  /** The counts, the blank lines and the length of the exported document. */
  lemma LayoutFrame(g: Graph, marks: seq<Edge>)
    ensures |Layout(g, marks)| == HEADER_LINES + |marks| + |g.nodes| + |g.routes| + 2
    ensures Layout(g, marks)[..HEADER_LINES] == [ShowInt(|marks|), ShowInt(|g.nodes|), ShowInt(|g.routes|), ""]
    ensures Layout(g, marks)[HEADER_LINES + |marks|] == ""
    ensures Layout(g, marks)[HEADER_LINES + |marks| + |g.nodes| + 1] == ""
  {
    var head := [ShowInt(|marks|), ShowInt(|g.nodes|), ShowInt(|g.routes|), ""];
    var ms, cs, rs := PairLines(marks), CoordLines(g.nodes), PairLines(g.routes);
    var x := head + ms;
    var y := x + [""];
    var z := y + cs;
    var w := z + [""];
    var p1 := HEADER_LINES + |marks|;
    var p2 := p1 + |g.nodes| + 1;
    AppendLeft(w, rs, p1);
    AppendLeft(z, [""], p1);
    AppendLeft(y, cs, p1);
    AppendRight(x, [""], p1);
    AppendLeft(w, rs, p2);
    AppendRight(z, [""], p2);
    assert (w + rs)[..HEADER_LINES] == head by {
      forall i | 0 <= i < HEADER_LINES
        ensures (w + rs)[i] == head[i]
      {
        AppendLeft(w, rs, i);
        AppendLeft(z, [""], i);
        AppendLeft(y, cs, i);
        AppendLeft(x, [""], i);
        AppendLeft(head, ms, i);
      }
    }
  }

  /** Route mark k is written on line 4 + k. */
  lemma LayoutMark(g: Graph, marks: seq<Edge>, k: nat)
    requires k < |marks|
    ensures Layout(g, marks)[HEADER_LINES + k] == PairLine(marks[k].0, marks[k].1)
  {
    var head := [ShowInt(|marks|), ShowInt(|g.nodes|), ShowInt(|g.routes|), ""];
    var ms, cs, rs := PairLines(marks), CoordLines(g.nodes), PairLines(g.routes);
    var x := head + ms;
    var z := x + [""] + cs;
    var i := HEADER_LINES + k;
    AppendLeft(z + [""], rs, i);
    AppendLeft(z, [""], i);
    AppendLeft(x + [""], cs, i);
    AppendLeft(x, [""], i);
    AppendRight(head, ms, i);
  }

  /** Node k's coordinates are written after the route marks and their blank line. */
  lemma LayoutCoord(g: Graph, marks: seq<Edge>, k: nat)
    requires k < |g.nodes|
    ensures Layout(g, marks)[HEADER_LINES + |marks| + 1 + k] == PairLine(g.nodes[k].x, g.nodes[k].y)
  {
    var head := [ShowInt(|marks|), ShowInt(|g.nodes|), ShowInt(|g.routes|), ""];
    var ms, cs, rs := PairLines(marks), CoordLines(g.nodes), PairLines(g.routes);
    var y := head + ms + [""];
    var z := y + cs;
    var i := HEADER_LINES + |marks| + 1 + k;
    AppendLeft(z + [""], rs, i);
    AppendLeft(z, [""], i);
    AppendRight(y, cs, i);
  }

  /** Connection k is written after the coordinates and their blank line. */
  lemma LayoutRoute(g: Graph, marks: seq<Edge>, k: nat)
    requires k < |g.routes|
    ensures Layout(g, marks)[HEADER_LINES + |marks| + |g.nodes| + 2 + k] == PairLine(g.routes[k].0, g.routes[k].1)
  {
    var head := [ShowInt(|marks|), ShowInt(|g.nodes|), ShowInt(|g.routes|), ""];
    var ms, cs, rs := PairLines(marks), CoordLines(g.nodes), PairLines(g.routes);
    var w := head + ms + [""] + cs + [""];
    AppendRight(w, rs, HEADER_LINES + |marks| + |g.nodes| + 2 + k);
  }

  /** Reading the exported text line by line gives back exactly the layout: the three counts, a
      blank line, the route marks, a blank line, the coordinates, a blank line, the connections. */
  lemma ExportLayout(g: Graph, marks: seq<Edge>)
    ensures ReadLines(ExportText(g, marks)) == Layout(g, marks)
  {
    var lines := Layout(g, marks);
    LayoutFrame(g, marks);
    forall i | 0 <= i < |lines|
      ensures OneLine(lines[i])
    {
      var p1 := HEADER_LINES + |marks| + 1;
      var p2 := p1 + |g.nodes| + 1;
      if i < HEADER_LINES {
        assert lines[i] == lines[..HEADER_LINES][i];
      } else if i < p1 - 1 {
        LayoutMark(g, marks, i - HEADER_LINES);
      } else if i < p1 {
      } else if i < p2 - 1 {
        LayoutCoord(g, marks, i - p1);
      } else if i < p2 {
      } else {
        LayoutRoute(g, marks, i - p2);
      }
    }
    ReadJoinedLines(lines);
  }

  /** The empty registry exports as "0\n0\n0\n\n\n\n". */
  lemma ExportEmpty()
    ensures ExportText(Graph([], []), []) == "0\n0\n0\n\n\n\n"
  {
    assert ShowInt(0) == "0";
    assert Layout(Graph([], []), []) == ["0", "0", "0", "", "", ""];
    assert JoinLines(["0"]) == "0\n" by { assert ["0"][..0] == []; }
    assert JoinLines(["0", "0"]) == "0\n0\n" by { assert ["0", "0"][..1] == ["0"]; }
    assert JoinLines(["0", "0", "0"]) == "0\n0\n0\n" by { assert ["0", "0", "0"][..2] == ["0", "0"]; }
    assert JoinLines(["0", "0", "0", ""]) == "0\n0\n0\n\n" by {
      assert ["0", "0", "0", ""][..3] == ["0", "0", "0"];
    }
    assert JoinLines(["0", "0", "0", "", ""]) == "0\n0\n0\n\n\n" by {
      assert ["0", "0", "0", "", ""][..4] == ["0", "0", "0", ""];
    }
    assert ["0", "0", "0", "", "", ""][..5] == ["0", "0", "0", "", ""];
  }

  // ---------------------------------------------------------------------------------------------
  // Import: reading the document

  type IntPair = (int32, int32)

  /** What `Import` makes of one line: the end of a section, two integer fields, or a line on
      which `split[1]` or `Convert.ToInt32` throws. */
  datatype Line = Blank | Pair(value: IntPair) | Malformed

  function Classify(line: string): (t: Line)
    ensures t == Blank <==> line == ""
  {
    if line == "" then Blank
    else
      match ParseFields(line)
      case Some(v) => Pair(v)
      case None => Malformed
  }

  function Tokens(lines: seq<string>): seq<Line>
  {
    seq(|lines|, i requires 0 <= i < |lines| => Classify(lines[i]))
  }

  /** A section that ends at a blank line, starting at line `p`: its pairs and the index of the
      line after the blank one. `None` when the lines run out first (`ReadLine()` returns `null`,
      whose `Split` throws) or a line is malformed. */
  function Section(ts: seq<Line>, p: nat): (r: Option<(seq<IntPair>, nat)>)
    decreases |ts| - p
    ensures r.Some? ==> p < r.value.1 <= |ts| && ts[r.value.1 - 1] == Blank
    ensures r.Some? ==> |r.value.0| == r.value.1 - 1 - p
    ensures r.Some? ==> forall k :: p <= k < r.value.1 - 1 ==> ts[k] == Pair(r.value.0[k - p])
  {
    if p >= |ts| then None
    else
      match ts[p]
      case Blank => Some(([], p + 1))
      case Malformed => None
      case Pair(v) =>
        match Section(ts, p + 1)
        case None => None
        case Some((vs, q)) => Some(([v] + vs, q))
  }

  /** The last section, running to the end of the lines: `None` when a line is blank or
      malformed. */
  function Rest(ts: seq<Line>, p: nat): (r: Option<seq<IntPair>>)
    decreases |ts| - p
    ensures r.Some? ==> |r.value| == if p <= |ts| then |ts| - p else 0
    ensures r.Some? ==> forall k :: p <= k < |ts| ==> ts[k] == Pair(r.value[k - p])
  {
    if p >= |ts| then Some([])
    else
      match ts[p]
      case Pair(v) =>
        (match Rest(ts, p + 1)
         case None => None
         case Some(vs) => Some([v] + vs))
      case _ => None
  }

  /** What the three sections of a document hold, as numbers. */
  datatype Document = Document(marks: seq<IntPair>, coords: seq<IntPair>, edges: seq<IntPair>)

  /** The document in the classified lines `ts`, or `None` when reading it throws. */
  function Decode(ts: seq<Line>): (r: Option<Document>)
    ensures r.Some? ==> |ts| == HEADER_LINES + |r.value.marks| + |r.value.coords| + |r.value.edges| + 2
  {
    match Section(ts, HEADER_LINES)
    case None => None
    case Some((marks, p1)) =>
      match Section(ts, p1)
      case None => None
      case Some((coords, p2)) =>
        match Rest(ts, p2)
        case None => None
        case Some(edges) => Some(Document(marks, coords, edges))
  }

  // ---------------------------------------------------------------------------------------------
  // Import: rebuilding the registry

  /** Half the side of a node button: an imported node is placed this far up and left of the
      written coordinates. */
  const HALF_BUTTON: int := 15

  /** An imported coordinate: the written one less `HALF_BUTTON`, in wrapping `int` arithmetic. */
  function Shift(v: int32): (r: int32)
    ensures MIN_INT32 + HALF_BUTTON <= v ==> r == v - HALF_BUTTON
    ensures v < MIN_INT32 + HALF_BUTTON ==> r == v - HALF_BUTTON + 0x1_0000_0000
  {
    Wrap32(v - HALF_BUTTON)
  }

  /** The nodes created from the coordinate lines, one per line, in order, with fresh ids. */
  function Placed(coords: seq<IntPair>): (ns: seq<Node>)
    ensures |ns| == |coords| && Positional(ns)
  {
    seq(|coords|, i requires 0 <= i < |coords| =>
      Node(i, Shift(coords[i].0), Shift(coords[i].1), map[]))
  }

  /** Both ids of a pair looked up with `Nodes.Find`; `None` when either finds no node. */
  function Resolve(nodes: seq<Node>, v: IntPair): (r: Option<Edge>)
    ensures r.Some? ==> r.value.0 < |nodes| && r.value.1 < |nodes|
    ensures r.Some? ==> nodes[r.value.0].id == v.0 && nodes[r.value.1].id == v.1
  {
    match (FindById(nodes, v.0), FindById(nodes, v.1))
    case (Some(a), Some(b)) => Some((a, b))
    case _ => None
  }

  /** `ConnectNodes` on each connection line in turn, ignoring its result; `None` as soon as a
      line names an id no node has (the source then dereferences `null`). */
  function ConnectAll(g: Graph, es: seq<IntPair>): (r: Option<Graph>)
    ensures r.Some? ==> |r.value.nodes| == |g.nodes| && g.routes <= r.value.routes
    ensures r.Some? ==> |r.value.routes| <= |g.routes| + |es|
  {
    if es == [] then Some(g)
    else
      match ConnectAll(g, es[..|es| - 1])
      case None => None
      case Some(h) =>
        match Resolve(h.nodes, es[|es| - 1])
        case None => None
        case Some((a, b)) => Some(Connect(h, a, b).0)
  }

  /** The route marks resolved to nodes, in order; `None` when one names an unknown id. */
  function ResolveAll(nodes: seq<Node>, ms: seq<IntPair>): (r: Option<seq<Edge>>)
    ensures r.Some? ==> |r.value| == |ms| && InRange(r.value, |nodes|)
  {
    if ms == [] then Some([])
    else
      match ResolveAll(nodes, ms[..|ms| - 1])
      case None => None
      case Some(rs) =>
        match Resolve(nodes, ms[|ms| - 1])
        case None => None
        case Some(e) => Some(rs + [e])
  }

  /** The registry contents after a successful import. */
  datatype Restored = Restored(graph: Graph, marks: seq<Edge>)

  /** Nodes first, then connections, then route marks, as `Import` builds them. */
  function Rebuild(d: Document): (r: Option<Restored>)
    ensures r.Some? ==> |r.value.graph.nodes| == |d.coords| && |r.value.marks| == |d.marks|
    ensures r.Some? ==> |r.value.graph.routes| <= |d.edges|
  {
    match ConnectAll(Graph(Placed(d.coords), []), d.edges)
    case None => None
    case Some(g) =>
      match ResolveAll(g.nodes, d.marks)
      case None => None
      case Some(ms) => Some(Restored(g, ms))
  }

  /** The registry contents `Import` leaves after reading `lines`, or `None` when it fails. */
  function Imported(lines: seq<string>): (r: Option<Restored>)
    ensures r.Some? ==>
      HEADER_LINES + |r.value.marks| + |r.value.graph.nodes| + |r.value.graph.routes| + 2 <= |lines|
  {
    match Decode(Tokens(lines))
    case None => None
    case Some(d) => Rebuild(d)
  }

  // ---------------------------------------------------------------------------------------------
  // Properties of the import

  /** Every pair names ids 0 .. n-1. */
  predicate IdsIn(es: seq<IntPair>, n: nat)
  {
    forall k :: 0 <= k < |es| ==> 0 <= es[k].0 < n && 0 <= es[k].1 < n
  }

  function AsEdges(es: seq<IntPair>): (r: seq<Edge>)
    requires forall k :: 0 <= k < |es| ==> es[k].0 >= 0 && es[k].1 >= 0
    ensures |r| == |es|
  {
    seq(|es|, k requires 0 <= k < |es| => (es[k].0 as nat, es[k].1 as nat))
  }

  /** The same ids and coordinates, node by node. */
  ghost predicate SamePlaces(ns: seq<Node>, ms: seq<Node>)
  {
    |ms| == |ns| && forall i :: 0 <= i < |ns| ==> ms[i].id == ns[i].id && ms[i].x == ns[i].x && ms[i].y == ns[i].y
  }

  /** Reference definition of what a run of `ConnectNodes` calls records after `prior`: each
      pair of two different nodes that no earlier connection joins, in order. */
  function Fresh(prior: seq<Edge>, es: seq<Edge>): seq<Edge>
  {
    if es == [] then []
    else
      var f := Fresh(prior, es[..|es| - 1]);
      var e := es[|es| - 1];
      if e.0 != e.1 && !Linked(prior + f, e.0, e.1) then f + [e] else f
  }

  /** Once a connection line fails, the later ones cannot rescue the import. */
  lemma {:induction false} ConnectAllStuck(g: Graph, es: seq<IntPair>, more: seq<IntPair>)
    requires ConnectAll(g, es) == None
    ensures ConnectAll(g, es + more) == None
  {
    if more != [] {
      assert (es + more)[..|es + more| - 1] == es + more[..|more| - 1];
      ConnectAllStuck(g, es, more[..|more| - 1]);
    } else {
      assert es + more == es;
    }
  }

  /** Once a route mark fails to resolve, the later ones cannot rescue the import. */
  lemma {:induction false} ResolveAllStuck(nodes: seq<Node>, ms: seq<IntPair>, more: seq<IntPair>)
    requires ResolveAll(nodes, ms) == None
    ensures ResolveAll(nodes, ms + more) == None
  {
    if more != [] {
      assert (ms + more)[..|ms + more| - 1] == ms + more[..|more| - 1];
      ResolveAllStuck(nodes, ms, more[..|more| - 1]);
    } else {
      assert ms + more == ms;
    }
  }

  lemma IdsInSnoc(es: seq<IntPair>, n: nat)
    requires es != []
    ensures IdsIn(es, n) <==>
      IdsIn(es[..|es| - 1], n) && 0 <= es[|es| - 1].0 < n && 0 <= es[|es| - 1].1 < n
  {
    if IdsIn(es[..|es| - 1], n) && 0 <= es[|es| - 1].0 < n && 0 <= es[|es| - 1].1 < n {
      forall k | 0 <= k < |es|
        ensures 0 <= es[k].0 < n && 0 <= es[k].1 < n
      {
        if k < |es| - 1 {
          assert es[k] == es[..|es| - 1][k];
        }
      }
    }
  }

  lemma AsEdgesSnoc(es: seq<IntPair>, n: nat)
    requires es != [] && IdsIn(es, n)
    ensures IdsIn(es[..|es| - 1], n)
    ensures AsEdges(es) == AsEdges(es[..|es| - 1]) + [(es[|es| - 1].0 as nat, es[|es| - 1].1 as nat)]
  {
    IdsInSnoc(es, n);
  }

  /** With positional ids a pair resolves exactly when both ids are node indices. */
  lemma ResolvePositional(nodes: seq<Node>, v: IntPair)
    requires Positional(nodes)
    ensures Resolve(nodes, v) ==
      if 0 <= v.0 < |nodes| && 0 <= v.1 < |nodes| then Some((v.0 as nat, v.1 as nat)) else None
  {
    FindPositional(nodes, v.0);
    FindPositional(nodes, v.1);
  }

  /** Route marks resolve exactly when every id names a node, and then to those very ids. */
  lemma {:induction false} ResolveAllSpec(nodes: seq<Node>, ms: seq<IntPair>)
    requires Positional(nodes)
    ensures ResolveAll(nodes, ms) == if IdsIn(ms, |nodes|) then Some(AsEdges(ms)) else None
  {
    if ms != [] {
      var init, m := ms[..|ms| - 1], ms[|ms| - 1];
      ResolveAllSpec(nodes, init);
      ResolvePositional(nodes, m);
      IdsInSnoc(ms, |nodes|);
      if IdsIn(ms, |nodes|) {
        AsEdgesSnoc(ms, |nodes|);
      }
    }
  }

  /** Connecting the lines of a document succeeds exactly when every id names a node, and keeps
      every node's id and coordinates. */
  lemma {:induction false} ConnectAllDefined(g: Graph, es: seq<IntPair>)
    requires Positional(g.nodes)
    ensures ConnectAll(g, es).Some? <==> IdsIn(es, |g.nodes|)
    ensures ConnectAll(g, es).Some? ==> SamePlaces(g.nodes, ConnectAll(g, es).value.nodes)
  {
    if es != [] {
      var init, e := es[..|es| - 1], es[|es| - 1];
      ConnectAllDefined(g, init);
      IdsInSnoc(es, |g.nodes|);
      if IdsIn(init, |g.nodes|) {
        var h := ConnectAll(g, init).value;
        assert Positional(h.nodes);
        ResolvePositional(h.nodes, e);
      }
    }
  }

  /** A run of connection lines that succeeds on a well-formed graph leaves it well formed,
      with as many nodes. */
  lemma ConnectAllKeeps(g: Graph, es: seq<IntPair>, h: Graph)
    requires WellFormed(g) && ConnectAll(g, es) == Some(h)
    ensures WellFormed(h) && |h.nodes| == |g.nodes|
  {
    ConnectAllDefined(g, es);
    ConnectAllRoutes(g, es);
  }

  /** On a well-formed graph, connecting the lines of a document keeps it well formed, keeps the
      number of nodes and records exactly the `Fresh` pairs. */
  lemma {:induction false} ConnectAllRoutes(g: Graph, es: seq<IntPair>)
    requires WellFormed(g) && IdsIn(es, |g.nodes|)
    ensures ConnectAll(g, es).Some?
    ensures |ConnectAll(g, es).value.nodes| == |g.nodes|
    ensures WellFormed(ConnectAll(g, es).value)
    ensures ConnectAll(g, es).value.routes == g.routes + Fresh(g.routes, AsEdges(es))
  {
    if es == [] {
      assert g.routes + Fresh(g.routes, AsEdges(es)) == g.routes;
    } else {
      var init, e := es[..|es| - 1], es[|es| - 1];
      AsEdgesSnoc(es, |g.nodes|);
      ConnectAllRoutes(g, init);
      ConnectAllLast(g, es);
      ConnectOutcome(ConnectAll(g, init).value, e.0 as nat, e.1 as nat);
      FreshStep(g.routes, AsEdges(init), e.0 as nat, e.1 as nat);
    }
  }

  /** Appending one pair to a run of `ConnectNodes` calls appends it to what they record exactly
      when it joins two different nodes not yet joined. */
  lemma FreshStep(prior: seq<Edge>, es: seq<Edge>, a: nat, b: nat)
    ensures prior + Fresh(prior, es + [(a, b)]) ==
      var before := prior + Fresh(prior, es);
      if a != b && !Linked(before, a, b) then before + [(a, b)] else before
  {
    var f := Fresh(prior, es);
    FreshSnoc(prior, es, (a, b));
    assert prior + (f + [(a, b)]) == (prior + f) + [(a, b)];
  }

  /** The last connection line, when both its ids name nodes, is a `ConnectNodes` call. */
  lemma ConnectAllLast(g: Graph, es: seq<IntPair>)
    requires es != [] && ConnectAll(g, es[..|es| - 1]).Some?
    requires Positional(ConnectAll(g, es[..|es| - 1]).value.nodes)
    requires var n := |ConnectAll(g, es[..|es| - 1]).value.nodes|;
      0 <= es[|es| - 1].0 < n && 0 <= es[|es| - 1].1 < n
    ensures ConnectAll(g, es) ==
      Some(Connect(ConnectAll(g, es[..|es| - 1]).value, es[|es| - 1].0 as nat, es[|es| - 1].1 as nat).0)
  {
    ResolvePositional(ConnectAll(g, es[..|es| - 1]).value.nodes, es[|es| - 1]);
  }

  /** One more pair: `Fresh` records it exactly when it joins two different nodes not yet joined. */
  lemma FreshSnoc(prior: seq<Edge>, es: seq<Edge>, e: Edge)
    ensures Fresh(prior, es + [e]) ==
      var f := Fresh(prior, es);
      if e.0 != e.1 && !Linked(prior + f, e.0, e.1) then f + [e] else f
  {
    assert (es + [e])[..|es|] == es;
  }

  /** A run of pairs that repeats no pair and joins no node to itself is recorded in full. */
  lemma {:induction false} FreshOfSimple(prior: seq<Edge>, es: seq<Edge>)
    requires Simple(prior + es)
    ensures Fresh(prior, es) == es
  {
    if es != [] {
      var init, e := es[..|es| - 1], es[|es| - 1];
      var all := prior + es;
      assert prior + init == all[..|all| - 1];
      assert Simple(prior + init) by {
        forall l | 0 <= l < |prior + init|
          ensures (prior + init)[l].0 != (prior + init)[l].1
          ensures !Linked((prior + init)[..l], (prior + init)[l].0, (prior + init)[l].1)
        {
          assert (prior + init)[l] == all[l];
          assert (prior + init)[..l] == all[..l];
        }
      }
      FreshOfSimple(prior, init);
      assert all[|all| - 1] == e;
    }
  }

  /** The freshly created nodes form a well-formed graph with no connections. */
  lemma PlacedWellFormed(coords: seq<IntPair>)
    ensures WellFormed(Graph(Placed(coords), []))
  {
  }

  /** A document rebuilds exactly when every connection and route mark names one of its nodes. */
  lemma RebuildDefined(d: Document)
    ensures Rebuild(d).Some? <==> IdsIn(d.edges, |d.coords|) && IdsIn(d.marks, |d.coords|)
  {
    var g0 := Graph(Placed(d.coords), []);
    ConnectAllDefined(g0, d.edges);
    if IdsIn(d.edges, |d.coords|) {
      var g := ConnectAll(g0, d.edges).value;
      assert Positional(g.nodes);
      ResolveAllSpec(g.nodes, d.marks);
    }
  }

  /** After a successful rebuild node i has id i and sits at its written coordinates less 15
      (with 32-bit wrap-around), the connections are the `Fresh` pairs in file order, the route
      marks are as written, and the graph is well formed. */
  lemma RebuildSpec(d: Document)
    requires IdsIn(d.edges, |d.coords|) && IdsIn(d.marks, |d.coords|)
    ensures Rebuild(d).Some?
    ensures var r := Rebuild(d).value;
      && WellFormed(r.graph) && InRange(r.marks, |r.graph.nodes|)
      && |r.graph.nodes| == |d.coords|
      && (forall i :: 0 <= i < |d.coords| ==>
            r.graph.nodes[i].id == i
            && r.graph.nodes[i].x == Shift(d.coords[i].0)
            && r.graph.nodes[i].y == Shift(d.coords[i].1))
      && r.graph.routes == Fresh([], AsEdges(d.edges))
      && r.marks == AsEdges(d.marks)
  {
    var g0 := Graph(Placed(d.coords), []);
    RebuildDefined(d);
    PlacedWellFormed(d.coords);
    ConnectAllDefined(g0, d.edges);
    ConnectAllRoutes(g0, d.edges);
    var g := ConnectAll(g0, d.edges).value;
    ResolveAllSpec(g.nodes, d.marks);
    assert Rebuild(d) == Some(Restored(g, AsEdges(d.marks)));
    forall i | 0 <= i < |d.coords|
      ensures g.nodes[i].id == i && g.nodes[i].x == Shift(d.coords[i].0) && g.nodes[i].y == Shift(d.coords[i].1)
    {
      assert g0.nodes[i] == Node(i, Shift(d.coords[i].0), Shift(d.coords[i].1), map[]);
    }
  }

  /** `Import` fails unless the lines after the header hold at least two blank lines: the ends of
      the route-mark and coordinate sections. */
  lemma ImportNeedsTwoBlankLines(lines: seq<string>)
    requires forall i, j :: HEADER_LINES <= i < j < |lines| ==> lines[i] != "" || lines[j] != ""
    ensures Imported(lines) == None
  {
    var ts := Tokens(lines);
    match Section(ts, HEADER_LINES)
    case None =>
    case Some((marks, p1)) =>
      match Section(ts, p1)
      case None =>
      case Some((coords, p2)) =>
  }

  /** `Import` fails when any line after the header is neither a section end nor two integer
      fields: a bad number, a missing tab, or a blank line among the connections. */
  lemma ImportRejectsMalformedLine(lines: seq<string>, k: nat)
    requires HEADER_LINES <= k < |lines| && lines[k] != "" && ParseFields(lines[k]).None?
    ensures Imported(lines) == None
  {
    DecodeRejectsMalformed(Tokens(lines), k);
  }

  /** Every line after the header of a document that decodes is a pair or a section end. */
  lemma DecodeRejectsMalformed(ts: seq<Line>, k: nat)
    requires HEADER_LINES <= k < |ts| && ts[k] == Malformed
    ensures Decode(ts) == None
  {
    match Section(ts, HEADER_LINES)
    case None =>
    case Some((marks, p1)) =>
      if k >= p1 {
        match Section(ts, p1)
        case None =>
        case Some((coords, p2)) =>
      }
  }

  /** `Import` fails when a connection line or a route mark names an id that no node has. */
  lemma ImportRejectsUnknownId(lines: seq<string>)
    requires Decode(Tokens(lines)).Some?
    requires var d := Decode(Tokens(lines)).value;
      !IdsIn(d.edges, |d.coords|) || !IdsIn(d.marks, |d.coords|)
    ensures Imported(lines) == None
  {
    RebuildDefined(Decode(Tokens(lines)).value);
  }

  // ---------------------------------------------------------------------------------------------
  // The import one line at a time

  /** Creating the node for one more coordinate line. */
  lemma PlacedSnoc(coords: seq<IntPair>, v: IntPair)
    ensures Graph(Placed(coords + [v]), []) == AddNode(Graph(Placed(coords), []), Shift(v.0), Shift(v.1))
  {
  }

  /** Connecting one more connection line. */
  lemma ConnectAllSnoc(g: Graph, es: seq<IntPair>, v: IntPair)
    requires ConnectAll(g, es).Some?
    ensures ConnectAll(g, es + [v]) ==
      match Resolve(ConnectAll(g, es).value.nodes, v)
      case None => None
      case Some((a, b)) => Some(Connect(ConnectAll(g, es).value, a, b).0)
  {
    assert (es + [v])[..|es|] == es;
  }

  /** Resolving the route marks one more at a time; a mark that names an unknown id makes the
      whole run fail, whatever follows it. */
  lemma ResolveAllStep(nodes: seq<Node>, ms: seq<IntPair>, i: nat)
    requires i < |ms| && ResolveAll(nodes, ms[..i]).Some?
    ensures ResolveAll(nodes, ms[..i + 1]) ==
      match Resolve(nodes, ms[i])
      case None => None
      case Some(e) => Some(ResolveAll(nodes, ms[..i]).value + [e])
    ensures Resolve(nodes, ms[i]).None? ==> ResolveAll(nodes, ms) == None
  {
    assert ms[..i + 1][..i] == ms[..i];
    if Resolve(nodes, ms[i]).None? {
      ResolveAllStuck(nodes, ms[..i + 1], ms[i + 1..]);
      assert ms[..i + 1] + ms[i + 1..] == ms;
    }
  }

  /** Once the first two sections are found, what `Import` leaves depends only on the last
      section and on rebuilding. */
  lemma ImportedSections(lines: seq<string>, marks: seq<IntPair>, p1: nat, coords: seq<IntPair>, p2: nat)
    requires Section(Tokens(lines), HEADER_LINES) == Some((marks, p1))
    requires Section(Tokens(lines), p1) == Some((coords, p2))
    ensures Imported(lines) ==
      match Rest(Tokens(lines), p2)
      case None => None
      case Some(edges) => Rebuild(Document(marks, coords, edges))
  {
  }

  /** A connection line that names an unknown id leaves the last section unconnectable, whatever
      follows it. */
  lemma ConnectionsFail(ts: seq<Line>, p: nat, g: Graph, es: seq<IntPair>)
    requires ReadsAt(ts, p, es) && ConnectAll(g, es) == None
    ensures Rest(ts, p).None? || ConnectAll(g, Rest(ts, p).value) == None
  {
    if Rest(ts, p).Some? {
      var all := Rest(ts, p).value;
      RestExtends(ts, p, es);
      ConnectAllStuck(g, es, all[|es|..]);
    }
  }

  // ---------------------------------------------------------------------------------------------
  // Export followed by Import

  /** The pairs as the numbers written for them. */
  function AsPairs(es: seq<Edge>): (r: seq<IntPair>)
    requires forall k :: 0 <= k < |es| ==> es[k].0 <= MAX_INT32 && es[k].1 <= MAX_INT32
    ensures |r| == |es|
  {
    seq(|es|, k requires 0 <= k < |es| => (es[k].0 as int32, es[k].1 as int32))
  }

  function Coords(nodes: seq<Node>): (r: seq<IntPair>)
    ensures |r| == |nodes|
  {
    seq(|nodes|, k requires 0 <= k < |nodes| => (nodes[k].x, nodes[k].y))
  }

  /** The lines from `p` on start with pairs holding `vs`. */
  predicate ReadsAt(ts: seq<Line>, p: nat, vs: seq<IntPair>)
  {
    && (vs == [] || p + |vs| <= |ts|)
    && forall k {:trigger ts[k]} :: p <= k < p + |vs| ==> ts[k] == Pair(vs[k - p])
  }

  lemma ReadsAtSnoc(ts: seq<Line>, p: nat, vs: seq<IntPair>, v: IntPair)
    requires ReadsAt(ts, p, vs) && p + |vs| < |ts| && ts[p + |vs|] == Pair(v)
    ensures ReadsAt(ts, p, vs + [v])
  {
  }

  /** The first pair read from `p` on, and the others read from the next line on. */
  lemma ReadsAtFirst(ts: seq<Line>, p: nat, vs: seq<IntPair>)
    requires ReadsAt(ts, p, vs) && vs != []
    ensures p < |ts| && ts[p] == Pair(vs[0])
    ensures ReadsAt(ts, p + 1, vs[1..])
  {
    assert ts[p] == Pair(vs[p - p]);
    forall k | p + 1 <= k < p + 1 + |vs[1..]|
      ensures ts[k] == Pair(vs[1..][k - (p + 1)])
    {
      assert ts[k] == Pair(vs[k - p]);
    }
  }

  /** Pairs closed by a blank line read as one section. */
  lemma {:induction false} SectionReads(ts: seq<Line>, p: nat, vs: seq<IntPair>)
    requires ReadsAt(ts, p, vs) && p + |vs| < |ts| && ts[p + |vs|] == Blank
    ensures Section(ts, p) == Some((vs, p + |vs| + 1))
    decreases |vs|
  {
    if vs != [] {
      ReadsAtFirst(ts, p, vs);
      SectionReads(ts, p + 1, vs[1..]);
      assert [vs[0]] + vs[1..] == vs;
    }
  }

  /** Pairs followed by the end of the lines or by a malformed line are no section. */
  lemma {:induction false} SectionFails(ts: seq<Line>, p: nat, vs: seq<IntPair>)
    requires ReadsAt(ts, p, vs) && (p + |vs| >= |ts| || ts[p + |vs|] == Malformed)
    ensures Section(ts, p) == None
    decreases |vs|
  {
    if vs != [] {
      ReadsAtFirst(ts, p, vs);
      SectionFails(ts, p + 1, vs[1..]);
    }
  }

  /** Pairs up to the end of the lines read as the last section. */
  lemma {:induction false} RestReads(ts: seq<Line>, p: nat, vs: seq<IntPair>)
    requires ReadsAt(ts, p, vs) && p + |vs| == |ts|
    ensures Rest(ts, p) == Some(vs)
    decreases |vs|
  {
    if vs != [] {
      ReadsAtFirst(ts, p, vs);
      RestReads(ts, p + 1, vs[1..]);
      assert [vs[0]] + vs[1..] == vs;
    }
  }

  /** Pairs followed by a blank or malformed line are no last section. */
  lemma {:induction false} RestFails(ts: seq<Line>, p: nat, vs: seq<IntPair>)
    requires ReadsAt(ts, p, vs) && p + |vs| < |ts| && !ts[p + |vs|].Pair?
    ensures Rest(ts, p) == None
    decreases |vs|
  {
    if vs != [] {
      ReadsAtFirst(ts, p, vs);
      RestFails(ts, p + 1, vs[1..]);
    }
  }

  /** A last section starts with the pairs the lines start with. */
  lemma RestExtends(ts: seq<Line>, p: nat, vs: seq<IntPair>)
    requires ReadsAt(ts, p, vs) && Rest(ts, p).Some?
    ensures |vs| <= |Rest(ts, p).value| && Rest(ts, p).value == vs + Rest(ts, p).value[|vs|..]
  {
    var r := Rest(ts, p).value;
    if vs != [] {
      var last := p + |vs| - 1;
      assert ts[last] == Pair(vs[last - p]);
    }
    assert r[..|vs|] == vs by {
      forall k | 0 <= k < |vs|
        ensures r[k] == vs[k]
      {
        var i := p + k;
        assert p <= i < |ts| && ts[i] == Pair(r[i - p]);
      }
    }
    assert r == r[..|vs|] + r[|vs|..];
  }

  /** A written pair line is read as that pair. */
  lemma ClassifyPairLine(a: int32, b: int32)
    ensures Classify(PairLine(a, b)) == Pair((a, b))
  {
    ParsePairLine(a, b);
  }

  /** The classified lines that hold exactly the pairs `vs`. */
  function PairTokens(vs: seq<IntPair>): (ts: seq<Line>)
    ensures |ts| == |vs|
  {
    seq(|vs|, k requires 0 <= k < |vs| => Pair(vs[k]))
  }

  /** Lines are classified one by one. */
  lemma TokensAppend(a: seq<string>, b: seq<string>)
    ensures Tokens(a + b) == Tokens(a) + Tokens(b)
  {
    forall k | 0 <= k < |a + b|
      ensures Tokens(a + b)[k] == (Tokens(a) + Tokens(b))[k]
    {
      if k < |a| {
        AppendLeft(a, b, k);
        AppendLeft(Tokens(a), Tokens(b), k);
      } else {
        AppendRight(a, b, k);
        AppendRight(Tokens(a), Tokens(b), k);
      }
    }
  }

  /** The pair lines written for in-range pairs read as those pairs. */
  lemma PairLinesTokens(es: seq<Edge>)
    requires forall k :: 0 <= k < |es| ==> es[k].0 <= MAX_INT32 && es[k].1 <= MAX_INT32
    ensures Tokens(PairLines(es)) == PairTokens(AsPairs(es))
  {
    forall k | 0 <= k < |es|
      ensures Tokens(PairLines(es))[k] == PairTokens(AsPairs(es))[k]
    {
      ClassifyPairLine(es[k].0 as int32, es[k].1 as int32);
    }
  }

  /** The coordinate lines read as the coordinates. */
  lemma CoordLinesTokens(nodes: seq<Node>)
    ensures Tokens(CoordLines(nodes)) == PairTokens(Coords(nodes))
  {
    forall k | 0 <= k < |nodes|
      ensures Tokens(CoordLines(nodes))[k] == PairTokens(Coords(nodes))[k]
    {
      ClassifyPairLine(nodes[k].x, nodes[k].y);
    }
  }

  /** The exported document, classified: four header lines, then the three sections. */
  lemma LayoutTokens(g: Graph, marks: seq<Edge>)
    requires InRange(g.routes, |g.nodes|) && InRange(marks, |g.nodes|) && |g.nodes| <= MAX_INT32 + 1
    ensures |Tokens(Layout(g, marks)[..HEADER_LINES])| == HEADER_LINES
    ensures Tokens(Layout(g, marks)) ==
      Tokens(Layout(g, marks)[..HEADER_LINES]) + PairTokens(AsPairs(marks)) + [Blank]
        + PairTokens(Coords(g.nodes)) + [Blank] + PairTokens(AsPairs(g.routes))
  {
    var head := [ShowInt(|marks|), ShowInt(|g.nodes|), ShowInt(|g.routes|), ""];
    var ms, cs, rs := PairLines(marks), CoordLines(g.nodes), PairLines(g.routes);
    LayoutFrame(g, marks);
    TokensAppend(head + ms + [""] + cs + [""], rs);
    TokensAppend(head + ms + [""] + cs, [""]);
    TokensAppend(head + ms + [""], cs);
    TokensAppend(head + ms, [""]);
    TokensAppend(head, ms);
    assert Tokens([""]) == [Blank];
    PairLinesTokens(marks);
    CoordLinesTokens(g.nodes);
    PairLinesTokens(g.routes);
  }

  /** A section of pairs closed by a blank line, wherever it stands, reads as those pairs. */
  lemma SectionOf(pre: seq<Line>, vs: seq<IntPair>, post: seq<Line>)
    ensures Section(pre + PairTokens(vs) + [Blank] + post, |pre|) == Some((vs, |pre| + |vs| + 1))
  {
    var x := pre + PairTokens(vs);
    var ts := x + [Blank] + post;
    AppendLeft(x + [Blank], post, |x|);
    AppendRight(x, [Blank], |x|);
    forall k | 0 <= k < |vs|
      ensures ts[|pre| + k] == Pair(vs[k])
    {
      AppendLeft(x + [Blank], post, |pre| + k);
      AppendLeft(x, [Blank], |pre| + k);
      AppendRight(pre, PairTokens(vs), |pre| + k);
    }
    SectionReads(ts, |pre|, vs);
  }

  /** A last section of pairs reads as those pairs. */
  lemma RestOf(pre: seq<Line>, vs: seq<IntPair>)
    ensures Rest(pre + PairTokens(vs), |pre|) == Some(vs)
  {
    forall k | 0 <= k < |vs|
      ensures (pre + PairTokens(vs))[|pre| + k] == Pair(vs[k])
    {
      AppendRight(pre, PairTokens(vs), |pre| + k);
    }
    RestReads(pre + PairTokens(vs), |pre|, vs);
  }

  /** Four header lines, two sections closed by a blank line and a last section decode to the
      pairs of the three sections, whatever the header lines hold. */
  lemma DecodeOf(head: seq<Line>, ms: seq<IntPair>, cs: seq<IntPair>, rs: seq<IntPair>)
    requires |head| == HEADER_LINES
    ensures Decode(head + PairTokens(ms) + [Blank] + PairTokens(cs) + [Blank] + PairTokens(rs))
      == Some(Document(ms, cs, rs))
  {
    var m, c, r := PairTokens(ms), PairTokens(cs), PairTokens(rs);
    var ts := head + m + [Blank] + c + [Blank] + r;
    var p1, p2 := HEADER_LINES + |ms| + 1, HEADER_LINES + |ms| + |cs| + 2;
    assert Section(ts, HEADER_LINES) == Some((ms, p1)) by {
      assert ts == head + m + [Blank] + (c + [Blank] + r);
      SectionOf(head, ms, c + [Blank] + r);
    }
    assert Section(ts, p1) == Some((cs, p2)) by {
      SectionOf(head + m + [Blank], cs, r);
    }
    assert Rest(ts, p2) == Some(rs) by {
      RestOf(head + m + [Blank] + c + [Blank], rs);
    }
  }

  /** The exported document decodes to the registry's own numbers. */
  lemma DecodeExport(g: Graph, marks: seq<Edge>)
    requires InRange(g.routes, |g.nodes|) && InRange(marks, |g.nodes|) && |g.nodes| <= MAX_INT32 + 1
    ensures Decode(Tokens(Layout(g, marks))) == Some(Document(AsPairs(marks), Coords(g.nodes), AsPairs(g.routes)))
  {
    LayoutTokens(g, marks);
    DecodeOf(Tokens(Layout(g, marks)[..HEADER_LINES]), AsPairs(marks), Coords(g.nodes), AsPairs(g.routes));
  }

  /** Reading back the numbers written for in-range pairs gives the pairs. */
  lemma AsEdgesAsPairs(es: seq<Edge>, n: nat)
    requires InRange(es, n) && n <= MAX_INT32 + 1
    ensures IdsIn(AsPairs(es), n) && AsEdges(AsPairs(es)) == es
  {
  }

  /** The document `Export` writes for a registry. */
  function Written(g: Graph, marks: seq<Edge>): Document
    requires InRange(g.routes, |g.nodes|) && InRange(marks, |g.nodes|) && |g.nodes| <= MAX_INT32 + 1
  {
    Document(AsPairs(marks), Coords(g.nodes), AsPairs(g.routes))
  }

  /** Importing the exported text rebuilds the written document. */
  lemma ImportedExport(g: Graph, marks: seq<Edge>)
    requires InRange(g.routes, |g.nodes|) && InRange(marks, |g.nodes|) && |g.nodes| <= MAX_INT32 + 1
    ensures Imported(ReadLines(ExportText(g, marks))) == Rebuild(Written(g, marks))
  {
    ExportLayout(g, marks);
    DecodeExport(g, marks);
  }

  /** Importing what `Export` wrote succeeds and restores the same connections and route marks,
      in the same order, and the same nodes with the same ids, each moved 15 up and left. */
  lemma ExportImportRoundTrip(g: Graph, marks: seq<Edge>)
    requires WellFormed(g) && InRange(marks, |g.nodes|) && |g.nodes| <= MAX_INT32 + 1
    ensures Imported(ReadLines(ExportText(g, marks))).Some?
    ensures var r := Imported(ReadLines(ExportText(g, marks))).value;
      && r.marks == marks
      && r.graph.routes == g.routes
      && |r.graph.nodes| == |g.nodes|
      && forall i :: 0 <= i < |g.nodes| ==>
           r.graph.nodes[i].id == i
           && r.graph.nodes[i].x == Shift(g.nodes[i].x)
           && r.graph.nodes[i].y == Shift(g.nodes[i].y)
  {
    ImportedExport(g, marks);
    RebuildWritten(g, marks);
  }

  /** Rebuilding the written document of a well-formed registry. */
  lemma RebuildWritten(g: Graph, marks: seq<Edge>)
    requires WellFormed(g) && InRange(marks, |g.nodes|) && |g.nodes| <= MAX_INT32 + 1
    ensures Rebuild(Written(g, marks)).Some?
    ensures var r := Rebuild(Written(g, marks)).value;
      && r.marks == marks
      && r.graph.routes == g.routes
      && |r.graph.nodes| == |g.nodes|
      && forall i :: 0 <= i < |g.nodes| ==>
           r.graph.nodes[i].id == i
           && r.graph.nodes[i].x == Shift(g.nodes[i].x)
           && r.graph.nodes[i].y == Shift(g.nodes[i].y)
  {
    var d := Written(g, marks);
    AsEdgesAsPairs(marks, |g.nodes|);
    AsEdgesAsPairs(g.routes, |g.nodes|);
    RebuildSpec(d);
    assert [] + g.routes == g.routes;
    FreshOfSimple([], g.routes);
    var r := Rebuild(d).value;
    forall i | 0 <= i < |g.nodes|
      ensures r.graph.nodes[i].x == Shift(g.nodes[i].x)
      ensures r.graph.nodes[i].y == Shift(g.nodes[i].y)
    {
      assert d.coords[i] == (g.nodes[i].x, g.nodes[i].y);
    }
  }

  /** The node list with every node moved 15 up and left. */
  function Shifted(nodes: seq<Node>): (r: seq<Node>)
    ensures |r| == |nodes|
  {
    seq(|nodes|, i requires 0 <= i < |nodes| =>
      nodes[i].(x := Shift(nodes[i].x), y := Shift(nodes[i].y)))
  }

  /** Export, import and export again: the same counts, route marks and connections, and every
      coordinate moved by -15. */
  lemma ExportImportExport(g: Graph, marks: seq<Edge>)
    requires WellFormed(g) && InRange(marks, |g.nodes|) && |g.nodes| <= MAX_INT32 + 1
    ensures Imported(ReadLines(ExportText(g, marks))).Some?
    ensures var r := Imported(ReadLines(ExportText(g, marks))).value;
      ExportText(r.graph, r.marks) == ExportText(Graph(Shifted(g.nodes), g.routes), marks)
  {
    ExportImportRoundTrip(g, marks);
    var r := Imported(ReadLines(ExportText(g, marks))).value;
    assert CoordLines(r.graph.nodes) == CoordLines(Shifted(g.nodes));
    assert Layout(r.graph, r.marks) == Layout(Graph(Shifted(g.nodes), g.routes), marks);
  }
}
