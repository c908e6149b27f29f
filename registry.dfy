/** The static state of `NodeButton` and the operations on it: creating nodes, connecting them,
    clearing everything, exporting and importing the text document, and the two click machines
    of the main form. Nodes are referred to by their index, which `Valid` keeps equal to their
    id. */
module Registry {
  import opened Base
  import opened Text
  import opened NodeGraph
  import opened Serial

  /** The mouse button of a click on a node. */
  datatype MouseButton = Left | Right | Middle | Other

  class NodeRegistry {
    /** `Nodes`, in creation order. */
    var nodes: seq<Node>
    /** `Routes`: the connections, in the order they were made. */
    var routes: seq<Edge>
    /** `RoutesToFind`: the route marks, in the order they were made. */
    var routesToFind: seq<Edge>
    /** `IdCounter`: the id the next node gets. */
    var idCounter: nat
    /** `SelectedNode`, or `None` for `null`. */
    var selected: Option<nat>
    /** `RouteStart`, or `None` for `null`. */
    var routeStart: Option<nat>

    /** The node list and the connection list as one value. */
    function Snapshot(): Graph
      reads this`nodes, this`routes
    {
      Graph(nodes, routes)
    }

    /** What every state reached through the constructor, `CreateNode`, `ConnectNodes`, `Clear`,
        `Import` and `Clicked` satisfies: a well-formed graph whose ids are positions, the counter
        equal to the number of nodes, and every mark, selection and route start naming a node.
        `AddConnection` and `RemoveConnection` alone change one map and can break it. */
    ghost predicate Valid()
      reads this
    {
      && WellFormed(Snapshot())
      && idCounter == |nodes|
      && InRange(routesToFind, |nodes|)
      && (selected.Some? ==> selected.value < |nodes|)
      && (routeStart.Some? ==> routeStart.value < |nodes|)
    }

    /** The state right after start-up and after `Clear`. */
    predicate Cleared()
      reads this
    {
      && nodes == [] && routes == [] && routesToFind == []
      && idCounter == 0 && selected == None && routeStart == None
    }

    /** The static initialisers: everything empty, the counter at 0. */
    constructor ()
      ensures Valid() && Cleared()
    {
      nodes, routes, routesToFind := [], [], [];
      idCounter, selected, routeStart := 0, None, None;
    }

    /** `new NodeButton(x, y)`: the node takes `IdCounter` as its id, the counter moves on, and
        the node is appended to `Nodes` with no neighbours. */
    method CreateNode(x: int32, y: int32) returns (id: nat)
      requires Valid()
      modifies this`nodes, this`idCounter
      ensures Valid()
      ensures id == old(idCounter) == old(|nodes|) && idCounter == old(idCounter) + 1
      ensures Snapshot() == AddNode(old(Snapshot()), x, y)
      ensures nodes[id] == Node(id, x, y, map[])
    {
      ghost var before := Snapshot();
      id := idCounter;
      idCounter := idCounter + 1;
      nodes := nodes + [Node(id, x, y, map[])];
      AddNodeWellFormed(before, x, y);
    }

    /** `nodes[a].AddConnection(nodes[b], dist)`: `Dictionary.Add`, which throws (false) when the
        neighbour is already present. */
    method AddConnection(a: nat, b: nat, dist: int32) returns (ok: bool)
      requires a < |nodes|
      modifies this`nodes
      ensures |nodes| == old(|nodes|)
      ensures ok <==> b !in old(nodes[a].connected)
      ensures (nodes[a], ok) == NodeGraph.AddConnection(old(nodes[a]), b, dist)
      ensures nodes == if ok then old(nodes)[a := nodes[a]] else old(nodes)
    {
      if b in nodes[a].connected {
        ok := false;
      } else {
        nodes := nodes[a := nodes[a].(connected := nodes[a].connected[b := dist])];
        ok := true;
      }
    }

    /** `nodes[a].RemoveConnection(nodes[b])`: `Dictionary.Remove` does not throw on a missing
        key, so the answer is always true. */
    method RemoveConnection(a: nat, b: nat) returns (ok: bool)
      requires a < |nodes|
      modifies this`nodes
      ensures |nodes| == old(|nodes|)
      ensures ok && b !in nodes[a].connected
      ensures (nodes[a], ok) == NodeGraph.RemoveConnection(old(nodes[a]), b)
      ensures nodes == old(nodes)[a := nodes[a]]
    {
      nodes := nodes[a := nodes[a].(connected := nodes[a].connected - {b})];
      ok := true;
    }

    /** `ConnectNodes(a, b)`: both additions, the second only when the first succeeds, and the
        connection recorded only when both succeed; the new graph and the answer are those of
        `Connect`, which `ConnectOutcome` shows succeeds exactly when the two nodes differ and are
        not yet joined, and keeps a well-formed graph well formed. */
    method ConnectNodes(a: nat, b: nat) returns (ok: bool)
      requires a < |nodes| && b < |nodes|
      modifies this`nodes, this`routes
      ensures (Snapshot(), ok) == Connect(old(Snapshot()), a, b)
    {
      var dist := Dist(nodes[a], nodes[b]);
      ok := AddConnection(a, b, dist);
      if ok {
        ok := AddConnection(b, a, dist);
        if ok {
          routes := routes + [(a, b)];
        }
      }
    }

    /** `Clear()`: every list emptied, the counter back to 0, no selection and no route start.
        The new state does not depend on the old one, so a second `Clear` changes nothing. */
    method Clear()
      modifies this
      ensures Valid() && Cleared()
    {
      routes := [];
      nodes := [];
      idCounter := 0;
      routesToFind := [];
      routeStart := None;
      selected := None;
    }

    /** `Export()`: the three counts and a blank line, then the route marks, a blank line, the
        coordinates, a blank line and the connections, appended line by line. */
    method Export() returns (text: string)
      ensures text == ExportText(Snapshot(), routesToFind)
    {
      ghost var head := [ShowInt(|routesToFind|), ShowInt(|nodes|), ShowInt(|routes|), ""];
      text := ShowInt(|routesToFind|) + "\n";
      text := text + ShowInt(|nodes|) + "\n";
      text := text + ShowInt(|routes|) + "\n" + "\n";
      HeaderText(head);
      text := AppendPairLines(head, text, routesToFind);
      BlankLine(head + PairLines(routesToFind));
      text := text + "\n";
      ghost var marked := head + PairLines(routesToFind) + [""];
      text := AppendCoordLines(marked, text, nodes);
      BlankLine(marked + CoordLines(nodes));
      text := text + "\n";
      text := AppendPairLines(marked + CoordLines(nodes) + [""], text, routes);
    }

    /** `Import(lines)`: everything cleared, the four header lines skipped, the route marks
        collected, a node created per coordinate line, each connection line passed to
        `ConnectNodes`, and the route marks resolved to nodes. Succeeds exactly when the lines
        hold an importable document, and then leaves what `Imported` describes; any failure
        leaves everything cleared. */
    method Import(lines: seq<string>) returns (ok: bool)
      modifies this
      ensures Valid()
      ensures ok <==> Imported(lines).Some?
      ensures ok ==> Imported(lines) == Some(Restored(Snapshot(), routesToFind))
      ensures ok ==> selected == None && routeStart == None
      ensures !ok ==> Cleared()
    {
      Clear();
      var marked := ReadSection(lines, HEADER_LINES);
      if marked.None? {
        Clear();
        return false;
      }
      var (pathToFind, p1) := marked.value;
      var placed := PlaceNodes(lines, p1);
      if placed.None? {
        Clear();
        return false;
      }
      var (coords, p2) := placed.value;
      ImportedSections(lines, pathToFind, p1, coords, p2);
      var connected := ConnectLines(lines, p2);
      if !connected {
        Clear();
        return false;
      }
      var resolved := ResolveMarks(pathToFind);
      if !resolved {
        Clear();
        return false;
      }
      ok := true;
    }

    /** `MainForm.Clicked`: a left or right click selects a node, deselects the selected node,
        or connects the selected node to the clicked one (after which a left click ends the
        selection and a right click moves it to the clicked node; a refused connection changes
        nothing). A middle click starts a route mark, or ends it on a different node and records
        it. Other buttons do nothing. */
    method Clicked(clicked: nat, button: MouseButton)
      requires Valid() && clicked < |nodes|
      modifies this
      ensures Valid() && idCounter == old(idCounter)
      ensures button == Left || button == Right ==>
        && routesToFind == old(routesToFind) && routeStart == old(routeStart)
        && match old(selected)
           case None => Snapshot() == old(Snapshot()) && selected == Some(clicked)
           case Some(s) =>
             if s == clicked then Snapshot() == old(Snapshot()) && selected == None
             else
               var (h, joined) := Connect(old(Snapshot()), s, clicked);
               && Snapshot() == h
               && (joined <==> !Linked(old(routes), s, clicked))
               && selected == if !joined then old(selected) else if button == Left then None else Some(clicked)
      ensures button == Middle ==>
        && Snapshot() == old(Snapshot()) && selected == old(selected)
        && match old(routeStart)
           case None => routeStart == Some(clicked) && routesToFind == old(routesToFind)
           case Some(r) =>
             if r == clicked then routeStart == old(routeStart) && routesToFind == old(routesToFind)
             else routeStart == None && routesToFind == old(routesToFind) + [(r, clicked)]
      ensures button == Other ==>
        && Snapshot() == old(Snapshot()) && routesToFind == old(routesToFind)
        && selected == old(selected) && routeStart == old(routeStart)
    {
      if button == Left || button == Right {
        SelectClick(clicked, button == Left);
      } else if button == Middle {
        MarkClick(clicked);
      }
    }

    /** The left/right branch of `Clicked`: select, deselect, or connect the selected node to the
        clicked one and, when that succeeds, end the selection (`left`) or move it to the clicked
        node. */
    method SelectClick(clicked: nat, left: bool)
      requires Valid() && clicked < |nodes|
      modifies this`nodes, this`routes, this`selected
      ensures Valid()
      ensures match old(selected)
        case None => Snapshot() == old(Snapshot()) && selected == Some(clicked)
        case Some(s) =>
          if s == clicked then Snapshot() == old(Snapshot()) && selected == None
          else
            var (h, joined) := Connect(old(Snapshot()), s, clicked);
            && Snapshot() == h
            && (joined <==> !Linked(old(routes), s, clicked))
            && selected == if !joined then old(selected) else if left then None else Some(clicked)
    {
      match selected
      case None =>
        selected := Some(clicked);
      case Some(s) =>
        if s != clicked {
          JoinSelected(s, clicked, left);
        } else {
          selected := None;
        }
    }

    /** The second click of a selection, on another node: connect the two, then end the
        selection (left button) or carry it on from the clicked node (right button); a refused
        connection keeps the selection as it was. */
    method JoinSelected(s: nat, clicked: nat, left: bool)
      requires Valid() && selected == Some(s) && s < |nodes| && clicked < |nodes| && s != clicked
      modifies this`nodes, this`routes, this`selected
      ensures Valid()
      ensures var (h, joined) := Connect(old(Snapshot()), s, clicked);
        && Snapshot() == h
        && (joined <==> !Linked(old(routes), s, clicked))
        && selected == if !joined then old(selected) else if left then None else Some(clicked)
    {
      ghost var before := Snapshot();
      ghost var h := Connect(before, s, clicked).0;
      ConnectOutcome(before, s, clicked);
      assert WellFormed(h) && |h.nodes| == |before.nodes|;
      var joined := ConnectNodes(s, clicked);
      assert Snapshot() == h;
      if joined {
        selected := if left then None else Some(clicked);
      }
    }

    /** The middle branch of `Clicked`: start a route mark, or end it on a different node and
        record it; clicking the start node again does nothing. */
    method MarkClick(clicked: nat)
      requires Valid() && clicked < |nodes|
      modifies this`routesToFind, this`routeStart
      ensures Valid()
      ensures match old(routeStart)
        case None => routeStart == Some(clicked) && routesToFind == old(routesToFind)
        case Some(r) =>
          if r == clicked then routeStart == old(routeStart) && routesToFind == old(routesToFind)
          else routeStart == None && routesToFind == old(routesToFind) + [(r, clicked)]
    {
      match routeStart
      case None =>
        routeStart := Some(clicked);
      case Some(r) =>
        if r != clicked {
          routesToFind := routesToFind + [(r, clicked)];
          routeStart := None;
        }
    }

    /** The coordinate section of `Import` from line `p`: a node created for each line, at the
        written coordinates less 15, until a blank line. `None` when the lines run out or one is
        malformed; the nodes created so far are then left for the caller to clear. */
    method PlaceNodes(lines: seq<string>, p: nat) returns (r: Option<(seq<IntPair>, nat)>)
      requires Valid() && nodes == [] && routes == []
      modifies this`nodes, this`idCounter
      ensures Valid() && routes == []
      ensures r == Section(Tokens(lines), p)
      ensures r.Some? ==> Snapshot() == Graph(Placed(r.value.0), [])
    {
      ghost var ts := Tokens(lines);
      var coords: seq<IntPair> := [];
      var q := p;
      while q < |lines| && lines[q] != ""
        invariant q == p + |coords|
        invariant ReadsAt(ts, p, coords)
        invariant Valid() && Snapshot() == Graph(Placed(coords), [])
        decreases |lines| - q
      {
        var line := Classify(lines[q]);
        if !line.Pair? {
          SectionFails(ts, p, coords);
          return None;
        }
        var v := line.value;
        PlacedSnoc(coords, v);
        var id := CreateNode(Shift(v.0), Shift(v.1));
        ReadsAtSnoc(ts, p, coords, v);
        coords := coords + [v];
        q := q + 1;
      }
      if q >= |lines| {
        SectionFails(ts, p, coords);
        return None;
      }
      SectionReads(ts, p, coords);
      return Some((coords, q + 1));
    }

    /** The connection section of `Import` from line `p`: `ConnectNodes` on the nodes with the
        two ids of each line, to the end of the lines. False when a line is blank or malformed
        (`Rest` fails) or names an id no node has (`ConnectAll` fails). */
    method ConnectLines(lines: seq<string>, p: nat) returns (ok: bool)
      requires Valid() && p <= |lines|
      modifies this`nodes, this`routes
      ensures ok ==> Valid()
      ensures ok ==> (Rest(Tokens(lines), p).Some?
        && ConnectAll(old(Snapshot()), Rest(Tokens(lines), p).value) == Some(Snapshot()))
      ensures !ok ==> (Rest(Tokens(lines), p).None?
        || ConnectAll(old(Snapshot()), Rest(Tokens(lines), p).value).None?)
    {
      ghost var ts := Tokens(lines);
      ghost var start := Snapshot();
      ghost var es: seq<IntPair> := [];
      var q := p;
      while q < |lines|
        invariant q == p + |es| <= |lines|
        invariant ReadsAt(ts, p, es)
        invariant ConnectAll(start, es) == Some(Snapshot())
        decreases |lines| - q
      {
        var next := ConnectLine(lines, p, q, start, es);
        if !next {
          return false;
        }
        es := es + [Classify(lines[q]).value];
        q := q + 1;
      }
      ConnectAllKeeps(start, es, Snapshot());
      assert |nodes| == |start.nodes| && WellFormed(Snapshot());
      assert Valid();
      RestReads(ts, p, es);
      return true;
    }

    /** One pass of the connection loop: the line after the `es` already read must be a pair
        whose two ids name nodes, which are then connected. */
    method ConnectLine(lines: seq<string>, p: nat, q: nat, ghost start: Graph, ghost es: seq<IntPair>)
      returns (ok: bool)
      requires q == p + |es| < |lines| && ReadsAt(Tokens(lines), p, es)
      requires ConnectAll(start, es) == Some(Snapshot())
      modifies this`nodes, this`routes
      ensures ok ==> Classify(lines[q]).Pair?
      ensures ok ==> ReadsAt(Tokens(lines), p, es + [Classify(lines[q]).value])
      ensures ok ==> ConnectAll(start, es + [Classify(lines[q]).value]) == Some(Snapshot())
      ensures !ok ==> (Rest(Tokens(lines), p).None?
        || ConnectAll(start, Rest(Tokens(lines), p).value).None?)
    {
      ghost var ts := Tokens(lines);
      var line := Classify(lines[q]);
      assert ts[q] == line;
      if !line.Pair? {
        RestFails(ts, p, es);
        return false;
      }
      var v := line.value;
      ReadsAtSnoc(ts, p, es, v);
      ConnectAllSnoc(start, es, v);
      var found := ConnectIds(v);
      if !found {
        ConnectionsFail(ts, p, start, es + [v]);
        return false;
      }
      return true;
    }

    /** One connection line of `Import`: `ConnectNodes` on the nodes `Nodes.Find` returns for the
        two ids. False, with nothing changed, when either id names no node (the source then
        dereferences `null`). */
    method ConnectIds(ids: IntPair) returns (found: bool)
      modifies this`nodes, this`routes
      ensures found <==> Resolve(old(nodes), ids).Some?
      ensures found ==> (Snapshot() ==
        Connect(old(Snapshot()), Resolve(old(nodes), ids).value.0, Resolve(old(nodes), ids).value.1).0)
      ensures !found ==> Snapshot() == old(Snapshot())
    {
      var e := Resolve(nodes, ids);
      if e.None? {
        return false;
      }
      var joined := ConnectNodes(e.value.0, e.value.1);
      return true;
    }

    /** The last loop of `Import`: each route mark's two ids looked up with `Nodes.Find` and the
        pair of nodes appended to `RoutesToFind`. False as soon as an id names no node. */
    method ResolveMarks(marks: seq<IntPair>) returns (ok: bool)
      requires Valid() && routesToFind == []
      modifies this`routesToFind
      ensures Valid()
      ensures ok <==> ResolveAll(nodes, marks).Some?
      ensures ok ==> ResolveAll(nodes, marks) == Some(routesToFind)
    {
      var i := 0;
      while i < |marks|
        invariant i <= |marks|
        invariant Valid() && ResolveAll(nodes, marks[..i]) == Some(routesToFind)
      {
        ResolveAllStep(nodes, marks, i);
        var e := Resolve(nodes, marks[i]);
        if e.None? {
          return false;
        }
        routesToFind := routesToFind + [e.value];
        i := i + 1;
      }
      assert marks[..i] == marks;
      return true;
    }
  }

  /** One section of `Import` from line `p`: the pairs of the lines up to a blank line. `None`
      when the lines run out first or a line is not two integer fields. */
  method ReadSection(lines: seq<string>, p: nat) returns (r: Option<(seq<IntPair>, nat)>)
    ensures r == Section(Tokens(lines), p)
  {
    ghost var ts := Tokens(lines);
    var vs: seq<IntPair> := [];
    var q := p;
    while q < |lines| && lines[q] != ""
      invariant q == p + |vs|
      invariant ReadsAt(ts, p, vs)
      decreases |lines| - q
    {
      var line := Classify(lines[q]);
      if !line.Pair? {
        SectionFails(ts, p, vs);
        return None;
      }
      ReadsAtSnoc(ts, p, vs, line.value);
      vs := vs + [line.value];
      q := q + 1;
    }
    if q >= |lines| {
      SectionFails(ts, p, vs);
      return None;
    }
    SectionReads(ts, p, vs);
    return Some((vs, q + 1));
  }

  /** A `foreach` over pairs appending the line `id\tid` for each to the text of the lines
      `pre`. */
  method AppendPairLines(ghost pre: seq<string>, text: string, es: seq<Edge>) returns (r: string)
    requires text == JoinLines(pre)
    ensures r == JoinLines(pre + PairLines(es))
  {
    r := text;
    var i := 0;
    assert pre + PairLines(es[..0]) == pre;
    while i < |es|
      invariant i <= |es|
      invariant r == JoinLines(pre + PairLines(es[..i]))
    {
      var line := PairLine(es[i].0, es[i].1);
      PairLinesSnoc(es, i);
      AppendLine(pre, PairLines(es[..i]), line);
      r := r + line + "\n";
      i := i + 1;
    }
    assert es[..i] == es;
  }

  /** A `foreach` over the nodes appending the line `x\ty` for each to the text of the lines
      `pre`. */
  method AppendCoordLines(ghost pre: seq<string>, text: string, nodes: seq<Node>) returns (r: string)
    requires text == JoinLines(pre)
    ensures r == JoinLines(pre + CoordLines(nodes))
  {
    r := text;
    var i := 0;
    assert pre + CoordLines(nodes[..0]) == pre;
    while i < |nodes|
      invariant i <= |nodes|
      invariant r == JoinLines(pre + CoordLines(nodes[..i]))
    {
      var line := PairLine(nodes[i].x, nodes[i].y);
      CoordLinesSnoc(nodes, i);
      AppendLine(pre, CoordLines(nodes[..i]), line);
      r := r + line + "\n";
      i := i + 1;
    }
    assert nodes[..i] == nodes;
  }

  /** The four header lines are the three counts and an empty line, each with its line break. */
  lemma HeaderText(head: seq<string>)
    requires |head| == HEADER_LINES && head[3] == ""
    ensures JoinLines(head) == head[0] + "\n" + head[1] + "\n" + head[2] + "\n" + "\n"
  {
    assert head == [head[0]] + [head[1]] + [head[2]] + [head[3]];
    JoinLinesSnoc([], head[0]);
    JoinLinesSnoc([head[0]], head[1]);
    JoinLinesSnoc([head[0]] + [head[1]], head[2]);
    JoinLinesSnoc([head[0]] + [head[1]] + [head[2]], head[3]);
  }

  /** Appending a line to a document appends the line and its line break to the text. */
  lemma JoinLinesSnoc(lines: seq<string>, line: string)
    ensures JoinLines(lines + [line]) == JoinLines(lines) + line + "\n"
  {
    assert (lines + [line])[..|lines|] == lines;
  }

  /** Appending an empty line appends a line break. */
  lemma BlankLine(lines: seq<string>)
    ensures JoinLines(lines + [""]) == JoinLines(lines) + "\n"
  {
    JoinLinesSnoc(lines, "");
    assert JoinLines(lines) + "" == JoinLines(lines);
  }

  /** Appending a line to the last part of a document appends the line and its line break. */
  lemma AppendLine(pre: seq<string>, lines: seq<string>, line: string)
    ensures JoinLines(pre + (lines + [line])) == JoinLines(pre + lines) + line + "\n"
  {
    assert pre + (lines + [line]) == (pre + lines) + [line];
    JoinLinesSnoc(pre + lines, line);
  }

  lemma PairLinesSnoc(es: seq<Edge>, i: nat)
    requires i < |es|
    ensures PairLines(es[..i + 1]) == PairLines(es[..i]) + [PairLine(es[i].0, es[i].1)]
  {
  }

  lemma CoordLinesSnoc(nodes: seq<Node>, i: nat)
    requires i < |nodes|
    ensures CoordLines(nodes[..i + 1]) == CoordLines(nodes[..i]) + [PairLine(nodes[i].x, nodes[i].y)]
  {
  }
}
