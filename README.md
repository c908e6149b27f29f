# MapRouteCreator: the node registry, its text format and the click machines

MapRouteCreator is a small WinForms editor for route-finding exercises. The user places node
buttons on a form, connects them, and marks pairs of nodes as routes to find. This project models
the part of `MapRouteCreator/MainForm.cs` that holds and changes that graph:

- the static state of `NodeButton`: `Nodes`, `Routes`, `RoutesToFind`, `IdCounter`,
  `SelectedNode` and `RouteStart`;
- the `NodeButton` constructor, which hands out ids;
- the connection operations `AddConnection`, `RemoveConnection`, `CalcDist` and `ConnectNodes`;
- `Clear`;
- the text serialiser `Export` / `Import`;
- the two button state machines of the form's `Clicked` handler.

The files, bottom up:

- `base.dfy` (module `Base`): `Option`, standing for `null` or a thrown exception, and C#'s
  32-bit `int` with unchecked wrap-around (`Wrap32`).
- `text.dfy` (module `Text`): the .NET text primitives the serialiser relies on:
  - `String.Split`;
  - `StreamReader.ReadLine`, over a whole text (`ReadLines`);
  - `int.ToString()` (`ShowInt`);
  - `Convert.ToInt32` (`ParseInt32`: surrounding white space, NUL characters after the number,
    an optional sign, decimal digits, and `int` range);
  - the round trips between them.
- `graph.dfy` (module `NodeGraph`): the graph as a value.
  - A `Node` is an id, coordinates and a map from neighbour id to distance.
  - `Connect` is `ConnectNodes` on that value. `WellFormed` is the invariant of every state
    reached through the constructor, `CreateNode`, `ConnectNodes` (on a valid state), `Clear`,
    `Import` and `Clicked`: ids are positions, neighbour maps are symmetric and weighted by the
    distance, two different nodes are neighbours exactly when a recorded connection joins them,
    and no connection is recorded twice. `AddConnection` and `RemoveConnection` on their own
    change one node's map only, and so can break it; the program calls them only inside
    `ConnectNodes`.
- `serial.dfy` (module `Serial`): the exported document as a function of the state
  (`Layout`, `ExportText`), and what `Import` makes of a list of lines (`Decode`, `Rebuild`,
  `Imported`). It also holds the round trip: export, read the lines back, import.
- `registry.dfy` (module `Registry`): the class `NodeRegistry`.
  - Its fields are the static state. A node reference is the node's index, which `Valid` keeps
    equal to its id.
  - Its methods are the source's operations, written as loops and field updates the way the
    source writes them. Each is proved against the functions above.

## Model

| member | source | states |
|---|---|---|
| Base.Wrap32 | MapRouteCreator/MainForm.cs:77-79 | unchecked `int` arithmetic: the result is the exact value modulo 2^32, and is the exact value when that fits an `int` |
| Base.WrapNegate | MapRouteCreator/MainForm.cs:77-78 | negating before wrapping negates the wrapped value, except at `int.MinValue`, which is its own negation |
| Text.Split | MapRouteCreator/MainForm.cs:151 | `line.Split('\t')`: at least one field, no field holds a tab, and the fields joined by tabs give back the line |
| Text.SplitPair | MapRouteCreator/MainForm.cs:151 | two tab-free texts joined by one tab split into exactly those two fields |
| Text.ReadLines | MapRouteCreator/MainForm.cs:143-149 | no line `ReadLine` returns holds a line break, and an empty text yields no lines |
| Text.ReadJoinedLines | MapRouteCreator/MainForm.cs:143-166 | reading line by line a text written as lines each ended by "\n" gives back exactly those lines |
| Text.ShowInt | MapRouteCreator/MainForm.cs:108-110 | `int.ToString()`: non-empty, digits with at most a leading minus sign, and a minus sign exactly for negative values |
| Text.ParseInt32 | MapRouteCreator/MainForm.cs:152 | `Convert.ToInt32`: a number is read only where the text holds a digit, and a negative number only where it holds a minus sign; anything else throws |
| Text.ParseTrailingNul | MapRouteCreator/MainForm.cs:152 | a NUL character appended to a field changes nothing that `Convert.ToInt32` reads |
| Text.ParseNulLine | MapRouteCreator/MainForm.cs:151-152 | the line "1\0\t2" reads as the pair (1, 2) |
| Text.ShowNatValue | MapRouteCreator/MainForm.cs:108-110 | the decimal digits written for a number have that number as their value |
| Text.ParseShow | MapRouteCreator/MainForm.cs:152 | `Convert.ToInt32` reads back exactly the `int` that `int.ToString()` wrote |
| Text.ParseFields | MapRouteCreator/MainForm.cs:151-152 | the two integer fields of a line, `None` where `split[1]` or `Convert.ToInt32` throws; a line without a tab always fails |
| Text.PairLine | MapRouteCreator/MainForm.cs:114 | the written `a\tb` line is non-empty and holds no line break |
| Text.ParsePairLine | MapRouteCreator/MainForm.cs:114 | a written `a\tb` line parses back to `(a, b)` |
| NodeGraph.SquaredDistance | MapRouteCreator/MainForm.cs:75-80 | `CalcDist` before its square root is 0 for two equal points |
| NodeGraph.DistSymmetric | MapRouteCreator/MainForm.cs:75-80 | `CalcDist(n1, n2) == CalcDist(n2, n1)`, 32-bit wrap-around included |
| NodeGraph.WrappedSquareNegate | MapRouteCreator/MainForm.cs:77-79 | squaring a wrapped difference gives the same wrapped square as for the opposite difference |
| NodeGraph.FindById | MapRouteCreator/MainForm.cs:166 | `Nodes.Find(n => n.Id == id)`: the first node with that id, and `None` exactly when no node has it |
| NodeGraph.FindPositional | MapRouteCreator/MainForm.cs:171-172 | with positional ids, a lookup by id finds exactly the ids 0 .. Count-1, each at its own index |
| NodeGraph.Dist | MapRouteCreator/MainForm.cs:75-80 | `CalcDist` of two nodes at one place is 0; `DistSymmetric` gives its symmetry |
| NodeGraph.AddConnection | MapRouteCreator/MainForm.cs:49-60 | `Dictionary.Add`: true exactly when the neighbour is new; then the map gains exactly that neighbour at that distance and keeps the rest, id and place; on false nothing changes |
| NodeGraph.RemoveConnection | MapRouteCreator/MainForm.cs:62-73 | always true; the neighbour is gone, every other entry keeps its distance, id and place stay |
| NodeGraph.AddThenRemove | MapRouteCreator/MainForm.cs:49-73 | `AddConnection` of a new neighbour answers true; `RemoveConnection` then restores the map and also answers true |
| NodeGraph.Connect | MapRouteCreator/MainForm.cs:82-94 | `ConnectNodes` keeps every node's id and coordinates, and appends `(a, b)` to `Routes` exactly when it answers true |
| NodeGraph.ConnectDistinct | MapRouteCreator/MainForm.cs:82-94 | for two different nodes: true exactly when not yet joined; then both maps gain the other at the same distance and nothing else changes; on false nothing changes; the graph stays well formed |
| NodeGraph.ConnectSelf | MapRouteCreator/MainForm.cs:82-94 | `ConnectNodes(a, a)` answers false and records no route, but leaves `a` mapped to itself at distance 0 |
| NodeGraph.ConnectTwice | MapRouteCreator/MainForm.cs:82-94 | a repeated `ConnectNodes` on the same pair, in either order, answers false and changes nothing |
| NodeGraph.ConnectOutcome | MapRouteCreator/MainForm.cs:82-94 | `ConnectNodes` answers true exactly when the nodes differ and are not yet joined, grows `Routes` by exactly that pair, and keeps the graph well formed |
| NodeGraph.ConnectPreserves | MapRouteCreator/MainForm.cs:84-88 | when the first `AddConnection` of two different nodes succeeds, the second does too, and the graph stays well formed |
| NodeGraph.LinkSymmetric | MapRouteCreator/MainForm.cs:84-85 | adding each node to the other's map keeps the maps closed and symmetric |
| NodeGraph.LinkWeighted | MapRouteCreator/MainForm.cs:83-85 | adding both entries at `CalcDist` keeps every stored distance equal to `CalcDist` of its nodes |
| NodeGraph.LinkMatches | MapRouteCreator/MainForm.cs:84-87 | after both entries and the new route, neighbours are still exactly the nodes a route joins |
| NodeGraph.LinkSimple | MapRouteCreator/MainForm.cs:87 | appending a route between two different nodes not yet joined keeps `Routes` free of repeats and self-routes |
| NodeGraph.AddNode | MapRouteCreator/MainForm.cs:32-47 | one more node, with the next id, the given place and no neighbours; older nodes and `Routes` unchanged |
| NodeGraph.AddNodeWellFormed | MapRouteCreator/MainForm.cs:32-47 | a new node with the next id, no neighbours and any coordinates keeps the graph well formed and leaves every older node as it was |
| Serial.PairLines | MapRouteCreator/MainForm.cs:112-115 | one `id\tid` line per pair |
| Serial.CoordLines | MapRouteCreator/MainForm.cs:119-122 | one `X\tY` line per node |
| Serial.Layout | MapRouteCreator/MainForm.cs:106-132 | the document as lines: four header lines, one line per mark, node and route, and the two blank lines that close the marks and the coordinates |
| Serial.ExportText | MapRouteCreator/MainForm.cs:106-132 | the exported string is non-empty and ends with a line break |
| Serial.LayoutFrame | MapRouteCreator/MainForm.cs:106-132 | the document has 6 + marks + nodes + routes lines: the three counts, a blank line, and blank lines after the marks and after the coordinates |
| Serial.LayoutMark | MapRouteCreator/MainForm.cs:112-115 | route mark k is written on line 4 + k as its two ids |
| Serial.LayoutCoord | MapRouteCreator/MainForm.cs:117-122 | node k's coordinates come after the marks and their blank line, in creation order |
| Serial.LayoutRoute | MapRouteCreator/MainForm.cs:124-129 | connection k comes after the coordinates and their blank line, in connection order |
| Serial.ExportLayout | MapRouteCreator/MainForm.cs:106-132 | reading the exported text line by line gives exactly the layout |
| Serial.ExportEmpty | MapRouteCreator/MainForm.cs:106-132 | the empty state exports as "0\n0\n0\n\n\n\n" |
| Serial.Classify | MapRouteCreator/MainForm.cs:149-152 | a line ends a section exactly when it is empty |
| Serial.Section | MapRouteCreator/MainForm.cs:149-153 | a section is the run of pair lines up to a blank line, which it consumes; `None` when the lines run out first or a line is malformed |
| Serial.Decode | MapRouteCreator/MainForm.cs:143-167 | the lines read as four skipped header lines and the three sections; a decoded document accounts for every line, the sections' blank lines included |
| Serial.Rest | MapRouteCreator/MainForm.cs:163-167 | the connection section is a pair on every remaining line |
| Serial.Shift | MapRouteCreator/MainForm.cs:158 | `Convert.ToInt32(...) - 15` in unchecked `int` arithmetic: the value less 15, wrapping past `int.MinValue` |
| Serial.Placed | MapRouteCreator/MainForm.cs:155-158 | one node per coordinate line, with positional ids |
| Serial.ConnectAll | MapRouteCreator/MainForm.cs:163-167 | the connection lines in order: on success as many nodes, the old routes kept, and at most one new route per line |
| Serial.ResolveAll | MapRouteCreator/MainForm.cs:169-179 | the route marks in order: on success one pair of node indices per mark |
| Serial.Rebuild | MapRouteCreator/MainForm.cs:155-179 | a decoded document rebuilds into one node per coordinate line, one mark per mark line, and at most one route per connection line |
| Serial.Imported | MapRouteCreator/MainForm.cs:134-188 | what `Import` makes of the lines: on success the marks, nodes and routes fit in the lines read |
| Serial.Resolve | MapRouteCreator/MainForm.cs:166 | both ids found; the results are node indices |
| Serial.ConnectAllStuck | MapRouteCreator/MainForm.cs:163-167 | once a connection line names an unknown id, no later line rescues the import |
| Serial.ResolveAllStuck | MapRouteCreator/MainForm.cs:169-179 | once a route mark names an unknown id, no later mark rescues the import |
| Serial.ResolvePositional | MapRouteCreator/MainForm.cs:171-172 | with positional ids, a pair resolves exactly when both ids are node indices |
| Serial.ResolveAllSpec | MapRouteCreator/MainForm.cs:169-179 | the route marks resolve exactly when every id names a node, and then to those very ids |
| Serial.ConnectAllKeeps | MapRouteCreator/MainForm.cs:163-167 | connection lines that succeed on a well-formed graph leave it well formed, with as many nodes |
| Serial.ConnectAllDefined | MapRouteCreator/MainForm.cs:163-167 | the connection lines succeed exactly when every id names a node, and they keep every node's place |
| Serial.ConnectAllRoutes | MapRouteCreator/MainForm.cs:163-167 | connecting the lines in file order keeps the graph well formed and records exactly the lines that join two different, not yet joined nodes, in order; duplicates are skipped silently |
| Serial.FreshStep | MapRouteCreator/MainForm.cs:82-94 | one more line is recorded exactly when it joins two different nodes not yet joined |
| Serial.FreshOfSimple | MapRouteCreator/MainForm.cs:163-167 | lines that repeat no pair and join no node to itself are all recorded |
| Serial.PlacedWellFormed | MapRouteCreator/MainForm.cs:155-161 | the nodes created from the coordinate lines form a well-formed graph without connections |
| Serial.RebuildDefined | MapRouteCreator/MainForm.cs:155-179 | a decoded document rebuilds exactly when every connection and route mark names a created node |
| Serial.RebuildSpec | MapRouteCreator/MainForm.cs:155-179 | after a rebuild, node i has id i and sits at its written coordinates less 15 (wrapping); connections are the recorded lines in file order; marks are as written; the graph is well formed |
| Serial.ImportNeedsTwoBlankLines | MapRouteCreator/MainForm.cs:149-156 | without two blank lines after the header, `Import` fails |
| Serial.ImportRejectsMalformedLine | MapRouteCreator/MainForm.cs:149-166 | a non-empty line after the header that is not two integer fields makes `Import` fail |
| Serial.DecodeRejectsMalformed | MapRouteCreator/MainForm.cs:149-166 | no malformed line stands after the header of a document that decodes |
| Serial.ImportRejectsUnknownId | MapRouteCreator/MainForm.cs:163-179 | a connection or route mark naming an id that no node has makes `Import` fail |
| Serial.PlacedSnoc | MapRouteCreator/MainForm.cs:155-158 | one more coordinate line creates one node with the next id at the coordinates less 15 |
| Serial.ConnectAllSnoc | MapRouteCreator/MainForm.cs:163-166 | one more connection line is a `ConnectNodes` on the two nodes found, or fails when an id is unknown |
| Serial.ResolveAllStep | MapRouteCreator/MainForm.cs:169-178 | one more route mark appends the two nodes found, or fails the whole run when an id is unknown |
| Serial.ImportedSections | MapRouteCreator/MainForm.cs:149-179 | once the first two sections are read, the result depends only on the connection section and the rebuild |
| Serial.ConnectionsFail | MapRouteCreator/MainForm.cs:163-167 | a connection line naming an unknown id fails the connection section, whatever follows |
| Serial.ReadsAtSnoc | MapRouteCreator/MainForm.cs:149-152 | reading one more pair line extends the pairs read |
| Serial.SectionReads | MapRouteCreator/MainForm.cs:149-153 | pair lines closed by a blank line read as that section, and reading resumes after the blank line |
| Serial.SectionFails | MapRouteCreator/MainForm.cs:149-153 | pair lines followed by the end of the text or by a malformed line are no section |
| Serial.RestReads | MapRouteCreator/MainForm.cs:163-167 | pair lines up to the end read as the connection section |
| Serial.RestFails | MapRouteCreator/MainForm.cs:163-167 | a blank or malformed line among the connections fails the section |
| Serial.RestExtends | MapRouteCreator/MainForm.cs:163-167 | a connection section starts with the pairs read so far |
| Serial.ClassifyPairLine | MapRouteCreator/MainForm.cs:114 | a written pair line is read as that pair |
| Serial.TokensAppend | MapRouteCreator/MainForm.cs:149-166 | lines are classified one at a time |
| Serial.PairLinesTokens | MapRouteCreator/MainForm.cs:112-115 | the id lines written for in-range pairs read back as those pairs |
| Serial.CoordLinesTokens | MapRouteCreator/MainForm.cs:119-122 | the coordinate lines read back as the coordinates |
| Serial.LayoutTokens | MapRouteCreator/MainForm.cs:106-132 | the exported document reads as four header lines and the three sections, with their blank lines |
| Serial.SectionOf | MapRouteCreator/MainForm.cs:149-153 | pairs closed by a blank line read as that section wherever they stand |
| Serial.RestOf | MapRouteCreator/MainForm.cs:163-167 | trailing pairs read as the connection section |
| Serial.DecodeOf | MapRouteCreator/MainForm.cs:143-167 | whatever the four header lines hold, the three sections decode to their pairs |
| Serial.DecodeExport | MapRouteCreator/MainForm.cs:106-167 | the exported document decodes to the marks' ids, the coordinates and the connections' ids |
| Serial.AsEdgesAsPairs | MapRouteCreator/MainForm.cs:114 | ids written as `int` and read back are the same ids |
| Serial.ImportedExport | MapRouteCreator/MainForm.cs:106-188 | importing the exported text rebuilds the document `Export` wrote |
| Serial.ExportImportRoundTrip | MapRouteCreator/MainForm.cs:106-188 | importing what `Export` wrote succeeds and restores the same connections and route marks in order, and the same nodes and ids, each moved 15 up and left |
| Serial.RebuildWritten | MapRouteCreator/MainForm.cs:155-179 | rebuilding the written document of a well-formed state gives back its routes, marks and ids, with coordinates less 15 |
| Serial.Shifted | MapRouteCreator/MainForm.cs:158 | every node moved by −15, as many nodes as before |
| Serial.ExportImportExport | MapRouteCreator/MainForm.cs:106-188 | export, import, export: the same counts, route marks and connections, and every coordinate moved by −15 |
| Registry.NodeRegistry.constructor | MapRouteCreator/MainForm.cs:18-26 | the static initialisers: everything empty, `IdCounter` 0, nothing selected |
| Registry.NodeRegistry.CreateNode | MapRouteCreator/MainForm.cs:32-47 | the new node takes `IdCounter` as its id, the counter moves on, and the node is appended with no neighbours; the invariant is kept |
| Registry.NodeRegistry.AddConnection | MapRouteCreator/MainForm.cs:49-60 | true exactly when the neighbour was absent; then only that node's map gains it, otherwise nothing changes |
| Registry.NodeRegistry.RemoveConnection | MapRouteCreator/MainForm.cs:62-73 | always true; the neighbour is gone from that node's map, and nothing else changes |
| Registry.NodeRegistry.ConnectNodes | MapRouteCreator/MainForm.cs:82-94 | the new nodes, routes and answer are exactly `Connect` of the old ones |
| Registry.NodeRegistry.Clear | MapRouteCreator/MainForm.cs:96-104 | all lists empty, `IdCounter` 0, no selection, no route start, whatever the state before; so a second `Clear` changes nothing |
| Registry.NodeRegistry.Export | MapRouteCreator/MainForm.cs:106-132 | the text built with `+=` is exactly `ExportText` of the state |
| Registry.NodeRegistry.Import | MapRouteCreator/MainForm.cs:134-188 | true exactly when the lines hold an importable document, and then the state is what `Imported` describes; on false everything is cleared |
| Registry.NodeRegistry.PlaceNodes | MapRouteCreator/MainForm.cs:155-161 | the coordinate loop reads exactly `Section` and creates exactly the `Placed` nodes |
| Registry.NodeRegistry.ConnectLines | MapRouteCreator/MainForm.cs:163-167 | the connection loop succeeds exactly when `Rest` and `ConnectAll` do, and leaves `ConnectAll`'s graph |
| Registry.NodeRegistry.ConnectLine | MapRouteCreator/MainForm.cs:163-166 | one pass of the connection loop: a pair line whose ids both name nodes extends the lines read and `ConnectAll`'s graph; otherwise the whole section fails |
| Registry.NodeRegistry.ConnectIds | MapRouteCreator/MainForm.cs:166 | found exactly when both ids resolve; then the graph is `Connect` on the two nodes found, otherwise unchanged |
| Registry.NodeRegistry.ResolveMarks | MapRouteCreator/MainForm.cs:169-179 | true exactly when every mark resolves, and then `RoutesToFind` is exactly the resolved marks in order |
| Registry.ReadSection | MapRouteCreator/MainForm.cs:149-153 | the route-mark loop returns exactly `Section` |
| Registry.NodeRegistry.Clicked | MapRouteCreator/MainForm.cs:210-256 | the effect of each button and state, below; the invariant is kept |
| Registry.NodeRegistry.SelectClick | MapRouteCreator/MainForm.cs:213-241 | no selection: select the clicked node. Selected node clicked: deselect. Otherwise `ConnectNodes(selected, clicked)`, never on one node: on success left clears the selection and right moves it to the clicked node; on failure the selection stays |
| Registry.NodeRegistry.JoinSelected | MapRouteCreator/MainForm.cs:221-233 | the second click on another node: the graph becomes `Connect` of the two, true exactly when they were not yet joined; then left ends and right moves the selection, otherwise it stays |
| Registry.NodeRegistry.MarkClick | MapRouteCreator/MainForm.cs:242-255 | no route start: set it. Another node clicked: append (start, clicked) to `RoutesToFind` and reset the start. The start clicked again: nothing changes |
| Registry.AppendPairLines | MapRouteCreator/MainForm.cs:112-115 | the `foreach` appends exactly the pair lines to the text |
| Registry.AppendCoordLines | MapRouteCreator/MainForm.cs:119-122 | the `foreach` appends exactly the coordinate lines to the text |
| Registry.HeaderText | MapRouteCreator/MainForm.cs:108-110 | the three counts and the blank line are the first four lines of the document |

## Left out

- WinForms plumbing is not modelled: button geometry, fonts, `Controls.Add`, event wiring,
  painting, `Invalidate`, and the show/hide-distance toggle. None of it affects the graph.
- Colours and `Random` (`GetRandomColor`, every `BackColor`/`ForeColor` assignment) are not
  modelled. They are cosmetic and nondeterministic.
- `Math.Sqrt` in `CalcDist` is left out, because it is floating point. A stored distance is the
  radicand `dx*dx + dy*dy` in wrapping `int` arithmetic. `CalcDist` determines it, and the
  model stores it symmetrically.
- File and clipboard I/O and the dialogs are left out. `Import` takes the lines a
  `StreamReader` would return, and `ReadLines` says which lines a text gives. `Export` returns
  the string.
- `MainForm_MouseClick` (MapRouteCreator/MainForm.cs:198-203) is not modelled: it is a GUI
  event that only calls the constructor, which `CreateNode` models.
- Node references are modelled by node indices, which `Valid` keeps equal to the ids. The C#
  `Dictionary` keyed by `NodeButton` objects is a map keyed by id. No operation removes a
  node except `Clear`, so the two agree.
- `IdCounter` is unbounded. The source's `IdCounter++` would wrap after 2^31 nodes. The round
  trip lemmas therefore require at most 2^31 nodes, so that every id can be written as an `int`.
- Inside `Import`, the source parses the ids of a connection line inside the `Nodes.Find`
  lambda, so with no nodes a bad number is never parsed. The model parses first. Both orders
  end in an exception, and every exception leads to `Clear` and false, so the outcome is the
  same.
- Numbers are read and written for the invariant culture. `Convert.ToInt32` takes the six .NET
  white-space characters and trailing NUL characters around an optional sign and ASCII digits.
  `ShowInt` writes '-' for a negative value, as `$"{node.X}"` (MapRouteCreator/MainForm.cs:121)
  and the other interpolations do there. Culture-specific signs and digits, read or written, are
  not modelled.
- Exceptions other than the ones the format causes (I/O errors, running out of memory) are not
  modelled.
- Registry.NodeRegistry.ConnectLines: on failure it does not state that the invariant still
  holds. The caller, `Import`, clears everything on failure, so nothing relies on that state.
- The empty state exports as "0\n0\n0\n\n\n\n", with six line breaks: three count lines, the
  header's blank line, and the two section-closing blank lines, as the code writes them.
- Registry.NodeRegistry.Clicked: requires `clicked < |nodes|`, so it cannot express a click on a
  button that is no longer in `Nodes`. Such buttons exist: `Import` wires each node it creates to
  `Clicked` and adds it to the form (MapRouteCreator/MainForm.cs:159-160), and a later failure
  clears `Nodes` but leaves those buttons on the form (MapRouteCreator/MainForm.cs:183-186,
  326-330). Selecting one and then clicking a later node calls `ConnectNodes` on a node outside
  `Nodes` (MapRouteCreator/MainForm.cs:221). `Routes` then holds a non-member, two nodes may
  both have id 0, and `Export` writes `0\t0`, which imports again as a connection of a node to
  itself. The model covers only clicks on nodes in `Nodes`.
