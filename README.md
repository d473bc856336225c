# HAL graph builder, modelled in Dafny

`hal-graph-mk.py` draws the HAL namespace of a running Machinekit/LinuxCNC
instance as a Graphviz digraph. Its core is `HALAnalyzer.parse`:

- it walks every pin and files each pin that is linked to a signal twice:
  - under the signal's name in `sig_dict`;
  - under its component-instance group (`groupname`) in `pin_group_dict`;
- it adds one node per signal, showing the value of the first pin seen on
  that signal;
- it adds one node per group, listing one row (a port) per member pin;
- it adds one edge per (signal, pin) pair. The writer pin's edge goes from
  the pin to the signal and has no arrowhead. Every other pin's edge goes
  from the signal to the pin.

The model has five modules:

- `PyStrings` (`py_strings.dfy`) holds the Python 2 string operations the
  builder uses: `split` with a one-character separator, `replace` of one
  character, and `join` as the inverse of `split`.
- `HalNames` (`hal_names.dfy`) holds the naming helpers:
  - `groupname` is `GroupName`;
  - `todotname` is `ToDotName`;
  - a pin's short name (`name.split('.')[-1]`) is `LastSegment`.
- `HalGraph` (`hal_graph.dfy`) holds the data model and specification
  functions:
  - what each loop of `parse` builds is a function of its inputs: `Bucket`
    for the two dictionaries, `SignalNodes`, `GroupNodes` and `Edges`;
  - it also holds the lemmas about those functions.
- `HalAnalyzer` (`hal_analyzer.dfy`) holds the class `HalAnalyzer`:
  - its fields are the graph and the two dictionaries;
  - `Parse` changes them in place, loop by loop, and each loop is proved
    against the specification functions.
- `HalScenarios` (`hal_scenarios.dfy`) works one namespace through the
  whole builder: one instance, a writer pin and a reader pin on one signal.

The live HAL namespace becomes the inputs of `Parse`:

- `hal.pins()` becomes a sequence of `Pin` values: name, linked signal, and
  current value as text;
- `hal.signals()` becomes a sequence of `Signal` values: name, writer pin
  name, and linked pin names.

The pydot graph is a record of the nodes and edges added to it, in order.
The HTML table labels are modelled by their content: a signal node's name
and value, and a group node's title and rows (port name and text). The
markup is not modelled.

Two points about the code as written, which the model follows:

- `groupname` (line 51) evidently means to test that the second segment
  of a name with more than two segments is a non-negative number, with
  `int(pstr[1] > -1)`. As written it compares a `str` with an `int`,
  which Python 2 always answers with True, so the test always passes and
  the `except` branch never runs. `GroupName` takes the first two segments
  of any name that has more than two; `GroupNameThreeSegments` proves this
  for any second segment.
- `parse` does not clear the graph: it resets the two dictionaries and
  appends to whatever the graph already holds, so `Parse` is specified
  relative to `old(graph)`. Both callers build a fresh analyzer just
  before calling `parse` (`reload`, lines 142-143, and the command-line
  path, lines 175-176), so in the program the graph is always empty then.

The namespace is consistent in two directions. `Wired` says every pin a
signal lists is a pin linked to that signal; `Listed` says every linked
pin is listed exactly once by the signals bearing its signal's name. For
the proofs about edges, `EdgePins` records next to each edge the (signal
name, pin name) pair the loops draw it for.

Dictionary iteration order (`iteritems`, line 86) is not specified by
Python 2. The group loop visits the keys in an arbitrary order: `:|` picks
the next remaining key. `Parse` returns that order as a ghost value and
proves it lists every key exactly once (`KeyOrder`).

## Model

| member | source | states |
|---|---|---|
| PyStrings.Split | linuxcnc/configs/koppi-cnc/hal-graph-mk.py:48 | `split('.')` yields at least one piece, and no piece contains the separator |
| PyStrings.JoinSplit | linuxcnc/configs/koppi-cnc/hal-graph-mk.py:48 | joining the pieces of a split with the separator gives back the original string, so the split loses no character |
| PyStrings.SplitJoin | linuxcnc/configs/koppi-cnc/hal-graph-mk.py:48 | splitting the join of separator-free segments gives back exactly those segments |
| PyStrings.Replace | linuxcnc/configs/koppi-cnc/hal-graph-mk.py:58 | `replace` keeps the length, turns every occurrence of the old character into the new one and leaves every other character unchanged |
| HalNames.GroupNameIsPrefix | linuxcnc/configs/koppi-cnc/hal-graph-mk.py:47-55 | the group key is a prefix of the pin name, followed in the name by a dot or by nothing, and contains at most one dot |
| HalNames.GroupNameOfSegments | linuxcnc/configs/koppi-cnc/hal-graph-mk.py:47-55 | for a name made of dot-free segments: the first two segments joined by a dot when there are more than two, otherwise the first segment |
| HalNames.GroupNameThreeSegments | linuxcnc/configs/koppi-cnc/hal-graph-mk.py:51-52 | `a.b.c` is grouped under `a.b` whatever `b` holds; the guard on line 51 never rejects a non-numeric instance |
| HalNames.ToDotName | linuxcnc/configs/koppi-cnc/hal-graph-mk.py:57-58 | same length as the name; each `.` and `-` becomes `_`, every other character is kept; the result contains no `.` and no `-` |
| HalNames.ToDotNameIdempotent | linuxcnc/configs/koppi-cnc/hal-graph-mk.py:57-58 | applying `todotname` to its own result changes nothing |
| HalNames.ToDotNameCollision | linuxcnc/configs/koppi-cnc/hal-graph-mk.py:57-58 | `todotname` is not injective: `a.b`, `a-b` and `a_b` share the DOT name `a_b` |
| HalNames.LastSegmentIsSuffix | linuxcnc/configs/koppi-cnc/hal-graph-mk.py:89 | the short name contains no dot and ends the pin name; it is the whole name or follows the last dot |
| HalNames.LastSegmentOfSegments | linuxcnc/configs/koppi-cnc/hal-graph-mk.py:89-90 | the short name of a name made of dot-free segments is its last segment |
| HalNames.LastSegmentThreeSegments | linuxcnc/configs/koppi-cnc/hal-graph-mk.py:89 | `a.b.c` has short name `c` |
| HalGraph.WhereCount | linuxcnc/configs/koppi-cnc/hal-graph-mk.py:63-83 | the list of pins with a given key keeps each pin with that key exactly as often as the input has it, and no other pin |
| HalGraph.BucketStep | linuxcnc/configs/koppi-cnc/hal-graph-mk.py:65-83 | loop-invariant bridge for `ScanPin`: one pin step of the dictionaries. An unbound pin leaves both unchanged; a bound pin is appended under its signal's name and under its group name, and a missing key starts an empty list |
| HalGraph.BucketIsWhere | linuxcnc/configs/koppi-cnc/hal-graph-mk.py:61-83 | the dictionary has a key exactly when some pin has that key, and under it holds exactly the pins with that key, in input order |
| HalGraph.RecordedPins | linuxcnc/configs/koppi-cnc/hal-graph-mk.py:63-83 | an unbound pin is in no list of either dictionary; a bound pin is in `sig_dict` under its signal and in `pin_group_dict` under its group, as often as it occurs in the input |
| HalGraph.UnboundPinIgnored | linuxcnc/configs/koppi-cnc/hal-graph-mk.py:65 | a pin linked to no signal changes neither dictionary and adds no node |
| HalGraph.SignalNodesStep | linuxcnc/configs/koppi-cnc/hal-graph-mk.py:68-77 | loop-invariant bridge for `ScanPins`: one pin step adds a signal node exactly when the pin is bound and its signal is not yet in `sig_dict` |
| HalGraph.SignalNodePerSignal | linuxcnc/configs/koppi-cnc/hal-graph-mk.py:68-77 | there are as many signal nodes as keys of `sig_dict`; their names are distinct and are exactly those keys; each node shows the value of the first pin of its signal |
| HalGraph.SignalNodeValues | linuxcnc/configs/koppi-cnc/hal-graph-mk.py:72-77 | every signal node is labelled with the value of the first pin, in input order, that is linked to its signal |
| HalGraph.Rows | linuxcnc/configs/koppi-cnc/hal-graph-mk.py:88-91 | one row per member pin in member order; each row's text is the pin's short name and its port is the DOT form of the short name |
| HalGraph.GroupNodes | linuxcnc/configs/koppi-cnc/hal-graph-mk.py:86-93 | one node per visited group, in visiting order: named `todotname` of the group key, titled with the key, with the rows of that group's pins |
| HalGraph.GroupNodesStep | linuxcnc/configs/koppi-cnc/hal-graph-mk.py:86-93 | loop-invariant bridge for `AddGroupNodes`: visiting one more group appends exactly that group's node |
| HalGraph.GroupNodePerGroup | linuxcnc/configs/koppi-cnc/hal-graph-mk.py:86-93 | there are as many group nodes as keys of `pin_group_dict`; their titles are distinct and are exactly those keys; each node lists the bound pins of its group in input order |
| HalGraph.SignalEdges | linuxcnc/configs/koppi-cnc/hal-graph-mk.py:100-106 | one edge per pin of the signal, in the signal's pin order; edge j is the edge of pin j |
| HalGraph.SignalEdgesStep | linuxcnc/configs/koppi-cnc/hal-graph-mk.py:100-106 | loop-invariant bridge for `AddPinEdges`: one inner step appends the edge of the next pin |
| HalGraph.Edges | linuxcnc/configs/koppi-cnc/hal-graph-mk.py:98-106 | there are as many edges as (signal, pin) pairs |
| HalGraph.EdgesStep | linuxcnc/configs/koppi-cnc/hal-graph-mk.py:98-106 | loop-invariant bridge for `AddEdges`: one outer step appends the edges of the next signal's pins |
| HalGraph.EdgeOrigin | linuxcnc/configs/koppi-cnc/hal-graph-mk.py:98-106 | every edge is the edge of some pin of some signal |
| HalGraph.EdgePinsMatch | linuxcnc/configs/koppi-cnc/hal-graph-mk.py:98-106 | every edge joins the node of the signal it is drawn for and the port of the pin it is drawn for, in one direction or the other |
| HalGraph.EdgePinsOrigin | linuxcnc/configs/koppi-cnc/hal-graph-mk.py:98-106 | the pair each edge is drawn for is a pin listed by a signal |
| HalGraph.EdgePinsCount | linuxcnc/configs/koppi-cnc/hal-graph-mk.py:98-106 | as many edges are drawn for a (signal, pin) pair as the signals of that name list that pin |
| HalGraph.BoundPinOneEdge | linuxcnc/configs/koppi-cnc/hal-graph-mk.py:98-106 | when every linked pin is listed exactly once, exactly one edge is drawn for each linked pin, and it joins the pin's port and its signal's node |
| HalGraph.EdgeDirection | linuxcnc/configs/koppi-cnc/hal-graph-mk.py:101-106 | among a signal's edges, as many go into the signal node as the writer appears among its pins, and all the others leave it |
| HalGraph.EdgesResolve | linuxcnc/configs/koppi-cnc/hal-graph-mk.py:68-106 | when every pin a signal lists is a pin linked to that signal, every edge joins the node of the signal it is drawn for and the port of the pin it is drawn for; that signal has its signal node, and the pin has its row in the node of its own group (titled with the group name). So both ends of every edge name a node `parse` added |
| HalGraph.PinEdgeResolves | linuxcnc/configs/koppi-cnc/hal-graph-mk.py:100-106 | in such a namespace, for any pin of any signal, the signal has its node and the pin has its row in the node of its own group |
| HalGraph.EdgeResolves | linuxcnc/configs/koppi-cnc/hal-graph-mk.py:68-106 | in such a namespace, the edge at any position: the node of its signal and the row of its pin, in its own group's node, are in the graph, and both its ends name a node |
| HalGraph.SignalResolves | linuxcnc/configs/koppi-cnc/hal-graph-mk.py:68-77 | the signal of every bound pin has a signal node |
| HalGraph.PinResolves | linuxcnc/configs/koppi-cnc/hal-graph-mk.py:86-93 | every bound pin has its row in the node of its own group: the node titled with its group name and named after that name's DOT form |
| HalAnalyzer.HalAnalyzer.constructor | linuxcnc/configs/koppi-cnc/hal-graph-mk.py:36-45 | a new analyzer has an empty graph and empty dictionaries |
| HalAnalyzer.HalAnalyzer.Parse | linuxcnc/configs/koppi-cnc/hal-graph-mk.py:60-106 | afterwards `sig_dict` and `pin_group_dict` are the dictionaries of the pins. The graph is the old graph followed by the signal nodes, the group nodes in an order listing every group once, and the edges |
| HalAnalyzer.HalAnalyzer.ScanPins | linuxcnc/configs/koppi-cnc/hal-graph-mk.py:61-83 | the pin loop rebuilds both dictionaries from empty and appends the signal nodes; it adds no edge |
| HalAnalyzer.HalAnalyzer.ScanPin | linuxcnc/configs/koppi-cnc/hal-graph-mk.py:64-83 | one pass of the pin loop takes both dictionaries from the first i pins to the first i+1. It adds the signal's node exactly when the signal was not yet a key |
| HalAnalyzer.HalAnalyzer.AddGroupNodes | linuxcnc/configs/koppi-cnc/hal-graph-mk.py:86-93 | the group loop visits every key of `pin_group_dict` once and appends their nodes in visiting order, changing nothing else |
| HalAnalyzer.HalAnalyzer.AddGroupNode | linuxcnc/configs/koppi-cnc/hal-graph-mk.py:87-93 | one group appends exactly that group's node |
| HalAnalyzer.HalAnalyzer.GroupRows | linuxcnc/configs/koppi-cnc/hal-graph-mk.py:88-91 | the row loop produces the rows of the member pins, in member order |
| HalAnalyzer.HalAnalyzer.AddEdges | linuxcnc/configs/koppi-cnc/hal-graph-mk.py:96-106 | the signal loop appends the edges of every signal, in signal order, and changes no node |
| HalAnalyzer.HalAnalyzer.AddPinEdges | linuxcnc/configs/koppi-cnc/hal-graph-mk.py:100-106 | the pin loop of one signal appends the edges of its pins, in its pin order |
| HalScenarios.PairSignalNode | linuxcnc/configs/koppi-cnc/hal-graph-mk.py:68-77 | two pins on one signal give one signal node, showing the value of the pin listed first |
| HalScenarios.PairGroup | linuxcnc/configs/koppi-cnc/hal-graph-mk.py:78-83 | pins `c.i.a` and `c.i.b` are filed together under `c.i` |
| HalScenarios.PairGroupNode | linuxcnc/configs/koppi-cnc/hal-graph-mk.py:86-93 | their group node is named `todotname("c.i")`, titled `c.i`, with the rows `a` and `b` |
| HalScenarios.PairEdges | linuxcnc/configs/koppi-cnc/hal-graph-mk.py:98-106 | a writer and a reader give two edges: writer row to signal without arrowhead, then signal to reader row |

## Left out

- The GTK window `HALGraphWindow` is not modelled (lines 122-165): rendering, timer-driven reload and the click dialog are user-interface I/O.
- `write_svg` (lines 108-117) and `to_string` (lines 119-120) are not modelled. They run Graphviz and serialise the pydot graph, which is foreign code.
- `main` (lines 167-179) is not modelled: it handles command-line I/O only.
- The live `hal.pins()`, `hal.Pin`, `hal.signals()` and `hal.Signal` calls are replaced by the inputs of `Parse`. The model assumes a signal node's name (`p.signame`) is the signal's name (`s.name`).
- Pin values (`str(p.get())`) are opaque text: the number formatting of `str` is not modelled.
- The HTML markup of node labels is not modelled, and neither are the graph attributes (`rankdir`, `splines`, `overlap`, `start`), node `shape`, or the edge attributes `penwidth` and `splines`. Nodes keep only their name, title or value, and rows. Edges keep their ends and whether they have an arrowhead.
- Endpoints are kept as structured values (`NodeEnd`, `PortEnd`), not as the `"group:port"` text pydot parses.
- Graphviz merging of statements that name the same node is not modelled: the graph lists every node added. `ToDotNameCollision` shows that two groups can get one DOT name.
- `HalAnalyzer.HalAnalyzer.constructor`: the dictionaries are set to empty here, while the Python constructor only creates the graph. `parse` resets both dictionaries before any use, so nothing observable differs.
- `HalAnalyzer.HalAnalyzer.Parse`: the order in which `iteritems` yields the groups is any order that lists each group once, not the order CPython 2 happens to produce.
