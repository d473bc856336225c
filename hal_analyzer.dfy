/**
  The `HALAnalyzer` object: a graph that `parse` extends in place, and the
  two dictionaries `parse` rebuilds, one listing the pins of each signal and
  one listing the pins of each component-instance group.
 */
module HalAnalyzer {
  import opened HalNames
  import opened HalGraph

  class HalAnalyzer {
    /** The pydot digraph, as the nodes and edges added to it so far. */
    var graph: Graph
    /** `pin_group_dict`: group name to the bound pins of that group. */
    var pinGroupDict: map<string, seq<Pin>>
    /** `sig_dict`: signal name to the pins linked to that signal. */
    var sigDict: map<string, seq<Pin>>

    /** A new analyzer holds an empty graph. */
    constructor()
      ensures graph == Graph([], [])
      ensures pinGroupDict == map[] && sigDict == map[]
    {
      graph := Graph([], []);
      pinGroupDict := map[];
      sigDict := map[];
    }

    /** `parse`, reading the HAL namespace from `pins` (what `hal.pins()`
        lists) and `signals` (what `hal.signals()` lists). The groups are
        visited in some order, `groupOrder`, that lists every group once.
        Both dictionaries are rebuilt from scratch; the graph keeps what it
        held and gains the signal nodes, then the group nodes, then the
        edges. */
    method Parse(pins: seq<Pin>, signals: seq<Signal>) returns (ghost groupOrder: seq<string>)
      modifies this
      ensures sigDict == Bucket(pins, SignalKey)
      ensures pinGroupDict == Bucket(pins, GroupKey)
      ensures KeyOrder(groupOrder, pinGroupDict.Keys)
      ensures graph == BuildGraph(old(graph), pins, signals, groupOrder)
    {
      ScanPins(pins);
      groupOrder := AddGroupNodes();
      AddEdges(signals);
    }

    /** The pin loop of `parse`: both dictionaries start empty; each bound
        pin is appended under its signal's name and under its group name,
        and a pin whose signal is new adds that signal's node. */
    method ScanPins(pins: seq<Pin>)
      modifies this
      ensures sigDict == Bucket(pins, SignalKey)
      ensures pinGroupDict == Bucket(pins, GroupKey)
      ensures graph == Graph(old(graph).nodes + SignalNodes(pins), old(graph).edges)
    {
      pinGroupDict := map[];
      sigDict := map[];
      var i := 0;
      while i < |pins|
        invariant 0 <= i <= |pins|
        invariant sigDict == Bucket(pins[..i], SignalKey)
        invariant pinGroupDict == Bucket(pins[..i], GroupKey)
        invariant graph.nodes == old(graph).nodes + SignalNodes(pins[..i])
        invariant graph.edges == old(graph).edges
      {
        SignalNodesStep(pins, i);
        ghost var added := if pins[i].signal.Some? && pins[i].signal.value !in sigDict
          then [SignalNode(pins[i].signal.value, pins[i].value)] else [];
        AppendAssoc(old(graph).nodes, SignalNodes(pins[..i]), added);
        ScanPin(pins, i);
        i := i + 1;
      }
      assert pins[..|pins|] == pins;
    }

    /** The body of the pin loop for pin `i`: a bound pin is appended to
        the list of its signal and to the list of its group, each list
        created on first use, and the first pin of a signal adds the
        signal's node, showing that pin's value. */
    method ScanPin(pins: seq<Pin>, i: nat)
      requires i < |pins|
      requires sigDict == Bucket(pins[..i], SignalKey)
      requires pinGroupDict == Bucket(pins[..i], GroupKey)
      modifies this
      ensures sigDict == Bucket(pins[..i + 1], SignalKey)
      ensures pinGroupDict == Bucket(pins[..i + 1], GroupKey)
      ensures graph.nodes == old(graph).nodes +
        if pins[i].signal.Some? && pins[i].signal.value !in old(sigDict)
        then [SignalNode(pins[i].signal.value, pins[i].value)] else []
      ensures graph.edges == old(graph).edges
    {
      var p := pins[i];
      BucketStep(pins, i);
      if p.signal.Some? {
        var s := p.signal.value;
        if s in sigDict {
          sigDict := sigDict[s := sigDict[s] + [p]];
        } else {
          assert Lookup(sigDict, s) + [p] == [p];
          sigDict := sigDict[s := [p]];
          graph := graph.(nodes := graph.nodes + [SignalNode(s, p.value)]);
        }
        var n := GroupName(p.name);
        if n in pinGroupDict {
          pinGroupDict := pinGroupDict[n := pinGroupDict[n] + [p]];
        } else {
          assert Lookup(pinGroupDict, n) + [p] == [p];
          pinGroupDict := pinGroupDict[n := [p]];
        }
      } else {
        assert old(graph).nodes + [] == old(graph).nodes;
      }
    }

    /** The group loop of `parse`: one node per key of the group dictionary,
        in some order `order` that visits every key once; each node lists one
        row per member pin, in member order. */
    method AddGroupNodes() returns (ghost order: seq<string>)
      modifies this
      ensures KeyOrder(order, pinGroupDict.Keys)
      ensures graph == Graph(old(graph).nodes + GroupNodes(order, pinGroupDict), old(graph).edges)
      ensures pinGroupDict == old(pinGroupDict) && sigDict == old(sigDict)
    {
      var remaining := pinGroupDict.Keys;
      order := [];
      while remaining != {}
        invariant remaining <= pinGroupDict.Keys
        invariant forall g :: g in order ==> g in pinGroupDict && g !in remaining
        invariant forall g :: g in pinGroupDict ==> g in order || g in remaining
        invariant forall a, b :: 0 <= a < b < |order| ==> order[a] != order[b]
        invariant graph.nodes == old(graph).nodes + GroupNodes(order, pinGroupDict)
        invariant graph.edges == old(graph).edges
        invariant pinGroupDict == old(pinGroupDict) && sigDict == old(sigDict)
        decreases remaining
      {
        var g :| g in remaining;
        GroupNodesStep(order, g, pinGroupDict);
        AppendAssoc(old(graph).nodes, GroupNodes(order, pinGroupDict), [GroupNodeOf(g, pinGroupDict[g])]);
        AddGroupNode(g);
        order := order + [g];
        remaining := remaining - {g};
      }
    }

    /** The body of the group loop for group `g`: a node named after the DOT
        form of `g`, titled `g`, with one row per member pin. */
    method AddGroupNode(g: string)
      requires g in pinGroupDict
      modifies this
      ensures pinGroupDict == old(pinGroupDict) && sigDict == old(sigDict)
      ensures graph == Graph(old(graph).nodes + [GroupNodeOf(g, pinGroupDict[g])], old(graph).edges)
    {
      var rows := GroupRows(pinGroupDict[g]);
      graph := graph.(nodes := graph.nodes + [GroupNode(ToDotName(g), g, rows)]);
    }

    /** The row loop for one group: the short name of each member pin, and
        its DOT form as port. */
    static method GroupRows(members: seq<Pin>) returns (rows: seq<Row>)
      ensures rows == Rows(members)
    {
      rows := [];
      var j := 0;
      while j < |members|
        invariant 0 <= j <= |members|
        invariant rows == Rows(members[..j])
      {
        assert members[..j + 1][..j] == members[..j];
        var short := LastSegment(members[j].name);
        rows := rows + [Row(ToDotName(short), short)];
        j := j + 1;
      }
      assert members[..|members|] == members;
    }

    /** The signal loop of `parse`: for each signal, in order, the edges of
        its pins. */
    method AddEdges(signals: seq<Signal>)
      modifies this
      ensures graph == Graph(old(graph).nodes, old(graph).edges + Edges(signals))
      ensures pinGroupDict == old(pinGroupDict) && sigDict == old(sigDict)
    {
      var k := 0;
      while k < |signals|
        invariant 0 <= k <= |signals|
        invariant graph.nodes == old(graph).nodes
        invariant graph.edges == old(graph).edges + Edges(signals[..k])
        invariant pinGroupDict == old(pinGroupDict) && sigDict == old(sigDict)
      {
        EdgesStep(signals, k);
        AppendAssoc(old(graph).edges, Edges(signals[..k]), SignalEdges(signals[k], signals[k].pinNames));
        AddPinEdges(signals[k]);
        k := k + 1;
      }
      assert signals[..|signals|] == signals;
    }

    /** The inner loop for one signal `s`: one edge per pin linked to it, in
        its pin order; from the pin for the writer, into the pin otherwise. */
    method AddPinEdges(s: Signal)
      modifies this
      ensures graph == Graph(old(graph).nodes, old(graph).edges + SignalEdges(s, s.pinNames))
      ensures pinGroupDict == old(pinGroupDict) && sigDict == old(sigDict)
    {
      var j := 0;
      while j < |s.pinNames|
        invariant 0 <= j <= |s.pinNames|
        invariant graph.nodes == old(graph).nodes
        invariant graph.edges == old(graph).edges + SignalEdges(s, s.pinNames[..j])
        invariant pinGroupDict == old(pinGroupDict) && sigDict == old(sigDict)
      {
        var name := s.pinNames[j];
        SignalEdgesStep(s, s.pinNames, j);
        AppendAssoc(old(graph).edges, SignalEdges(s, s.pinNames[..j]), [PinEdge(s, name)]);
        var n1 := PortEnd(ToDotName(GroupName(name)), ToDotName(LastSegment(name)));
        var n2 := NodeEnd(s.name);
        if s.writer == Some(name) {
          graph := graph.(edges := graph.edges + [Edge(n1, n2, NoArrow)]);
        } else {
          graph := graph.(edges := graph.edges + [Edge(n2, n1, Normal)]);
        }
        j := j + 1;
      }
      assert s.pinNames[..|s.pinNames|] == s.pinNames;
    }
  }
}
