/**
  What `HALAnalyzer.parse` builds, stated as functions of its inputs: the
  two dictionaries it fills while walking the pins, the signal nodes and
  group nodes it adds, and the edges it adds while walking the signals.
  The live HAL namespace is replaced by two input sequences, and the pydot
  graph by a record of node and edge sequences.
 */
module HalGraph {
  import opened HalNames

  datatype Option<T> = None | Some(value: T)

  /** A HAL pin as the builder reads it: its dotted name, the name of the
      signal linked to it if there is one, and `str(p.get())`, its current
      value as text (an opaque token here). */
  datatype Pin = Pin(name: string, signal: Option<string>, value: string)

  /** A HAL signal: its name, the name of its writer pin (None when it has
      no writer), and the names of the pins linked to it. */
  datatype Signal = Signal(name: string, writer: Option<string>, pinNames: seq<string>)

  /** One row of a group node's table: its port name and its text. */
  datatype Row = Row(port: string, text: string)

  /** A node of the graph. A signal node is named after the signal and shows
      a value under the name; a group node is named after the DOT form of
      its group key, shows the key as its title and one row per pin. */
  datatype Node =
    | SignalNode(name: string, value: string)
    | GroupNode(name: string, title: string, rows: seq<Row>)

  /** An edge endpoint: a node by name, or `node:port`, a row of a group
      node. */
  datatype Endpoint = NodeEnd(node: string) | PortEnd(node: string, port: string)

  /** Writer edges are drawn with `arrowhead="none"`. */
  datatype Arrowhead = Normal | NoArrow

  datatype Edge = Edge(tail: Endpoint, head: Endpoint, arrowhead: Arrowhead)

  /** The pydot graph, as the sequences of nodes and edges added to it. */
  datatype Graph = Graph(nodes: seq<Node>, edges: seq<Edge>)

  // ---------------------------------------------------------------------
  // The two dictionaries

  /** Key of a pin in `sig_dict`: its signal's name; unbound pins have none. */
  function SignalKey(p: Pin): Option<string>
  {
    p.signal
  }

  /** Key of a pin in `pin_group_dict`: its group name, for bound pins only. */
  function GroupKey(p: Pin): Option<string>
  {
    if p.signal.Some? then Some(GroupName(p.name)) else None
  }

  /** The pins whose key is `k`, in input order. */
  function Where(pins: seq<Pin>, key: Pin -> Option<string>, k: string): (r: seq<Pin>)
    ensures |r| <= |pins|
  {
    if |pins| == 0 then []
    else (if key(pins[0]) == Some(k) then [pins[0]] else []) + Where(pins[1..], key, k)
  }

  /** `Where` keeps a pin with key `k` as often as it occurs in `pins`, and
      any other pin never. */
  lemma {:induction false} WhereCount(pins: seq<Pin>, key: Pin -> Option<string>, k: string, p: Pin)
    ensures multiset(Where(pins, key, k))[p] == if key(p) == Some(k) then multiset(pins)[p] else 0
  {
    if |pins| > 0 {
      assert pins == [pins[0]] + pins[1..];
      WhereCount(pins[1..], key, k, p);
    }
  }

  /** The dictionary the pin loop builds: each pin with a key is appended to
      the list under its key, a new key starting a one-pin list. */
  function Bucket(pins: seq<Pin>, key: Pin -> Option<string>): map<string, seq<Pin>>
  {
    if |pins| == 0 then map[]
    else
      var m := Bucket(pins[..|pins| - 1], key);
      var p := pins[|pins| - 1];
      match key(p)
      case None => m
      case Some(k) => m[k := Lookup(m, k) + [p]]
  }

  /** One step of the pin loop: taking pin `i` into account appends it to
      both dictionaries under its keys, when it is bound. */
  lemma {:induction false} BucketStep(pins: seq<Pin>, i: nat)
    requires i < |pins|
    ensures pins[i].signal.None? ==>
      && Bucket(pins[..i + 1], SignalKey) == Bucket(pins[..i], SignalKey)
      && Bucket(pins[..i + 1], GroupKey) == Bucket(pins[..i], GroupKey)
    ensures pins[i].signal.Some? ==>
      && Bucket(pins[..i + 1], SignalKey) == Bucket(pins[..i], SignalKey)[pins[i].signal.value :=
           Lookup(Bucket(pins[..i], SignalKey), pins[i].signal.value) + [pins[i]]]
      && Bucket(pins[..i + 1], GroupKey) == Bucket(pins[..i], GroupKey)[GroupName(pins[i].name) :=
           Lookup(Bucket(pins[..i], GroupKey), GroupName(pins[i].name)) + [pins[i]]]
  {
    assert pins[..i + 1][..i] == pins[..i];
  }

  /** The list under `k`, empty when `k` is absent. */
  function Lookup(m: map<string, seq<Pin>>, k: string): seq<Pin>
  {
    if k in m then m[k] else []
  }

  lemma {:induction false} WhereSnoc(pins: seq<Pin>, p: Pin, key: Pin -> Option<string>, k: string)
    ensures Where(pins + [p], key, k) == Where(pins, key, k) + (if key(p) == Some(k) then [p] else [])
  {
    if |pins| > 0 {
      assert (pins + [p])[1..] == pins[1..] + [p];
      WhereSnoc(pins[1..], p, key, k);
    } else {
      assert pins + [p] == [p];
    }
  }

  /** The dictionary holds a key exactly when some pin has that key, and
      under it exactly the pins with that key, in the order they came. */
  lemma {:induction false} BucketIsWhere(pins: seq<Pin>, key: Pin -> Option<string>)
    ensures forall k :: k in Bucket(pins, key) <==> Where(pins, key, k) != []
    ensures forall k :: Lookup(Bucket(pins, key), k) == Where(pins, key, k)
  {
    if |pins| > 0 {
      var prefix, p := pins[..|pins| - 1], pins[|pins| - 1];
      assert pins == prefix + [p];
      BucketIsWhere(prefix, key);
      forall k ensures Where(pins, key, k) == Where(prefix, key, k) + (if key(p) == Some(k) then [p] else []) {
        WhereSnoc(prefix, p, key, k);
      }
    }
  }

  /** A pin with no signal is recorded in neither dictionary; a bound pin is
      recorded in each exactly as often as it occurs in the input, under its
      signal's name and under its group name. */
  lemma {:induction false} RecordedPins(pins: seq<Pin>, p: Pin)
    ensures p.signal.None? ==> forall k :: p !in Lookup(Bucket(pins, SignalKey), k) && p !in Lookup(Bucket(pins, GroupKey), k)
    ensures p.signal.Some? ==>
      && multiset(Lookup(Bucket(pins, SignalKey), p.signal.value))[p] == multiset(pins)[p]
      && multiset(Lookup(Bucket(pins, GroupKey), GroupName(p.name)))[p] == multiset(pins)[p]
  {
    BucketIsWhere(pins, SignalKey);
    BucketIsWhere(pins, GroupKey);
    if p.signal.None? {
      forall k ensures p !in Lookup(Bucket(pins, SignalKey), k) && p !in Lookup(Bucket(pins, GroupKey), k) {
        WhereCount(pins, SignalKey, k, p);
        WhereCount(pins, GroupKey, k, p);
      }
    } else {
      WhereCount(pins, SignalKey, p.signal.value, p);
      WhereCount(pins, GroupKey, GroupName(p.name), p);
    }
  }

  // ---------------------------------------------------------------------
  // Signal nodes

  /** The signal nodes the pin loop adds: a pin whose signal is not yet in
      the signal dictionary adds a node for that signal showing the pin's
      value. */
  function SignalNodes(pins: seq<Pin>): seq<Node>
  {
    if |pins| == 0 then []
    else
      var prefix, p := pins[..|pins| - 1], pins[|pins| - 1];
      SignalNodes(prefix) +
        match p.signal
        case None => []
        case Some(s) => if s in Bucket(prefix, SignalKey) then [] else [SignalNode(s, p.value)]
  }

  /** One step of the pin loop: pin `i` adds a node when its signal is not
      yet in the signal dictionary. */
  lemma {:induction false} SignalNodesStep(pins: seq<Pin>, i: nat)
    requires i < |pins|
    ensures SignalNodes(pins[..i + 1]) == SignalNodes(pins[..i]) +
      if pins[i].signal.Some? && pins[i].signal.value !in Bucket(pins[..i], SignalKey)
      then [SignalNode(pins[i].signal.value, pins[i].value)] else []
  {
    assert pins[..i + 1][..i] == pins[..i];
  }

  /** A pin that is not linked to any signal leaves both dictionaries and
      the signal nodes as they were. */
  lemma {:induction false} UnboundPinIgnored(pins: seq<Pin>, p: Pin)
    requires p.signal.None?
    ensures Bucket(pins + [p], SignalKey) == Bucket(pins, SignalKey)
    ensures Bucket(pins + [p], GroupKey) == Bucket(pins, GroupKey)
    ensures SignalNodes(pins + [p]) == SignalNodes(pins)
  {
  }

  /** Exactly one signal node per signal named by a pin, no two with the
      same name, each showing the value of the first pin of its signal. */
  lemma {:induction false} SignalNodePerSignal(pins: seq<Pin>)
    ensures |SignalNodes(pins)| == |Bucket(pins, SignalKey)|
    ensures DistinctNames(SignalNodes(pins))
    ensures NodeNames(SignalNodes(pins)) == Bucket(pins, SignalKey).Keys
    ensures forall i :: 0 <= i < |SignalNodes(pins)| ==> FirstPinValue(pins, SignalNodes(pins)[i])
  {
    SignalNodeNames(pins);
    DistinctNamesCard(SignalNodes(pins));
    SignalNodeValues(pins);
  }

  /** Nodes with distinct names have as many names as nodes. */
  lemma {:induction false} DistinctNamesCard(ns: seq<Node>)
    requires DistinctNames(ns)
    ensures |NodeNames(ns)| == |ns|
  {
    if |ns| > 0 {
      var prefix, n := ns[..|ns| - 1], ns[|ns| - 1];
      assert DistinctNames(prefix) by {
        forall i, j | 0 <= i < j < |prefix| ensures prefix[i].name != prefix[j].name {
          assert prefix[i] == ns[i] && prefix[j] == ns[j];
        }
      }
      DistinctNamesCard(prefix);
      assert n.name !in NodeNames(prefix) by {
        forall m | m in prefix ensures m.name != n.name {
          var i :| 0 <= i < |prefix| && prefix[i] == m;
          assert ns[i] == m;
        }
      }
      assert NodeNames(ns) == NodeNames(prefix) + {n.name} by {
        assert ns == prefix + [n];
      }
    }
  }

  /** The names of the nodes `ns`. */
  function NodeNames(ns: seq<Node>): set<string>
  {
    set n | n in ns :: n.name
  }

  /** No two of `ns` share a name. */
  predicate DistinctNames(ns: seq<Node>)
  {
    forall i, j :: 0 <= i < j < |ns| ==> ns[i].name != ns[j].name
  }

  /** `n` is a signal node showing the value of the first pin of its
      signal. */
  predicate FirstPinValue(pins: seq<Pin>, n: Node)
  {
    n.SignalNode? && Where(pins, SignalKey, n.name) != [] && n.value == Where(pins, SignalKey, n.name)[0].value
  }

  lemma {:induction false} SignalNodeNames(pins: seq<Pin>)
    ensures DistinctNames(SignalNodes(pins))
    ensures NodeNames(SignalNodes(pins)) == Bucket(pins, SignalKey).Keys
  {
    if |pins| > 0 {
      var prefix, p := pins[..|pins| - 1], pins[|pins| - 1];
      SignalNodeNames(prefix);
      var ns, sigs := SignalNodes(prefix), Bucket(prefix, SignalKey);
      if p.signal.Some? && p.signal.value !in sigs {
        var s := p.signal.value;
        var n := SignalNode(s, p.value);
        assert Bucket(pins, SignalKey).Keys == sigs.Keys + {s};
        assert SignalNodes(pins) == ns + [n];
        assert NodeNames(ns + [n]) == NodeNames(ns) + {s};
        forall i | 0 <= i < |ns| ensures ns[i].name != s {
          assert ns[i].name in NodeNames(ns);
        }
      } else {
        assert SignalNodes(pins) == ns;
        assert Bucket(pins, SignalKey).Keys == sigs.Keys;
      }
    }
  }

  lemma {:induction false} SignalNodeValues(pins: seq<Pin>)
    ensures forall i :: 0 <= i < |SignalNodes(pins)| ==> FirstPinValue(pins, SignalNodes(pins)[i])
  {
    if |pins| > 0 {
      var prefix, p := pins[..|pins| - 1], pins[|pins| - 1];
      assert pins == prefix + [p];
      SignalNodeValues(prefix);
      var ns := SignalNodes(prefix);
      forall i | 0 <= i < |ns| ensures FirstPinValue(pins, ns[i]) {
        FirstPinValueKept(prefix, p, ns[i]);
      }
      if p.signal.Some? && p.signal.value !in Bucket(prefix, SignalKey) {
        FirstPinValueNew(prefix, p);
        assert SignalNodes(pins) == ns + [SignalNode(p.signal.value, p.value)];
      } else {
        assert SignalNodes(pins) == ns;
      }
    }
  }

  /** A later pin does not change the first pin of a signal. */
  lemma {:induction false} FirstPinValueKept(prefix: seq<Pin>, p: Pin, n: Node)
    requires FirstPinValue(prefix, n)
    ensures FirstPinValue(prefix + [p], n)
  {
    WhereSnoc(prefix, p, SignalKey, n.name);
  }

  /** A pin whose signal no earlier pin had is the first pin of its signal. */
  lemma {:induction false} FirstPinValueNew(prefix: seq<Pin>, p: Pin)
    requires p.signal.Some? && p.signal.value !in Bucket(prefix, SignalKey)
    ensures FirstPinValue(prefix + [p], SignalNode(p.signal.value, p.value))
  {
    var s := p.signal.value;
    BucketIsWhere(prefix, SignalKey);
    WhereSnoc(prefix, p, SignalKey, s);
    assert Where(prefix + [p], SignalKey, s) == [p];
  }



  // ---------------------------------------------------------------------
  // Group nodes

  /** The row of pin `pinName` in its group node: its short name as text,
      the DOT form of the short name as port. */
  function PinRow(pinName: string): Row
  {
    var short := LastSegment(pinName);
    Row(ToDotName(short), short)
  }

  /** The rows of a group node, one per member pin, in member order. */
  function Rows(members: seq<Pin>): (rows: seq<Row>)
    ensures |rows| == |members|
    ensures forall j :: 0 <= j < |members| ==> rows[j] == PinRow(members[j].name)
  {
    if |members| == 0 then [] else Rows(members[..|members| - 1]) + [PinRow(members[|members| - 1].name)]
  }

  /** The node of group `g`: named `todotname(g)`, titled `g`. */
  function GroupNodeOf(g: string, members: seq<Pin>): Node
  {
    GroupNode(ToDotName(g), g, Rows(members))
  }

  /** The group nodes added for the groups visited in `order`. */
  function GroupNodes(order: seq<string>, groups: map<string, seq<Pin>>): (r: seq<Node>)
    requires forall g :: g in order ==> g in groups
    ensures |r| == |order|
    ensures forall i :: 0 <= i < |order| ==> r[i] == GroupNodeOf(order[i], groups[order[i]])
  {
    if |order| == 0 then []
    else
      var g := order[|order| - 1];
      GroupNodes(order[..|order| - 1], groups) + [GroupNodeOf(g, groups[g])]
  }

  /** One step of the group loop: visiting `g` adds its node. */
  lemma {:induction false} GroupNodesStep(order: seq<string>, g: string, groups: map<string, seq<Pin>>)
    requires forall h :: h in order ==> h in groups
    requires g in groups
    ensures GroupNodes(order + [g], groups) == GroupNodes(order, groups) + [GroupNodeOf(g, groups[g])]
  {
  }

  /** `order` visits every key of the dictionary once: the order in which a
      Python 2 dictionary yields its keys is not specified. */
  ghost predicate KeyOrder(order: seq<string>, keys: set<string>)
  {
    && (forall i, j :: 0 <= i < j < |order| ==> order[i] != order[j])
    && (forall g :: g in order <==> g in keys)
  }

  /** Exactly one group node per group key that some bound pin has, no two
      with the same title; its rows are the short names of the bound pins of
      that group, in the order the pins came. */
  lemma {:induction false} GroupNodePerGroup(pins: seq<Pin>, order: seq<string>)
    requires KeyOrder(order, Bucket(pins, GroupKey).Keys)
    ensures |GroupNodes(order, Bucket(pins, GroupKey))| == |Bucket(pins, GroupKey)|
    ensures DistinctTitles(GroupNodes(order, Bucket(pins, GroupKey)))
    ensures NodeTitles(GroupNodes(order, Bucket(pins, GroupKey))) == Bucket(pins, GroupKey).Keys
    ensures forall i :: 0 <= i < |order| ==> IsGroupOf(pins, GroupNodes(order, Bucket(pins, GroupKey))[i])
  {
    GroupNodesCount(order, Bucket(pins, GroupKey));
    GroupNodesMembers(pins, order);
    GroupNodesCover(order, Bucket(pins, GroupKey));
  }

  /** The titles of the group nodes among `ns`. */
  function NodeTitles(ns: seq<Node>): set<string>
  {
    set n | n in ns && n.GroupNode? :: n.title
  }

  /** No two group nodes of `ns` share a title. */
  predicate DistinctTitles(ns: seq<Node>)
  {
    forall i, j :: 0 <= i < j < |ns| && ns[i].GroupNode? && ns[j].GroupNode? ==> ns[i].title != ns[j].title
  }

  /** `n` is the node of the group its title names, listing the bound pins
      of that group in input order. */
  predicate IsGroupOf(pins: seq<Pin>, n: Node)
  {
    n.GroupNode? && n == GroupNodeOf(n.title, Where(pins, GroupKey, n.title))
  }

  lemma {:induction false} GroupNodesCount(order: seq<string>, groups: map<string, seq<Pin>>)
    requires KeyOrder(order, groups.Keys)
    ensures |GroupNodes(order, groups)| == |groups|
    ensures DistinctTitles(GroupNodes(order, groups))
  {
    assert (set g | g in order) == groups.Keys;
    DistinctCard(order);
  }

  lemma {:induction false} GroupNodesMembers(pins: seq<Pin>, order: seq<string>)
    requires KeyOrder(order, Bucket(pins, GroupKey).Keys)
    ensures forall i :: 0 <= i < |order| ==> IsGroupOf(pins, GroupNodes(order, Bucket(pins, GroupKey))[i])
  {
    var groups := Bucket(pins, GroupKey);
    var ns := GroupNodes(order, groups);
    BucketIsWhere(pins, GroupKey);
    forall i | 0 <= i < |order| ensures IsGroupOf(pins, ns[i]) {
      assert ns[i] == GroupNodeOf(order[i], groups[order[i]]);
      assert Lookup(groups, order[i]) == groups[order[i]];
    }
  }

  lemma {:induction false} GroupNodesCover(order: seq<string>, groups: map<string, seq<Pin>>)
    requires KeyOrder(order, groups.Keys)
    ensures NodeTitles(GroupNodes(order, groups)) == groups.Keys
  {
  }

  /** A sequence without repetitions has as many elements as its set. */
  lemma {:induction false} DistinctCard(s: seq<string>)
    requires forall i, j :: 0 <= i < j < |s| ==> s[i] != s[j]
    ensures |set x | x in s| == |s|
  {
    if |s| > 0 {
      var prefix := s[..|s| - 1];
      DistinctCard(prefix);
      assert (set x | x in s) == (set x | x in prefix) + {s[|s| - 1]};
    }
  }

  // ---------------------------------------------------------------------
  // Edges

  /** The endpoint of a pin: `todotname(groupname(name)) : todotname(short name)`. */
  function PinEnd(pinName: string): Endpoint
  {
    PortEnd(ToDotName(GroupName(pinName)), ToDotName(LastSegment(pinName)))
  }

  /** The edge for one pin of a signal: from the pin to the signal, without
      arrowhead, for the writer; from the signal to the pin otherwise. */
  function PinEdge(s: Signal, pinName: string): Edge
  {
    if s.writer == Some(pinName) then Edge(PinEnd(pinName), NodeEnd(s.name), NoArrow)
    else Edge(NodeEnd(s.name), PinEnd(pinName), Normal)
  }

  /** The edges the inner loop adds for the pins `pinNames` of signal `s`. */
  function SignalEdges(s: Signal, pinNames: seq<string>): (r: seq<Edge>)
    ensures |r| == |pinNames|
    ensures forall j :: 0 <= j < |pinNames| ==> r[j] == PinEdge(s, pinNames[j])
  {
    if |pinNames| == 0 then []
    else SignalEdges(s, pinNames[..|pinNames| - 1]) + [PinEdge(s, pinNames[|pinNames| - 1])]
  }

  /** One step of the inner signal loop: pin `j` adds its edge. */
  lemma {:induction false} SignalEdgesStep(s: Signal, pinNames: seq<string>, j: nat)
    requires j < |pinNames|
    ensures SignalEdges(s, pinNames[..j + 1]) == SignalEdges(s, pinNames[..j]) + [PinEdge(s, pinNames[j])]
  {
  }

  /** Total number of (signal, pin) pairs. */
  function PinCount(signals: seq<Signal>): nat
  {
    if |signals| == 0 then 0
    else PinCount(signals[..|signals| - 1]) + |signals[|signals| - 1].pinNames|
  }

  /** The edges the signal loop adds: one per (signal, pin) pair. */
  function Edges(signals: seq<Signal>): (r: seq<Edge>)
    ensures |r| == PinCount(signals)
  {
    if |signals| == 0 then []
    else
      var s := signals[|signals| - 1];
      Edges(signals[..|signals| - 1]) + SignalEdges(s, s.pinNames)
  }

  /** One step of the outer signal loop: signal `k` adds the edges of all
      its pins. */
  lemma {:induction false} EdgesStep(signals: seq<Signal>, k: nat)
    requires k < |signals|
    ensures Edges(signals[..k + 1]) == Edges(signals[..k]) + SignalEdges(signals[k], signals[k].pinNames)
  {
    assert signals[..k + 1][..k] == signals[..k];
  }

  /** Appending is associative. */
  lemma AppendAssoc<T>(a: seq<T>, b: seq<T>, c: seq<T>)
    ensures a + (b + c) == (a + b) + c
  {
  }

  /** Every edge is the edge of one pin of one signal. */
  lemma {:induction false} EdgeOrigin(signals: seq<Signal>)
    ensures forall e :: e in Edges(signals) ==> exists k, j ::
      0 <= k < |signals| && 0 <= j < |signals[k].pinNames| && e == PinEdge(signals[k], signals[k].pinNames[j])
  {
    if |signals| > 0 {
      var prefix, s := signals[..|signals| - 1], signals[|signals| - 1];
      EdgeOrigin(prefix);
      forall e | e in Edges(signals) ensures exists k, j ::
        0 <= k < |signals| && 0 <= j < |signals[k].pinNames| && e == PinEdge(signals[k], signals[k].pinNames[j])
      {
        if e in Edges(prefix) {
          var k, j :| 0 <= k < |prefix| && 0 <= j < |prefix[k].pinNames| && e == PinEdge(prefix[k], prefix[k].pinNames[j]);
          assert signals[k] == prefix[k];
        } else {
          var j :| 0 <= j < |s.pinNames| && SignalEdges(s, s.pinNames)[j] == e;
          assert e == PinEdge(signals[|signals| - 1], signals[|signals| - 1].pinNames[j]);
        }
      }
    }
  }

  /** The ends of edge `e` are the node of signal `sig` and the port of pin
      `pinName`, in one order or the other. */
  predicate JoinsEnds(e: Edge, sig: string, pinName: string)
  {
    || (e.tail == NodeEnd(sig) && e.head == PinEnd(pinName))
    || (e.tail == PinEnd(pinName) && e.head == NodeEnd(sig))
  }

  /** The (signal name, pin name) pairs of the pins `pinNames` of signal
      `sig`, in order. */
  function PinPairs(sig: string, pinNames: seq<string>): (r: seq<(string, string)>)
    ensures |r| == |pinNames|
    ensures forall j :: 0 <= j < |pinNames| ==> r[j] == (sig, pinNames[j])
  {
    if |pinNames| == 0 then []
    else PinPairs(sig, pinNames[..|pinNames| - 1]) + [(sig, pinNames[|pinNames| - 1])]
  }

  /** For each edge of `Edges(signals)`, at the same position, the (signal
      name, pin name) pair the two loops draw it for. */
  function EdgePins(signals: seq<Signal>): (r: seq<(string, string)>)
    ensures |r| == PinCount(signals)
  {
    if |signals| == 0 then []
    else
      var s := signals[|signals| - 1];
      EdgePins(signals[..|signals| - 1]) + PinPairs(s.name, s.pinNames)
  }

  /** Every edge joins the node of the signal it is drawn for and the port
      of the pin it is drawn for. */
  lemma {:induction false} EdgePinsMatch(signals: seq<Signal>)
    ensures forall p :: 0 <= p < |Edges(signals)| ==>
      JoinsEnds(Edges(signals)[p], EdgePins(signals)[p].0, EdgePins(signals)[p].1)
  {
    if |signals| > 0 {
      var prefix, s := signals[..|signals| - 1], signals[|signals| - 1];
      EdgePinsMatch(prefix);
      var es, ps := Edges(prefix), EdgePins(prefix);
      forall p | 0 <= p < |Edges(signals)|
        ensures JoinsEnds(Edges(signals)[p], EdgePins(signals)[p].0, EdgePins(signals)[p].1)
      {
        if p < |es| {
          assert Edges(signals)[p] == es[p];
          assert EdgePins(signals)[p] == ps[p];
        } else {
          var j := p - |es|;
          assert Edges(signals)[p] == PinEdge(s, s.pinNames[j]);
          assert EdgePins(signals)[p] == (s.name, s.pinNames[j]);
        }
      }
    }
  }

  /** Every pair of `EdgePins` is a pin listed by a signal. */
  lemma {:induction false} EdgePinsOrigin(signals: seq<Signal>, p: nat)
    requires p < |EdgePins(signals)|
    ensures exists k, j ::
      && 0 <= k < |signals| && 0 <= j < |signals[k].pinNames|
      && EdgePins(signals)[p] == (signals[k].name, signals[k].pinNames[j])
  {
    var prefix, s := signals[..|signals| - 1], signals[|signals| - 1];
    var ps := EdgePins(prefix);
    assert EdgePins(signals) == ps + PinPairs(s.name, s.pinNames);
    if p < |ps| {
      EdgePinsOrigin(prefix, p);
      var k, j :| 0 <= k < |prefix| && 0 <= j < |prefix[k].pinNames| &&
        ps[p] == (prefix[k].name, prefix[k].pinNames[j]);
      assert signals[k] == prefix[k];
    } else {
      var j := p - |ps|;
      assert EdgePins(signals)[p] == (signals[|signals| - 1].name, signals[|signals| - 1].pinNames[j]);
    }
  }

  /** How many times the signals named `sig` list pin `pinName`. */
  function SlotCount(signals: seq<Signal>, sig: string, pinName: string): nat
  {
    if |signals| == 0 then 0
    else
      var s := signals[|signals| - 1];
      SlotCount(signals[..|signals| - 1], sig, pinName) + if s.name == sig then multiset(s.pinNames)[pinName] else 0
  }

  /** The pairs of one signal hold pair `key` as often as the signal, if it
      is `key`'s signal, lists `key`'s pin. */
  lemma {:induction false} PinPairsCount(sig: string, pinNames: seq<string>, key: (string, string))
    ensures multiset(PinPairs(sig, pinNames))[key] == if key.0 == sig then multiset(pinNames)[key.1] else 0
  {
    if |pinNames| > 0 {
      var prefix, n := pinNames[..|pinNames| - 1], pinNames[|pinNames| - 1];
      PinPairsCount(sig, prefix, key);
      assert pinNames == prefix + [n];
      assert multiset(PinPairs(sig, pinNames)) == multiset(PinPairs(sig, prefix)) + multiset{(sig, n)};
      assert multiset(pinNames)[key.1] == multiset(prefix)[key.1] + if n == key.1 then 1 else 0;
    }
  }

  /** As many edges are drawn for pin `pinName` of signal `sig` as the
      signals named `sig` list that pin. */
  lemma {:induction false} EdgePinsCount(signals: seq<Signal>, sig: string, pinName: string)
    ensures multiset(EdgePins(signals))[(sig, pinName)] == SlotCount(signals, sig, pinName)
  {
    if |signals| > 0 {
      var prefix, s := signals[..|signals| - 1], signals[|signals| - 1];
      EdgePinsCount(prefix, sig, pinName);
      PinPairsCount(s.name, s.pinNames, (sig, pinName));
      assert EdgePins(signals) == EdgePins(prefix) + PinPairs(s.name, s.pinNames);
    }
  }

  /** How many of `es` end at `n`. */
  function CountInto(es: seq<Edge>, n: Endpoint): nat
  {
    if |es| == 0 then 0 else CountInto(es[..|es| - 1], n) + (if es[|es| - 1].head == n then 1 else 0)
  }

  /** How many of `es` start at `n`. */
  function CountOutOf(es: seq<Edge>, n: Endpoint): nat
  {
    if |es| == 0 then 0 else CountOutOf(es[..|es| - 1], n) + (if es[|es| - 1].tail == n then 1 else 0)
  }

  /** How many of `pinNames` are the writer of `s`. */
  function WriterCount(s: Signal, pinNames: seq<string>): nat
  {
    match s.writer
    case None => 0
    case Some(w) => multiset(pinNames)[w]
  }

  /** Edge direction: among the edges of a signal's pins, as many go into
      the signal as the writer occurs among the pins, and all the others
      come out of it. So a signal with one writer pin and n reader pins
      gets one edge writer to signal and n edges signal to reader. */
  lemma {:induction false} EdgeDirection(s: Signal, pinNames: seq<string>)
    ensures var es := SignalEdges(s, pinNames);
      && CountInto(es, NodeEnd(s.name)) == WriterCount(s, pinNames)
      && CountOutOf(es, NodeEnd(s.name)) == |pinNames| - WriterCount(s, pinNames)
  {
    if |pinNames| > 0 {
      var prefix, n := pinNames[..|pinNames| - 1], pinNames[|pinNames| - 1];
      assert pinNames == prefix + [n];
      EdgeDirection(s, prefix);
      var es := SignalEdges(s, pinNames);
      assert es[..|es| - 1] == SignalEdges(s, prefix);
    }
  }

  // ---------------------------------------------------------------------
  // The whole graph

  /** The graph after `parse` on an analyzer whose graph was `g0`, the
      groups being visited in `order`. */
  function BuildGraph(g0: Graph, pins: seq<Pin>, signals: seq<Signal>, order: seq<string>): Graph
    requires forall g :: g in order ==> g in Bucket(pins, GroupKey)
  {
    Graph(g0.nodes + SignalNodes(pins) + GroupNodes(order, Bucket(pins, GroupKey)),
          g0.edges + Edges(signals))
  }

  /** Some pin called `pinName` is linked to signal `sig`. */
  predicate BoundTo(pins: seq<Pin>, pinName: string, sig: string)
  {
    exists i :: 0 <= i < |pins| && pins[i].name == pinName && pins[i].signal == Some(sig)
  }

  /** The HAL namespace is consistent: every pin a signal lists is a pin
      linked to that signal. */
  predicate Wired(pins: seq<Pin>, signals: seq<Signal>)
  {
    forall k, j :: 0 <= k < |signals| && 0 <= j < |signals[k].pinNames| ==>
      BoundTo(pins, signals[k].pinNames[j], signals[k].name)
  }

  /** The other half of a consistent namespace: every linked pin is listed
      exactly once by the signals bearing the name of its signal. */
  predicate Listed(pins: seq<Pin>, signals: seq<Signal>)
  {
    forall i :: 0 <= i < |pins| && pins[i].signal.Some? ==>
      SlotCount(signals, pins[i].signal.value, pins[i].name) == 1
  }

  /** When every linked pin is listed once, exactly one edge is drawn for
      each linked pin, and that edge joins the pin's port and the node of
      its signal. */
  lemma {:induction false} BoundPinOneEdge(pins: seq<Pin>, signals: seq<Signal>, i: nat)
    requires Listed(pins, signals)
    requires i < |pins| && pins[i].signal.Some?
    ensures multiset(EdgePins(signals))[(pins[i].signal.value, pins[i].name)] == 1
    ensures exists p ::
      && 0 <= p < |Edges(signals)|
      && EdgePins(signals)[p] == (pins[i].signal.value, pins[i].name)
      && JoinsEnds(Edges(signals)[p], pins[i].signal.value, pins[i].name)
  {
    var key := (pins[i].signal.value, pins[i].name);
    EdgePinsCount(signals, key.0, key.1);
    assert key in multiset(EdgePins(signals));
    assert key in EdgePins(signals);
    var p :| 0 <= p < |EdgePins(signals)| && EdgePins(signals)[p] == key;
    EdgePinsMatch(signals);
  }

  /** An endpoint names a node of `nodes`: a signal node by its name, or a
      row of a group node by the node's name and the row's port. */
  predicate Resolves(nodes: seq<Node>, e: Endpoint)
  {
    match e
    case NodeEnd(n) => exists i :: 0 <= i < |nodes| && nodes[i].SignalNode? && nodes[i].name == n
    case PortEnd(n, port) =>
      exists i :: 0 <= i < |nodes| && nodes[i].GroupNode? && nodes[i].name == n &&
        exists j :: 0 <= j < |nodes[i].rows| && nodes[i].rows[j].port == port
  }

  /** An endpoint that names a node of `a` or of `b` names a node of `a + b`. */
  lemma {:induction false} ResolvesAppend(a: seq<Node>, b: seq<Node>, e: Endpoint)
    requires Resolves(a, e) || Resolves(b, e)
    ensures Resolves(a + b, e)
  {
    if Resolves(a, e) {
      var i :| 0 <= i < |a| && a[i].name == e.node &&
        (e.NodeEnd? ==> a[i].SignalNode?) &&
        (e.PortEnd? ==> a[i].GroupNode? && exists j :: 0 <= j < |a[i].rows| && a[i].rows[j].port == e.port);
      assert (a + b)[i] == a[i];
    } else {
      var i :| 0 <= i < |b| && b[i].name == e.node &&
        (e.NodeEnd? ==> b[i].SignalNode?) &&
        (e.PortEnd? ==> b[i].GroupNode? && exists j :: 0 <= j < |b[i].rows| && b[i].rows[j].port == e.port);
      assert (a + b)[|a| + i] == b[i];
    }
  }

  /** `nodes` holds the node drawn for the group of pin `pinName` (titled
      with the group name, named after its DOT form), and that node has the
      pin's row. */
  predicate HasPinRow(nodes: seq<Node>, pinName: string)
  {
    exists m :: 0 <= m < |nodes| && nodes[m].GroupNode? && nodes[m].title == GroupName(pinName) &&
      nodes[m].name == ToDotName(GroupName(pinName)) && PinRow(pinName) in nodes[m].rows
  }

  /** The endpoint of a pin whose row is in its group's node names a node. */
  lemma {:induction false} HasPinRowResolves(nodes: seq<Node>, pinName: string)
    requires HasPinRow(nodes, pinName)
    ensures Resolves(nodes, PinEnd(pinName))
  {
    var m :| 0 <= m < |nodes| && nodes[m].GroupNode? && nodes[m].title == GroupName(pinName) &&
      nodes[m].name == ToDotName(GroupName(pinName)) && PinRow(pinName) in nodes[m].rows;
    var j :| 0 <= j < |nodes[m].rows| && nodes[m].rows[j] == PinRow(pinName);
    assert nodes[m].rows[j].port == PinEnd(pinName).port;
  }

  /** A pin row held by `b` is held by `a + b`. */
  lemma {:induction false} HasPinRowAppend(a: seq<Node>, b: seq<Node>, pinName: string)
    requires HasPinRow(b, pinName)
    ensures HasPinRow(a + b, pinName)
  {
    var m :| 0 <= m < |b| && b[m].GroupNode? && b[m].title == GroupName(pinName) &&
      b[m].name == ToDotName(GroupName(pinName)) && PinRow(pinName) in b[m].rows;
    assert (a + b)[|a| + m] == b[m];
  }

  /** On a consistent namespace, every edge joins the node of the signal it
      is drawn for and the row of the pin it is drawn for, that row being in
      the node of the pin's own group; so both ends of every edge name a
      node the pin and group passes built. */
  lemma {:induction false} EdgesResolve(pins: seq<Pin>, signals: seq<Signal>, order: seq<string>)
    requires Wired(pins, signals)
    requires KeyOrder(order, Bucket(pins, GroupKey).Keys)
    ensures forall p :: 0 <= p < |Edges(signals)| ==>
      && JoinsEnds(Edges(signals)[p], EdgePins(signals)[p].0, EdgePins(signals)[p].1)
      && Resolves(SignalNodes(pins) + GroupNodes(order, Bucket(pins, GroupKey)), NodeEnd(EdgePins(signals)[p].0))
      && HasPinRow(SignalNodes(pins) + GroupNodes(order, Bucket(pins, GroupKey)), EdgePins(signals)[p].1)
    ensures forall e :: e in Edges(signals) ==>
      && Resolves(SignalNodes(pins) + GroupNodes(order, Bucket(pins, GroupKey)), e.tail)
      && Resolves(SignalNodes(pins) + GroupNodes(order, Bucket(pins, GroupKey)), e.head)
  {
    var nodes := SignalNodes(pins) + GroupNodes(order, Bucket(pins, GroupKey));
    var es := Edges(signals);
    EdgePinsMatch(signals);
    forall p | 0 <= p < |es|
      ensures Resolves(nodes, NodeEnd(EdgePins(signals)[p].0)) && HasPinRow(nodes, EdgePins(signals)[p].1)
      ensures Resolves(nodes, es[p].tail) && Resolves(nodes, es[p].head)
    {
      EdgeResolves(pins, signals, order, p);
    }
    forall e | e in es
      ensures Resolves(nodes, e.tail) && Resolves(nodes, e.head)
    {
      var p :| 0 <= p < |es| && es[p] == e;
    }
  }

  /** The edge at position `p`: the node of its signal and the row of its
      pin are in the graph, and so are both its ends. */
  lemma {:induction false} EdgeResolves(pins: seq<Pin>, signals: seq<Signal>, order: seq<string>, p: nat)
    requires Wired(pins, signals)
    requires KeyOrder(order, Bucket(pins, GroupKey).Keys)
    requires p < |Edges(signals)|
    ensures Resolves(SignalNodes(pins) + GroupNodes(order, Bucket(pins, GroupKey)), NodeEnd(EdgePins(signals)[p].0))
    ensures HasPinRow(SignalNodes(pins) + GroupNodes(order, Bucket(pins, GroupKey)), EdgePins(signals)[p].1)
    ensures Resolves(SignalNodes(pins) + GroupNodes(order, Bucket(pins, GroupKey)), Edges(signals)[p].tail)
    ensures Resolves(SignalNodes(pins) + GroupNodes(order, Bucket(pins, GroupKey)), Edges(signals)[p].head)
  {
    var nodes := SignalNodes(pins) + GroupNodes(order, Bucket(pins, GroupKey));
    var pair := EdgePins(signals)[p];
    EdgePinsOrigin(signals, p);
    var k, j :| 0 <= k < |signals| && 0 <= j < |signals[k].pinNames| &&
      pair == (signals[k].name, signals[k].pinNames[j]);
    PinEdgeResolves(pins, signals, order, k, j);
    HasPinRowResolves(nodes, pair.1);
    EdgePinsMatch(signals);
    JoinsResolve(nodes, Edges(signals)[p], pair.0, pair.1);
  }

  /** An edge joining a signal with a node and a pin whose endpoint names a
      node has both ends naming a node. */
  lemma {:induction false} JoinsResolve(nodes: seq<Node>, e: Edge, sig: string, pinName: string)
    requires JoinsEnds(e, sig, pinName)
    requires Resolves(nodes, NodeEnd(sig)) && Resolves(nodes, PinEnd(pinName))
    ensures Resolves(nodes, e.tail) && Resolves(nodes, e.head)
  {
  }

  /** For pin `j` of signal `k`: the signal has its node, and the pin its
      row in the node of its own group. */
  lemma {:induction false} PinEdgeResolves(pins: seq<Pin>, signals: seq<Signal>, order: seq<string>, k: nat, j: nat)
    requires Wired(pins, signals)
    requires KeyOrder(order, Bucket(pins, GroupKey).Keys)
    requires k < |signals| && j < |signals[k].pinNames|
    ensures Resolves(SignalNodes(pins) + GroupNodes(order, Bucket(pins, GroupKey)), NodeEnd(signals[k].name))
    ensures HasPinRow(SignalNodes(pins) + GroupNodes(order, Bucket(pins, GroupKey)), signals[k].pinNames[j])
  {
    var sns, gns := SignalNodes(pins), GroupNodes(order, Bucket(pins, GroupKey));
    var s, n := signals[k], signals[k].pinNames[j];
    assert BoundTo(pins, n, s.name);
    var i :| 0 <= i < |pins| && pins[i].name == n && pins[i].signal == Some(s.name);
    SignalResolves(pins, i);
    PinResolves(pins, order, i);
    ResolvesAppend(sns, gns, NodeEnd(s.name));
    HasPinRowAppend(sns, gns, n);
  }

  /** The signal of a bound pin has a node. */
  lemma {:induction false} SignalResolves(pins: seq<Pin>, i: nat)
    requires i < |pins| && pins[i].signal.Some?
    ensures Resolves(SignalNodes(pins), NodeEnd(pins[i].signal.value))
  {
    var s, ns := pins[i].signal.value, SignalNodes(pins);
    SignalNodeNames(pins);
    BucketIsWhere(pins, SignalKey);
    WhereCount(pins, SignalKey, s, pins[i]);
    assert pins[i] in multiset(pins);
    assert pins[i] in Where(pins, SignalKey, s);
    assert s in NodeNames(ns);
    var n :| n in ns && n.name == s;
    var m :| 0 <= m < |ns| && ns[m] == n;
    assert n.SignalNode? by {
      SignalNodeValues(pins);
      assert FirstPinValue(pins, ns[m]);
    }
  }

  /** A bound pin has its row in the node of its own group. */
  lemma {:induction false} PinResolves(pins: seq<Pin>, order: seq<string>, i: nat)
    requires i < |pins| && pins[i].signal.Some?
    requires KeyOrder(order, Bucket(pins, GroupKey).Keys)
    ensures HasPinRow(GroupNodes(order, Bucket(pins, GroupKey)), pins[i].name)
  {
    var p, g := pins[i], GroupName(pins[i].name);
    var groups := Bucket(pins, GroupKey);
    var gns := GroupNodes(order, groups);
    BucketIsWhere(pins, GroupKey);
    var members := Where(pins, GroupKey, g);
    WhereCount(pins, GroupKey, g, p);
    assert p in multiset(pins);
    assert p in members;
    var j :| 0 <= j < |members| && members[j] == p;
    assert g in groups;
    var m :| 0 <= m < |order| && order[m] == g;
    assert groups[g] == Lookup(groups, g) == members;
    assert gns[m] == GroupNodeOf(g, members);
    assert gns[m].rows[j] == PinRow(p.name);
    assert gns[m].title == g && gns[m].name == ToDotName(g);
  }
}
