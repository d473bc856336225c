/**
  A worked namespace: one component instance `c.i` with a pin `c.i.a`
  writing a signal `s` and a pin `c.i.b` reading it (for instance
  `motor.0.enable` driving `enable-sig`, read by `motor.0.running`).
 */
module HalScenarios {
  import opened HalNames
  import opened HalGraph

  /** The two pins, in the order `hal.pins()` lists them. */
  function PairPins(c: string, i: string, a: string, b: string, s: string, va: string, vb: string): seq<Pin>
  {
    [Pin(c + "." + i + "." + a, Some(s), va), Pin(c + "." + i + "." + b, Some(s), vb)]
  }

  /** The signal, written by the first pin and linked to both. */
  function PairSignals(c: string, i: string, a: string, b: string, s: string): seq<Signal>
  {
    [Signal(s, Some(c + "." + i + "." + a), [c + "." + i + "." + a, c + "." + i + "." + b])]
  }

  /** One signal node, showing the value of the pin listed first. */
  lemma {:induction false} PairSignalNode(c: string, i: string, a: string, b: string, s: string, va: string, vb: string)
    ensures SignalNodes(PairPins(c, i, a, b, s, va, vb)) == [SignalNode(s, va)]
  {
    var pins := PairPins(c, i, a, b, s, va, vb);
    assert pins[..0] == [] && pins[..2] == pins;
    BucketStep(pins, 0);
    assert Lookup(map[], s) + [pins[0]] == [pins[0]];
    SignalNodesStep(pins, 0);
    SignalNodesStep(pins, 1);
  }

  /** Both pins fall in one group, `c.i`, listed in input order. */
  lemma {:induction false} PairGroup(c: string, i: string, a: string, b: string, s: string, va: string, vb: string)
    requires '.' !in c && '.' !in i && '.' !in a && '.' !in b
    ensures Bucket(PairPins(c, i, a, b, s, va, vb), GroupKey) == map[c + "." + i := PairPins(c, i, a, b, s, va, vb)]
  {
    var pins := PairPins(c, i, a, b, s, va, vb);
    GroupNameThreeSegments(c, i, a);
    GroupNameThreeSegments(c, i, b);
    assert pins[..0] == [] && pins[..2] == pins;
    BucketStep(pins, 0);
    BucketStep(pins, 1);
    assert Lookup(map[], c + "." + i) + [pins[0]] == [pins[0]];
    assert [pins[0]] + [pins[1]] == pins;
  }

  /** The group's node is named after the DOT form of `c.i` and lists the
      rows `a` and `b`. */
  lemma {:induction false} PairGroupNode(c: string, i: string, a: string, b: string, s: string, va: string, vb: string)
    requires '.' !in c && '.' !in i && '.' !in a && '.' !in b
    ensures c + "." + i in Bucket(PairPins(c, i, a, b, s, va, vb), GroupKey)
    ensures GroupNodes([c + "." + i], Bucket(PairPins(c, i, a, b, s, va, vb), GroupKey)) ==
      [GroupNode(ToDotName(c + "." + i), c + "." + i, [Row(ToDotName(a), a), Row(ToDotName(b), b)])]
  {
    var pins := PairPins(c, i, a, b, s, va, vb);
    PairGroup(c, i, a, b, s, va, vb);
    LastSegmentThreeSegments(c, i, a);
    LastSegmentThreeSegments(c, i, b);
    assert Rows(pins) == [PinRow(pins[0].name), PinRow(pins[1].name)];
  }

  /** Two edges: from the writer's row to the signal without arrowhead,
      then from the signal to the reader's row. */
  lemma {:induction false} PairEdges(c: string, i: string, a: string, b: string, s: string)
    requires '.' !in c && '.' !in i && '.' !in a && '.' !in b
    requires a != b
    ensures Edges(PairSignals(c, i, a, b, s)) ==
      [Edge(PortEnd(ToDotName(c + "." + i), ToDotName(a)), NodeEnd(s), NoArrow),
       Edge(NodeEnd(s), PortEnd(ToDotName(c + "." + i), ToDotName(b)), Normal)]
  {
    var sig := PairSignals(c, i, a, b, s)[0];
    var na, nb := c + "." + i + "." + a, c + "." + i + "." + b;
    GroupNameThreeSegments(c, i, a);
    GroupNameThreeSegments(c, i, b);
    LastSegmentThreeSegments(c, i, a);
    LastSegmentThreeSegments(c, i, b);
    assert na != nb by {
      assert LastSegment(na) != LastSegment(nb);
    }
    assert PairSignals(c, i, a, b, s)[..0] == [];
    assert SignalEdges(sig, sig.pinNames) == [PinEdge(sig, na), PinEdge(sig, nb)];
  }
}
