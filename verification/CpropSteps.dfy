/** What one counted rewrite of constant propagation achieves: it keeps the meaning and
    the conditions the meaning rests on, and it lowers a measure. */
module CpropSteps {
  import opened Vectors
  import opened Netlists
  import opened NetlistSteps
  import opened Blending
  import opened BlendStep
  import opened GroundedNets

  // ----- the measure -----

  function Weight(n: Node): nat {
    if n.PartPV? then 2 else if n.Mux? || (n.Concat? && !n.transparent) then 1 else 0
  }

  /** Two for each part select, one for each multiplexer and non-transparent concatenation. */
  ghost function Measure(nodes: map<NodeId, Node>): nat
    decreases |nodes|
  {
    if nodes == map[] then 0
    else
      var id :| id in nodes;
      Weight(nodes[id]) + Measure(nodes - {id})
  }

  lemma {:induction false} MeasureWithout(nodes: map<NodeId, Node>, id: NodeId)
    requires id in nodes
    ensures Measure(nodes) == Weight(nodes[id]) + Measure(nodes - {id})
    decreases |nodes|
  {
    var k :| k in nodes && Measure(nodes) == Weight(nodes[k]) + Measure(nodes - {k});
    if k != id {
      MeasureWithout(nodes - {k}, id);
      MeasureWithout(nodes - {id}, k);
      assert nodes - {k} - {id} == nodes - {id} - {k};
    }
  }

  lemma MeasureWith(nodes: map<NodeId, Node>, id: NodeId, n: Node)
    requires id !in nodes
    ensures Measure(nodes[id := n]) == Weight(n) + Measure(nodes)
  {
    MeasureWithout(nodes[id := n], id);
    assert nodes[id := n] - {id} == nodes;
  }

  /** Only nodes in the difference matter. */
  lemma {:induction false} MeasureOfConstants(small: map<NodeId, Node>, big: map<NodeId, Node>)
    requires forall id | id in small :: id in big && big[id] == small[id]
    requires forall id | id in big && id !in small :: big[id].Const?
    ensures Measure(big) == Measure(small)
    decreases |big|
  {
    if id :| id in big && id !in small {
      MeasureWithout(big, id);
      MeasureOfConstants(small, big - {id});
    } else {
      assert big == small;
    }
  }

  lemma {:induction false} MeasureOfRest(nodes: map<NodeId, Node>, rest: map<NodeId, Node>, ids: seq<NodeId>)
    requires forall id | id in ids :: id in nodes && nodes[id].PartPV?
    requires forall i, j | 0 <= i < j < |ids| :: ids[i] != ids[j]
    requires forall id :: id in rest <==> id in nodes && id !in ids
    requires forall id | id in rest :: rest[id] == nodes[id]
    ensures Measure(nodes) == 2 * |ids| + Measure(rest)
  {
    if ids == [] {
      assert nodes == rest;
    } else {
      var id := ids[0];
      assert id !in ids[1..];
      MeasureWithout(nodes, id);
      MeasureOfRest(nodes - {id}, rest, ids[1..]);
    }
  }

  // ----- the counted rewrites -----

  /** `net'` has all the nexuses of `net`, with the same values unless a rewrite was
      harmful, which cannot be when no 2-state net can float. */
  ghost predicate Refines(net: Net, net': Net, harmless: bool) {
    && WellFormed(net) && WellFormed(net')
    && (forall m | m in net.nexuses :: m in net'.nexuses && net'.nexuses[m] == net.nexuses[m])
    && (harmless ==> SameOn(net, net', net.nexuses.Keys))
    && (NeverFloats(net) ==> harmless && NeverFloats(net'))
  }

  lemma RefinesItself(net: Net)
    requires WellFormed(net)
    ensures Refines(net, net, true)
  {
    SameOnReflexive(net);
  }

  lemma RefinesTransitive(a: Net, b: Net, c: Net, first: bool, second: bool)
    requires Refines(a, b, first) && Refines(b, c, second)
    ensures Refines(a, c, first && second)
  {
    if first && second {
      SameOnTransitive(a, b, c, a.nexuses.Keys, b.nexuses.Keys, a.nexuses.Keys);
    }
  }

  lemma ReplaceMeasure(net: Net, id: NodeId, id': NodeId, n: Node)
    requires id in net.nodes && id' !in net.nodes
    ensures Measure(Replace(net, id, id', n).nodes) == Measure(net.nodes) - Weight(net.nodes[id]) + Weight(n)
  {
    MeasureWithout(net.nodes, id);
    MeasureWith(net.nodes - {id}, id', n);
  }

  /** `lpm_concat`: the fold keeps the meaning if no 2-state input floats, and lowers the
      measure by one. */
  lemma ConcatImproves(net: Net, id: NodeId, id': NodeId)
    requires WellFormed(net) && id in net.nodes && id' !in net.nodes && FoldableConcat(net, id)
    ensures var net' := Replace(net, id, id', ConcatResult(net, id));
      Refines(net, net', FloatFree(net, net.nodes[id].ins)) && Measure(net'.nodes) == Measure(net.nodes) - 1
  {
    var n' := ConcatResult(net, id);
    ReplaceMeasure(net, id, id', n');
    assert NodeOk(net.nexuses, n');
    assert WellFormed(Replace(net, id, id', n'));
    if FloatFree(net, net.nodes[id].ins) { ConcatStep(net, id, id'); }
    if NeverFloats(net) { ConcatKeepsGrounded(net, id, id'); }
  }

  /** `lpm_mux`: likewise, without a condition. */
  lemma MuxImproves(net: Net, id: NodeId, id': NodeId)
    requires WellFormed(net) && id in net.nodes && id' !in net.nodes && FoldableMux(net, id)
    ensures var net' := Replace(net, id, id', MuxResult(net, id));
      Refines(net, net', true) && Measure(net'.nodes) == Measure(net.nodes) - 1
  {
    ReplaceMeasure(net, id, id', MuxResult(net, id));
    MuxStep(net, id, id');
    if NeverFloats(net) { MuxKeepsGrounded(net, id, id'); }
  }

  lemma BlendMeasure(net: Net, net': Net, ids: seq<NodeId>, cid: NodeId, fill: Bit)
    requires forall id | id in ids :: id in net.nodes && net.nodes[id].PartPV?
    requires forall i, j | 0 <= i < j < |ids| :: ids[i] != ids[j]
    requires NodesKept(net, net', ids, cid, fill)
    requires cid !in net.nodes && cid in net'.nodes && net'.nodes[cid].Concat? && !net'.nodes[cid].transparent
    ensures Measure(net'.nodes) == Measure(net.nodes) - 2 * |ids| + 1
  {
    var rest := net.nodes - (set id | id in ids);
    MeasureOfRest(net.nodes, rest, ids);
    var kept := rest[cid := net'.nodes[cid]];
    MeasureWith(rest, cid, net'.nodes[cid]);
    forall id | id in net'.nodes && id !in kept ensures net'.nodes[id].Const? {
      assert GapConst(net, net', id, fill);
    }
    MeasureOfConstants(kept, net'.nodes);
  }

  /** `lpm_part_select`: `k` part selects make way for one concatenation, which keeps the
      meaning unless the target is a 2-state port with a gap. */
  lemma BlendImproves(net: Net, net': Net, n: NexusId, ids: seq<NodeId>, cid: NodeId, ins: seq<NexusId>)
    requires WellFormed(net) && WellFormed(net') && n in net.nexuses
    requires Blended(net, net', n, ids, cid, ins, GapFill(net, n))
    requires ids != [] && forall i, j | 0 <= i < j < |ids| :: ids[i] != ids[j]
    ensures Refines(net, net', FillOk(net, n)) && Measure(net'.nodes) == Measure(net.nodes) - 2 * |ids| + 1
  {
    BlendMeasure(net, net', ids, cid, GapFill(net, n));
    if FillOk(net, n) { BlendingKeepsMeaning(net, net', n, ids, cid, ins, GapFill(net, n)); }
    if NeverFloats(net) { BlendKeepsGrounded(net, net', n, ids, cid, ins); }
  }
}
