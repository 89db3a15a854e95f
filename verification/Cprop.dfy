/** Constant propagation as it runs: nodes are replaced and deleted in place, one visit
    after the other, until a scan finds nothing to do. */
module Cprop {
  import opened Vectors
  import opened Netlists
  import opened NetlistSteps
  import opened Blending
  import opened BlendStep
  import opened GroundedNets
  import opened CpropSteps
  import opened PartSelects
  import opened CpropRuns
  import opened CpropEnds

  lemma {:induction false} ConstantsOfSum(net: Net, a: seq<NexusId>, m: NexusId)
    requires WellFormed(net) && AllConstant(net, a) && m in net.nexuses && ConstantDrivers(net, m)
    ensures AllConstant(net, a + [m]) && ConstantsOf(net, a + [m]) == ConstantsOf(net, a) + ConstantValue(net, m)
  {
    if a == [] {
      assert a + [m] == [m] && [m][1..] == [];
      assert ConstantsOf(net, [m]) == ConstantValue(net, m) + ConstantsOf(net, []);
    } else {
      assert (a + [m])[1..] == a[1..] + [m];
      ConstantsOfSum(net, a[1..], m);
    }
  }

  lemma ConstantsOfPrefix(net: Net, n: Node, k: nat)
    requires WellFormed(net) && NodeOk(net.nexuses, n) && n.Concat? && k < |n.ins|
    requires AllConstant(net, n.ins[..k]) && n.ins[k] in net.nexuses && ConstantDrivers(net, n.ins[k])
    ensures AllConstant(net, n.ins[..k + 1])
    ensures ConstantsOf(net, n.ins[..k + 1]) == ConstantsOf(net, n.ins[..k]) + ConstantValue(net, n.ins[k])
    ensures |ConstantsOf(net, n.ins[..k + 1])| <= net.nexuses[n.out].width
  {
    ConstantsOfSum(net, n.ins[..k], n.ins[k]);
    assert n.ins[..k] + [n.ins[k]] == n.ins[..k + 1];
    InputWidthOfPrefix(net.nexuses, n.ins, k + 1);
  }

  lemma SpliceInto(front: Vec, v: Vec, width: nat, out: NexusId)
    requires |front| + |v| <= width
    ensures var was := ConcatConst(front, width, out).value;
      ConcatConst(front + v, width, out).value == was[..|front|] + v + was[|front| + |v|..]
  {
  }

  lemma {:induction false} InputWidthOfPrefix(nx: map<NexusId, Nexus>, ins: seq<NexusId>, k: nat)
    requires k <= |ins| && forall m | m in ins :: m in nx
    ensures InputWidth(nx, ins[..k]) <= InputWidth(nx, ins)
  {
    if k > 0 {
      InputWidthOfPrefix(nx, ins[1..], k - 1);
      assert ins[..k][1..] == ins[1..][..k - 1];
    }
  }

  // ----- constants that nobody needs -----

  /** `cprop_dc_functor` deletes this constant: it is all z, or nothing reads its nexus. */
  ghost predicate Useless(net: Net, id: NodeId)
    requires WellFormed(net) && id in net.nodes && net.nodes[id].Const?
  {
    var n := net.nodes[id];
    n.value == Fill(Vz, |n.value|) || (!ReadByNode(net, n.out) && !net.nexuses[n.out].observed)
  }

  /** A constant with a bit that is not z, on a net that is observed or that a node reads. */
  ghost predicate Needed(net: Net, id: NodeId)
    requires WellFormed(net) && id in net.nodes && net.nodes[id].Const?
  {
    && (exists i :: 0 <= i < |net.nodes[id].value| && net.nodes[id].value[i] != Vz)
    && (net.nexuses[net.nodes[id].out].observed
        || exists k :: k in net.nodes && net.nodes[id].out in Inputs(net.nodes[k]))
  }

  lemma UselessExactly(net: Net, id: NodeId)
    requires WellFormed(net) && id in net.nodes && net.nodes[id].Const?
    ensures Useless(net, id) <==> !Needed(net, id)
  {
    var v := net.nodes[id].value;
    if forall i | 0 <= i < |v| :: v[i] == Vz { assert v == Fill(Vz, |v|); }
  }

  /** The nexuses whose values matter: observed ones and inputs of nodes. */
  ghost function Seen(net: Net): set<NexusId> {
    set m | m in net.nexuses && (net.nexuses[m].observed || ReadByNode(net, m))
  }

  lemma ReadersStay(net: Net, id: NodeId)
    requires id in net.nodes && net.nodes[id].Const?
    ensures forall m :: ReadByNode(Remove(net, id), m) <==> ReadByNode(net, m)
    ensures Seen(Remove(net, id)) == Seen(net)
  {
    forall m ensures ReadByNode(Remove(net, id), m) <==> ReadByNode(net, m) {
      if k :| k in net.nodes && m in Inputs(net.nodes[k]) {
        assert k in Remove(net, id).nodes;
      }
    }
  }

  lemma UselessStays(net: Net, id: NodeId)
    requires WellFormed(net) && id in net.nodes && net.nodes[id].Const? && WellFormed(Remove(net, id))
    ensures forall k | k in Remove(net, id).nodes && net.nodes[k].Const? ::
              Useless(Remove(net, id), k) <==> Useless(net, k)
  {
    ReadersStay(net, id);
  }

  lemma UselessStep(net: Net, id: NodeId)
    requires WellFormed(net) && id in net.nodes && net.nodes[id].Const? && Useless(net, id)
    ensures WellFormed(Remove(net, id)) && SameOn(net, Remove(net, id), Seen(net))
    ensures Seen(Remove(net, id)) == Seen(net)
  {
    var net' := Remove(net, id);
    ReadersStay(net, id);
    SameOnReflexive(net');
    if net.nodes[id].value == Fill(Vz, |net.nodes[id].value|) {
      FloatingConstStep(net, id);
      SameOnTransitive(net, net', net', net.nexuses.Keys, net'.nexuses.Keys, Seen(net));
    } else {
      DanglingConstStep(net, id);
      SameOnTransitive(net, net', net', net.nexuses.Keys - {net.nodes[id].out}, net'.nexuses.Keys, Seen(net));
    }
  }

  /** `cur` is `start` with useless constants gone. */
  ghost predicate Reaped(start: Net, cur: Net) {
    && WellFormed(start) && WellFormed(cur) && cur.nexuses == start.nexuses && Seen(cur) == Seen(start)
    && SameOn(start, cur, Seen(start)) && cur.nodes.Keys <= start.nodes.Keys
    && forall id | id in start.nodes && !start.nodes[id].Const? :: id in cur.nodes && cur.nodes[id] == start.nodes[id]
  }

  lemma ReapedItself(net: Net)
    requires WellFormed(net)
    ensures Reaped(net, net)
  {
    SameOnReflexive(net);
    SameOnTransitive(net, net, net, net.nexuses.Keys, net.nexuses.Keys, Seen(net));
  }

  lemma ReapedOnward(start: Net, cur: Net, id: NodeId)
    requires Reaped(start, cur) && id in cur.nodes && cur.nodes[id].Const? && Useless(cur, id)
    requires id in start.nodes && start.nodes[id] == cur.nodes[id]
    ensures Reaped(start, Remove(cur, id))
  {
    UselessStep(cur, id);
    SameOnTransitive(start, cur, Remove(cur, id), Seen(start), Seen(start), Seen(start));
  }

  class Netlist {
    var nodes: map<NodeId, Node>
    var nexuses: map<NexusId, Nexus>
    var freshNode: NodeId
    var freshNexus: NexusId
    var count: nat

    ghost function Value(): Net
      reads this
    {
      Net(nodes, nexuses)
    }

    ghost predicate Valid()
      reads this
    {
      WellFormed(Value()) && (forall id | id in nodes :: id < freshNode) && (forall m | m in nexuses :: m < freshNexus)
    }

    constructor (net: Net, freshNode: NodeId, freshNexus: NexusId)
      requires WellFormed(net)
      requires forall id | id in net.nodes :: id < freshNode
      requires forall m | m in net.nexuses :: m < freshNexus
      ensures Valid() && Value() == net
    {
      nodes, nexuses := net.nodes, net.nexuses;
      this.freshNode, this.freshNexus := freshNode, freshNexus;
      count := 0;
    }

    // ----- walking the links of a nexus -----

    method Drivers(m: NexusId) returns (ids: seq<NodeId>)
      ensures NoRepeats(ids) && forall id :: id in ids <==> id in nodes && nodes[id].out == m
    {
      ids := [];
      var todo := nodes.Keys;
      while todo != {}
        invariant todo <= nodes.Keys && NoRepeats(ids)
        invariant forall id :: id in ids <==> id in nodes && id !in todo && nodes[id].out == m
        decreases |todo|
      {
        var id :| id in todo;
        todo := todo - {id};
        if nodes[id].out == m { ids := ids + [id]; }
      }
    }

    /** `drivers_constant`. */
    method DriversConstant(m: NexusId) returns (constant: bool)
      requires m in nexuses
      ensures constant <==> ConstantDrivers(Value(), m)
    {
      var ids := Drivers(m);
      constant := !nexuses[m].port && !nexuses[m].reg && |ids| <= 1 && (ids == [] || nodes[ids[0]].Const?);
      assert ids != [] ==> ids[0] in ids;
      assert |ids| > 1 ==> ids[1] in ids && ids[0] != ids[1];
    }

    /** `driven_vector`. */
    method DrivenVector(m: NexusId) returns (v: Vec)
      requires WellFormed(Value()) && m in nexuses && ConstantDrivers(Value(), m)
      ensures v == ConstantValue(Value(), m)
    {
      var ids := Drivers(m);
      if ids == [] {
        v := Fill(Vz, nexuses[m].width);
      } else {
        assert ids[0] in ids;
        v := nodes[ids[0]].value;
      }
    }

    // ----- the visits -----

    /** The inputs of a concatenation spliced one after another, unless one is not constant. */
    method SpliceConstants(n: Node) returns (constant: bool, result: Vec)
      requires WellFormed(Value()) && NodeOk(nexuses, n) && n.Concat?
      ensures constant <==> AllConstant(Value(), n.ins)
      ensures constant ==> Const(result, n.out) == ConcatConst(ConstantsOf(Value(), n.ins), nexuses[n.out].width, n.out)
    {
      var width := nexuses[n.out].width;
      var off, k := 0, 0;
      result := Fill(Vz, width);
      while k < |n.ins|
        invariant 0 <= k <= |n.ins| && AllConstant(Value(), n.ins[..k])
        invariant off == |ConstantsOf(Value(), n.ins[..k])|
        invariant result == ConcatConst(ConstantsOf(Value(), n.ins[..k]), width, n.out).value
      {
        assert n.ins[k] in Inputs(n);
        constant := DriversConstant(n.ins[k]);
        if !constant { return; }
        var v := DrivenVector(n.ins[k]);
        ConstantsOfPrefix(Value(), n, k);
        SpliceInto(ConstantsOf(Value(), n.ins[..k]), v, width, n.out);
        result := result[..off] + v + result[off + |v|..];
        off := off + |v|;
        k := k + 1;
      }
      assert n.ins[..k] == n.ins;
      constant := true;
    }

    method LpmConcat(id: NodeId)
      requires Valid() && id in nodes && nodes[id].Concat?
      modifies this
      ensures Valid()
      ensures old(FoldableConcat(Value(), id)) ==>
        count == old(count) + 1 && Value() == old(Replace(Value(), id, freshNode, ConcatResult(Value(), id)))
      ensures !old(FoldableConcat(Value(), id)) ==> count == old(count) && Value() == old(Value())
    {
      if nodes[id].transparent { return; }
      var constant, result := SpliceConstants(nodes[id]);
      if !constant { return; }
      nodes := (nodes - {id})[freshNode := Const(result, nodes[id].out)];
      freshNode := freshNode + 1;
      count := count + 1;
    }

    /** The input that a constant select picks, if the multiplexer can go. */
    method PickInput(id: NodeId) returns (ok: bool, inp: NexusId)
      requires WellFormed(Value()) && id in nodes && nodes[id].Mux?
      ensures ok <==> FoldableMux(Value(), id)
      ensures ok ==> BufZ(inp, nodes[id].out) == MuxResult(Value(), id)
    {
      var n := nodes[id];
      ok, inp := false, n.sel;
      assert n.sel in Inputs(n);
      if |n.data| != 2 || nexuses[n.sel].width != 1 { return; }
      var constant := DriversConstant(n.sel);
      if !constant { return; }
      var v := DrivenVector(n.sel);
      if v[0] == Vz || v[0] == Vx { return; }
      ok, inp := true, if v[0] == V1 then n.data[1] else n.data[0];
    }

    method LpmMux(id: NodeId)
      requires Valid() && id in nodes && nodes[id].Mux?
      modifies this
      ensures Valid()
      ensures old(FoldableMux(Value(), id)) ==>
        count == old(count) + 1 && Value() == old(Replace(Value(), id, freshNode, MuxResult(Value(), id)))
      ensures !old(FoldableMux(Value(), id)) ==> count == old(count) && Value() == old(Value())
    {
      var ok, inp := PickInput(id);
      if !ok { return; }
      nodes := (nodes - {id})[freshNode := BufZ(inp, nodes[id].out)];
      freshNode := freshNode + 1;
      count := count + 1;
    }

    /** The first walk of `lpm_part_select`: give up on a driver that is not a part select. */
    method OnlyPartDrivers(n: NexusId) returns (ok: bool, ids: seq<NodeId>)
      requires WellFormed(Value()) && n in nexuses
      ensures ok <==> !nexuses[n].reg && forall id | id in nodes && nodes[id].out == n :: nodes[id].PartPV?
      ensures NoRepeats(ids) && (ok ==> OnlyParts(Value(), n, ids))
    {
      ids := Drivers(n);
      ok := !nexuses[n].reg && forall id | id in ids :: nodes[id].PartPV?;
    }

    /** The first place in the list where a base is above this one. */
    method FirstAbove(sorted: seq<NodeId>, base: nat) returns (pos: nat)
      requires forall i | 0 <= i < |sorted| :: sorted[i] in nodes && nodes[sorted[i]].PartPV?
      ensures pos <= |sorted| && (pos < |sorted| ==> nodes[sorted[pos]].base > base)
      ensures forall i | 0 <= i < pos :: nodes[sorted[i]].base <= base
    {
      pos := 0;
      while pos < |sorted| && nodes[sorted[pos]].base <= base
        invariant 0 <= pos <= |sorted|
        invariant forall i | 0 <= i < pos :: nodes[sorted[i]].base <= base
      {
        pos := pos + 1;
      }
    }

    method SortByBase(ids: seq<NodeId>) returns (sorted: seq<NodeId>)
      requires forall id | id in ids :: id in nodes && nodes[id].PartPV?
      requires NoRepeats(ids)
      ensures NoRepeats(sorted) && |sorted| == |ids| && forall id :: id in sorted <==> id in ids
      ensures Sorted(PartsOf(Value(), sorted))
    {
      sorted := [];
      var k := 0;
      while k < |ids|
        invariant 0 <= k <= |ids| && |sorted| == k && NoRepeats(sorted)
        invariant forall id :: id in sorted <==> id in ids[..k]
        invariant forall i | 0 <= i < |sorted| :: sorted[i] in nodes && nodes[sorted[i]].PartPV?
        invariant forall i, j | 0 <= i < j < |sorted| :: nodes[sorted[i]].base <= nodes[sorted[j]].base
      {
        var id := ids[k];
        var pos := FirstAbove(sorted, nodes[id].base);
        assert ids[..k + 1] == ids[..k] + [id];
        assert id !in ids[..k];
        sorted := sorted[..pos] + [id] + sorted[pos..];
        k := k + 1;
      }
      assert ids[..k] == ids;
      assert forall i | 0 <= i < |sorted| :: sorted[i] in sorted;
    }

    /** `make_const_0` and `make_const_z`: a new constant on a net of its own. */
    method MakeConst(width: nat, fill: Bit) returns (g: NexusId)
      requires Valid()
      modifies this
      ensures Valid() && g == old(freshNexus) && freshNode == old(freshNode) + 1 && count == old(count)
      ensures Value() == AddConst(old(Value()), old(freshNode), g, width, fill)
    {
      g := freshNexus;
      AddConstWellFormed(Value(), fill, freshNode, g, width);
      nodes := nodes[freshNode := Const(Fill(fill, width), g)];
      nexuses := nexuses[g := Nexus(width, false, false, false, false)];
      freshNode, freshNexus := freshNode + 1, freshNexus + 1;
    }

    /** A pin for a gap. */
    method MakeGap(ghost start: Net, ghost cid: NodeId, ghost pins: seq<NexusId>, ghost done: seq<Piece>,
                   width: nat, fill: Bit) returns (g: NexusId)
      requires Valid() && cid < freshNode && Spelling(start, Value(), cid, fill, pins, done)
      modifies this
      ensures Valid() && cid < freshNode && count == old(count)
      ensures Spelling(start, Value(), cid, fill, pins + [g], done + [Gap(width)])
    {
      GapSpelled(start, Value(), cid, fill, pins, done, freshNode, freshNexus, width);
      g := MakeConst(width, fill);
    }

    /** The pins for one part: its gap, if there is one, and its input. */
    method PlacePart(ghost start: Net, ghost cid: NodeId, pins: seq<NexusId>, ghost done: seq<Piece>,
                     p: Node, off: nat, fill: Bit) returns (pins': seq<NexusId>)
      requires Valid() && cid < freshNode && Spelling(start, Value(), cid, fill, pins, done)
      requires p.PartPV? && off <= p.base
      modifies this
      ensures Valid() && cid < freshNode && count == old(count)
      ensures Spelling(start, Value(), cid, fill, pins', done + PartPieces(p, off))
    {
      pins' := pins;
      if p.base > off {
        var g := MakeGap(start, cid, pins, done, p.base - off, fill);
        pins' := pins + [g];
      } else {
        assert done + [] == done;
      }
      PartSpelled(start, Value(), cid, fill, pins', done, p, off);
      pins' := pins' + [p.inp];
    }

    /** The filling pass: pins in order, a new constant for each gap. */
    method FillPins(parts: seq<Node>, width: nat, ghost cid: NodeId, fill: Bit) returns (pins: seq<NexusId>)
      requires Valid() && Stacked(parts, 0, width) && cid < freshNode && cid !in nodes
      modifies this
      ensures Valid() && cid < freshNode && count == old(count)
      ensures Spelling(old(Value()), Value(), cid, fill, pins, Pieces(parts, 0, width))
    {
      ghost var start, all, done := Value(), Pieces(parts, 0, width), [];
      var off: nat, k := 0, 0;
      pins := [];
      while k < |parts|
        invariant 0 <= k <= |parts| && count == old(count) && cid < freshNode
        invariant Stacked(parts[k..], off, width) && done + Pieces(parts[k..], off, width) == all
        invariant Valid() && Spelling(start, Value(), cid, fill, pins, done)
      {
        PiecesStep(parts, k, off, width, done);
        ghost var next := PartPieces(parts[k], off);
        pins := PlacePart(start, cid, pins, done, parts[k], off, fill);
        done := done + next;
        off := parts[k].base + parts[k].width;
        k := k + 1;
      }
      assert parts[k..] == [];
      pins := FillTail(start, cid, pins, done, off, width, fill);
    }

    /** The gap above the last part. */
    method FillTail(ghost start: Net, ghost cid: NodeId, pins: seq<NexusId>, ghost done: seq<Piece>,
                    off: nat, width: nat, fill: Bit) returns (pins': seq<NexusId>)
      requires Valid() && cid < freshNode && Spelling(start, Value(), cid, fill, pins, done)
      requires off <= width
      modifies this
      ensures Valid() && cid < freshNode && count == old(count)
      ensures Spelling(start, Value(), cid, fill, pins', done + Pieces([], off, width))
    {
      pins' := pins;
      if off < width {
        var g := MakeGap(start, cid, pins, done, width - off, fill);
        pins' := pins + [g];
      } else {
        assert done + [] == done;
      }
    }

    /** Collects, sorts and checks the drivers of a nexus. */
    method SortedParts(n: NexusId) returns (ok: bool, ids: seq<NodeId>)
      requires WellFormed(Value()) && n in nexuses
      ensures ok <==> Blendable(Value(), n)
      ensures ok ==> OnlyParts(Value(), n, ids) && NoRepeats(ids) && ids != []
      ensures ok ==> Stacked(PartsOf(Value(), ids), 0, nexuses[n].width)
    {
      ok, ids := OnlyPartDrivers(n);
      if !ok || |ids| == 0 || (|ids| == 1 && !nexuses[n].twoState) {
        FewDrivers(Value(), n, ids, ok);
        return false, [];
      }
      ids := SortByBase(ids);
      PartsAt(Value(), n, ids);
      var parts := PartsOf(Net(nodes, nexuses), ids);
      CheckedMeansBlendable(Value(), n, ids, parts);
      ok := CheckParts(parts, nexuses[n].width);
    }

    /** The concatenation, then the constants that fill its gaps, then the part selects go. */
    method Blend(n: NexusId, ids: seq<NodeId>, fill: Bit) returns (ghost pins: seq<NexusId>)
      requires Valid() && OnlyParts(Value(), n, ids) && Stacked(PartsOf(Value(), ids), 0, nexuses[n].width)
      modifies this
      ensures Valid() && count == old(count) + 1
      ensures Blended(old(Value()), Value(), n, ids, old(freshNode), pins, fill)
    {
      PartsAt(Value(), n, ids);
      var parts, width := PartsOf(Net(nodes, nexuses), ids), nexuses[n].width;
      var partCount := CountPins(parts, width);
      var cid := freshNode;
      freshNode := freshNode + 1;
      var ins := FillPins(parts, width, cid, fill);
      assert |ins| == partCount;
      pins := ins;
      Reconnect(old(Value()), n, ids, cid, ins, fill);
    }

    /** The concatenation takes the place of the part selects. */
    method Reconnect(ghost start: Net, n: NexusId, ids: seq<NodeId>, cid: NodeId, ins: seq<NexusId>, ghost fill: Bit)
      requires Valid() && cid < freshNode && WellFormed(start) && cid !in start.nodes
      requires OnlyParts(start, n, ids) && Stacked(PartsOf(start, ids), 0, start.nexuses[n].width)
      requires Spelling(start, Value(), cid, fill, ins, Pieces(PartsOf(start, ids), 0, start.nexuses[n].width))
      modifies this
      ensures Valid() && count == old(count) + 1
      ensures Blended(start, Value(), n, ids, cid, ins, fill)
    {
      FilledIsBlended(start, Value(), n, ids, cid, ins, fill);
      nodes := PutConcat(Net(nodes, nexuses), ids, cid, ins, n).nodes;
      count := count + 1;
    }

    /** Either this blends all drivers of the target into one new concatenation, or it
        leaves the netlist alone. */
    method LpmPartSelect(id: NodeId) returns (ghost ids: seq<NodeId>, ghost pins: seq<NexusId>)
      requires Valid() && id in nodes && nodes[id].PartPV?
      modifies this
      ensures Valid()
      ensures old(Blendable(Value(), nodes[id].out)) ==>
        Blended(old(Value()), Value(), old(nodes[id].out), ids, old(freshNode), pins,
                old(GapFill(Value(), nodes[id].out)))
      ensures if old(Blendable(Value(), nodes[id].out)) then count == old(count) + 1 && NoRepeats(ids) && ids != []
              else count == old(count) && Value() == old(Value())
    {
      pins := [];
      var n := nodes[id].out;
      var ok, sorted := SortedParts(n);
      ids := sorted;
      if ok {
        pins := Blend(n, sorted, if nexuses[n].twoState then V0 else Vz);
      }
    }

    // ----- scans -----

    /** What `functor` does at one node: one rewrite where one is possible, and it counts. */
    method Visit(id: NodeId) returns (ghost log: seq<Rewrite>)
      requires Valid() && id in nodes
      modifies this
      ensures Valid() && count == old(count) + |log| && Chain(Steps(), old(Value()), log, Value())
      ensures if old(Rewritable(Value(), id)) then |log| == 1 && log[0].id == id else log == []
    {
      ghost var before, cid := Value(), freshNode;
      match nodes[id] {
        case Concat(_, _, _) =>
          LpmConcat(id);
          if FoldableConcat(before, id) { ConcatIsStep(before, id, cid); }
        case Mux(_, _, _) =>
          LpmMux(id);
          if FoldableMux(before, id) { MuxIsStep(before, id, cid); }
        case PartPV(_, _, _, n) =>
          ghost var ids, pins := LpmPartSelect(id);
          if Blendable(before, n) { BlendIsStep(before, Value(), id, ids, cid, pins); }
        case _ =>
      }
      log := if Rewritable(before, id) then [Rewrite(before, id, Value())] else [];
    }

    /** One scan over the nodes, in any order; those deleted meanwhile are passed over. */
    method Scan() returns (ghost log: seq<Rewrite>)
      requires Valid()
      modifies this
      ensures Valid() && count == |log| && Chain(Steps(), old(Value()), log, Value())
      ensures count == 0 ==> forall id | id in nodes :: !Rewritable(Value(), id)
    {
      ghost var start := Value();
      count, log := 0, [];
      var todo := nodes.Keys;
      while todo != {}
        invariant Valid() && count == |log| && Chain(Steps(), start, log, Value())
        invariant count == 0 ==> forall id | id in start.nodes && id !in todo :: !Rewritable(start, id)
        decreases |todo|
      {
        var id :| id in todo;
        todo := todo - {id};
        if id in nodes {
          ghost var before := Value();
          ghost var more := Visit(id);
          ChainsJoin(Steps(), start, log, before, more, Value());
          log := log + more;
        }
      }
    }

    /** The loop of `cprop`: scan until a scan finds nothing to do. */
    method Propagate() returns (ghost log: seq<Rewrite>)
      requires Valid()
      modifies this
      ensures Valid() && Chain(Steps(), old(Value()), log, Value())
      ensures forall id | id in nodes :: !Rewritable(Value(), id)
    {
      log := Scan();
      while count > 0
        invariant Valid() && Chain(Steps(), old(Value()), log, Value())
        invariant count == 0 ==> forall id | id in nodes :: !Rewritable(Value(), id)
        decreases count > 0, Measure(nodes)
      {
        ghost var before := Value();
        ghost var more := Scan();
        RunLowers(before, more, Value());
        ChainsJoin(Steps(), old(Value()), log, before, more, Value());
        log := log + more;
      }
    }

    // ----- dangling constants -----

    /** Does some node take input from this nexus? */
    method IsRead(m: NexusId) returns (read: bool)
      ensures read <==> ReadByNode(Value(), m)
    {
      var todo := nodes.Keys;
      while todo != {}
        invariant todo <= nodes.Keys
        invariant forall id | id in nodes && id !in todo :: m !in Inputs(nodes[id])
        decreases |todo|
      {
        var id :| id in todo;
        todo := todo - {id};
        if m in Inputs(nodes[id]) { return true; }
      }
      read := false;
    }

    method LpmConst(id: NodeId)
      requires Valid() && id in nodes && nodes[id].Const?
      modifies this
      ensures Valid()
      ensures Value() == if old(Useless(Value(), id)) then old(Remove(Value(), id)) else old(Value())
    {
      var n := nodes[id];
      if n.value != Fill(Vz, |n.value|) {
        var read := IsRead(n.out);
        if read || nexuses[n.out].observed { return; }
      }
      nodes := nodes - {id};
    }

    /** One scan of `cprop_dc_functor`. */
    method RemoveDangling()
      requires Valid()
      modifies this
      ensures Valid() && Reaped(old(Value()), Value())
      ensures forall id | id in nodes && nodes[id].Const? :: !Useless(Value(), id)
    {
      ghost var start := Value();
      ReapedItself(start);
      var todo := nodes.Keys;
      while todo != {}
        invariant Valid() && Reaped(start, Value())
        invariant forall id | id in nodes :: id in start.nodes && nodes[id] == start.nodes[id]
        invariant forall id | id in nodes && id !in todo && nodes[id].Const? :: !Useless(Value(), id)
        decreases |todo|
      {
        var id :| id in todo;
        todo := todo - {id};
        if id in nodes && nodes[id].Const? {
          ghost var before := Value();
          LpmConst(id);
          if Useless(before, id) {
            ReapedOnward(start, before, id);
            UselessStays(before, id);
          }
        }
      }
    }

    /** `cprop`: propagate, then reap what dangles. If every rewrite was harmless, and so
        whenever no 2-state net can float, each net that is observed, or that a remaining
        node reads, keeps its value as a function of the inputs. */
    method Run() returns (ghost log: seq<Rewrite>, ghost mid: Net)
      requires Valid()
      modifies this
      ensures Valid() && old(nexuses).Keys <= nexuses.Keys
      ensures Chain(Steps(), old(Value()), log, mid) && nexuses == mid.nexuses
      ensures WellFormed(mid) && forall id | id in mid.nodes :: !Simplifies(mid, id)
      ensures AllHarmless(log) || old(NeverFloats(Value())) ==>
        SameOn(old(Value()), Value(), Seen(Value()) * old(nexuses).Keys)
      ensures forall id | id in nodes && nodes[id].Const? :: Needed(Value(), id)
      ensures forall id | id in mid.nodes && !mid.nodes[id].Const? :: id in nodes && nodes[id] == mid.nodes[id]
    {
      ghost var start := Value();
      log := Propagate();
      mid := Value();
      forall id | id in mid.nodes ensures !Simplifies(mid, id) { RewritableExactly(mid, id); }
      RunRefines(start, log, mid);
      RemoveDangling();
      forall id | id in nodes && nodes[id].Const? ensures Needed(Value(), id) { UselessExactly(Value(), id); }
      if AllHarmless(log) || NeverFloats(start) {
        SameOnTransitive(start, mid, Value(), start.nexuses.Keys, Seen(mid), Seen(mid) * start.nexuses.Keys);
      }
    }
  }
}
