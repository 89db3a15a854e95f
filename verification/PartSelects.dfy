/** When the part selects that drive a nexus can be blended, and how the concatenation's
    pins come about. */
module PartSelects {
  import opened Vectors
  import opened Netlists
  import opened NetlistSteps
  import opened Blending
  import opened BlendStep
  import opened GroundedNets

  ghost predicate NoRepeats(ids: seq<NodeId>) {
    forall i, j | 0 <= i < j < |ids| :: ids[i] != ids[j]
  }

  /** `n` is driven by part selects only, by enough of them, which neither overlap nor run
      off the end. */
  ghost predicate Blendable(net: Net, n: NexusId)
    requires n in net.nexuses
  {
    && !net.nexuses[n].reg
    && (forall id | id in net.nodes && net.nodes[id].out == n :: net.nodes[id].PartPV?)
    && (forall id, id' | id in net.nodes && id' in net.nodes && id != id'
                         && net.nodes[id].out == net.nodes[id'].out == n ::
          Disjoint(net.nodes[id], net.nodes[id']))
    && (forall id | id in net.nodes && net.nodes[id].out == n ::
          net.nodes[id].base + net.nodes[id].width <= net.nexuses[n].width)
    && (exists id, id' :: id in net.nodes && id' in net.nodes && net.nodes[id].out == net.nodes[id'].out == n
          && (net.nexuses[n].twoState || id != id'))
  }

  /** Adjacent parts do not overlap and the last ends within the target. */
  predicate Checked(parts: seq<Node>, width: nat)
    requires forall p | p in parts :: p.PartPV?
  {
    && (forall i | 0 < i < |parts| :: parts[i - 1].base + parts[i - 1].width <= parts[i].base)
    && (parts != [] ==> parts[|parts| - 1].base + parts[|parts| - 1].width <= width)
  }

  lemma PartsAt(net: Net, n: NexusId, ids: seq<NodeId>)
    requires WellFormed(net) && OnlyParts(net, n, ids)
    ensures forall k | 0 <= k < |ids| :: ids[k] in net.nodes && PartsOf(net, ids)[k] == net.nodes[ids[k]]
    ensures forall p | p in PartsOf(net, ids) :: p.PartPV? && p.width >= 1
  {
    assert forall k | 0 <= k < |ids| :: ids[k] in ids;
  }

  /** On the sorted list of drivers, the two checks are exactly what blending needs. */
  lemma CheckedMeansBlendable(net: Net, n: NexusId, ids: seq<NodeId>, parts: seq<Node>)
    requires WellFormed(net) && OnlyParts(net, n, ids) && NoRepeats(ids)
    requires parts == PartsOf(net, ids) && (forall p | p in parts :: p.PartPV? && p.width >= 1) && Sorted(parts)
    requires |ids| > 1 || (|ids| == 1 && net.nexuses[n].twoState)
    ensures Checked(parts, net.nexuses[n].width) <==> Blendable(net, n)
    ensures Checked(parts, net.nexuses[n].width) ==> Stacked(parts, 0, net.nexuses[n].width)
  {
    ChecksMeanDisjoint(parts, net.nexuses[n].width);
    if Checked(parts, net.nexuses[n].width) {
      ChecksMeanStacked(parts, 0, net.nexuses[n].width);
      CheckedIsBlendable(net, n, ids);
    }
    if Blendable(net, n) { BlendableIsChecked(net, n, ids, parts); }
  }

  lemma BlendableIsChecked(net: Net, n: NexusId, ids: seq<NodeId>, parts: seq<Node>)
    requires OnlyParts(net, n, ids) && NoRepeats(ids) && Blendable(net, n)
    requires parts == PartsOf(net, ids) && (forall p | p in parts :: p.PartPV? && p.width >= 1) && Sorted(parts)
    ensures Checked(parts, net.nexuses[n].width)
  {
    BlendableIsDisjoint(net, n, ids);
    ChecksMeanDisjoint(parts, net.nexuses[n].width);
  }

  lemma BlendableIsDisjoint(net: Net, n: NexusId, ids: seq<NodeId>)
    requires OnlyParts(net, n, ids) && NoRepeats(ids) && Blendable(net, n)
    requires forall p | p in PartsOf(net, ids) :: p.PartPV?
    ensures forall i, j | 0 <= i < j < |ids| :: Disjoint(PartsOf(net, ids)[i], PartsOf(net, ids)[j])
    ensures forall i | 0 <= i < |ids| :: net.nodes[ids[i]].base + net.nodes[ids[i]].width <= net.nexuses[n].width
  {
    assert forall k | 0 <= k < |ids| :: ids[k] in ids && net.nodes[ids[k]].out == n;
  }

  lemma CheckedIsBlendable(net: Net, n: NexusId, ids: seq<NodeId>)
    requires OnlyParts(net, n, ids) && NoRepeats(ids)
    requires |ids| > 1 || (|ids| == 1 && net.nexuses[n].twoState)
    requires forall i, j | 0 <= i < j < |ids| :: Disjoint(PartsOf(net, ids)[i], PartsOf(net, ids)[j])
    requires forall p | p in PartsOf(net, ids) :: p.PartPV? && p.base + p.width <= net.nexuses[n].width
    ensures Blendable(net, n)
  {
    var parts := PartsOf(net, ids);
    assert forall k | 0 <= k < |ids| :: ids[k] in ids && parts[k] == net.nodes[ids[k]];
    forall id, id' | id in net.nodes && id' in net.nodes && id != id' && net.nodes[id].out == net.nodes[id'].out == n
      ensures Disjoint(net.nodes[id], net.nodes[id'])
    {
      var i :| 0 <= i < |ids| && ids[i] == id;
      var j :| 0 <= j < |ids| && ids[j] == id';
      assert if i < j then Disjoint(parts[i], parts[j]) else Disjoint(parts[j], parts[i]);
    }
    forall id | id in net.nodes && net.nodes[id].out == n
      ensures net.nodes[id].base + net.nodes[id].width <= net.nexuses[n].width
    {
      var i :| 0 <= i < |ids| && ids[i] == id;
      assert parts[i] in parts;
    }
    assert ids[0] in net.nodes && ids[|ids| - 1] in net.nodes;
  }

  /** The overlap check between neighbours and the check that the tail is in range. */
  method CheckParts(parts: seq<Node>, width: nat) returns (ok: bool)
    requires parts != [] && forall p | p in parts :: p.PartPV?
    ensures ok <==> Checked(parts, width)
  {
    var k := 1;
    while k < |parts|
      invariant 1 <= k <= |parts|
      invariant forall i | 0 < i < k :: parts[i - 1].base + parts[i - 1].width <= parts[i].base
    {
      if parts[k - 1].base + parts[k - 1].width > parts[k].base { return false; }
      k := k + 1;
    }
    ok := parts[|parts| - 1].base + parts[|parts| - 1].width <= width;
  }

  /** The counting pass: as many pins as there are pieces. */
  method CountPins(parts: seq<Node>, width: nat) returns (pins: nat)
    requires forall p | p in parts :: p.PartPV?
    requires Stacked(parts, 0, width)
    ensures pins == |Pieces(parts, 0, width)|
  {
    var off: nat, k := 0, 0;
    pins := 0;
    while k < |parts|
      invariant 0 <= k <= |parts| && Stacked(parts[k..], off, width)
      invariant pins + |Pieces(parts[k..], off, width)| == |Pieces(parts, 0, width)|
    {
      assert parts[k..][0] == parts[k] && parts[k..][1..] == parts[k + 1..];
      if parts[k].base > off {
        off := parts[k].base;
        pins := pins + 1;
      }
      off := off + parts[k].width;
      pins := pins + 1;
      k := k + 1;
    }
    if off < width { pins := pins + 1; }
  }

  // ----- filling the gaps -----

  lemma NodeStaysOk(nx: map<NexusId, Nexus>, nx': map<NexusId, Nexus>, n: Node)
    requires NodeOk(nx, n) && forall m | m in nx :: m in nx' && nx'[m] == nx[m]
    ensures NodeOk(nx', n)
  {
    if n.Concat? { InputWidthLocal(nx, nx', n.ins); }
  }

  /** So far only constants on new nexuses were added to `start`. */
  ghost predicate Filling(start: Net, cur: Net, cid: NodeId, fill: Bit) {
    WellFormed(cur) && cid !in cur.nodes && NodesKept(start, cur, [], cid, fill) && NexusesKept(start, cur, fill)
  }

  /** So far `pins` spell the pieces in `done`. */
  ghost predicate Spelling(start: Net, cur: Net, cid: NodeId, fill: Bit, pins: seq<NexusId>, done: seq<Piece>) {
    Filling(start, cur, cid, fill) && PinsFor(start, cur, pins, done)
  }

  function AddConst(net: Net, id: NodeId, g: NexusId, width: nat, fill: Bit): Net {
    Net(net.nodes[id := Const(Fill(fill, width), g)], net.nexuses[g := Nexus(width, false, false, false, false)])
  }

  lemma AddConstWellFormed(cur: Net, fill: Bit, id: NodeId, g: NexusId, width: nat)
    requires WellFormed(cur) && id !in cur.nodes && g !in cur.nexuses
    ensures WellFormed(AddConst(cur, id, g, width, fill))
  {
    var cur' := AddConst(cur, id, g, width, fill);
    forall k | k in cur'.nodes ensures NodeOk(cur'.nexuses, cur'.nodes[k]) {
      if k != id { NodeStaysOk(cur.nexuses, cur'.nexuses, cur.nodes[k]); }
    }
  }

  lemma AddConstNodes(start: Net, cur: Net, cid: NodeId, fill: Bit, id: NodeId, g: NexusId, width: nat)
    requires NodesKept(start, cur, [], cid, fill) && cid !in cur.nodes
    requires id !in cur.nodes && id != cid && g !in cur.nexuses && g !in start.nexuses
    ensures NodesKept(start, AddConst(cur, id, g, width, fill), [], cid, fill)
  {
    var cur' := AddConst(cur, id, g, width, fill);
    forall k | k in cur'.nodes ensures k in start.nodes || GapConst(start, cur', k, fill) {
      assert k != id ==> k in start.nodes || GapConst(start, cur, k, fill);
    }
  }

  lemma AddConstNexuses(start: Net, cur: Net, fill: Bit, id: NodeId, g: NexusId, width: nat)
    requires NexusesKept(start, cur, fill) && id !in cur.nodes && g !in cur.nexuses
    ensures NexusesKept(start, AddConst(cur, id, g, width, fill), fill)
  {
    var cur' := AddConst(cur, id, g, width, fill);
    forall h | h in cur'.nexuses && h !in start.nexuses
      ensures cur'.nexuses[h] == Nexus(cur'.nexuses[h].width, false, false, false, false) && Filled(cur', h, fill)
    {
      if h == g {
        assert cur'.nodes[id] == Const(Fill(fill, cur'.nexuses[g].width), g);
      } else {
        var k :| k in cur.nodes && cur.nodes[k] == Const(Fill(fill, cur.nexuses[h].width), h);
        assert cur'.nodes[k] == Const(Fill(fill, cur'.nexuses[h].width), h);
      }
    }
  }

  lemma AddConstFills(start: Net, cur: Net, cid: NodeId, fill: Bit, id: NodeId, g: NexusId, width: nat)
    requires Filling(start, cur, cid, fill) && id !in cur.nodes && id != cid && g !in cur.nexuses
    ensures Filling(start, AddConst(cur, id, g, width, fill), cid, fill)
  {
    AddConstWellFormed(cur, fill, id, g, width);
    AddConstNodes(start, cur, cid, fill, id, g, width);
    AddConstNexuses(start, cur, fill, id, g, width);
  }

  lemma PinAdded(start: Net, cur: Net, pins: seq<NexusId>, done: seq<Piece>, id: NodeId, g: NexusId, width: nat,
                 fill: Bit)
    requires PinsFor(start, cur, pins, done) && g !in cur.nexuses && g !in start.nexuses
    ensures PinsFor(start, AddConst(cur, id, g, width, fill), pins + [g], done + [Gap(width)])
  {
  }

  lemma GapSpelled(start: Net, cur: Net, cid: NodeId, fill: Bit, pins: seq<NexusId>, done: seq<Piece>,
                   id: NodeId, g: NexusId, width: nat)
    requires Spelling(start, cur, cid, fill, pins, done) && id !in cur.nodes && id != cid && g !in cur.nexuses
    ensures Spelling(start, AddConst(cur, id, g, width, fill), cid, fill, pins + [g], done + [Gap(width)])
  {
    AddConstFills(start, cur, cid, fill, id, g, width);
    PinAdded(start, cur, pins, done, id, g, width, fill);
  }

  lemma PiecesStep(parts: seq<Node>, k: nat, off: nat, width: nat, done: seq<Piece>)
    requires k < |parts| && Stacked(parts[k..], off, width)
    ensures parts[k].PartPV? && off <= parts[k].base && Stacked(parts[k + 1..], parts[k].base + parts[k].width, width)
    ensures done + Pieces(parts[k..], off, width)
      == done + PartPieces(parts[k], off) + Pieces(parts[k + 1..], parts[k].base + parts[k].width, width)
  {
    assert parts[k..][0] == parts[k] && parts[k..][1..] == parts[k + 1..];
    assert Pieces(parts[k..], off, width)
      == PartPieces(parts[k], off) + Pieces(parts[k + 1..], parts[k].base + parts[k].width, width);
  }

  lemma WireSpelled(start: Net, cur: Net, cid: NodeId, fill: Bit, pins: seq<NexusId>, done: seq<Piece>,
                    m: NexusId, n: nat)
    requires Spelling(start, cur, cid, fill, pins, done)
    ensures Spelling(start, cur, cid, fill, pins + [m], done + [Wire(m, n)])
  {
  }

  /** With its gap spelled, if it has one, a part needs one more pin. */
  lemma PartSpelled(start: Net, cur: Net, cid: NodeId, fill: Bit, pins: seq<NexusId>, done: seq<Piece>, p: Node,
                    off: nat)
    requires p.PartPV?
    requires Spelling(start, cur, cid, fill, pins, done + if p.base > off then [Gap(p.base - off)] else [])
    ensures Spelling(start, cur, cid, fill, pins + [p.inp], done + PartPieces(p, off))
  {
    var done' := done + if p.base > off then [Gap(p.base - off)] else [];
    WireSpelled(start, cur, cid, fill, pins, done', p.inp, p.width);
    assert done' + [Wire(p.inp, p.width)] == done + PartPieces(p, off);
  }

  /** Putting the concatenation in and taking the part selects out completes the blend. */
  function PutConcat(cur: Net, ids: seq<NodeId>, cid: NodeId, ins: seq<NexusId>, n: NexusId): Net {
    Net((cur.nodes - set id | id in ids)[cid := Concat(false, ins, n)], cur.nexuses)
  }

  lemma FilledKeepsNodes(start: Net, cur: Net, n: NexusId, ids: seq<NodeId>, cid: NodeId, ins: seq<NexusId>, fill: Bit)
    requires OnlyParts(start, n, ids) && Filling(start, cur, cid, fill) && cid !in start.nodes
    ensures NodesKept(start, PutConcat(cur, ids, cid, ins, n), ids, cid, fill)
  {
    var net' := PutConcat(cur, ids, cid, ins, n);
    forall id | id in net'.nodes && id != cid
      ensures (id in start.nodes && id !in ids) || GapConst(start, net', id, fill)
    {
      assert id in start.nodes || GapConst(start, cur, id, fill);
    }
  }

  lemma FilledKeepsNexuses(start: Net, cur: Net, n: NexusId, ids: seq<NodeId>, cid: NodeId, ins: seq<NexusId>,
                           fill: Bit)
    requires OnlyParts(start, n, ids) && Filling(start, cur, cid, fill)
    ensures NexusesKept(start, PutConcat(cur, ids, cid, ins, n), fill)
  {
    var net' := PutConcat(cur, ids, cid, ins, n);
    forall g | g in net'.nexuses && g !in start.nexuses ensures Filled(net', g, fill) {
      var id :| id in cur.nodes && cur.nodes[id] == Const(Fill(fill, cur.nexuses[g].width), g);
      assert id !in ids;
      assert id in net'.nodes && net'.nodes[id] == cur.nodes[id];
    }
  }

  lemma FilledConcatOk(start: Net, cur: Net, n: NexusId, parts: seq<Node>, ins: seq<NexusId>, fill: Bit)
    requires NexusesKept(start, cur, fill) && n in start.nexuses
    requires forall p | p in parts :: NodeOk(start.nexuses, p) && p.PartPV?
    requires Stacked(parts, 0, start.nexuses[n].width)
    requires PinsFor(start, cur, ins, Pieces(parts, 0, start.nexuses[n].width))
    ensures NodeOk(cur.nexuses, Concat(false, ins, n))
  {
    PinsFillTarget(start, cur, n, parts, ins);
  }

  lemma FilledIsBlended(start: Net, cur: Net, n: NexusId, ids: seq<NodeId>, cid: NodeId, ins: seq<NexusId>, fill: Bit)
    requires WellFormed(start) && OnlyParts(start, n, ids) && Stacked(PartsOf(start, ids), 0, start.nexuses[n].width)
    requires Filling(start, cur, cid, fill) && cid !in start.nodes
    requires PinsFor(start, cur, ins, Pieces(PartsOf(start, ids), 0, start.nexuses[n].width))
    ensures var net' := PutConcat(cur, ids, cid, ins, n);
      WellFormed(net') && Blended(start, net', n, ids, cid, ins, fill)
  {
    PartsAt(start, n, ids);
    FilledConcatOk(start, cur, n, PartsOf(start, ids), ins, fill);
    FilledKeepsNodes(start, cur, n, ids, cid, ins, fill);
    FilledKeepsNexuses(start, cur, n, ids, cid, ins, fill);
  }

  lemma FewDrivers(net: Net, n: NexusId, ids: seq<NodeId>, only: bool)
    requires n in net.nexuses && NoRepeats(ids)
    requires only <==>
      !net.nexuses[n].reg && forall id | id in net.nodes && net.nodes[id].out == n :: net.nodes[id].PartPV?
    requires only ==> OnlyParts(net, n, ids)
    requires !only || |ids| == 0 || (|ids| == 1 && !net.nexuses[n].twoState)
    ensures !Blendable(net, n)
  {
  }
}
