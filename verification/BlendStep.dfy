/** The blended netlist has the same consistent valuations. */
module BlendStep {
  import opened Vectors
  import opened Netlists
  import opened NetlistSteps
  import opened Blending

  function PartsOf(net: Net, ids: seq<NodeId>): seq<Node>
    requires forall id | id in ids :: id in net.nodes
  {
    seq(|ids|, k requires 0 <= k < |ids| => net.nodes[ids[k]])
  }

  /** `ids` lists the drivers of nexus `n`, which are all part selects. */
  ghost predicate OnlyParts(net: Net, n: NexusId, ids: seq<NodeId>) {
    && n in net.nexuses && !net.nexuses[n].reg
    && (forall id | id in ids :: id in net.nodes && net.nodes[id].PartPV?)
    && (forall id | id in net.nodes :: net.nodes[id].out == n <==> id in ids)
  }

  /** Pin by pin: gaps are fresh nexuses of their width, wires the inputs of the parts. */
  ghost predicate PinsFor(net: Net, net': Net, ins: seq<NexusId>, pieces: seq<Piece>) {
    && |ins| == |pieces|
    && forall j | 0 <= j < |ins| ::
         if pieces[j].Gap? then
           ins[j] !in net.nexuses && ins[j] in net'.nexuses && net'.nexuses[ins[j]].width == pieces[j].n
         else ins[j] == pieces[j].inp
  }

  ghost predicate GapConst(net: Net, net': Net, id: NodeId, fill: Bit)
    requires id in net'.nodes
  {
    var n := net'.nodes[id];
    && n.Const? && n.out !in net.nexuses && n.out in net'.nexuses
    && n.value == Fill(fill, net'.nexuses[n.out].width)
  }

  /** Some constant drives nexus `g` with the fill value. */
  ghost predicate Filled(net': Net, g: NexusId, fill: Bit)
    requires g in net'.nexuses
  {
    exists id :: id in net'.nodes && net'.nodes[id] == Const(Fill(fill, net'.nexuses[g].width), g)
  }

  /** The nodes are the old ones without the part selects, the node `cid`, and constants
      with the fill value on new nexuses. */
  ghost predicate NodesKept(net: Net, net': Net, ids: seq<NodeId>, cid: NodeId, fill: Bit) {
    && (forall id | id in net.nodes && id !in ids :: id in net'.nodes && net'.nodes[id] == net.nodes[id])
    && (forall id | id in net'.nodes && id != cid ::
          (id in net.nodes && id !in ids) || GapConst(net, net', id, fill))
  }

  /** The nexuses are the old ones and new plain ones that hold the fill value. */
  ghost predicate NexusesKept(net: Net, net': Net, fill: Bit) {
    && (forall m | m in net.nexuses :: m in net'.nexuses && net'.nexuses[m] == net.nexuses[m])
    && (forall g | g in net'.nexuses && g !in net.nexuses ::
          net'.nexuses[g] == Nexus(net'.nexuses[g].width, false, false, false, false) && Filled(net', g, fill))
  }

  /** The old nodes without the part selects, plus a concatenation and the constants
      that fill its gaps. */
  ghost predicate Blended(net: Net, net': Net, n: NexusId, ids: seq<NodeId>, cid: NodeId, ins: seq<NexusId>,
                          fill: Bit) {
    && OnlyParts(net, n, ids) && Stacked(PartsOf(net, ids), 0, net.nexuses[n].width)
    && cid !in net.nodes && cid in net'.nodes && net'.nodes[cid] == Concat(false, ins, n)
    && NodesKept(net, net', ids, cid, fill) && NexusesKept(net, net', fill)
    && PinsFor(net, net', ins, Pieces(PartsOf(net, ids), 0, net.nexuses[n].width))
  }

  /** Some part select drives bit `i` of `n`. */
  ghost predicate Covered(net: Net, n: NexusId, i: nat) {
    exists id :: id in net.nodes && net.nodes[id].PartPV? && net.nodes[id].out == n
                 && net.nodes[id].base <= i < net.nodes[id].base + net.nodes[id].width
  }

  /** The part selects leave no gap. */
  ghost predicate PartsCover(net: Net, n: NexusId)
    requires n in net.nexuses
  {
    forall i: nat | i < net.nexuses[n].width :: Covered(net, n, i)
  }

  /** What blending fills the gaps of a nexus with. */
  function GapFill(net: Net, n: NexusId): Bit
    requires n in net.nexuses
  {
    if net.nexuses[n].twoState then V0 else Vz
  }

  /** Gaps of a 4-state target float; those of a 2-state one are 0, and then nothing
      outside may drive it. */
  ghost predicate FillOk(net: Net, n: NexusId)
    requires n in net.nexuses
  {
    net.nexuses[n].twoState && net.nexuses[n].port ==> PartsCover(net, n)
  }

  ghost predicate Extends(net: Net, net': Net, val: Valuation, val': Valuation, fill: Bit) {
    && Sound(net.nexuses, val) && Sound(net'.nexuses, val')
    && (forall m | m in net.nexuses :: m in net'.nexuses && val'[m] == val[m])
    && (forall g | g in net'.nexuses && g !in net.nexuses :: val'[g] == Fill(fill, net'.nexuses[g].width))
  }

  // ----- other nexuses -----

  lemma OtherNexus(net: Net, net': Net, ids: seq<NodeId>, cid: NodeId, fill: Bit,
                   val: Valuation, val': Valuation, w: World, m: NexusId, i: nat, b: Bit)
    requires WellFormed(net) && WellFormed(net') && NodesKept(net, net', ids, cid, fill)
    requires Extends(net, net', val, val', fill)
    requires m in net.nexuses && net'.nexuses[m] == net.nexuses[m] && i < net.nexuses[m].width
    requires forall id | id in ids && id in net.nodes :: net.nodes[id].out != m
    requires cid in net'.nodes && net'.nodes[cid].out != m
    ensures Drives(net, val, w, m, i, b) <==> Drives(net', val', w, m, i, b)
  {
    forall id | id in net.nodes && net.nodes[id].out == m
      ensures id in net'.nodes && net'.nodes[id] == net.nodes[id]
      ensures Driven(net.nexuses, net.nodes[id], val, w, i) == Driven(net'.nexuses, net'.nodes[id], val', w, i)
    {
      DrivenLocal(net.nexuses, net'.nexuses, net.nodes[id], val, val', w, i);
    }
    forall id | id in net'.nodes && net'.nodes[id].out == m ensures id in net.nodes {
      assert id in net.nodes || GapConst(net, net', id, fill);
    }
  }

  /** A nexus driven by nothing but fill constants. */
  ghost predicate GapOk(net': Net, g: NexusId, fill: Bit)
    requires g in net'.nexuses
  {
    var x := net'.nexuses[g];
    && !x.port && !x.reg && !x.twoState && Filled(net', g, fill)
    && forall id | id in net'.nodes && net'.nodes[id].out == g :: net'.nodes[id] == Const(Fill(fill, x.width), g)
  }

  lemma GapsOk(net: Net, net': Net, ids: seq<NodeId>, cid: NodeId, fill: Bit, g: NexusId)
    requires WellFormed(net) && NodesKept(net, net', ids, cid, fill) && NexusesKept(net, net', fill)
    requires cid in net'.nodes && net'.nodes[cid].out != g
    requires g in net'.nexuses && g !in net.nexuses
    ensures GapOk(net', g, fill)
  {
    forall id | id in net'.nodes && net'.nodes[id].out == g
      ensures net'.nodes[id] == Const(Fill(fill, net'.nexuses[g].width), g)
    {
      assert (id in net.nodes && id !in ids) || GapConst(net, net', id, fill);
    }
  }

  lemma GapResolves(net': Net, g: NexusId, fill: Bit, val': Valuation, w: World, i: nat)
    requires WellFormed(net') && Sound(net'.nexuses, val')
    requires g in net'.nexuses && GapOk(net', g, fill) && i < net'.nexuses[g].width && fill != Vx
    ensures Resolved(net', val', w, g, i) == fill
  {
    var id :| id in net'.nodes && net'.nodes[id] == Const(Fill(fill, net'.nexuses[g].width), g);
    assert Driven(net'.nexuses, net'.nodes[id], val', w, i) == fill;
  }

  // ----- the blended nexus -----

  lemma {:induction false} JoinPins(net: Net, net': Net, ins: seq<NexusId>, pieces: seq<Piece>,
                                    val: Valuation, val': Valuation, fill: Bit)
    requires PinsFor(net, net', ins, pieces) && Extends(net, net', val, val', fill)
    requires forall p | p in pieces :: p.Wire? ==> p.inp in net.nexuses
    ensures (forall m | m in ins :: m in val') && Join(ins, val') == PieceBits(pieces, val, fill)
  {
    if ins != [] {
      var rest := pieces[1..];
      assert pieces[0] in pieces && forall p | p in rest :: p in pieces;
      forall j | 0 <= j < |rest|
        ensures if rest[j].Gap? then
            ins[1..][j] !in net.nexuses && ins[1..][j] in net'.nexuses && net'.nexuses[ins[1..][j]].width == rest[j].n
          else ins[1..][j] == rest[j].inp
      {
        assert rest[j] == pieces[j + 1];
      }
      JoinPins(net, net', ins[1..], rest, val, val', fill);
      assert ins == [ins[0]] + ins[1..];
    }
  }

  lemma {:induction false} CoveredBit(parts: seq<Node>, val: Valuation, fill: Bit, i: nat)
    requires PartsOk(parts, val)
    ensures if exists p :: p in parts && p.base <= i < p.base + p.width
      then CoverBit(parts, val, fill, i) == CoverBit(parts, val, Vz, i)
      else CoverBit(parts, val, fill, i) == fill
  {
    if parts != [] {
      CoveredBit(parts[1..], val, fill, i);
      assert forall p | p in parts :: p == parts[0] || p in parts[1..];
    }
  }

  /** The fill value shows where no part select drives, and only there. */
  lemma FillShowsInGaps(net: Net, n: NexusId, ids: seq<NodeId>, val: Valuation, fill: Bit, i: nat)
    requires OnlyParts(net, n, ids) && PartsOk(PartsOf(net, ids), val)
    ensures var parts := PartsOf(net, ids);
      if Covered(net, n, i) then CoverBit(parts, val, fill, i) == CoverBit(parts, val, Vz, i)
      else CoverBit(parts, val, fill, i) == fill
  {
    var parts := PartsOf(net, ids);
    CoveredBit(parts, val, fill, i);
    if id :| id in net.nodes && net.nodes[id].PartPV? && net.nodes[id].out == n
             && net.nodes[id].base <= i < net.nodes[id].base + net.nodes[id].width {
      var k :| 0 <= k < |ids| && ids[k] == id;
      assert parts[k] in parts;
    }
    if p :| p in parts && p.base <= i < p.base + p.width {
      var k :| 0 <= k < |parts| && parts[k] == p;
      assert ids[k] in ids;
    }
  }

  /** Some node drives bit `b` onto bit `i` of `n`. */
  ghost predicate PartDrives(net: Net, n: NexusId, val: Valuation, w: World, i: nat, b: Bit)
    requires WellFormed(net) && Sound(net.nexuses, val) && n in net.nexuses && i < net.nexuses[n].width
  {
    exists id :: id in net.nodes && net.nodes[id].out == n && Driven(net.nexuses, net.nodes[id], val, w, i) == b
  }

  lemma PartsDrive(net: Net, n: NexusId, ids: seq<NodeId>, val: Valuation, w: World, i: nat, b: Bit)
    requires WellFormed(net) && Sound(net.nexuses, val) && OnlyParts(net, n, ids)
    requires Stacked(PartsOf(net, ids), 0, net.nexuses[n].width) && i < net.nexuses[n].width && b != Vz
    ensures PartsOk(PartsOf(net, ids), val)
    ensures PartDrives(net, n, val, w, i, b) <==> CoverBit(PartsOf(net, ids), val, Vz, i) == b
  {
    var parts := PartsOf(net, ids);
    CoverIsResolution(parts, val, 0, net.nexuses[n].width, i, b);
    if id :| id in net.nodes && net.nodes[id].out == n && Driven(net.nexuses, net.nodes[id], val, w, i) == b {
      var k :| 0 <= k < |ids| && ids[k] == id;
      assert Placed(val[parts[k].inp], parts[k].base, i) == b;
    }
    if k :| 0 <= k < |parts| && Placed(val[parts[k].inp], parts[k].base, i) == b {
      assert ids[k] in net.nodes && net.nodes[ids[k]].out == n
        && Driven(net.nexuses, net.nodes[ids[k]], val, w, i) == b;
    }
  }

  lemma ConcatDrives(net: Net, net': Net, parts: seq<Node>, width: nat, ins: seq<NexusId>, fill: Bit,
                     val: Valuation, val': Valuation, i: nat)
    requires PartsOk(parts, val) && Stacked(parts, 0, width) && i < width
    requires PinsFor(net, net', ins, Pieces(parts, 0, width)) && Extends(net, net', val, val', fill)
    ensures forall m | m in ins :: m in val'
    ensures Placed(Join(ins, val'), 0, i) == CoverBit(parts, val, fill, i)
  {
    WiresOk(parts, val, 0, width);
    JoinPins(net, net', ins, Pieces(parts, 0, width), val, val', fill);
    PiecesSpellCover(parts, val, fill, 0, width, i);
  }

  lemma OnlyConcatDrives(net: Net, net': Net, n: NexusId, ids: seq<NodeId>, cid: NodeId, ins: seq<NexusId>, fill: Bit)
    requires Blended(net, net', n, ids, cid, ins, fill)
    ensures forall id | id in net'.nodes :: net'.nodes[id].out == n <==> id == cid
  {
    forall id | id in net'.nodes && id != cid ensures net'.nodes[id].out != n {
      if id !in net.nodes { assert GapConst(net, net', id, fill); }
    }
  }

  ghost predicate Outside(net: Net, n: NexusId, w: World, i: nat, b: Bit)
    requires n in net.nexuses && i < net.nexuses[n].width
  {
    net.nexuses[n].port && Resize(w.env(n), net.nexuses[n].width, false)[i] == b
  }

  /** Bit `i` of `n` when the nodes together drive `c` onto it. */
  ghost function Together(net: Net, n: NexusId, w: World, i: nat, c: Bit): Bit
    requires n in net.nexuses && i < net.nexuses[n].width
  {
    Resolve(c == V0 || Outside(net, n, w, i, V0), c == V1 || Outside(net, n, w, i, V1),
            c == Vx || Outside(net, n, w, i, Vx), net.nexuses[n].twoState)
  }

  lemma ResolvesTogether(net: Net, n: NexusId, val: Valuation, w: World, i: nat, c: Bit)
    requires WellFormed(net) && Sound(net.nexuses, val)
    requires n in net.nexuses && i < net.nexuses[n].width && !net.nexuses[n].reg
    requires forall b: Bit | b != Vz :: c == b <==> PartDrives(net, n, val, w, i, b)
    ensures Resolved(net, val, w, n, i) == Together(net, n, w, i, c)
  {
    forall b: Bit | b != Vz
      ensures Drives(net, val, w, n, i, b) <==> c == b || Outside(net, n, w, i, b)
    {
      assert PartDrives(net, n, val, w, i, b) <==> c == b;
    }
  }

  lemma OneDriver(net: Net, n: NexusId, id: NodeId, val: Valuation, w: World, i: nat, b: Bit)
    requires WellFormed(net) && Sound(net.nexuses, val) && n in net.nexuses && i < net.nexuses[n].width
    requires id in net.nodes && forall k | k in net.nodes :: net.nodes[k].out == n <==> k == id
    ensures PartDrives(net, n, val, w, i, b) <==> Driven(net.nexuses, net.nodes[id], val, w, i) == b
  {
  }

  lemma PartsBit(net: Net, n: NexusId, ids: seq<NodeId>, val: Valuation, w: World, i: nat)
    requires WellFormed(net) && Sound(net.nexuses, val) && OnlyParts(net, n, ids)
    requires Stacked(PartsOf(net, ids), 0, net.nexuses[n].width) && i < net.nexuses[n].width
    ensures PartsOk(PartsOf(net, ids), val)
    ensures Resolved(net, val, w, n, i) == Together(net, n, w, i, CoverBit(PartsOf(net, ids), val, Vz, i))
  {
    var parts := PartsOf(net, ids);
    assert PartsOk(parts, val);
    var c := CoverBit(parts, val, Vz, i);
    forall b: Bit | b != Vz ensures c == b <==> PartDrives(net, n, val, w, i, b) {
      PartsDrive(net, n, ids, val, w, i, b);
    }
    ResolvesTogether(net, n, val, w, i, c);
  }

  lemma OnlyDriverBit(net: Net, n: NexusId, id: NodeId, val: Valuation, w: World, i: nat)
    requires WellFormed(net) && Sound(net.nexuses, val)
    requires n in net.nexuses && i < net.nexuses[n].width && !net.nexuses[n].reg
    requires id in net.nodes && forall k | k in net.nodes :: net.nodes[k].out == n <==> k == id
    ensures Resolved(net, val, w, n, i) == Together(net, n, w, i, Driven(net.nexuses, net.nodes[id], val, w, i))
  {
    var d := Driven(net.nexuses, net.nodes[id], val, w, i);
    forall b: Bit | b != Vz ensures d == b <==> PartDrives(net, n, val, w, i, b) {
      OneDriver(net, n, id, val, w, i, b);
    }
    ResolvesTogether(net, n, val, w, i, d);
  }

  lemma ConcatBit(net: Net, net': Net, n: NexusId, ids: seq<NodeId>, cid: NodeId, ins: seq<NexusId>, fill: Bit,
                  val: Valuation, val': Valuation, w: World, i: nat)
    requires WellFormed(net') && Blended(net, net', n, ids, cid, ins, fill)
    requires Extends(net, net', val, val', fill) && i < net.nexuses[n].width && PartsOk(PartsOf(net, ids), val)
    ensures Resolved(net', val', w, n, i) == Together(net', n, w, i, CoverBit(PartsOf(net, ids), val, fill, i))
  {
    ConcatDrives(net, net', PartsOf(net, ids), net.nexuses[n].width, ins, fill, val, val', i);
    OnlyConcatDrives(net, net', n, ids, cid, ins, fill);
    OnlyDriverBit(net', n, cid, val', w, i);
  }

  /** Before and after, each bit of the blended nexus is what the parts drive, with gaps
      floating before and filled after. */
  lemma BlendedBits(net: Net, net': Net, n: NexusId, ids: seq<NodeId>, cid: NodeId, ins: seq<NexusId>, fill: Bit,
                    val: Valuation, val': Valuation, w: World, i: nat)
    requires WellFormed(net) && WellFormed(net') && Blended(net, net', n, ids, cid, ins, fill)
    requires Extends(net, net', val, val', fill) && i < net.nexuses[n].width
    ensures PartsOk(PartsOf(net, ids), val)
    ensures Resolved(net, val, w, n, i) == Together(net, n, w, i, CoverBit(PartsOf(net, ids), val, Vz, i))
    ensures Resolved(net', val', w, n, i) == Together(net, n, w, i, CoverBit(PartsOf(net, ids), val, fill, i))
  {
    PartsBit(net, n, ids, val, w, i);
    ConcatBit(net, net', n, ids, cid, ins, fill, val, val', w, i);
  }

  /** Each bit of the blended nexus resolves as the original part selects did. */
  lemma BlendedNexus(net: Net, net': Net, n: NexusId, ids: seq<NodeId>, cid: NodeId, ins: seq<NexusId>, fill: Bit,
                     val: Valuation, val': Valuation, w: World, i: nat)
    requires WellFormed(net) && WellFormed(net') && Blended(net, net', n, ids, cid, ins, fill)
    requires fill == GapFill(net, n) && FillOk(net, n)
    requires Extends(net, net', val, val', fill) && i < net.nexuses[n].width
    ensures Resolved(net', val', w, n, i) == Resolved(net, val, w, n, i)
  {
    BlendedBits(net, net', n, ids, cid, ins, fill, val, val', w, i);
    FillShowsInGaps(net, n, ids, val, fill, i);
    FillShowsInGaps(net, n, ids, val, Vz, i);
  }

  ghost predicate KeepsBit(net: Net, net': Net, n: NexusId, val: Valuation, val': Valuation, w: World, i: nat)
    requires WellFormed(net) && WellFormed(net') && Sound(net.nexuses, val) && Sound(net'.nexuses, val')
    requires n in net.nexuses && i < net.nexuses[n].width && n in net'.nexuses && i < net'.nexuses[n].width
  {
    Resolved(net', val', w, n, i) == Resolved(net, val, w, n, i)
  }

  /** Where a gap of a 2-state port is filled with 0, a 1 from outside becomes x. */
  lemma FilledPortGap(net: Net, net': Net, n: NexusId, ids: seq<NodeId>, cid: NodeId, ins: seq<NexusId>,
                      val: Valuation, val': Valuation, w: World, i: nat)
    requires WellFormed(net) && WellFormed(net') && Blended(net, net', n, ids, cid, ins, V0)
    requires net.nexuses[n].twoState && net.nexuses[n].port && i < net.nexuses[n].width && !Covered(net, n, i)
    requires Extends(net, net', val, val', V0) && w.env(n) == Fill(V1, net.nexuses[n].width)
    ensures Resolved(net, val, w, n, i) == V1 && Resolved(net', val', w, n, i) == Vx
  {
    BlendedBits(net, net', n, ids, cid, ins, V0, val, val', w, i);
    FillShowsInGaps(net, n, ids, val, V0, i);
    FillShowsInGaps(net, n, ids, val, Vz, i);
    assert Outside(net, n, w, i, V1) && !Outside(net, n, w, i, V0) && !Outside(net, n, w, i, Vx);
  }

  ghost predicate KeepsBits(net: Net, net': Net, n: NexusId)
    requires WellFormed(net) && WellFormed(net') && n in net.nexuses
  {
    forall val: Valuation, val': Valuation, w: World, i: nat
      | Extends(net, net', val, val', GapFill(net, n)) && i < net.nexuses[n].width ::
      KeepsBit(net, net', n, val, val', w, i)
  }

  lemma ZeroValuation(nx: map<NexusId, Nexus>) returns (val: Valuation)
    ensures Sound(nx, val)
  {
    val := map m | m in nx :: Fill(V0, nx[m].width);
  }

  lemma LostBit(net: Net, net': Net, n: NexusId, val: Valuation, val': Valuation, w: World, i: nat)
    requires WellFormed(net) && WellFormed(net') && n in net.nexuses && i < net.nexuses[n].width
    requires Extends(net, net', val, val', GapFill(net, n)) && !KeepsBit(net, net', n, val, val', w, i)
    ensures !KeepsBits(net, net', n)
  {
  }

  lemma PortGapLosesBit(net: Net, net': Net, n: NexusId, ids: seq<NodeId>, cid: NodeId, ins: seq<NexusId>)
    requires n in net.nexuses && WellFormed(net) && WellFormed(net') && !FillOk(net, n)
    requires Blended(net, net', n, ids, cid, ins, GapFill(net, n))
    ensures !KeepsBits(net, net', n)
  {
    var i: nat :| i < net.nexuses[n].width && !Covered(net, n, i);
    var val := ZeroValuation(net.nexuses);
    var val' := Extension(net, net', val, V0);
    var w := World(m => Fill(V1, net.nexuses[n].width), (k, vs) => []);
    FilledPortGap(net, net', n, ids, cid, ins, val, val', w, i);
    LostBit(net, net', n, val, val', w, i);
  }

  /** Blending keeps every bit of its target, whatever the nets and the outside hold,
      exactly unless the target is 2-state, driven from outside, and has a gap. */
  lemma BlendExact(net: Net, net': Net, n: NexusId, ids: seq<NodeId>, cid: NodeId, ins: seq<NexusId>)
    requires n in net.nexuses && WellFormed(net) && WellFormed(net')
    requires Blended(net, net', n, ids, cid, ins, GapFill(net, n))
    ensures KeepsBits(net, net', n) <==> FillOk(net, n)
  {
    if FillOk(net, n) {
      forall val: Valuation, val': Valuation, w: World, i: nat
        | Extends(net, net', val, val', GapFill(net, n)) && i < net.nexuses[n].width
        ensures KeepsBit(net, net', n, val, val', w, i)
      {
        BlendedNexus(net, net', n, ids, cid, ins, GapFill(net, n), val, val', w, i);
      }
    } else {
      PortGapLosesBit(net, net', n, ids, cid, ins);
    }
  }

  lemma ResolvedAlike(net: Net, net': Net, n: NexusId, ids: seq<NodeId>, cid: NodeId, ins: seq<NexusId>, fill: Bit,
                      val: Valuation, val': Valuation, w: World, m: NexusId, i: nat)
    requires WellFormed(net) && WellFormed(net') && Blended(net, net', n, ids, cid, ins, fill)
    requires fill == GapFill(net, n) && FillOk(net, n)
    requires Extends(net, net', val, val', fill) && m in net.nexuses && i < net.nexuses[m].width
    ensures Resolved(net', val', w, m, i) == Resolved(net, val, w, m, i)
  {
    if m == n {
      BlendedNexus(net, net', n, ids, cid, ins, fill, val, val', w, i);
    } else {
      OtherNexus(net, net', ids, cid, fill, val, val', w, m, i, V0);
      OtherNexus(net, net', ids, cid, fill, val, val', w, m, i, V1);
      OtherNexus(net, net', ids, cid, fill, val, val', w, m, i, Vx);
    }
  }

  lemma ConsistentAlike(net: Net, net': Net, n: NexusId, ids: seq<NodeId>, cid: NodeId, ins: seq<NexusId>, fill: Bit,
                        val: Valuation, val': Valuation, w: World)
    requires WellFormed(net) && WellFormed(net') && Blended(net, net', n, ids, cid, ins, fill)
    requires fill == GapFill(net, n) && FillOk(net, n)
    requires Extends(net, net', val, val', fill)
    ensures Consistent(net, val, w) <==> Consistent(net', val', w)
  {
    forall m | m in net.nexuses ensures Settled(net, val, w, m) <==> Settled(net', val', w, m) {
      forall i: nat | i < net.nexuses[m].width ensures Resolved(net', val', w, m, i) == Resolved(net, val, w, m, i) {
        ResolvedAlike(net, net', n, ids, cid, ins, fill, val, val', w, m, i);
      }
    }
    forall g | g in net'.nexuses && g !in net.nexuses ensures Settled(net', val', w, g) {
      GapsOk(net, net', ids, cid, fill, g);
      forall i: nat | i < net'.nexuses[g].width ensures Resolved(net', val', w, g, i) == fill {
        GapResolves(net', g, fill, val', w, i);
      }
    }
  }

  lemma GapSettles(net': Net, g: NexusId, fill: Bit, val': Valuation, w: World)
    requires WellFormed(net') && Consistent(net', val', w)
    requires g in net'.nexuses && GapOk(net', g, fill) && fill != Vx
    ensures val'[g] == Fill(fill, net'.nexuses[g].width)
  {
    assert Settled(net', val', w, g);
    forall i: nat | i < net'.nexuses[g].width ensures val'[g][i] == fill {
      GapResolves(net', g, fill, val', w, i);
    }
  }

  lemma Extension(net: Net, net': Net, val: Valuation, fill: Bit) returns (val': Valuation)
    requires Sound(net.nexuses, val) && NexusesKept(net, net', fill)
    ensures Extends(net, net', val, val', fill)
  {
    val' := map m | m in net'.nexuses :: if m in val then val[m] else Fill(fill, net'.nexuses[m].width);
  }

  lemma ExtendValuation(net: Net, net': Net, n: NexusId, ids: seq<NodeId>, cid: NodeId, ins: seq<NexusId>, fill: Bit,
                        val: Valuation, w: World) returns (val': Valuation)
    requires WellFormed(net) && WellFormed(net') && Blended(net, net', n, ids, cid, ins, fill)
    requires fill == GapFill(net, n) && FillOk(net, n)
    requires Consistent(net, val, w)
    ensures Consistent(net', val', w) && AgreeOn(val, val', net.nexuses.Keys)
  {
    val' := Extension(net, net', val, fill);
    ConsistentAlike(net, net', n, ids, cid, ins, fill, val, val', w);
  }

  lemma RestrictValuation(net: Net, net': Net, n: NexusId, ids: seq<NodeId>, cid: NodeId, ins: seq<NexusId>, fill: Bit,
                          val': Valuation, w: World) returns (val: Valuation)
    requires WellFormed(net) && WellFormed(net') && Blended(net, net', n, ids, cid, ins, fill)
    requires fill == GapFill(net, n) && FillOk(net, n)
    requires Consistent(net', val', w)
    ensures Consistent(net, val, w) && AgreeOn(val', val, net.nexuses.Keys)
  {
    val := map m | m in net.nexuses :: val'[m];
    forall g | g in net'.nexuses && g !in net.nexuses ensures val'[g] == Fill(fill, net'.nexuses[g].width) {
      GapsOk(net, net', ids, cid, fill, g);
      GapSettles(net', g, fill, val', w);
    }
    assert Extends(net, net', val, val', fill);
    ConsistentAlike(net, net', n, ids, cid, ins, fill, val, val', w);
  }

  /** Blending keeps the value of every old nexus as a function of the inputs. */
  lemma BlendingKeepsMeaning(net: Net, net': Net, n: NexusId, ids: seq<NodeId>, cid: NodeId, ins: seq<NexusId>,
                             fill: Bit)
    requires WellFormed(net) && WellFormed(net') && Blended(net, net', n, ids, cid, ins, fill)
    requires fill == GapFill(net, n) && FillOk(net, n)
    ensures SameOn(net, net', net.nexuses.Keys)
  {
    var keep := net.nexuses.Keys;
    var p, q := Behaves(net), Behaves(net');
    forall val: Valuation, w: World | p(val, w)
      ensures exists val': Valuation :: q(val', w) && AgreeOn(val, val', keep)
    {
      var val' := ExtendValuation(net, net', n, ids, cid, ins, fill, val, w);
      assert q(val', w);
    }
    forall val': Valuation, w: World | q(val', w)
      ensures exists val: Valuation :: p(val, w) && AgreeOn(val', val, keep)
    {
      var val := RestrictValuation(net, net', n, ids, cid, ins, fill, val', w);
      assert p(val, w);
    }
  }

  // ----- a 2-state port with a gap -----

  /** A part select drives the low bit of a 2-state port of width 2. */
  function GapNet(): Net {
    Net(map[0 := PartPV(0, 1, 1, 0)],
        map[0 := Nexus(2, true, true, false, true), 1 := Nexus(1, false, false, false, false)])
  }

  function FilledGapNet(): Net {
    Net(map[1 := Concat(false, [1, 2], 0), 2 := Const([V0], 2)],
        GapNet().nexuses[2 := Nexus(1, false, false, false, false)])
  }

  lemma GapNetPieces()
    ensures PartsOf(GapNet(), [0]) == [PartPV(0, 1, 1, 0)] && Stacked([PartPV(0, 1, 1, 0)], 0, 2)
    ensures Pieces([PartPV(0, 1, 1, 0)], 0, 2) == [Wire(1, 1), Gap(1)]
  {
    var parts := [PartPV(0, 1, 1, 0)];
    assert PartsOf(GapNet(), [0]) == parts;
    assert Pieces(parts, 0, 2) == PartPieces(parts[0], 0) + Pieces(parts[1..], 1, 2);
  }

  lemma GapNetsOk()
    ensures WellFormed(GapNet()) && WellFormed(FilledGapNet())
  {
    var nx := FilledGapNet().nexuses;
    assert InputWidth(nx, [1, 2]) == 1 + InputWidth(nx, [2]) == 2 + InputWidth(nx, []);
  }

  lemma GapNetBlends()
    ensures WellFormed(GapNet()) && WellFormed(FilledGapNet())
    ensures Blended(GapNet(), FilledGapNet(), 0, [0], 1, [1, 2], V0) && !Covered(GapNet(), 0, 1)
  {
    GapNetsOk();
    GapNetPieces();
    var net' := FilledGapNet();
    assert Fill(V0, 1) == [V0];
    assert net'.nodes[2] == Const(Fill(V0, net'.nexuses[2].width), 2);
  }

  function AllOnes(): World {
    World(m => Fill(V1, 2), (k, vs) => [])
  }

  lemma GapNetReadsOne()
    ensures WellFormed(GapNet()) && Consistent(GapNet(), map[0 := [V1, V1], 1 := [Vz]], AllOnes())
  {
    var net, val, w := GapNet(), map[0 := [V1, V1], 1 := [Vz]], AllOnes();
    assert Sound(net.nexuses, val);
    forall i: nat | i < 2 ensures Resolved(net, val, w, 0, i) == V1 {
      assert Driven(net.nexuses, net.nodes[0], val, w, i) == Vz;
      assert Resize(w.env(0), 2, false)[i] == V1;
    }
    assert Settled(net, val, w, 0) && Settled(net, val, w, 1);
  }

  lemma FilledGapReadsX(val': Valuation, w: World)
    requires w == AllOnes() && WellFormed(FilledGapNet()) && Consistent(FilledGapNet(), val', w)
    ensures val'[0][1] == Vx
  {
    GapNetBlends();
    var net, net' := GapNet(), FilledGapNet();
    GapsOk(net, net', [0], 1, V0, 2);
    GapSettles(net', 2, V0, val', w);
    var val: Valuation := map m | m in net.nexuses :: val'[m];
    assert Extends(net, net', val, val', V0);
    FilledPortGap(net, net', 0, [0], 1, [1, 2], val, val', w, 1);
    assert Settled(net', val', w, 0);
  }

  /** Blending this net makes the outside's 1 collide with the 0 in the gap. */
  lemma PortGapFolds()
    ensures var net, net' := GapNet(), FilledGapNet();
      && WellFormed(net) && WellFormed(net') && Blended(net, net', 0, [0], 1, [1, 2], GapFill(net, 0))
      && !SameOn(net, net', {0})
  {
    GapNetBlends();
    GapNetReadsOne();
    var net, net', w := GapNet(), FilledGapNet(), AllOnes();
    var p, q, val: Valuation := Behaves(net), Behaves(net'), map[0 := [V1, V1], 1 := [Vz]];
    assert p(val, w);
    forall val': Valuation | q(val', w) ensures !AgreeOn(val, val', {0}) {
      FilledGapReadsX(val', w);
      assert val[0][1] == V1 && 0 in {0};
    }
    assert !Covers(p, q, {0});
  }
}
