/** When no 2-state net can float while constants are propagated: some set of nexuses
    never holds a z, and every 2-state net whose z would be misread is in that set. */
module GroundedNets {
  import opened Vectors
  import opened Netlists
  import opened NetlistSteps
  import opened Blending
  import opened BlendStep

  /** A driver that no rewrite turns into a constant. */
  predicate Lasting(n: Node) {
    n.Gate? || n.BufZ? || n.Mux? || (n.Concat? && n.transparent)
  }

  /** Never driven by constants only, whatever is rewritten. */
  ghost predicate Firm(net: Net, m: NexusId) {
    m in net.nexuses &&
    (net.nexuses[m].port || net.nexuses[m].reg
     || exists id :: id in net.nodes && net.nodes[id].out == m && Lasting(net.nodes[id]))
  }

  predicate PartOf(net: Net, id: NodeId, n: NexusId) {
    id in net.nodes && net.nodes[id].PartPV? && net.nodes[id].out == n
  }

  /** The part selects onto `n` spell z-free bits: their inputs are in `S`, and where
      none of them drives, a 2-state target is filled with 0. */
  ghost predicate PartsGrounded(net: Net, S: set<NexusId>, n: NexusId) {
    && n in net.nexuses && (net.nexuses[n].twoState || PartsCover(net, n))
    && forall id | PartOf(net, id, n) :: net.nodes[id].inp in S
  }

  /** The inputs are in `S` and fill the target. */
  ghost predicate InputsGrounded(net: Net, S: set<NexusId>, ins: seq<NexusId>, out: NexusId) {
    && out in net.nexuses && (forall m | m in ins :: m in net.nexuses && m in S)
    && InputWidth(net.nexuses, ins) == net.nexuses[out].width
  }

  /** A driver that never becomes a constant with z bits, given that the nexuses in `S`
      never hold z. */
  ghost predicate Steady(net: Net, S: set<NexusId>, n: Node) {
    match n
    case Const(v, _) => Vz !in v
    case PartPV(_, _, inp, out) => Firm(net, inp) || PartsGrounded(net, S, out)
    case Concat(_, ins, out) => (exists m :: m in ins && Firm(net, m)) || InputsGrounded(net, S, ins, out)
    case _ => true
  }

  ghost predicate Held(net: Net, S: set<NexusId>, m: NexusId) {
    Firm(net, m) || exists id :: id in net.nodes && net.nodes[id].out == m && Steady(net, S, net.nodes[id])
  }

  ghost predicate Grounded(net: Net, S: set<NexusId>) {
    forall m | m in S :: m in net.nexuses && Held(net, S, m)
  }

  predicate Foldable(n: Node) {
    n.PartPV? || (n.Concat? && !n.transparent)
  }

  /** Part selects, and nothing else, drive `n`. */
  ghost predicate OnlyPartsDrive(net: Net, n: NexusId) {
    && n in net.nexuses && (exists id :: PartOf(net, id, n))
    && forall id | id in net.nodes && net.nodes[id].out == n :: net.nodes[id].PartPV?
  }

  /** `S` grounds itself and has all 2-state nets that a part select or a concatenation
      reads; and where part selects alone drive a 2-state port, they leave no gap. */
  ghost predicate GroundedBy(net: Net, S: set<NexusId>)
    requires WellFormed(net)
  {
    && Grounded(net, S)
    && (forall id, m | id in net.nodes && Foldable(net.nodes[id]) && m in Inputs(net.nodes[id]) ::
          net.nexuses[m].twoState ==> m in S)
    && (forall n | OnlyPartsDrive(net, n) :: FillOk(net, n))
  }

  /** No 2-state net can float, whatever is folded. */
  ghost predicate NeverFloats(net: Net)
    requires WellFormed(net)
  {
    exists S: set<NexusId> :: GroundedBy(net, S)
  }

  // ----- grounded nexuses hold no z -----

  /** A nexus of `S` that comes down to a constant holds no z. */
  lemma GroundedConstant(net: Net, S: set<NexusId>, m: NexusId)
    requires WellFormed(net) && Grounded(net, S) && m in S && ConstantDrivers(net, m)
    ensures Vz !in ConstantValue(net, m)
  {
    assert Held(net, S, m) && !Firm(net, m);
    var k :| k in net.nodes && net.nodes[k].out == m && Steady(net, S, net.nodes[k]);
    assert net.nodes[k].Const?;
  }

  lemma {:induction false} GroundedConstants(net: Net, S: set<NexusId>, ins: seq<NexusId>)
    requires WellFormed(net) && Grounded(net, S) && AllConstant(net, ins) && forall m | m in ins :: m in S
    ensures Vz !in ConstantsOf(net, ins)
  {
    if ins != [] {
      GroundedConstant(net, S, ins[0]);
      GroundedConstants(net, S, ins[1..]);
    }
  }

  /** Each fold of a concatenation is right, as `ConcatFoldExact` needs it. */
  lemma GroundedFloatFree(net: Net, S: set<NexusId>, id: NodeId)
    requires WellFormed(net) && GroundedBy(net, S) && id in net.nodes && FoldableConcat(net, id)
    ensures FloatFree(net, net.nodes[id].ins)
  {
    forall m | m in net.nodes[id].ins && net.nexuses[m].twoState ensures Vz !in ConstantValue(net, m) {
      assert m in Inputs(net.nodes[id]);
      GroundedConstant(net, S, m);
    }
  }

  // ----- what a rewrite has to keep -----

  ghost predicate NexusesStay(net: Net, net': Net) {
    forall m | m in net.nexuses :: m in net'.nexuses && net'.nexuses[m] == net.nexuses[m]
  }

  ghost predicate LastingStay(net: Net, net': Net) {
    forall id | id in net.nodes && Lasting(net.nodes[id]) ::
      exists k :: k in net'.nodes && net'.nodes[k].out == net.nodes[id].out && Lasting(net'.nodes[k])
  }

  /** The same part selects drive `n`. */
  ghost predicate SameParts(net: Net, net': Net, n: NexusId) {
    forall id :: PartOf(net, id, n) || PartOf(net', id, n) ==>
      id in net.nodes && id in net'.nodes && net'.nodes[id] == net.nodes[id]
  }

  /** A driver of a nexus in `S` makes way for an equally steady one. */
  ghost predicate SteadyStay(net: Net, net': Net, S: set<NexusId>, S': set<NexusId>) {
    forall id | id in net.nodes && net.nodes[id].out in S && Steady(net, S, net.nodes[id]) && !Lasting(net.nodes[id]) ::
      exists k :: k in net'.nodes && net'.nodes[k].out == net.nodes[id].out && Steady(net', S', net'.nodes[k])
  }

  /** Every read of a 2-state net was one before, and where part selects alone drive, they
      did before. */
  ghost predicate NoNewReads(net: Net, net': Net)
    requires WellFormed(net) && WellFormed(net')
  {
    && (forall id, m | id in net'.nodes && Foldable(net'.nodes[id]) && m in Inputs(net'.nodes[id])
                       && net'.nexuses[m].twoState ::
          exists k :: k in net.nodes && Foldable(net.nodes[k]) && m in Inputs(net.nodes[k]))
    && (forall n | OnlyPartsDrive(net', n) :: OnlyPartsDrive(net, n) && SameParts(net, net', n))
  }

  lemma FirmKept(net: Net, net': Net, m: NexusId)
    requires Firm(net, m) && NexusesStay(net, net') && LastingStay(net, net')
    ensures Firm(net', m)
  {
  }

  lemma CoverKept(net: Net, net': Net, n: NexusId)
    requires n in net.nexuses && NexusesStay(net, net') && SameParts(net, net', n) && PartsCover(net, n)
    ensures PartsCover(net', n)
  {
    forall i: nat | i < net'.nexuses[n].width ensures Covered(net', n, i) {
      assert Covered(net, n, i);
      var id :| id in net.nodes && net.nodes[id].PartPV? && net.nodes[id].out == n
                && net.nodes[id].base <= i < net.nodes[id].base + net.nodes[id].width;
      assert PartOf(net, id, n);
    }
  }

  lemma {:induction false} InputWidthLocal(nx: map<NexusId, Nexus>, nx': map<NexusId, Nexus>, ins: seq<NexusId>)
    requires forall m | m in ins :: m in nx && m in nx' && nx'[m] == nx[m]
    ensures InputWidth(nx', ins) == InputWidth(nx, ins)
  {
    if ins != [] { InputWidthLocal(nx, nx', ins[1..]); }
  }

  /** A node that stays where it is stays steady. */
  lemma SteadyKept(net: Net, net': Net, S: set<NexusId>, S': set<NexusId>, n: Node)
    requires Steady(net, S, n) && S <= S' && NexusesStay(net, net') && LastingStay(net, net')
    requires n.PartPV? ==> SameParts(net, net', n.out)
    ensures Steady(net', S', n)
  {
    match n
    case PartPV(_, _, inp, out) =>
      if Firm(net, inp) { FirmKept(net, net', inp); } else {
        if PartsCover(net, out) { CoverKept(net, net', out); }
        assert forall id | PartOf(net', id, out) :: PartOf(net, id, out);
      }
    case Concat(_, ins, _) =>
      if m :| m in ins && Firm(net, m) {
        FirmKept(net, net', m);
      } else {
        InputWidthLocal(net.nexuses, net'.nexuses, ins);
      }
    case _ =>
  }

  lemma GroundedKept(net: Net, net': Net, S: set<NexusId>, S': set<NexusId>)
    requires Grounded(net, S) && S <= S' && NexusesStay(net, net') && LastingStay(net, net')
    requires SteadyStay(net, net', S, S')
    requires forall g | g in S' && g !in S :: g in net'.nexuses && Held(net', S', g)
    ensures Grounded(net', S')
  {
    forall m | m in S ensures m in net'.nexuses && Held(net', S', m) {
      assert Held(net, S, m);
      if Firm(net, m) { FirmKept(net, net', m); } else {
        var id :| id in net.nodes && net.nodes[id].out == m && Steady(net, S, net.nodes[id]);
        assert !Lasting(net.nodes[id]);
      }
    }
  }

  lemma GroundingKept(net: Net, net': Net, S: set<NexusId>, S': set<NexusId>)
    requires WellFormed(net) && WellFormed(net') && GroundedBy(net, S)
    requires S <= S' && NexusesStay(net, net') && Grounded(net', S') && NoNewReads(net, net')
    ensures NeverFloats(net')
  {
    forall id, m | id in net'.nodes && Foldable(net'.nodes[id]) && m in Inputs(net'.nodes[id])
                   && net'.nexuses[m].twoState
      ensures m in S'
    {
      var k :| k in net.nodes && Foldable(net.nodes[k]) && m in Inputs(net.nodes[k]);
    }
    forall n | OnlyPartsDrive(net', n) ensures FillOk(net', n) {
      assert FillOk(net, n);
      if net.nexuses[n].twoState && net.nexuses[n].port { CoverKept(net, net', n); }
    }
    assert GroundedBy(net', S');
  }

  // ----- replacing one driver -----

  lemma ReplaceKeepsParts(net: Net, id: NodeId, id': NodeId, n: Node, m: NexusId)
    requires id in net.nodes && id' !in net.nodes && !net.nodes[id].PartPV? && !n.PartPV?
    ensures SameParts(net, Replace(net, id, id', n), m)
  {
  }

  lemma ReplaceNoNewReads(net: Net, id: NodeId, id': NodeId, n: Node)
    requires WellFormed(net) && id in net.nodes && id' !in net.nodes && WellFormed(Replace(net, id, id', n))
    requires !net.nodes[id].PartPV? && !Foldable(n) && n.out == net.nodes[id].out
    ensures NoNewReads(net, Replace(net, id, id', n))
  {
    var net' := Replace(net, id, id', n);
    assert forall k | k in net'.nodes && Foldable(net'.nodes[k]) :: k in net.nodes && net'.nodes[k] == net.nodes[k];
    forall m | OnlyPartsDrive(net', m) ensures OnlyPartsDrive(net, m) && SameParts(net, net', m) {
      ReplaceKeepsParts(net, id, id', n, m);
      assert net'.nodes[id'].out != m;
      var p :| PartOf(net', p, m);
      assert PartOf(net, p, m);
      forall k | k in net.nodes && net.nodes[k].out == m ensures net.nodes[k].PartPV? {
        assert k in net'.nodes && net'.nodes[k] == net.nodes[k];
      }
    }
  }

  lemma ReplaceLasting(net: Net, id: NodeId, id': NodeId, n: Node)
    requires id in net.nodes && id' !in net.nodes && n.out == net.nodes[id].out
    requires Lasting(net.nodes[id]) ==> Lasting(n)
    ensures LastingStay(net, Replace(net, id, id', n))
  {
    var net' := Replace(net, id, id', n);
    forall j | j in net.nodes && Lasting(net.nodes[j])
      ensures exists k :: k in net'.nodes && net'.nodes[k].out == net.nodes[j].out && Lasting(net'.nodes[k])
    {
      var k := if j == id then id' else j;
      assert k in net'.nodes && net'.nodes[k].out == net.nodes[j].out && Lasting(net'.nodes[k]);
    }
  }

  /** A new driver that is as lasting and as steady keeps the grounding. */
  lemma ReplaceKeepsGrounded(net: Net, id: NodeId, id': NodeId, n: Node, S: set<NexusId>)
    requires WellFormed(net) && id in net.nodes && id' !in net.nodes && n.out == net.nodes[id].out
    requires !net.nodes[id].PartPV? && !n.PartPV? && Grounded(net, S)
    requires Lasting(net.nodes[id]) ==> Lasting(n)
    requires !Lasting(net.nodes[id]) && Steady(net, S, net.nodes[id]) ==> n.Const? && Steady(net, S, n)
    ensures Grounded(Replace(net, id, id', n), S)
  {
    var net' := Replace(net, id, id', n);
    ReplaceLasting(net, id, id', n);
    forall j | j in net.nodes && net.nodes[j].out in S && Steady(net, S, net.nodes[j]) && !Lasting(net.nodes[j])
      ensures exists k :: k in net'.nodes && net'.nodes[k].out == net.nodes[j].out && Steady(net', S, net'.nodes[k])
    {
      if j == id {
        assert id' in net'.nodes && net'.nodes[id'] == n;
      } else {
        assert j in net'.nodes && net'.nodes[j] == net.nodes[j];
        ReplaceKeepsParts(net, id, id', n, net.nodes[j].out);
        SteadyKept(net, net', S, S, net.nodes[j]);
      }
    }
    GroundedKept(net, net', S, S);
  }

  lemma ConcatResultSteady(net: Net, S: set<NexusId>, id: NodeId)
    requires WellFormed(net) && Grounded(net, S) && id in net.nodes && FoldableConcat(net, id)
    requires Steady(net, S, net.nodes[id])
    ensures Steady(net, S, ConcatResult(net, id))
  {
    var n := net.nodes[id];
    assert forall m | m in n.ins :: ConstantDrivers(net, m) && !Firm(net, m);
    assert InputsGrounded(net, S, n.ins, n.out);
    GroundedConstants(net, S, n.ins);
  }

  /** Folding a concatenation keeps every net from floating. */
  lemma ConcatKeepsGrounded(net: Net, id: NodeId, id': NodeId)
    requires WellFormed(net) && NeverFloats(net) && id in net.nodes && id' !in net.nodes && FoldableConcat(net, id)
    requires WellFormed(Replace(net, id, id', ConcatResult(net, id)))
    ensures FloatFree(net, net.nodes[id].ins)
    ensures NeverFloats(Replace(net, id, id', ConcatResult(net, id)))
  {
    var S: set<NexusId> :| GroundedBy(net, S);
    GroundedFloatFree(net, S, id);
    if Steady(net, S, net.nodes[id]) { ConcatResultSteady(net, S, id); }
    ReplaceKeepsGrounded(net, id, id', ConcatResult(net, id), S);
    ReplaceNoNewReads(net, id, id', ConcatResult(net, id));
    GroundingKept(net, Replace(net, id, id', ConcatResult(net, id)), S, S);
  }

  /** So does replacing a multiplexer by a buffer. */
  lemma MuxKeepsGrounded(net: Net, id: NodeId, id': NodeId)
    requires WellFormed(net) && NeverFloats(net) && id in net.nodes && id' !in net.nodes && FoldableMux(net, id)
    requires WellFormed(Replace(net, id, id', MuxResult(net, id)))
    ensures NeverFloats(Replace(net, id, id', MuxResult(net, id)))
  {
    var S: set<NexusId> :| GroundedBy(net, S);
    ReplaceKeepsGrounded(net, id, id', MuxResult(net, id), S);
    ReplaceNoNewReads(net, id, id', MuxResult(net, id));
    GroundingKept(net, Replace(net, id, id', MuxResult(net, id)), S, S);
  }

  // ----- blending -----

  lemma {:induction false} PiecesAreParts(parts: seq<Node>, off: nat, width: nat)
    requires Stacked(parts, off, width) && forall p | p in parts :: p.PartPV?
    ensures forall p | p in parts :: Wire(p.inp, p.width) in Pieces(parts, off, width)
    ensures forall q | q in Pieces(parts, off, width) && q.Wire? :: exists p :: p in parts && q == Wire(p.inp, p.width)
  {
    if parts != [] {
      var p, rest := parts[0], Pieces(parts[1..], parts[0].base + parts[0].width, width);
      PiecesAreParts(parts[1..], p.base + p.width, width);
      assert forall q | q in Pieces(parts, off, width) && q.Wire? :: q == Wire(p.inp, p.width) || q in rest;
      assert forall q | q in parts :: q == p || q in parts[1..];
    }
  }

  /** The pins that are wires are exactly the inputs of the part selects. */
  lemma PinsAreInputs(net: Net, net': Net, ids: seq<NodeId>, ins: seq<NexusId>, width: nat)
    requires WellFormed(net) && forall id | id in ids :: id in net.nodes && net.nodes[id].PartPV?
    requires Stacked(PartsOf(net, ids), 0, width) && PinsFor(net, net', ins, Pieces(PartsOf(net, ids), 0, width))
    ensures forall id | id in ids :: net.nodes[id].inp in ins
    ensures forall m | m in ins && m in net.nexuses :: exists id :: id in ids && net.nodes[id].inp == m
  {
    var parts := PartsOf(net, ids);
    var pieces := Pieces(parts, 0, width);
    PiecesAreParts(parts, 0, width);
    forall id | id in ids ensures net.nodes[id].inp in ins {
      var k :| 0 <= k < |ids| && ids[k] == id;
      assert parts[k] in parts;
      var j :| 0 <= j < |pieces| && pieces[j] == Wire(parts[k].inp, parts[k].width);
      assert ins[j] == net.nodes[id].inp;
    }
    forall m | m in ins && m in net.nexuses ensures exists id :: id in ids && net.nodes[id].inp == m {
      var j :| 0 <= j < |ins| && ins[j] == m;
      assert pieces[j] in pieces && pieces[j].Wire?;
      var p :| p in parts && pieces[j] == Wire(p.inp, p.width);
      var k :| 0 <= k < |parts| && parts[k] == p;
      assert ids[k] in ids && net.nodes[ids[k]].inp == m;
    }
  }

  /** Pins and pieces have the same widths. */
  lemma {:induction false} PinsWidth(net: Net, net': Net, ins: seq<NexusId>, pieces: seq<Piece>)
    requires PinsFor(net, net', ins, pieces)
    requires forall p | p in pieces && p.Wire? :: p.inp in net'.nexuses && net'.nexuses[p.inp].width == p.n
    ensures forall m | m in ins :: m in net'.nexuses
    ensures InputWidth(net'.nexuses, ins) == PieceWidth(pieces)
  {
    if ins != [] {
      assert pieces[0] in pieces && forall p | p in pieces[1..] :: p in pieces;
      forall j | 0 <= j < |pieces[1..]|
        ensures if pieces[1..][j].Gap? then ins[1..][j] !in net.nexuses && ins[1..][j] in net'.nexuses
            && net'.nexuses[ins[1..][j]].width == pieces[1..][j].n
          else ins[1..][j] == pieces[1..][j].inp
      {
        assert pieces[1..][j] == pieces[j + 1];
      }
      PinsWidth(net, net', ins[1..], pieces[1..]);
      assert forall m | m in ins :: m == ins[0] || m in ins[1..];
    }
  }

  /** The pins of a blend fill the target. */
  lemma PinsFillTarget(net: Net, net': Net, n: NexusId, parts: seq<Node>, ins: seq<NexusId>)
    requires NexusesStay(net, net') && n in net.nexuses
    requires forall p | p in parts :: NodeOk(net.nexuses, p) && p.PartPV?
    requires Stacked(parts, 0, net.nexuses[n].width)
    requires PinsFor(net, net', ins, Pieces(parts, 0, net.nexuses[n].width))
    ensures forall m | m in ins :: m in net'.nexuses
    ensures InputWidth(net'.nexuses, ins) == net.nexuses[n].width
  {
    var pieces := Pieces(parts, 0, net.nexuses[n].width);
    PiecesAreParts(parts, 0, net.nexuses[n].width);
    forall p | p in pieces && p.Wire? ensures p.inp in net'.nexuses && net'.nexuses[p.inp].width == p.n {
      var q :| q in parts && p == Wire(q.inp, q.width);
      assert q.inp in Inputs(q);
    }
    PinsWidth(net, net', ins, pieces);
    PiecesCoverTarget(parts, 0, net.nexuses[n].width);
  }

  lemma {:induction false} StackedBetween(parts: seq<Node>, off: nat, width: nat)
    requires Stacked(parts, off, width)
    ensures forall p | p in parts :: p.PartPV? && off <= p.base
  {
    if parts != [] { StackedBetween(parts[1..], parts[0].base + parts[0].width, width); }
  }

  /** A gap is a place that no part covers. */
  lemma {:induction false} GapIsUncovered(parts: seq<Node>, off: nat, width: nat) returns (i: nat)
    requires Stacked(parts, off, width) && exists q :: q in Pieces(parts, off, width) && q.Gap?
    ensures off <= i < width && forall p | p in parts :: p.PartPV? && !(p.base <= i < p.base + p.width)
  {
    if parts == [] {
      i := off;
    } else {
      var p, top := parts[0], parts[0].base + parts[0].width;
      if p.base > off {
        i := off;
        PiecesCoverTarget(parts[1..], top, width);
        StackedBetween(parts, off, width);
        StackedBetween(parts[1..], top, width);
      } else {
        assert PartPieces(p, off) == [Wire(p.inp, p.width)];
        i := GapIsUncovered(parts[1..], top, width);
      }
      assert forall q | q in parts :: q == p || q in parts[1..];
    }
  }

  lemma GapMeansUncovered(net: Net, n: NexusId, ids: seq<NodeId>)
    requires OnlyParts(net, n, ids) && Stacked(PartsOf(net, ids), 0, net.nexuses[n].width)
    requires exists q :: q in Pieces(PartsOf(net, ids), 0, net.nexuses[n].width) && q.Gap?
    ensures !PartsCover(net, n)
  {
    var parts, width := PartsOf(net, ids), net.nexuses[n].width;
    var i := GapIsUncovered(parts, 0, width);
    forall id | id in net.nodes && net.nodes[id].out == n
      ensures !(net.nodes[id].base <= i < net.nodes[id].base + net.nodes[id].width)
    {
      var k :| 0 <= k < |ids| && ids[k] == id;
      assert parts[k] in parts;
    }
    assert !Covered(net, n, i);
  }

  /** Without gaps all pins are inputs of the part selects. */
  lemma CoverMeansWires(net: Net, net': Net, n: NexusId, parts: seq<Node>, ins: seq<NexusId>)
    requires n in net.nexuses && Stacked(parts, 0, net.nexuses[n].width)
    requires forall p | p in parts :: NodeOk(net.nexuses, p) && p.PartPV?
    requires forall q | q in Pieces(parts, 0, net.nexuses[n].width) :: q.Wire?
    requires PinsFor(net, net', ins, Pieces(parts, 0, net.nexuses[n].width))
    ensures forall m | m in ins :: m in net.nexuses
  {
    var pieces := Pieces(parts, 0, net.nexuses[n].width);
    PiecesAreParts(parts, 0, net.nexuses[n].width);
    forall j | 0 <= j < |ins| ensures ins[j] in net.nexuses {
      assert pieces[j] in pieces;
      var p :| p in parts && pieces[j] == Wire(p.inp, p.width);
      assert p.inp in Inputs(p);
    }
  }

  /** The nexuses known to hold no z after a blend: gaps of a 2-state target are 0. */
  ghost function WithGaps(net: Net, net': Net, S: set<NexusId>, fill: Bit): set<NexusId> {
    if fill == V0 then S + (net'.nexuses.Keys - net.nexuses.Keys) else S
  }

  lemma DriversOk(net: Net, n: NexusId, ids: seq<NodeId>)
    requires WellFormed(net) && OnlyParts(net, n, ids)
    ensures forall p | p in PartsOf(net, ids) :: NodeOk(net.nexuses, p) && p.PartPV?
  {
    assert forall k | 0 <= k < |ids| :: ids[k] in ids;
  }

  lemma WiresGrounded(net: Net, net': Net, n: NexusId, ids: seq<NodeId>, ins: seq<NexusId>, S: set<NexusId>)
    requires WellFormed(net) && OnlyParts(net, n, ids) && PartsGrounded(net, S, n)
    requires Stacked(PartsOf(net, ids), 0, net.nexuses[n].width)
    requires PinsFor(net, net', ins, Pieces(PartsOf(net, ids), 0, net.nexuses[n].width))
    ensures forall m | m in ins && m in net.nexuses :: m in S
  {
    PinsAreInputs(net, net', ids, ins, net.nexuses[n].width);
    forall m | m in ins && m in net.nexuses ensures m in S {
      var id :| id in ids && net.nodes[id].inp == m;
      assert PartOf(net, id, n);
    }
  }

  lemma BlendPinsGrounded(net: Net, net': Net, n: NexusId, ids: seq<NodeId>, cid: NodeId, ins: seq<NexusId>,
                          S: set<NexusId>)
    requires WellFormed(net) && n in net.nexuses && Blended(net, net', n, ids, cid, ins, GapFill(net, n))
    requires PartsGrounded(net, S, n)
    ensures InputsGrounded(net', WithGaps(net, net', S, GapFill(net, n)), ins, n)
  {
    var parts := PartsOf(net, ids);
    DriversOk(net, n, ids);
    PinsFillTarget(net, net', n, parts, ins);
    WiresGrounded(net, net', n, ids, ins, S);
    if !net.nexuses[n].twoState {
      if q :| q in Pieces(parts, 0, net.nexuses[n].width) && q.Gap? { GapMeansUncovered(net, n, ids); }
      CoverMeansWires(net, net', n, parts, ins);
    }
  }

  /** The part selects that go leave the concatenation behind. */
  lemma BlendSteady(net: Net, net': Net, n: NexusId, ids: seq<NodeId>, cid: NodeId, ins: seq<NexusId>, S: set<NexusId>,
                    id: NodeId)
    requires WellFormed(net) && n in net.nexuses && Blended(net, net', n, ids, cid, ins, GapFill(net, n))
    requires LastingStay(net, net')
    requires id in ids && Steady(net, S, net.nodes[id])
    ensures Steady(net', WithGaps(net, net', S, GapFill(net, n)), net'.nodes[cid])
  {
    var inp := net.nodes[id].inp;
    if Firm(net, inp) {
      PinsAreInputs(net, net', ids, ins, net.nexuses[n].width);
      FirmKept(net, net', inp);
    } else {
      BlendPinsGrounded(net, net', n, ids, cid, ins, S);
    }
  }

  lemma BlendKeepsParts(net: Net, net': Net, n: NexusId, ids: seq<NodeId>, cid: NodeId, ins: seq<NexusId>, fill: Bit,
                        m: NexusId)
    requires Blended(net, net', n, ids, cid, ins, fill) && m != n
    ensures SameParts(net, net', m)
  {
    forall id | PartOf(net', id, m) ensures id in net.nodes && net'.nodes[id] == net.nodes[id] {
      assert !GapConst(net, net', id, fill);
    }
  }

  lemma BlendOnlyParts(net: Net, net': Net, n: NexusId, ids: seq<NodeId>, cid: NodeId, ins: seq<NexusId>, fill: Bit,
                       m: NexusId)
    requires WellFormed(net) && Blended(net, net', n, ids, cid, ins, fill) && OnlyPartsDrive(net', m)
    ensures OnlyPartsDrive(net, m) && SameParts(net, net', m)
  {
    assert m != n;
    BlendKeepsParts(net, net', n, ids, cid, ins, fill, m);
    var id :| PartOf(net', id, m);
    assert PartOf(net, id, m);
    forall k | k in net.nodes && net.nodes[k].out == m ensures net.nodes[k].PartPV? {
      assert k !in ids && k in net'.nodes && net'.nodes[k] == net.nodes[k];
    }
  }

  lemma BlendLasting(net: Net, net': Net, n: NexusId, ids: seq<NodeId>, cid: NodeId, ins: seq<NexusId>, fill: Bit)
    requires Blended(net, net', n, ids, cid, ins, fill)
    ensures LastingStay(net, net')
  {
    assert forall id | id in net.nodes && Lasting(net.nodes[id]) :: id in net'.nodes && net'.nodes[id] == net.nodes[id];
  }

  lemma BlendSteadyStay(net: Net, net': Net, n: NexusId, ids: seq<NodeId>, cid: NodeId, ins: seq<NexusId>,
                        S: set<NexusId>)
    requires WellFormed(net) && n in net.nexuses && Blended(net, net', n, ids, cid, ins, GapFill(net, n))
    requires LastingStay(net, net')
    ensures SteadyStay(net, net', S, WithGaps(net, net', S, GapFill(net, n)))
  {
    var S' := WithGaps(net, net', S, GapFill(net, n));
    forall id | id in net.nodes && net.nodes[id].out in S && Steady(net, S, net.nodes[id]) && !Lasting(net.nodes[id])
      ensures exists k :: k in net'.nodes && net'.nodes[k].out == net.nodes[id].out && Steady(net', S', net'.nodes[k])
    {
      if id in ids {
        BlendSteady(net, net', n, ids, cid, ins, S, id);
      } else {
        assert id in net'.nodes && net'.nodes[id] == net.nodes[id] && net.nodes[id].out != n;
        BlendKeepsParts(net, net', n, ids, cid, ins, GapFill(net, n), net.nodes[id].out);
        SteadyKept(net, net', S, S', net.nodes[id]);
      }
    }
  }

  lemma GapsHeld(net: Net, net': Net, S: set<NexusId>, g: NexusId)
    requires NexusesKept(net, net', V0) && g in net'.nexuses && g !in net.nexuses
    ensures Held(net', S, g)
  {
    var id :| id in net'.nodes && net'.nodes[id] == Const(Fill(V0, net'.nexuses[g].width), g);
    assert Steady(net', S, net'.nodes[id]);
  }

  lemma BlendNoNewReads(net: Net, net': Net, n: NexusId, ids: seq<NodeId>, cid: NodeId, ins: seq<NexusId>, fill: Bit)
    requires WellFormed(net) && WellFormed(net') && Blended(net, net', n, ids, cid, ins, fill)
    ensures NoNewReads(net, net')
  {
    PinsAreInputs(net, net', ids, ins, net.nexuses[n].width);
    forall id | id in net'.nodes && id != cid && Foldable(net'.nodes[id])
      ensures id in net.nodes && net'.nodes[id] == net.nodes[id] && id !in ids
    {
      assert !GapConst(net, net', id, fill);
    }
    forall id, m | id in net'.nodes && Foldable(net'.nodes[id]) && m in Inputs(net'.nodes[id])
                   && net'.nexuses[m].twoState
      ensures exists k :: k in net.nodes && Foldable(net.nodes[k]) && m in Inputs(net.nodes[k])
    {
      if id == cid {
        assert m in net.nexuses;
        var k :| k in ids && net.nodes[k].inp == m;
        assert m in Inputs(net.nodes[k]);
      }
    }
    forall m | OnlyPartsDrive(net', m) ensures OnlyPartsDrive(net, m) && SameParts(net, net', m) {
      BlendOnlyParts(net, net', n, ids, cid, ins, fill, m);
    }
  }

  lemma BlendGrounds(net: Net, net': Net, n: NexusId, ids: seq<NodeId>, cid: NodeId, ins: seq<NexusId>, S: set<NexusId>)
    requires WellFormed(net) && Grounded(net, S) && n in net.nexuses
    requires Blended(net, net', n, ids, cid, ins, GapFill(net, n))
    ensures Grounded(net', WithGaps(net, net', S, GapFill(net, n)))
  {
    var S' := WithGaps(net, net', S, GapFill(net, n));
    BlendLasting(net, net', n, ids, cid, ins, GapFill(net, n));
    BlendSteadyStay(net, net', n, ids, cid, ins, S);
    forall g | g in S' && g !in S ensures g in net'.nexuses && Held(net', S', g) {
      GapsHeld(net, net', S', g);
    }
    GroundedKept(net, net', S, S');
  }

  lemma BlendTargetOnlyParts(net: Net, n: NexusId, ids: seq<NodeId>)
    requires OnlyParts(net, n, ids) && ids != []
    ensures OnlyPartsDrive(net, n)
  {
    assert ids[0] in ids && PartOf(net, ids[0], n);
  }

  /** Blending keeps every net from floating. */
  lemma BlendKeepsGrounded(net: Net, net': Net, n: NexusId, ids: seq<NodeId>, cid: NodeId, ins: seq<NexusId>)
    requires WellFormed(net) && WellFormed(net') && NeverFloats(net) && n in net.nexuses
    requires Blended(net, net', n, ids, cid, ins, GapFill(net, n)) && ids != []
    ensures FillOk(net, n) && NeverFloats(net')
  {
    var S: set<NexusId> :| GroundedBy(net, S);
    BlendTargetOnlyParts(net, n, ids);
    BlendGrounds(net, net', n, ids, cid, ins, S);
    BlendNoNewReads(net, net', n, ids, cid, ins, GapFill(net, n));
    GroundingKept(net, net', S, WithGaps(net, net', S, GapFill(net, n)));
  }

  // ----- a condition on single drivers that suffices -----

  /** A driver that never becomes a constant with z bits, whatever the other nets hold. */
  ghost predicate SteadyAlone(net: Net, n: Node) {
    match n
    case Const(v, _) => Vz !in v
    case PartPV(_, _, inp, _) => Firm(net, inp)
    case Concat(_, ins, _) => exists m :: m in ins && Firm(net, m)
    case _ => true
  }

  ghost predicate Solid(net: Net, m: NexusId) {
    Firm(net, m) || exists id :: id in net.nodes && net.nodes[id].out == m && SteadyAlone(net, net.nodes[id])
  }

  /** Each 2-state net that is read has a driver that is steady on its own, and part
      selects drive no 2-state port. */
  ghost predicate TwoStateSafe(net: Net)
    requires WellFormed(net)
  {
    && (forall id, m | id in net.nodes && Foldable(net.nodes[id]) && m in Inputs(net.nodes[id]) ::
          net.nexuses[m].twoState ==> Solid(net, m))
    && (forall id | id in net.nodes && net.nodes[id].PartPV? ::
          !(net.nexuses[net.nodes[id].out].twoState && net.nexuses[net.nodes[id].out].port))
  }

  lemma SafeNeverFloats(net: Net)
    requires WellFormed(net) && TwoStateSafe(net)
    ensures NeverFloats(net)
  {
    var S := set m | m in net.nexuses && Solid(net, m);
    forall m | m in S ensures Held(net, S, m) {
      if !Firm(net, m) {
        var id :| id in net.nodes && net.nodes[id].out == m && SteadyAlone(net, net.nodes[id]);
        assert Steady(net, S, net.nodes[id]);
      }
    }
    assert GroundedBy(net, S);
  }

  /** A 2-state net driven by a concatenation of constants, which is itself concatenated. */
  function FoldedTwiceNet(): Net {
    Net(map[0 := Const([V1], 0), 1 := Const([V0], 1), 2 := Concat(false, [0, 1], 2), 3 := Concat(false, [2], 3)],
        map[0 := Nexus(1, false, false, false, false), 1 := Nexus(1, false, false, false, false),
            2 := Nexus(2, true, false, false, false), 3 := Nexus(2, false, false, false, true)])
  }

  lemma FoldedTwiceOk()
    ensures WellFormed(FoldedTwiceNet()) && InputWidth(FoldedTwiceNet().nexuses, [0, 1]) == 2
  {
    var nx := FoldedTwiceNet().nexuses;
    assert InputWidth(nx, [0, 1]) == 1 + InputWidth(nx, [1]) == 2 + InputWidth(nx, []);
    assert InputWidth(nx, [2]) == 2 + InputWidth(nx, []);
  }

  lemma FoldedTwiceSteady(net: Net, S: set<NexusId>, m: NexusId)
    requires net == FoldedTwiceNet() && S == {0, 1, 2} && m in S
    ensures m in net.nexuses && Held(net, S, m)
  {
    FoldedTwiceOk();
    assert m in net.nodes && net.nodes[m].out == m && Steady(net, S, net.nodes[m]);
  }

  lemma WithoutParts(net: Net, S: set<NexusId>)
    requires WellFormed(net) && Grounded(net, S)
    requires forall id | id in net.nodes :: !net.nodes[id].PartPV? && forall m | m in Inputs(net.nodes[id]) :: m in S
    ensures NeverFloats(net)
  {
    assert GroundedBy(net, S);
  }

  lemma FoldedTwiceReads(net: Net, S: set<NexusId>, id: NodeId)
    requires net == FoldedTwiceNet() && S == {0, 1, 2} && id in net.nodes
    ensures !net.nodes[id].PartPV? && forall m | m in Inputs(net.nodes[id]) :: m in S
  {
  }

  lemma FoldedTwiceGrounded(net: Net)
    requires net == FoldedTwiceNet() && WellFormed(net)
    ensures NeverFloats(net)
  {
    var S: set<NexusId> := {0, 1, 2};
    forall m | m in S ensures m in net.nexuses && Held(net, S, m) {
      FoldedTwiceSteady(net, S, m);
    }
    forall id | id in net.nodes ensures !net.nodes[id].PartPV? && forall m | m in Inputs(net.nodes[id]) :: m in S {
      FoldedTwiceReads(net, S, id);
    }
    WithoutParts(net, S);
  }

  lemma FoldedTwiceUnsafe(net: Net)
    requires net == FoldedTwiceNet() && WellFormed(net)
    ensures !TwoStateSafe(net)
  {
    assert forall m :: !Firm(net, m);
    assert !SteadyAlone(net, net.nodes[2]);
    assert !Solid(net, 2) && 2 in Inputs(net.nodes[3]);
  }

  /** Its constants ground it, though its one driver is not steady on its own. */
  lemma FoldedTwiceNeverFloats()
    ensures WellFormed(FoldedTwiceNet()) && NeverFloats(FoldedTwiceNet()) && !TwoStateSafe(FoldedTwiceNet())
  {
    FoldedTwiceOk();
    FoldedTwiceGrounded(FoldedTwiceNet());
    FoldedTwiceUnsafe(FoldedTwiceNet());
  }
}
