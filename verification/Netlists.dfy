/** Netlists of nodes that drive and read nexuses, and what it means for values to be
    consistent with one. Drivers are resolved bit by bit: z yields to any other
    value, and conflicting values give x. */
module Netlists {
  import opened Vectors

  type NexusId = nat
  type NodeId = nat

  datatype Node =
    | PartPV(base: nat, width: nat, inp: NexusId, out: NexusId)
    | Concat(transparent: bool, ins: seq<NexusId>, out: NexusId)
    | Mux(data: seq<NexusId>, sel: NexusId, out: NexusId)
    | Const(value: Vec, out: NexusId)
    | BufZ(inp: NexusId, out: NexusId)
    | Gate(kind: nat, ins: seq<NexusId>, out: NexusId)

  /** `port`: connected to a port of a root module, so driven from outside.
      `reg`: a variable, whose link counts as an output.
      `observed`: a signal of the source, read by an expression, or a root port. */
  datatype Nexus = Nexus(width: nat, twoState: bool, port: bool, reg: bool, observed: bool)

  datatype Net = Net(nodes: map<NodeId, Node>, nexuses: map<NexusId, Nexus>)

  function Inputs(n: Node): seq<NexusId> {
    match n
    case PartPV(_, _, inp, _) => [inp]
    case Concat(_, ins, _) => ins
    case Mux(data, sel, _) => data + [sel]
    case Const(_, _) => []
    case BufZ(inp, _) => [inp]
    case Gate(_, ins, _) => ins
  }

  function InputWidth(nx: map<NexusId, Nexus>, ins: seq<NexusId>): nat
    requires forall m | m in ins :: m in nx
  {
    if ins == [] then 0 else nx[ins[0]].width + InputWidth(nx, ins[1..])
  }

  ghost predicate NodeOk(nx: map<NexusId, Nexus>, n: Node) {
    && n.out in nx && (forall m | m in Inputs(n) :: m in nx)
    && match n
       case PartPV(_, w, inp, _) => w >= 1 && nx[inp].width == w
       case Mux(data, _, _) => |data| >= 1 && forall m | m in data :: nx[m].width == nx[n.out].width
       case Concat(_, ins, out) => InputWidth(nx, ins) <= nx[out].width
       case Const(v, out) => |v| == nx[out].width
       case BufZ(inp, out) => nx[inp].width == nx[out].width
       case _ => true
  }

  ghost predicate WellFormed(net: Net) {
    forall id | id in net.nodes :: NodeOk(net.nexuses, net.nodes[id])
  }

  // ----- values -----

  /** What the outside drives, and the function each kind of gate computes. */
  datatype World = World(env: NexusId -> Vec, gates: (nat, seq<Vec>) -> Vec)

  type Valuation = map<NexusId, Vec>

  ghost predicate Sound(nx: map<NexusId, Nexus>, val: Valuation) {
    val.Keys == nx.Keys && forall n | n in nx :: |val[n]| == nx[n].width
  }

  /** The inputs of a concatenation, least significant first. */
  function Join(ins: seq<NexusId>, val: Valuation): Vec
    requires forall m | m in ins :: m in val
  {
    if ins == [] then [] else val[ins[0]] + Join(ins[1..], val)
  }

  function Values(ins: seq<NexusId>, val: Valuation): seq<Vec>
    requires forall m | m in ins :: m in val
  {
    seq(|ins|, i requires 0 <= i < |ins| => val[ins[i]])
  }

  /** Bit `i` of a vector that starts at bit `base` of its target. */
  function Placed(v: Vec, base: nat, i: nat): Bit {
    if base <= i < base + |v| then v[i - base] else Vz
  }

  /** A defined selector picks its input; otherwise bits on which all inputs agree stay. */
  function MuxBit(sel: Vec, data: seq<Vec>, i: nat): Bit
    requires forall d | d in data :: i < |d|
  {
    var k := ToInt(sel, false);
    if Defined(sel) && 0 <= k < |data| then data[k][i]
    else if data != [] && forall d | d in data :: d[i] == data[0][i] then data[0][i]
    else Vx
  }

  /** The bit a node drives onto bit `i` of its output. */
  ghost function Driven(nx: map<NexusId, Nexus>, n: Node, val: Valuation, w: World, i: nat): Bit
    requires NodeOk(nx, n) && Sound(nx, val) && i < nx[n.out].width
  {
    match n
    case PartPV(base, _, inp, _) => Placed(val[inp], base, i)
    case Concat(_, ins, _) => Placed(Join(ins, val), 0, i)
    case Mux(data, sel, _) => MuxBit(val[sel], Values(data, val), i)
    case Const(v, _) => v[i]
    case BufZ(inp, _) => val[inp][i]
    case Gate(k, ins, out) => Resize(w.gates(k, Values(ins, val)), nx[out].width, false)[i]
  }

  /** Some node, or the outside, drives bit `b` onto bit `i` of nexus `m`. */
  ghost predicate Drives(net: Net, val: Valuation, w: World, m: NexusId, i: nat, b: Bit)
    requires WellFormed(net) && Sound(net.nexuses, val)
    requires m in net.nexuses && i < net.nexuses[m].width
  {
    || (exists id :: id in net.nodes && net.nodes[id].out == m && Driven(net.nexuses, net.nodes[id], val, w, i) == b)
    || ((net.nexuses[m].port || net.nexuses[m].reg) && Resize(w.env(m), net.nexuses[m].width, false)[i] == b)
  }

  /** Resolution from the values that are driven; a 2-state net reads z as 0. */
  function Resolve(zero: bool, one: bool, unknown: bool, twoState: bool): Bit {
    if unknown || (zero && one) then Vx
    else if one then V1
    else if zero || twoState then V0
    else Vz
  }

  ghost function Resolved(net: Net, val: Valuation, w: World, m: NexusId, i: nat): Bit
    requires WellFormed(net) && Sound(net.nexuses, val)
    requires m in net.nexuses && i < net.nexuses[m].width
  {
    Resolve(Drives(net, val, w, m, i, V0), Drives(net, val, w, m, i, V1), Drives(net, val, w, m, i, Vx),
            net.nexuses[m].twoState)
  }

  ghost predicate Settled(net: Net, val: Valuation, w: World, m: NexusId)
    requires WellFormed(net) && Sound(net.nexuses, val) && m in net.nexuses
  {
    forall i | 0 <= i < net.nexuses[m].width :: val[m][i] == Resolved(net, val, w, m, i)
  }

  /** Every nexus holds the resolution of its drivers. */
  ghost predicate Consistent(net: Net, val: Valuation, w: World)
    requires WellFormed(net)
  {
    Sound(net.nexuses, val) && forall m | m in net.nexuses :: Settled(net, val, w, m)
  }

  ghost predicate AgreeOn(val: Valuation, val': Valuation, keep: set<NexusId>) {
    keep <= val.Keys && keep <= val'.Keys && forall m | m in keep :: val[m] == val'[m]
  }

  type Behaviour = (Valuation, World) -> bool

  /** The consistent valuations of a netlist. */
  ghost function Behaves(net: Net): Behaviour
    requires WellFormed(net)
  {
    (val: Valuation, w: World) => Consistent(net, val, w)
  }

  /** Each valuation of `p` agrees, on the nexuses kept, with one of `q`. */
  ghost predicate Covers(p: Behaviour, q: Behaviour, keep: set<NexusId>) {
    forall val: Valuation, w: World | p(val, w) ::
      exists val': Valuation :: q(val', w) && AgreeOn(val, val', keep)
  }

  /** The kept values are the same function of the inputs in both netlists. */
  ghost predicate SameOn(net: Net, net': Net, keep: set<NexusId>)
    requires WellFormed(net) && WellFormed(net')
  {
    Covers(Behaves(net), Behaves(net'), keep) && Covers(Behaves(net'), Behaves(net), keep)
  }

  lemma CoversTransitive(p: Behaviour, q: Behaviour, r: Behaviour,
                         k: set<NexusId>, l: set<NexusId>, m: set<NexusId>)
    requires Covers(p, q, k) && Covers(q, r, l) && m <= k && m <= l
    ensures Covers(p, r, m)
  {
    forall val: Valuation, w: World | p(val, w)
      ensures exists val': Valuation :: r(val', w) && AgreeOn(val, val', m)
    {
      var val1: Valuation :| q(val1, w) && AgreeOn(val, val1, k);
      var val2: Valuation :| r(val2, w) && AgreeOn(val1, val2, l);
      assert AgreeOn(val, val2, m);
    }
  }

  lemma SameOnTransitive(a: Net, b: Net, c: Net, k: set<NexusId>, l: set<NexusId>, m: set<NexusId>)
    requires WellFormed(a) && WellFormed(b) && WellFormed(c)
    requires SameOn(a, b, k) && SameOn(b, c, l) && m <= k && m <= l
    ensures SameOn(a, c, m)
  {
    CoversTransitive(Behaves(a), Behaves(b), Behaves(c), k, l, m);
    CoversTransitive(Behaves(c), Behaves(b), Behaves(a), l, k, m);
  }

  lemma SameOnReflexive(a: Net)
    requires WellFormed(a)
    ensures SameOn(a, a, a.nexuses.Keys)
  {
    var p := Behaves(a);
    forall val: Valuation, w: World | p(val, w)
      ensures exists val': Valuation :: p(val', w) && AgreeOn(val, val', a.nexuses.Keys)
    {
      assert AgreeOn(val, val, a.nexuses.Keys);
    }
  }

  // ----- nexuses with a constant value -----

  /** `drivers_constant`: nothing outside drives it, and at most one constant does. */
  ghost predicate ConstantDrivers(net: Net, m: NexusId)
    requires m in net.nexuses
  {
    && !net.nexuses[m].port && !net.nexuses[m].reg
    && (forall id | id in net.nodes && net.nodes[id].out == m :: net.nodes[id].Const?)
    && (forall id, id' | id in net.nodes && id' in net.nodes && net.nodes[id].out == net.nodes[id'].out == m ::
          id == id')
  }

  /** `driven_vector`: the constant, or z when there is none. */
  ghost function ConstantValue(net: Net, m: NexusId): (v: Vec)
    requires WellFormed(net) && m in net.nexuses && ConstantDrivers(net, m)
    ensures |v| == net.nexuses[m].width
  {
    if exists id :: id in net.nodes && net.nodes[id].out == m
    then var id :| id in net.nodes && net.nodes[id].out == m; net.nodes[id].value
    else Fill(Vz, net.nexuses[m].width)
  }

  function ReadBit(twoState: bool, b: Bit): Bit {
    if twoState && b == Vz then V0 else b
  }

  /** A nexus with constant drivers holds its constant, with z read as 0 on a 2-state net. */
  lemma ConstantNexus(net: Net, val: Valuation, w: World, m: NexusId)
    requires WellFormed(net) && Consistent(net, val, w)
    requires m in net.nexuses && ConstantDrivers(net, m)
    ensures forall i | 0 <= i < |val[m]| :: val[m][i] == ReadBit(net.nexuses[m].twoState, ConstantValue(net, m)[i])
  {
    forall i | 0 <= i < |val[m]|
      ensures val[m][i] == ReadBit(net.nexuses[m].twoState, ConstantValue(net, m)[i])
    {
      assert val[m][i] == Resolved(net, val, w, m, i);
      if id :| id in net.nodes && net.nodes[id].out == m {
        assert ConstantValue(net, m) == net.nodes[id].value;
        assert Driven(net.nexuses, net.nodes[id], val, w, i) == net.nodes[id].value[i];
      }
    }
  }
}
