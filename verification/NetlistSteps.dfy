/** Each rewrite of constant propagation keeps the consistent valuations. */
module NetlistSteps {
  import opened Vectors
  import opened Netlists

  // ----- replacing one driver -----

  function Replace(net: Net, id: NodeId, id': NodeId, n: Node): Net {
    Net((net.nodes - {id})[id' := n], net.nexuses)
  }

  lemma ReplaceBack(net: Net, id: NodeId, id': NodeId, n: Node)
    requires id in net.nodes && id' !in net.nodes
    ensures Replace(Replace(net, id, id', n), id', id, net.nodes[id]) == net
  {
    assert ((net.nodes - {id})[id' := n] - {id'})[id := net.nodes[id]] == net.nodes;
  }

  ghost predicate SameDriven(net: Net, n: Node, n': Node, val: Valuation, w: World)
    requires NodeOk(net.nexuses, n) && NodeOk(net.nexuses, n') && n.out == n'.out && Sound(net.nexuses, val)
  {
    forall i: nat | i < net.nexuses[n.out].width ::
        Driven(net.nexuses, n, val, w, i) == Driven(net.nexuses, n', val, w, i)
  }

  lemma ReplaceDrives(net: Net, id: NodeId, id': NodeId, n: Node, val: Valuation, w: World, m: NexusId, i: nat, b: Bit)
    requires WellFormed(net) && id in net.nodes && id' !in net.nodes
    requires NodeOk(net.nexuses, n) && n.out == net.nodes[id].out && Sound(net.nexuses, val)
    requires SameDriven(net, net.nodes[id], n, val, w)
    requires m in net.nexuses && i < net.nexuses[m].width && Drives(net, val, w, m, i, b)
    ensures WellFormed(Replace(net, id, id', n)) && Drives(Replace(net, id, id', n), val, w, m, i, b)
  {
    var net' := Replace(net, id, id', n);
    if k :| k in net.nodes && net.nodes[k].out == m && Driven(net.nexuses, net.nodes[k], val, w, i) == b {
      var k' := if k == id then id' else k;
      assert k' in net'.nodes && net'.nodes[k'].out == m && Driven(net.nexuses, net'.nodes[k'], val, w, i) == b;
    }
  }

  lemma ReplaceResolves(net: Net, id: NodeId, id': NodeId, n: Node, val: Valuation, w: World, m: NexusId, i: nat)
    requires WellFormed(net) && id in net.nodes && id' !in net.nodes
    requires NodeOk(net.nexuses, n) && n.out == net.nodes[id].out && Sound(net.nexuses, val)
    requires SameDriven(net, net.nodes[id], n, val, w)
    requires m in net.nexuses && i < net.nexuses[m].width
    ensures WellFormed(Replace(net, id, id', n))
    ensures Resolved(Replace(net, id, id', n), val, w, m, i) == Resolved(net, val, w, m, i)
  {
    var net' := Replace(net, id, id', n);
    ReplaceBack(net, id, id', n);
    forall b: Bit ensures Drives(net', val, w, m, i, b) <==> Drives(net, val, w, m, i, b) {
      if Drives(net, val, w, m, i, b) { ReplaceDrives(net, id, id', n, val, w, m, i, b); }
      if Drives(net', val, w, m, i, b) { ReplaceDrives(net', id', id, net.nodes[id], val, w, m, i, b); }
    }
  }

  /** A replacement that drives the same bits is not noticed. */
  lemma ReplaceConsistent(net: Net, id: NodeId, id': NodeId, n: Node, val: Valuation, w: World)
    requires WellFormed(net) && id in net.nodes && id' !in net.nodes
    requires NodeOk(net.nexuses, n) && n.out == net.nodes[id].out
    requires Consistent(net, val, w) && SameDriven(net, net.nodes[id], n, val, w)
    ensures WellFormed(Replace(net, id, id', n)) && Consistent(Replace(net, id, id', n), val, w)
  {
    var net' := Replace(net, id, id', n);
    assert WellFormed(net');
    forall m | m in net.nexuses ensures Settled(net', val, w, m) {
      assert Settled(net, val, w, m);
      forall i: nat | i < net.nexuses[m].width ensures Resolved(net', val, w, m, i) == val[m][i] {
        ReplaceResolves(net, id, id', n, val, w, m, i);
      }
    }
  }

  lemma ReplaceKeepsConstants(net: Net, id: NodeId, id': NodeId, n: Node, m: NexusId)
    requires WellFormed(net) && id in net.nodes && id' !in net.nodes
    requires NodeOk(net.nexuses, n) && n.out == net.nodes[id].out
    requires m in net.nexuses && ConstantDrivers(net, m) && m != n.out
    ensures var net' := Replace(net, id, id', n);
      WellFormed(net') && ConstantDrivers(net', m) && ConstantValue(net', m) == ConstantValue(net, m)
  {
    var net' := Replace(net, id, id', n);
    if k :| k in net.nodes && net.nodes[k].out == m {
      assert k in net'.nodes && net'.nodes[k] == net.nodes[k];
    }
  }

  // ----- multiplexers -----

  ghost predicate FoldableMux(net: Net, id: NodeId)
    requires WellFormed(net) && id in net.nodes
  {
    var n := net.nodes[id];
    && n.Mux? && |n.data| == 2 && net.nexuses[n.sel].width == 1
    && ConstantDrivers(net, n.sel) && Known(ConstantValue(net, n.sel)[0])
  }

  ghost function MuxResult(net: Net, id: NodeId): Node
    requires WellFormed(net) && id in net.nodes && FoldableMux(net, id)
  {
    var n := net.nodes[id];
    BufZ(if ConstantValue(net, n.sel)[0] == V1 then n.data[1] else n.data[0], n.out)
  }

  lemma MuxDriven(net: Net, n: Node, sel: Bit, val: Valuation, w: World)
    requires WellFormed(net) && NodeOk(net.nexuses, n) && Sound(net.nexuses, val)
    requires n.Mux? && |n.data| == 2 && Known(sel) && val[n.sel] == [sel]
    ensures NodeOk(net.nexuses, BufZ(if sel == V1 then n.data[1] else n.data[0], n.out))
    ensures SameDriven(net, n, BufZ(if sel == V1 then n.data[1] else n.data[0], n.out), val, w)
  {
  }

  /** Replacing a two-way multiplexer with a constant select by a buffer. */
  lemma MuxStep(net: Net, id: NodeId, id': NodeId)
    requires WellFormed(net) && id in net.nodes && id' !in net.nodes && FoldableMux(net, id)
    ensures var net' := Replace(net, id, id', MuxResult(net, id));
      WellFormed(net') && SameOn(net, net', net.nexuses.Keys)
  {
    var n, n' := net.nodes[id], MuxResult(net, id);
    var net', sel := Replace(net, id, id', n'), ConstantValue(net, n.sel)[0];
    assert NodeOk(net.nexuses, n');
    ReplaceKeepsConstants(net, id, id', n', n.sel);
    ReplaceBack(net, id, id', n');
    var p, q := Behaves(net), Behaves(net');
    forall val: Valuation, w: World | p(val, w)
      ensures q(val, w) && AgreeOn(val, val, net.nexuses.Keys)
    {
      ConstantNexus(net, val, w, n.sel);
      MuxDriven(net, n, sel, val, w);
      ReplaceConsistent(net, id, id', n', val, w);
    }
    forall val: Valuation, w: World | q(val, w)
      ensures p(val, w) && AgreeOn(val, val, net.nexuses.Keys)
    {
      ConstantNexus(net', val, w, n.sel);
      MuxDriven(net, n, sel, val, w);
      ReplaceConsistent(net', id', id, n, val, w);
    }
  }

  // ----- concatenations of constants -----

  ghost predicate AllConstant(net: Net, ins: seq<NexusId>) {
    forall m | m in ins :: m in net.nexuses && ConstantDrivers(net, m)
  }

  ghost predicate FoldableConcat(net: Net, id: NodeId)
    requires WellFormed(net) && id in net.nodes
  {
    net.nodes[id].Concat? && !net.nodes[id].transparent && AllConstant(net, net.nodes[id].ins)
  }

  ghost function ConstantsOf(net: Net, ins: seq<NexusId>): (v: Vec)
    requires WellFormed(net) && AllConstant(net, ins)
    ensures |v| == InputWidth(net.nexuses, ins)
  {
    if ins == [] then [] else ConstantValue(net, ins[0]) + ConstantsOf(net, ins[1..])
  }

  /** The constant that replaces a concatenation; bits beyond its inputs are z. */
  function ConcatConst(v: Vec, width: nat, out: NexusId): Node {
    Const(seq(width, i requires 0 <= i < width => Placed(v, 0, i)), out)
  }

  ghost function ConcatResult(net: Net, id: NodeId): Node
    requires WellFormed(net) && id in net.nodes && FoldableConcat(net, id)
  {
    var n := net.nodes[id];
    ConcatConst(ConstantsOf(net, n.ins), net.nexuses[n.out].width, n.out)
  }

  /** No 2-state input has a constant with z bits, or no driver at all. */
  ghost predicate FloatFree(net: Net, ins: seq<NexusId>)
    requires WellFormed(net) && AllConstant(net, ins)
  {
    forall m | m in ins :: net.nexuses[m].twoState ==> Vz !in ConstantValue(net, m)
  }

  lemma {:induction false} JoinIsConstants(net: Net, ins: seq<NexusId>, val: Valuation, w: World)
    requires WellFormed(net) && Consistent(net, val, w) && AllConstant(net, ins)
    ensures |Join(ins, val)| == InputWidth(net.nexuses, ins)
    ensures Join(ins, val) == ConstantsOf(net, ins) <==> FloatFree(net, ins)
  {
    if ins != [] {
      var m, rest := ins[0], ins[1..];
      JoinIsConstants(net, rest, val, w);
      ConstantNexus(net, val, w, m);
      var c := ConstantValue(net, m);
      assert Join(ins, val)[..|c|] == val[m] && Join(ins, val)[|c|..] == Join(rest, val);
      assert ConstantsOf(net, ins)[..|c|] == c && ConstantsOf(net, ins)[|c|..] == ConstantsOf(net, rest);
      assert FloatFree(net, ins) <==> (net.nexuses[m].twoState ==> Vz !in c) && FloatFree(net, rest);
      if net.nexuses[m].twoState && Vz in c {
        var i :| 0 <= i < |c| && c[i] == Vz;
        assert val[m][i] == V0;
      }
    }
  }

  /** The fold is right, in every consistent valuation, exactly when no 2-state input
      floats: such an input reads as 0, but the fold takes it as z. */
  lemma ConcatFoldExact(net: Net, id: NodeId, val: Valuation, w: World)
    requires WellFormed(net) && id in net.nodes && FoldableConcat(net, id) && Consistent(net, val, w)
    ensures NodeOk(net.nexuses, ConcatResult(net, id))
    ensures SameDriven(net, net.nodes[id], ConcatResult(net, id), val, w) <==> FloatFree(net, net.nodes[id].ins)
  {
    var n, n' := net.nodes[id], ConcatResult(net, id);
    JoinIsConstants(net, n.ins, val, w);
    var v, c := Join(n.ins, val), ConstantsOf(net, n.ins);
    if SameDriven(net, n, n', val, w) {
      forall i: nat | i < |v| ensures v[i] == c[i] {
        assert Driven(net.nexuses, n, val, w, i) == Driven(net.nexuses, n', val, w, i);
      }
      assert v == c;
    }
  }

  lemma {:induction false} ReplaceKeepsConstantsOf(net: Net, id: NodeId, id': NodeId, n: Node, ins: seq<NexusId>)
    requires WellFormed(net) && id in net.nodes && id' !in net.nodes
    requires NodeOk(net.nexuses, n) && n.out == net.nodes[id].out
    requires AllConstant(net, ins) && n.out !in ins
    ensures var net' := Replace(net, id, id', n);
      && WellFormed(net') && AllConstant(net', ins) && ConstantsOf(net', ins) == ConstantsOf(net, ins)
      && (FloatFree(net, ins) ==> FloatFree(net', ins))
  {
    forall m | m in ins
      ensures var net' := Replace(net, id, id', n);
        WellFormed(net') && ConstantDrivers(net', m) && ConstantValue(net', m) == ConstantValue(net, m)
    {
      ReplaceKeepsConstants(net, id, id', n, m);
    }
    if ins != [] { ReplaceKeepsConstantsOf(net, id, id', n, ins[1..]); }
  }

  /** Replacing a concatenation of constants by one constant. */
  lemma ConcatStep(net: Net, id: NodeId, id': NodeId)
    requires WellFormed(net) && id in net.nodes && id' !in net.nodes && FoldableConcat(net, id)
    requires FloatFree(net, net.nodes[id].ins)
    ensures var net' := Replace(net, id, id', ConcatResult(net, id));
      WellFormed(net') && SameOn(net, net', net.nexuses.Keys)
  {
    var n, n' := net.nodes[id], ConcatResult(net, id);
    var net' := Replace(net, id, id', n');
    assert NodeOk(net.nexuses, n');
    assert n.out !in n.ins;
    ReplaceKeepsConstantsOf(net, id, id', n', n.ins);
    ReplaceBack(net, id, id', n');
    var p, q := Behaves(net), Behaves(net');
    forall val: Valuation, w: World | p(val, w)
      ensures q(val, w) && AgreeOn(val, val, net.nexuses.Keys)
    {
      ConcatFoldExact(net, id, val, w);
      ReplaceConsistent(net, id, id', n', val, w);
    }
    forall val: Valuation, w: World | q(val, w)
      ensures p(val, w) && AgreeOn(val, val, net.nexuses.Keys)
    {
      JoinIsConstants(net', n.ins, val, w);
      assert SameDriven(net', n', n, val, w);
      ReplaceConsistent(net', id', id, n, val, w);
    }
  }

  /** A concatenation of one 2-state net that nothing drives. */
  function FloatingNet(): Net {
    Net(map[0 := Concat(false, [0], 1)],
        map[0 := Nexus(1, true, false, false, false), 1 := Nexus(1, false, false, false, true)])
  }

  lemma FloatingNetFolds()
    ensures WellFormed(FloatingNet()) && FoldableConcat(FloatingNet(), 0)
    ensures Replace(FloatingNet(), 0, 1, ConcatResult(FloatingNet(), 0)).nodes == map[1 := Const([Vz], 1)]
  {
    var net := FloatingNet();
    assert InputWidth(net.nexuses, [0]) == 1;
    assert ConstantsOf(net, [0]) == ConstantValue(net, 0) + ConstantsOf(net, []) == [Vz];
    assert ConcatResult(net, 0) == Const([Vz], 1);
  }

  lemma FloatingNetReadsZero(w: World)
    ensures WellFormed(FloatingNet()) && Consistent(FloatingNet(), map[0 := [V0], 1 := [V0]], w)
  {
    var net, val := FloatingNet(), map[0 := [V0], 1 := [V0]];
    assert InputWidth(net.nexuses, [0]) == 1;
    assert Join([0], val) == val[0] + Join([], val) == [V0];
    assert Driven(net.nexuses, net.nodes[0], val, w, 0) == V0;
  }

  /** A 2-state net without a driver reads as 0, but concatenating it folds to z. */
  lemma FloatingInputFolds()
    ensures var net := FloatingNet();
      && WellFormed(net) && FoldableConcat(net, 0)
      && WellFormed(Replace(net, 0, 1, ConcatResult(net, 0)))
      && !SameOn(net, Replace(net, 0, 1, ConcatResult(net, 0)), {1})
  {
    FloatingNetFolds();
    var net := FloatingNet();
    var net', w := Replace(net, 0, 1, ConcatResult(net, 0)), World(m => [], (k, vs) => []);
    FloatingNetReadsZero(w);
    var p, q, val := Behaves(net), Behaves(net'), map[0 := [V0], 1 := [V0]];
    assert p(val, w);
    forall val': Valuation | q(val', w) ensures !AgreeOn(val, val', {1}) {
      ConstantNexus(net', val', w, 1);
      assert val'[1][0] == Vz && val[1] == [V0] && 1 in {1};
    }
    assert !Covers(p, q, {1});
  }

  // ----- constants that drive nothing -----

  function Remove(net: Net, id: NodeId): Net {
    Net(net.nodes - {id}, net.nexuses)
  }

  lemma RemoveResolves(net: Net, id: NodeId, val: Valuation, w: World, m: NexusId, i: nat)
    requires WellFormed(net) && id in net.nodes && net.nodes[id].Const? && Sound(net.nexuses, val)
    requires m in net.nexuses && i < net.nexuses[m].width
    requires m == net.nodes[id].out ==> net.nodes[id].value[i] == Vz
    ensures WellFormed(Remove(net, id))
    ensures Resolved(Remove(net, id), val, w, m, i) == Resolved(net, val, w, m, i)
  {
    var net' := Remove(net, id);
    assert WellFormed(net');
    forall b: Bit | b != Vz ensures Drives(net', val, w, m, i, b) <==> Drives(net, val, w, m, i, b) {
      if k :| k in net.nodes && net.nodes[k].out == m && Driven(net.nexuses, net.nodes[k], val, w, i) == b {
        assert k in net'.nodes && net'.nodes[k] == net.nodes[k];
      }
      if k :| k in net'.nodes && net'.nodes[k].out == m && Driven(net.nexuses, net'.nodes[k], val, w, i) == b {
        assert k in net.nodes && net'.nodes[k] == net.nodes[k];
      }
    }
  }

  /** A constant of z bits only can go. */
  lemma FloatingConstStep(net: Net, id: NodeId)
    requires WellFormed(net) && id in net.nodes && net.nodes[id].Const?
    requires net.nodes[id].value == Fill(Vz, |net.nodes[id].value|)
    ensures WellFormed(Remove(net, id)) && SameOn(net, Remove(net, id), net.nexuses.Keys)
  {
    var net' := Remove(net, id);
    assert WellFormed(net');
    var p, q := Behaves(net), Behaves(net');
    forall val: Valuation, w: World | Sound(net.nexuses, val)
      ensures p(val, w) <==> q(val, w)
    {
      forall m | m in net.nexuses ensures Settled(net', val, w, m) <==> Settled(net, val, w, m) {
        forall i: nat | i < net.nexuses[m].width
          ensures Resolved(net', val, w, m, i) == Resolved(net, val, w, m, i)
        {
          RemoveResolves(net, id, val, w, m, i);
        }
      }
    }
    forall val: Valuation, w: World | p(val, w) || q(val, w)
      ensures p(val, w) && q(val, w) && AgreeOn(val, val, net.nexuses.Keys)
    {
    }
  }

  ghost predicate ReadByNode(net: Net, m: NexusId) {
    exists id :: id in net.nodes && m in Inputs(net.nodes[id])
  }

  lemma {:induction false} JoinLocal(ins: seq<NexusId>, val: Valuation, val': Valuation)
    requires forall m | m in ins :: m in val && m in val' && val[m] == val'[m]
    ensures Join(ins, val) == Join(ins, val')
  {
    if ins != [] { JoinLocal(ins[1..], val, val'); }
  }

  /** What a node drives depends only on its inputs. */
  lemma DrivenLocal(nx: map<NexusId, Nexus>, nx': map<NexusId, Nexus>, n: Node,
                    val: Valuation, val': Valuation, w: World, i: nat)
    requires NodeOk(nx, n) && NodeOk(nx', n) && Sound(nx, val) && Sound(nx', val')
    requires i < nx[n.out].width == nx'[n.out].width
    requires forall m | m in Inputs(n) :: val[m] == val'[m]
    ensures Driven(nx, n, val, w, i) == Driven(nx', n, val', w, i)
  {
    match n {
      case Concat(_, ins, _) => JoinLocal(ins, val, val');
      case Mux(data, sel, _) => assert Values(data, val) == Values(data, val'); assert sel in Inputs(n);
      case Gate(_, ins, _) => assert Values(ins, val) == Values(ins, val');
      case _ =>
    }
  }

  /** The value a nexus would settle to. */
  ghost function Resolution(net: Net, val: Valuation, w: World, m: NexusId): (v: Vec)
    requires WellFormed(net) && Sound(net.nexuses, val) && m in net.nexuses
    ensures |v| == net.nexuses[m].width
  {
    seq(net.nexuses[m].width, i requires 0 <= i < net.nexuses[m].width => Resolved(net, val, w, m, i))
  }

  lemma UnreadLocal(net: Net, val: Valuation, w: World, m: NexusId, v: Vec, k: NexusId, i: nat)
    requires WellFormed(net) && Sound(net.nexuses, val) && m in net.nexuses && !ReadByNode(net, m)
    requires |v| == net.nexuses[m].width && k in net.nexuses && i < net.nexuses[k].width
    ensures Sound(net.nexuses, val[m := v])
    ensures Resolved(net, val[m := v], w, k, i) == Resolved(net, val, w, k, i)
  {
    var val' := val[m := v];
    forall id | id in net.nodes && net.nodes[id].out == k
      ensures Driven(net.nexuses, net.nodes[id], val', w, i) == Driven(net.nexuses, net.nodes[id], val, w, i)
    {
      assert m !in Inputs(net.nodes[id]);
      DrivenLocal(net.nexuses, net.nexuses, net.nodes[id], val, val', w, i);
    }
  }

  /** If everything but an unread nexus is settled, that nexus can be settled too. */
  lemma SettleUnread(net: Net, val: Valuation, w: World, m: NexusId)
    requires WellFormed(net) && Sound(net.nexuses, val) && m in net.nexuses && !ReadByNode(net, m)
    requires forall k | k in net.nexuses && k != m :: Settled(net, val, w, k)
    ensures Consistent(net, val[m := Resolution(net, val, w, m)], w)
  {
    var v := Resolution(net, val, w, m);
    var val' := val[m := v];
    forall k | k in net.nexuses ensures Settled(net, val', w, k) {
      assert k != m ==> Settled(net, val, w, k);
      forall i: nat | i < net.nexuses[k].width
        ensures val'[k][i] == Resolved(net, val', w, k, i)
      {
        UnreadLocal(net, val, w, m, v, k, i);
      }
    }
  }

  lemma RemoveSettles(net: Net, id: NodeId, val: Valuation, w: World, k: NexusId)
    requires WellFormed(net) && id in net.nodes && net.nodes[id].Const? && Sound(net.nexuses, val)
    requires k in net.nexuses && k != net.nodes[id].out
    ensures WellFormed(Remove(net, id))
    ensures Settled(Remove(net, id), val, w, k) <==> Settled(net, val, w, k)
  {
    assert WellFormed(Remove(net, id));
    forall i: nat | i < net.nexuses[k].width
      ensures Resolved(Remove(net, id), val, w, k, i) == Resolved(net, val, w, k, i)
    {
      RemoveResolves(net, id, val, w, k, i);
    }
  }

  /** A constant whose nexus no node reads can go; only that nexus may change. */
  lemma DanglingConstStep(net: Net, id: NodeId)
    requires WellFormed(net) && id in net.nodes && net.nodes[id].Const? && !ReadByNode(net, net.nodes[id].out)
    ensures WellFormed(Remove(net, id)) && SameOn(net, Remove(net, id), net.nexuses.Keys - {net.nodes[id].out})
  {
    var net', m := Remove(net, id), net.nodes[id].out;
    var keep := net.nexuses.Keys - {m};
    assert WellFormed(net') && !ReadByNode(net', m);
    var p, q := Behaves(net), Behaves(net');
    forall val: Valuation, w: World | p(val, w)
      ensures exists val': Valuation :: q(val', w) && AgreeOn(val, val', keep)
    {
      forall k | k in net.nexuses && k != m ensures Settled(net', val, w, k) {
        assert Settled(net, val, w, k);
        RemoveSettles(net, id, val, w, k);
      }
      SettleUnread(net', val, w, m);
      var val' := val[m := Resolution(net', val, w, m)];
      assert q(val', w) && AgreeOn(val, val', keep);
    }
    forall val: Valuation, w: World | q(val, w)
      ensures exists val': Valuation :: p(val', w) && AgreeOn(val, val', keep)
    {
      forall k | k in net.nexuses && k != m ensures Settled(net, val, w, k) {
        assert Settled(net', val, w, k);
        RemoveSettles(net, id, val, w, k);
      }
      SettleUnread(net, val, w, m);
      var val' := val[m := Resolution(net, val, w, m)];
      assert p(val', w) && AgreeOn(val, val', keep);
    }
  }
}
