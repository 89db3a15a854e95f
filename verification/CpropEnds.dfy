/** When propagation can rewrite a node, read off the nodes and what drives their inputs. */
module CpropEnds {
  import opened Vectors
  import opened Netlists
  import opened NetlistSteps
  import opened Blending
  import opened PartSelects
  import opened CpropRuns

  /** Node `k` and nothing else drives `m`, from inside or outside. */
  ghost predicate DrivenOnlyBy(net: Net, m: NexusId, k: NodeId)
    requires m in net.nexuses
  {
    && !net.nexuses[m].port && !net.nexuses[m].reg && k in net.nodes && net.nodes[k].out == m
    && forall j | j in net.nodes && net.nodes[j].out == m :: j == k
  }

  ghost predicate Undriven(net: Net, m: NexusId)
    requires m in net.nexuses
  {
    !net.nexuses[m].port && !net.nexuses[m].reg && forall j | j in net.nodes :: net.nodes[j].out != m
  }

  predicate CoversBit(n: Node, i: nat)
    requires n.PartPV?
  {
    n.base <= i < n.base + n.width
  }

  /** Every bit a part covers is in range, and no other part covers it. */
  ghost predicate BitsApart(net: Net, n: NexusId)
    requires WellFormed(net) && n in net.nexuses
    requires forall k | k in net.nodes && net.nodes[k].out == n :: net.nodes[k].PartPV?
  {
    forall k, i: nat | k in net.nodes && net.nodes[k].out == n && CoversBit(net.nodes[k], i) ::
      && i < net.nexuses[n].width
      && forall j | j in net.nodes && j != k && net.nodes[j].out == n :: !CoversBit(net.nodes[j], i)
  }

  /** A node that is simpler written another way: a two-way multiplexer whose select is driven
      by a constant 0 or 1 alone; a concatenation of undriven nets and single constants; and a
      part select whose target has part selects for drivers, more than one unless it is 2-state,
      with no bit driven twice and none beyond the end. */
  ghost predicate Simplifies(net: Net, id: NodeId)
    requires WellFormed(net) && id in net.nodes
  {
    match net.nodes[id]
    case Mux(data, sel, _) =>
      |data| == 2 && exists k | DrivenOnlyBy(net, sel, k) ::
        net.nodes[k] == Const([V0], sel) || net.nodes[k] == Const([V1], sel)
    case Concat(transparent, ins, _) =>
      !transparent && forall m | m in ins ::
        Undriven(net, m) || exists k | DrivenOnlyBy(net, m, k) :: net.nodes[k].Const?
    case PartPV(_, _, _, n) =>
      && !net.nexuses[n].reg
      && (forall k | k in net.nodes && net.nodes[k].out == n :: net.nodes[k].PartPV?)
      && (net.nexuses[n].twoState || exists k :: k in net.nodes && k != id && net.nodes[k].out == n)
      && BitsApart(net, n)
    case _ => false
  }

  lemma ConstantDriversAre(net: Net, m: NexusId)
    requires WellFormed(net) && m in net.nexuses
    ensures ConstantDrivers(net, m)
      <==> Undriven(net, m) || exists k | DrivenOnlyBy(net, m, k) :: net.nodes[k].Const?
  {
    if ConstantDrivers(net, m) && !Undriven(net, m) {
      var k :| k in net.nodes && net.nodes[k].out == m;
      assert DrivenOnlyBy(net, m, k) && net.nodes[k].Const?;
    }
  }

  lemma SelectIs(net: Net, m: NexusId, k: NodeId)
    requires WellFormed(net) && m in net.nexuses && DrivenOnlyBy(net, m, k) && net.nodes[k].Const?
    ensures ConstantDrivers(net, m) && ConstantValue(net, m) == net.nodes[k].value
  {
    ConstantDriversAre(net, m);
  }

  lemma MuxExactly(net: Net, id: NodeId)
    requires WellFormed(net) && id in net.nodes && net.nodes[id].Mux?
    ensures FoldableMux(net, id) <==> Simplifies(net, id)
  {
    var sel := net.nodes[id].sel;
    ConstantDriversAre(net, sel);
    if FoldableMux(net, id) {
      assert !Undriven(net, sel);
      var k :| DrivenOnlyBy(net, sel, k) && net.nodes[k].Const?;
      SelectIs(net, sel, k);
      assert net.nodes[k].value == [V0] || net.nodes[k].value == [V1];
    }
    if Simplifies(net, id) {
      var k :| DrivenOnlyBy(net, sel, k) && (net.nodes[k] == Const([V0], sel) || net.nodes[k] == Const([V1], sel));
      SelectIs(net, sel, k);
      assert NodeOk(net.nexuses, net.nodes[k]);
    }
  }

  lemma ConcatExactly(net: Net, id: NodeId)
    requires WellFormed(net) && id in net.nodes && net.nodes[id].Concat?
    ensures FoldableConcat(net, id) <==> Simplifies(net, id)
  {
    forall m | m in net.nodes[id].ins
      ensures m in net.nexuses
      ensures ConstantDrivers(net, m)
        <==> Undriven(net, m) || exists k | DrivenOnlyBy(net, m, k) :: net.nodes[k].Const?
    {
      assert NodeOk(net.nexuses, net.nodes[id]);
      ConstantDriversAre(net, m);
    }
  }

  lemma DisjointBits(p: Node, q: Node)
    requires p.PartPV? && q.PartPV? && p.width >= 1 && q.width >= 1
    ensures Disjoint(p, q) <==> forall i: nat :: !(CoversBit(p, i) && CoversBit(q, i))
  {
    if !Disjoint(p, q) {
      var i := if p.base < q.base then q.base else p.base;
      assert CoversBit(p, i) && CoversBit(q, i);
    }
  }

  lemma ApartIsDisjoint(net: Net, n: NexusId)
    requires WellFormed(net) && n in net.nexuses
    requires forall k | k in net.nodes && net.nodes[k].out == n :: net.nodes[k].PartPV?
    ensures BitsApart(net, n) <==>
      && (forall k | k in net.nodes && net.nodes[k].out == n ::
            net.nodes[k].base + net.nodes[k].width <= net.nexuses[n].width)
      && forall k, j | k in net.nodes && j in net.nodes && k != j && net.nodes[k].out == net.nodes[j].out == n ::
           Disjoint(net.nodes[k], net.nodes[j])
  {
    forall k | k in net.nodes && net.nodes[k].out == n
      ensures net.nodes[k].width >= 1
      ensures net.nodes[k].base + net.nodes[k].width <= net.nexuses[n].width
        <==> forall i: nat | CoversBit(net.nodes[k], i) :: i < net.nexuses[n].width
    {
      assert NodeOk(net.nexuses, net.nodes[k]);
      assert CoversBit(net.nodes[k], net.nodes[k].base + net.nodes[k].width - 1);
    }
    forall k, j | k in net.nodes && j in net.nodes && net.nodes[k].out == net.nodes[j].out == n
      ensures Disjoint(net.nodes[k], net.nodes[j])
        <==> forall i: nat :: !(CoversBit(net.nodes[k], i) && CoversBit(net.nodes[j], i))
    {
      DisjointBits(net.nodes[k], net.nodes[j]);
    }
  }

  lemma PartExactly(net: Net, id: NodeId)
    requires WellFormed(net) && id in net.nodes && net.nodes[id].PartPV?
    ensures Blendable(net, net.nodes[id].out) <==> Simplifies(net, id)
  {
    var n := net.nodes[id].out;
    assert NodeOk(net.nexuses, net.nodes[id]);
    if forall k | k in net.nodes && net.nodes[k].out == n :: net.nodes[k].PartPV? {
      ApartIsDisjoint(net, n);
    }
  }

  /** A visit rewrites exactly the nodes that are simpler written another way. */
  lemma RewritableExactly(net: Net, id: NodeId)
    requires WellFormed(net) && id in net.nodes
    ensures Rewritable(net, id) <==> Simplifies(net, id)
  {
    match net.nodes[id] {
      case Mux(_, _, _) => MuxExactly(net, id);
      case Concat(_, _, _) => ConcatExactly(net, id);
      case PartPV(_, _, _, _) => PartExactly(net, id);
      case _ =>
    }
  }
}
