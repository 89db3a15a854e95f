/** Runs of constant propagation: chains of rewrites, and what a whole chain keeps. */
module CpropRuns {
  import opened Vectors
  import opened Netlists
  import opened NetlistSteps
  import opened BlendStep
  import opened GroundedNets
  import opened CpropSteps
  import opened PartSelects

  /** A visit to this node rewrites the netlist. */
  ghost predicate Rewritable(net: Net, id: NodeId)
    requires WellFormed(net) && id in net.nodes
  {
    FoldableConcat(net, id) || FoldableMux(net, id) || (net.nodes[id].PartPV? && Blendable(net, net.nodes[id].out))
  }

  /** What the rewrite of a node needs in order to keep every value: no 2-state input of
      a folded concatenation floats, and no gap is filled in a 2-state port. */
  ghost predicate Harmless(net: Net, id: NodeId)
    requires WellFormed(net) && id in net.nodes
  {
    && (FoldableConcat(net, id) ==> FloatFree(net, net.nodes[id].ins))
    && (net.nodes[id].PartPV? ==> FillOk(net, net.nodes[id].out))
  }

  /** A rewrite of `before` at node `id`. */
  datatype Rewrite = Rewrite(before: Net, id: NodeId, after: Net)

  ghost predicate AtNode(r: Rewrite) {
    WellFormed(r.before) && r.id in r.before.nodes
  }

  ghost predicate FoldsConcat(r: Rewrite)
    requires AtNode(r)
  {
    FoldableConcat(r.before, r.id) && exists id' ::
      id' !in r.before.nodes && r.after == Replace(r.before, r.id, id', ConcatResult(r.before, r.id))
  }

  ghost predicate FoldsMux(r: Rewrite)
    requires AtNode(r)
  {
    FoldableMux(r.before, r.id) && exists id' ::
      id' !in r.before.nodes && r.after == Replace(r.before, r.id, id', MuxResult(r.before, r.id))
  }

  ghost predicate BlendsInto(r: Rewrite, n: NexusId, ids: seq<NodeId>, cid: NodeId, ins: seq<NexusId>)
    requires n in r.before.nexuses
  {
    NoRepeats(ids) && ids != [] && Blended(r.before, r.after, n, ids, cid, ins, GapFill(r.before, n))
  }

  ghost predicate BlendsParts(r: Rewrite)
    requires AtNode(r)
  {
    var n := r.before.nodes[r.id].out;
    r.before.nodes[r.id].PartPV? && Blendable(r.before, n) && WellFormed(r.after)
    && exists ids, cid, ins :: BlendsInto(r, n, ids, cid, ins)
  }

  ghost predicate Step(r: Rewrite) {
    AtNode(r) && (FoldsConcat(r) || FoldsMux(r) || BlendsParts(r))
  }

  type Rule = Rewrite -> bool

  /** The rewrites of constant propagation. */
  ghost function Steps(): Rule {
    (r: Rewrite) => Step(r)
  }

  /** The rewrite lowers the measure, and it keeps the meaning if it is harmless. */
  ghost predicate Improves(r: Rewrite) {
    && AtNode(r) && Refines(r.before, r.after, Harmless(r.before, r.id))
    && Measure(r.after.nodes) < Measure(r.before.nodes)
  }

  lemma StepImproves(r: Rewrite)
    requires Step(r)
    ensures Rewritable(r.before, r.id) && Improves(r)
  {
    if FoldsConcat(r) {
      var id' :| id' !in r.before.nodes && r.after == Replace(r.before, r.id, id', ConcatResult(r.before, r.id));
      ConcatImproves(r.before, r.id, id');
    } else if FoldsMux(r) {
      var id' :| id' !in r.before.nodes && r.after == Replace(r.before, r.id, id', MuxResult(r.before, r.id));
      MuxImproves(r.before, r.id, id');
    } else {
      var n := r.before.nodes[r.id].out;
      var ids, cid, ins :| BlendsInto(r, n, ids, cid, ins);
      BlendImproves(r.before, r.after, n, ids, cid, ins);
    }
  }

  /** Rewrites by the rule lead from `a` to `b`. */
  ghost predicate Chain(rule: Rule, a: Net, log: seq<Rewrite>, b: Net) {
    if log == [] then a == b
    else
      var r := log[|log| - 1];
      Chain(rule, a, log[..|log| - 1], r.before) && rule(r) && r.after == b
  }

  ghost predicate AllHarmless(log: seq<Rewrite>) {
    forall r | r in log :: AtNode(r) && Harmless(r.before, r.id)
  }

  lemma ChainGrows(rule: Rule, a: Net, log: seq<Rewrite>, r: Rewrite)
    requires Chain(rule, a, log, r.before) && rule(r)
    ensures Chain(rule, a, log + [r], r.after)
  {
    assert (log + [r])[..|log|] == log;
  }

  lemma StepIsChain(r: Rewrite)
    requires Step(r)
    ensures Chain(Steps(), r.before, [r], r.after)
  {
    ChainGrows(Steps(), r.before, [], r);
    assert [] + [r] == [r];
  }

  lemma ConcatIsStep(net: Net, id: NodeId, id': NodeId)
    requires WellFormed(net) && id in net.nodes && id' !in net.nodes && FoldableConcat(net, id)
    ensures var net' := Replace(net, id, id', ConcatResult(net, id));
      Chain(Steps(), net, [Rewrite(net, id, net')], net')
  {
    StepIsChain(Rewrite(net, id, Replace(net, id, id', ConcatResult(net, id))));
  }

  lemma MuxIsStep(net: Net, id: NodeId, id': NodeId)
    requires WellFormed(net) && id in net.nodes && id' !in net.nodes && FoldableMux(net, id)
    ensures var net' := Replace(net, id, id', MuxResult(net, id));
      Chain(Steps(), net, [Rewrite(net, id, net')], net')
  {
    StepIsChain(Rewrite(net, id, Replace(net, id, id', MuxResult(net, id))));
  }

  lemma BlendIsStep(net: Net, net': Net, id: NodeId, ids: seq<NodeId>, cid: NodeId, ins: seq<NexusId>)
    requires WellFormed(net) && WellFormed(net') && id in net.nodes && net.nodes[id].PartPV?
    requires Blendable(net, net.nodes[id].out) && NoRepeats(ids) && ids != []
    requires Blended(net, net', net.nodes[id].out, ids, cid, ins, GapFill(net, net.nodes[id].out))
    ensures Chain(Steps(), net, [Rewrite(net, id, net')], net')
  {
    var r := Rewrite(net, id, net');
    assert BlendsParts(r) by { assert BlendsInto(r, net.nodes[id].out, ids, cid, ins); }
    StepIsChain(r);
  }

  lemma {:induction false} ChainsJoin(rule: Rule, a: Net, log: seq<Rewrite>, b: Net, log': seq<Rewrite>, c: Net)
    requires Chain(rule, a, log, b) && Chain(rule, b, log', c)
    ensures Chain(rule, a, log + log', c)
  {
    if log' == [] {
      assert log + log' == log;
    } else {
      var init, r := log'[..|log'| - 1], log'[|log'| - 1];
      ChainsJoin(rule, a, log, b, init, r.before);
      ChainGrows(rule, a, log + init, r);
      assert log + init + [r] == log + log';
    }
  }

  lemma HarmlessSoFar(log: seq<Rewrite>, r: Rewrite)
    requires AtNode(r)
    ensures AllHarmless(log + [r]) <==> AllHarmless(log) && Harmless(r.before, r.id)
  {
    assert forall q :: q in log + [r] <==> q in log || q == r;
  }

  lemma RefinesOnward(a: Net, log: seq<Rewrite>, r: Rewrite)
    requires Refines(a, r.before, AllHarmless(log)) && Improves(r)
    ensures Refines(a, r.after, AllHarmless(log + [r]))
  {
    HarmlessSoFar(log, r);
    RefinesTransitive(a, r.before, r.after, AllHarmless(log), Harmless(r.before, r.id));
  }

  type Claim = (seq<Rewrite>, Net) -> bool

  /** What holds of the empty chain, and is kept by every rewrite, holds of every chain. */
  lemma {:induction false} ChainInduction(rule: Rule, claim: Claim, a: Net, log: seq<Rewrite>, b: Net)
    requires Chain(rule, a, log, b) && claim([], a)
    requires forall init: seq<Rewrite>, r: Rewrite | claim(init, r.before) && rule(r) :: claim(init + [r], r.after)
    ensures claim(log, b)
  {
    if log != [] {
      var init, r := log[..|log| - 1], log[|log| - 1];
      ChainInduction(rule, claim, a, init, r.before);
      assert init + [r] == log;
    }
  }

  /** A run keeps the meaning if all its rewrites are harmless, as they are when no
      2-state net can float. */
  lemma RunRefines(a: Net, log: seq<Rewrite>, b: Net)
    requires WellFormed(a) && Chain(Steps(), a, log, b)
    ensures Refines(a, b, AllHarmless(log))
  {
    var claim: Claim := (log: seq<Rewrite>, b: Net) => Refines(a, b, AllHarmless(log));
    RefinesItself(a);
    assert AllHarmless([]) == true;
    forall init: seq<Rewrite>, r: Rewrite | claim(init, r.before) && Steps()(r) ensures claim(init + [r], r.after) {
      StepImproves(r);
      RefinesOnward(a, init, r);
    }
    ChainInduction(Steps(), claim, a, log, b);
  }

  /** A run is no longer than the measure. */
  lemma RunLowers(a: Net, log: seq<Rewrite>, b: Net)
    requires Chain(Steps(), a, log, b)
    ensures Measure(b.nodes) + |log| <= Measure(a.nodes)
  {
    var claim: Claim := (log: seq<Rewrite>, b: Net) => Measure(b.nodes) + |log| <= Measure(a.nodes);
    forall init: seq<Rewrite>, r: Rewrite | claim(init, r.before) && Steps()(r) ensures claim(init + [r], r.after) {
      StepImproves(r);
    }
    ChainInduction(Steps(), claim, a, log, b);
  }
}
