/** What an assignment to a concatenation means: reading the target back gives the value
    assigned, whichever of the two splitters cut it. */
module Targets {
  import opened Vectors
  import opened Selects
  import opened LValues
  import opened LNets

  type Store = nat -> Vec

  /** The target read as an expression, its first operand most significant. Operands that
      cannot be assigned are left out. */
  function ReadBack(e: LExpr, vars: Store): Vec
    decreases e
  {
    match e
    case Ident(sig, _, status) => if status == Good then vars(sig) else []
    case Missing => []
    case Concat(repeated, parms) => if repeated then [] else ReadBackOf(parms, vars)
  }

  function ReadBackOf(parms: seq<LExpr>, vars: Store): Vec
    decreases parms
  {
    if parms == [] then [] else ReadBackOf(parms[1..], vars) + ReadBack(parms[0], vars)
  }

  function ValuesOf(leaves: seq<LExpr>, vars: Store): seq<Vec> {
    seq(|leaves|, k requires 0 <= k < |leaves| => if leaves[k].Ident? then vars(leaves[k].sig) else [])
  }

  lemma {:induction false} ReadBackSnoc(parms: seq<LExpr>, vars: Store)
    requires parms != []
    ensures ReadBackOf(parms, vars)
         == ReadBack(parms[|parms| - 1], vars) + ReadBackOf(parms[..|parms| - 1], vars)
  {
    var n := |parms| - 1;
    if n > 0 {
      ReadBackSnoc(parms[1..], vars);
      assert parms[1..][..n - 1] == parms[..n][1..];
    } else {
      assert parms[1..] == [];
    }
  }

  lemma ValuesOfSum(a: seq<LExpr>, b: seq<LExpr>, vars: Store)
    ensures Joined(ValuesOf(a + b, vars)) == Joined(ValuesOf(a, vars)) + Joined(ValuesOf(b, vars))
  {
    assert ValuesOf(a + b, vars) == ValuesOf(a, vars) + ValuesOf(b, vars);
    JoinedOfSum(ValuesOf(a, vars), ValuesOf(b, vars));
  }

  /** The leaves, least significant first, spell what is read back. */
  lemma {:induction false} LeavesReadBack(e: LExpr, vars: Store)
    ensures Joined(ValuesOf(Leaves(e), vars)) == ReadBack(e, vars)
    decreases e
  {
    if e.Concat? {
      LeavesOfReadBack(e.parms, vars);
    } else if e.Ident? && e.status.Good? {
      assert ValuesOf([e], vars) == [vars(e.sig)];
    }
  }

  lemma {:induction false} LeavesOfReadBack(parms: seq<LExpr>, vars: Store)
    ensures Joined(ValuesOf(LeavesOf(parms), vars)) == ReadBackOf(parms, vars)
    decreases parms
  {
    if parms != [] {
      var n := |parms| - 1;
      LeavesReadBack(parms[n], vars);
      LeavesOfReadBack(parms[..n], vars);
      ReadBackSnoc(parms, vars);
      ValuesOfSum(Leaves(parms[n]), LeavesOf(parms[..n]), vars);
    }
  }

  /** Procedural assignment: when each leaf holds the slice that it is given, the target reads
      as the value assigned. */
  lemma AssignedReadsBack(e: LExpr, rval: Vec, vals: seq<Vec>, vars: Store)
    requires Cuts(rval, Leaves(e), vals)
    requires forall k | 0 <= k < |vals| && Leaves(e)[k].Ident? :: vars(Leaves(e)[k].sig) == vals[k]
    ensures ReadBack(e, vars) == rval
  {
    LeavesAreIdents(e);
    forall k | 0 <= k < |vals| ensures ValuesOf(Leaves(e), vars)[k] == vals[k] {
      assert Leaves(e)[k] in Leaves(e);
    }
    assert ValuesOf(Leaves(e), vars) == vals;
    LeavesReadBack(e, vars);
  }

  /** Continuous assignment: under every wiring that obeys the part selects, the target reads
      as the value of its temporary net. */
  lemma DrivenReadsBack(e: LExpr, net: NetRef, width: nat, parts: seq<PartVP>, val: Wiring, vars: Store)
    requires Feeds(net, width, parts, Leaves(e)) && ObeysAll(val, parts) && |val(net)| == width
    requires forall sig: nat :: vars(sig) == val(Signal(sig))
    ensures ReadBack(e, vars) == val(net)
  {
    AssignedReadsBack(e, val(net), LeafValues(val, Leaves(e)), vars);
  }

  /** Every operand is packed and elaborates, at any depth, and none is missing or repeated. */
  predicate Assignable(e: LExpr)
    decreases e
  {
    match e
    case Ident(_, _, status) => status == Good
    case Missing => false
    case Concat(repeated, parms) => !repeated && forall p | p in parms :: Assignable(p)
  }

  /** An error is counted exactly if some operand is not; a variable alone may be unpacked. */
  lemma {:induction false} ErrorsExactly(e: LExpr)
    ensures LvalErrors(e) == 0 <==> Assignable(e) || (e.Ident? && e.status == Unpacked)
    ensures Assignable(e) ==> LvalLeaves(e) == Leaves(e)
    decreases e
  {
    if e.Concat? { ErrorsOfExactly(e.parms); }
  }

  lemma {:induction false} ErrorsOfExactly(parms: seq<LExpr>)
    ensures LvalErrorsOf(parms) == 0 <==> forall p | p in parms :: Assignable(p)
    decreases parms
  {
    if parms != [] {
      var front, last := parms[..|parms| - 1], parms[|parms| - 1];
      ErrorsOfExactly(front);
      ErrorsExactly(last);
      assert parms == front + [last];
    }
  }

  // ----- the part selects never contradict each other -----

  lemma {:induction false} DrivenOnce(parts: seq<PartVP>, sig: nat, p: PartVP)
    requires p in parts && p.dst == Signal(sig)
    ensures DrivenTimes(parts, sig) >= 1
    ensures forall q | q in parts && q != p && q.dst == Signal(sig) :: DrivenTimes(parts, sig) >= 2
  {
    var rest := parts[1..];
    if p in rest { DrivenOnce(rest, sig, p); }
    forall q | q in parts && q != p && q.dst == Signal(sig) ensures DrivenTimes(parts, sig) >= 2 {
      if q in rest { DrivenOnce(rest, sig, q); }
    }
  }

  /** Each net has at most one driver. */
  ghost predicate Unshared(parts: seq<PartVP>) {
    forall p, q | p in parts && q in parts && p.dst == q.dst :: p == q
  }

  lemma HandsUnshared(o: Operand, parts: seq<PartVP>, widths: seq<nat>, base: nat, from: nat, leaves: seq<LExpr>)
    requires Wired(parts, widths) && Hands(o, parts, widths, base, from, leaves)
    requires forall sig :: LeafTimes(leaves, sig) <= 1
    ensures Unshared(parts[base..]) && forall p | p in parts[base..] :: p.dst != o.net
  {
    var own := parts[base..];
    forall p, q | p in own && q in own && p.dst == q.dst ensures p == q {
      match p.dst {
        case Signal(sig) => DrivenOnce(own, sig, p);
        case Local(_) =>
          var i :| base <= i < |parts| && parts[i] == p;
          var j :| base <= j < |parts| && parts[j] == q;
      }
    }
    forall p | p in own ensures p.dst != o.net {
      if o.net.Signal? {
        assert NetTimes([o], o.net.sig) >= 1;
        assert DrivenTimes(own, o.net.sig) + NetTimes([o], o.net.sig) == LeafTimes(leaves, o.net.sig);
        if p.dst == o.net { DrivenOnce(own, o.net.sig, p); }
      }
    }
  }

  function SliceOf(v: Vec, off: nat, wid: nat): Vec {
    if off + wid <= |v| then v[off..off + wid] else []
  }

  /** The value that reaches a net from the nets that nothing drives. */
  ghost function Carried(parts: seq<PartVP>, widths: seq<nat>, roots: Wiring, x: NetRef): Vec
    requires forall p | p in parts :: p.src.Local? && p.src.n < |widths| && (p.dst.Local? ==> p.dst.n < p.src.n)
    decreases if x.Signal? then |widths| + 1 else if x.n < |widths| then |widths| - x.n else 0
  {
    if exists p :: p in parts && p.dst == x then
      var p :| p in parts && p.dst == x;
      SliceOf(Carried(parts, widths, roots, p.src), p.off, p.wid)
    else roots(x)
  }

  lemma {:induction false} CarriedWidth(parts: seq<PartVP>, widths: seq<nat>, roots: Wiring, n: nat)
    requires forall p | p in parts ::
      && p.src.Local? && p.src.n < |widths| && p.off + p.wid <= widths[p.src.n]
      && (p.dst.Local? ==> p.dst.n < p.src.n && p.wid == widths[p.dst.n])
    requires n < |widths| && forall k | 0 <= k < |widths| :: |roots(Local(k))| == widths[k]
    ensures |Carried(parts, widths, roots, Local(n))| == widths[n]
    decreases |widths| - n
  {
    forall p | p in parts && p.dst == Local(n)
      ensures |SliceOf(Carried(parts, widths, roots, p.src), p.off, p.wid)| == widths[n]
    {
      CarriedWidth(parts, widths, roots, p.src.n);
    }
  }

  lemma CarriedThrough(parts: seq<PartVP>, widths: seq<nat>, roots: Wiring, p: PartVP)
    requires forall q | q in parts :: q.src.Local? && q.src.n < |widths| && (q.dst.Local? ==> q.dst.n < q.src.n)
    requires Unshared(parts) && p in parts
    ensures Carried(parts, widths, roots, p.dst) == SliceOf(Carried(parts, widths, roots, p.src), p.off, p.wid)
  {
  }

  lemma CarriedObeys(parts: seq<PartVP>, widths: seq<nat>, roots: Wiring, val: Wiring, p: PartVP)
    requires forall q | q in parts ::
      && q.src.Local? && q.src.n < |widths| && q.off + q.wid <= widths[q.src.n]
      && (q.dst.Local? ==> q.dst.n < q.src.n && q.wid == widths[q.dst.n])
    requires Unshared(parts) && p in parts
    requires forall k | 0 <= k < |widths| :: |roots(Local(k))| == widths[k]
    requires val(p.src) == Carried(parts, widths, roots, p.src) && val(p.dst) == Carried(parts, widths, roots, p.dst)
    ensures Obeys(val, p)
  {
    CarriedWidth(parts, widths, roots, p.src.n);
    CarriedThrough(parts, widths, roots, p);
  }

  /** If the target names no signal twice, then for every value some wiring obeys all the part
      selects and gives the target's net that value; so what holds under all such wirings is
      never said of none. */
  lemma TakesAnyValue(o: Operand, parts: seq<PartVP>, widths: seq<nat>, base: nat, from: nat, leaves: seq<LExpr>,
                      v: Vec) returns (val: Wiring)
    requires Wired(parts, widths) && Hands(o, parts, widths, base, from, leaves) && |v| == o.width
    requires forall sig :: LeafTimes(leaves, sig) <= 1
    ensures ObeysAll(val, parts[base..]) && val(o.net) == v
  {
    var own := parts[base..];
    HandsUnshared(o, parts, widths, base, from, leaves);
    assert forall p | p in own :: p in parts;
    var roots: Wiring := x =>
      if x == o.net then v else if x.Local? && x.n < |widths| then Fill(V0, widths[x.n]) else [];
    val := x => Carried(own, widths, roots, x);
    forall p | p in own ensures Obeys(val, p) { CarriedObeys(own, widths, roots, val, p); }
  }
}
