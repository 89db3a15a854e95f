/** Concatenations as continuous targets: a temporary net for each concatenation, and part
    selects from it to the operands, at offsets counted down from its width. */
module LNets {
  import opened Vectors
  import opened Selects
  import opened LValues

  datatype NetRef = Signal(sig: nat) | Local(n: nat)

  /** A part select from `src` that drives all of `dst`. */
  datatype PartVP = PartVP(src: NetRef, off: nat, wid: nat, dst: NetRef)

  type Wiring = NetRef -> Vec

  /** An operand: the net it is driven through, and its width. */
  datatype Operand = Operand(net: NetRef, width: nat)

  ghost predicate Obeys(val: Wiring, p: PartVP) {
    p.off + p.wid <= |val(p.src)| && val(p.dst) == val(p.src)[p.off..p.off + p.wid]
  }

  ghost predicate ObeysAll(val: Wiring, parts: seq<PartVP>) {
    forall p | p in parts :: Obeys(val, p)
  }

  function LeafValues(val: Wiring, leaves: seq<LExpr>): seq<Vec> {
    seq(|leaves|, k requires 0 <= k < |leaves| => if leaves[k].Ident? then val(Signal(leaves[k].sig)) else [])
  }

  /** The errors counted for a continuous target: an operand without a net counts once more. */
  function LnetErrors(e: LExpr): nat
    decreases e, 0
  {
    match e
    case Ident(_, _, status) => if status.Bad? then 1 else 0
    case Missing => 1
    case Concat(repeated, parms) => if repeated then 1 else LnetErrorsOf(parms)
  }

  function LnetErrorsOf(parms: seq<LExpr>): nat
    decreases parms, 0
  {
    if parms == [] then 0
    else
      LnetErrorsOf(parms[..|parms| - 1]) + OperandErrors(parms[|parms| - 1])
  }

  function OperandErrors(e: LExpr): nat
    decreases e, 1
  {
    if e.Missing? then 1
    else LnetErrors(e) + if LnetErrors(e) > 0 || (e.Ident? && e.status.Unpacked?) then 1 else 0
  }

  /** Both kinds of target are refused for the same trees. */
  lemma {:induction false} SameTreesFail(e: LExpr)
    ensures LnetErrors(e) == 0 <==> LvalErrors(e) == 0
    decreases e
  {
    if e.Concat? { SameListsFail(e.parms); }
  }

  lemma {:induction false} SameListsFail(parms: seq<LExpr>)
    ensures LnetErrorsOf(parms) == 0 <==> LvalErrorsOf(parms) == 0
    decreases parms
  {
    if parms != [] {
      SameListsFail(parms[..|parms| - 1]);
      SameTreesFail(parms[|parms| - 1]);
    }
  }

  /** Each part select lies within its temporary net, and drives all of an earlier one or a
      signal; and no temporary net is driven twice. */
  ghost predicate Wired(parts: seq<PartVP>, widths: seq<nat>) {
    && (forall p | p in parts ::
          && p.src.Local? && p.src.n < |widths| && p.off + p.wid <= widths[p.src.n]
          && (p.dst.Local? ==> p.dst.n < p.src.n && p.wid == widths[p.dst.n]))
    && forall i, j | 0 <= i < j < |parts| && parts[i].dst.Local? :: parts[i].dst != parts[j].dst
  }

  /** A net of this width that nothing drives yet; a temporary one is not older than `from`. */
  ghost predicate Free(parts: seq<PartVP>, widths: seq<nat>, from: nat, net: NetRef, width: nat) {
    net.Local? ==>
      from <= net.n < |widths| && widths[net.n] == width && forall p | p in parts :: p.dst != net
  }

  /** The temporary nets that these part selects drive are not older than `from`. */
  ghost predicate DrivesFrom(parts: seq<PartVP>, from: nat) {
    forall p | p in parts && p.dst.Local? :: from <= p.dst.n
  }

  function Once(net: NetRef, sig: nat): nat {
    if net == Signal(sig) then 1 else 0
  }

  /** How often `sig` is driven by these part selects, is one of these operands, and is one of
      these leaves. */
  function DrivenTimes(parts: seq<PartVP>, sig: nat): nat {
    if parts == [] then 0 else Once(parts[0].dst, sig) + DrivenTimes(parts[1..], sig)
  }

  function NetTimes(nets: seq<Operand>, sig: nat): nat {
    if nets == [] then 0 else Once(nets[0].net, sig) + NetTimes(nets[1..], sig)
  }

  function LeafTimes(leaves: seq<LExpr>, sig: nat): nat {
    if leaves == [] then 0
    else (if leaves[0].Ident? && leaves[0].sig == sig then 1 else 0) + LeafTimes(leaves[1..], sig)
  }

  lemma {:induction false} DrivenTimesOfSum(a: seq<PartVP>, b: seq<PartVP>, sig: nat)
    ensures DrivenTimes(a + b, sig) == DrivenTimes(a, sig) + DrivenTimes(b, sig)
  {
    if a == [] { assert a + b == b; } else {
      assert (a + b)[1..] == a[1..] + b;
      DrivenTimesOfSum(a[1..], b, sig);
    }
  }

  lemma {:induction false} NetTimesOfSum(a: seq<Operand>, b: seq<Operand>, sig: nat)
    ensures NetTimes(a + b, sig) == NetTimes(a, sig) + NetTimes(b, sig)
  {
    if a == [] { assert a + b == b; } else {
      assert (a + b)[1..] == a[1..] + b;
      NetTimesOfSum(a[1..], b, sig);
    }
  }

  lemma {:induction false} LeafTimesOfSum(a: seq<LExpr>, b: seq<LExpr>, sig: nat)
    ensures LeafTimes(a + b, sig) == LeafTimes(a, sig) + LeafTimes(b, sig)
  {
    if a == [] { assert a + b == b; } else {
      assert (a + b)[1..] == a[1..] + b;
      LeafTimesOfSum(a[1..], b, sig);
    }
  }

  /** The part selects drive, and the nets are, each signal once for each time the leaves name it. */
  ghost predicate InAll(parts: seq<PartVP>, nets: seq<Operand>, leaves: seq<LExpr>) {
    forall sig :: DrivenTimes(parts, sig) + NetTimes(nets, sig) == LeafTimes(leaves, sig)
  }

  class Design {
    var errors: nat
    var widths: seq<nat>
    var parts: seq<PartVP>

    ghost predicate Valid()
      reads this
    {
      Wired(parts, widths)
    }

    constructor ()
      ensures Valid() && errors == 0 && widths == [] && parts == []
    {
      errors, widths, parts := 0, [], [];
    }
  }

  /** `net` hands each leaf of `e` its slice, by way of `parts`. */
  ghost predicate Feeds(net: NetRef, width: nat, parts: seq<PartVP>, leaves: seq<LExpr>) {
    && width == TotalWidth(leaves)
    && forall val: Wiring | ObeysAll(val, parts) && |val(net)| == width ::
          Cuts(val(net), leaves, LeafValues(val, leaves))
  }

  /** `o` hands each leaf its slice by the part selects from `base` on, which drive each signal
      of the leaves once for each time it is named, unless `o` is that signal; nothing drives `o`. */
  ghost predicate Hands(o: Operand, parts: seq<PartVP>, widths: seq<nat>, base: nat, from: nat, leaves: seq<LExpr>) {
    && base <= |parts| && Feeds(o.net, o.width, parts[base..], leaves)
    && Free(parts, widths, from, o.net, o.width)
    && InAll(parts[base..], [o], leaves)
  }

  lemma IdentHands(e: LExpr, parts: seq<PartVP>, widths: seq<nat>)
    requires e.Ident? && e.status.Good?
    ensures Hands(Operand(Signal(e.sig), Width(e.range)), parts, widths, |parts|, |widths|, Leaves(e))
  {
    IdentFeeds(e);
    assert parts[|parts|..] == [];
    assert [e][1..] == [];
    assert [Operand(Signal(e.sig), Width(e.range))][1..] == [];
  }

  method ElaborateLnet(des: Design, e: LExpr) returns (ok: bool, net: NetRef, width: nat)
    requires des.Valid()
    modifies des
    ensures des.Valid()
    ensures des.errors == old(des.errors) + LnetErrors(e)
    ensures old(des.parts) <= des.parts && old(des.widths) <= des.widths
    ensures ok <==> LnetErrors(e) == 0
    ensures DrivesFrom(des.parts[|old(des.parts)|..], |old(des.widths)|)
    ensures ok && !(e.Ident? && e.status.Unpacked?) ==>
      Hands(Operand(net, width), des.parts, des.widths, |old(des.parts)|, |old(des.widths)|, Leaves(e))
    decreases e, 2
  {
    match e {
      case Ident(sig, range, status) =>
        ok, net, width := !status.Bad?, Signal(sig), Width(range);
        if status.Bad? { des.errors := des.errors + 1; }
        if status.Good? { IdentHands(e, des.parts, des.widths); }
      case Missing =>
        ok, net, width := false, Local(0), 0;
        des.errors := des.errors + 1;
      case Concat(_, _) =>
        ok, net, width := ElaborateConcat(des, e);
    }
  }

  lemma IdentFeeds(e: LExpr)
    requires e.Ident? && e.status.Good?
    ensures Feeds(Signal(e.sig), Width(e.range), [], Leaves(e))
  {
    assert TotalWidth([e]) == LeafWidth(e) + TotalWidth([]);
    forall val: Wiring | |val(Signal(e.sig))| == Width(e.range)
      ensures Cuts(val(Signal(e.sig)), [e], LeafValues(val, [e]))
    {
      assert LeafValues(val, [e]) == [val(Signal(e.sig))];
      assert Joined([val(Signal(e.sig))]) == val(Signal(e.sig)) + Joined([]);
    }
  }

  lemma FeedsMore(net: NetRef, width: nat, parts: seq<PartVP>, more: seq<PartVP>, leaves: seq<LExpr>)
    requires Feeds(net, width, parts, leaves) && forall p | p in parts :: p in more
    ensures Feeds(net, width, more, leaves)
  {
    forall val: Wiring | ObeysAll(val, more) && |val(net)| == width
      ensures Cuts(val(net), leaves, LeafValues(val, leaves))
    {
      assert ObeysAll(val, parts);
    }
  }

  /** Each operand net feeds the leaves of its operand. */
  ghost predicate AllFeed(nets: seq<Operand>, parts: seq<PartVP>, parms: seq<LExpr>) {
    |nets| == |parms| && forall k | 0 <= k < |nets| :: Feeds(nets[k].net, nets[k].width, parts, Leaves(parms[k]))
  }

  lemma AllFeedMore(nets: seq<Operand>, parts: seq<PartVP>, more: seq<PartVP>, parms: seq<LExpr>)
    requires AllFeed(nets, parts, parms) && forall p | p in parts :: p in more
    ensures AllFeed(nets, more, parms)
  {
    forall k | 0 <= k < |nets| ensures Feeds(nets[k].net, nets[k].width, more, Leaves(parms[k])) {
      FeedsMore(nets[k].net, nets[k].width, parts, more, Leaves(parms[k]));
    }
  }

  lemma AllFeedAppend(nets: seq<Operand>, parts: seq<PartVP>, more: seq<PartVP>, parms: seq<LExpr>, o: Operand,
                      e: LExpr)
    requires AllFeed(nets, parts, parms) && forall p | p in parts :: p in more
    requires Feeds(o.net, o.width, more, Leaves(e))
    ensures AllFeed(nets + [o], more, parms + [e])
  {
    AllFeedMore(nets, parts, more, parms);
  }

  /** No operand net is driven, and no temporary one stands for two operands. */
  ghost predicate AllFree(nets: seq<Operand>, parts: seq<PartVP>, widths: seq<nat>, from: nat) {
    && (forall k | 0 <= k < |nets| :: Free(parts, widths, from, nets[k].net, nets[k].width))
    && forall k, l | 0 <= k < l < |nets| && nets[k].net.Local? :: nets[k].net != nets[l].net
  }

  /** The next operand's part selects and net are new. */
  lemma AllFreeAppend(nets: seq<Operand>, parts: seq<PartVP>, widths: seq<nat>, parts': seq<PartVP>,
                      widths': seq<nat>, from: nat, o: Operand)
    requires AllFree(nets, parts, widths, from) && parts <= parts' && widths <= widths' && from <= |widths|
    requires DrivesFrom(parts'[|parts|..], |widths|) && Free(parts', widths', |widths|, o.net, o.width)
    ensures AllFree(nets + [o], parts', widths', from)
  {
    forall k | 0 <= k < |nets| ensures Free(parts', widths', from, nets[k].net, nets[k].width) {
      assert Free(parts, widths, from, nets[k].net, nets[k].width);
      forall p | p in parts' && nets[k].net.Local? ensures p.dst != nets[k].net {
        if p !in parts { assert p in parts'[|parts|..]; }
      }
    }
  }

  lemma DrivesFromMore(parts: seq<PartVP>, parts': seq<PartVP>, base: nat, from: nat, next: nat)
    requires base <= |parts| && parts <= parts' && from <= next
    requires DrivesFrom(parts[base..], from) && DrivesFrom(parts'[|parts|..], next)
    ensures DrivesFrom(parts'[base..], from)
  {
    assert parts'[base..] == parts[base..] + parts'[|parts|..];
  }

  lemma InAllAppend(parts: seq<PartVP>, parts': seq<PartVP>, base: nat, nets: seq<Operand>, o: Operand,
                    leaves: seq<LExpr>, added: seq<LExpr>)
    requires base <= |parts| && parts <= parts'
    requires InAll(parts[base..], nets, leaves) && InAll(parts'[|parts|..], [o], added)
    ensures InAll(parts'[base..], nets + [o], added + leaves)
  {
    assert parts'[base..] == parts[base..] + parts'[|parts|..];
    forall sig
      ensures DrivenTimes(parts'[base..], sig) + NetTimes(nets + [o], sig) == LeafTimes(added + leaves, sig)
    {
      DrivenTimesOfSum(parts[base..], parts'[|parts|..], sig);
      NetTimesOfSum(nets, [o], sig);
      LeafTimesOfSum(added, leaves, sig);
    }
  }

  /** Each operand hands out its own slices, apart from those of the others. */
  ghost predicate AllHand(nets: seq<Operand>, parts: seq<PartVP>, widths: seq<nat>, base: nat, from: nat,
                          parms: seq<LExpr>) {
    && base <= |parts| && AllFeed(nets, parts[base..], parms) && AllFree(nets, parts, widths, from)
    && InAll(parts[base..], nets, LeavesOf(parms))
  }

  lemma AllHandAppend(nets: seq<Operand>, parts: seq<PartVP>, widths: seq<nat>, parts': seq<PartVP>, widths': seq<nat>,
                      base: nat, from: nat, o: Operand, parms: seq<LExpr>, e: LExpr)
    requires AllHand(nets, parts, widths, base, from, parms) && from <= |widths|
    requires parts <= parts' && widths <= widths' && DrivesFrom(parts'[|parts|..], |widths|)
    requires Hands(o, parts', widths', |parts|, |widths|, Leaves(e))
    ensures AllHand(nets + [o], parts', widths', base, from, parms + [e])
    ensures TotalWidth(LeavesOf(parms + [e])) == TotalWidth(LeavesOf(parms)) + o.width
  {
    assert (parms + [e])[..|parms|] == parms;
    assert LeavesOf(parms + [e]) == Leaves(e) + LeavesOf(parms);
    assert parts'[base..] == parts[base..] + parts'[|parts|..];
    FeedsMore(o.net, o.width, parts'[|parts|..], parts'[base..], Leaves(e));
    AllFeedAppend(nets, parts[base..], parts'[base..], parms, o, e);
    AllFreeAppend(nets, parts, widths, parts', widths', from, o);
    InAllAppend(parts, parts', base, nets, o, LeavesOf(parms), Leaves(e));
    TotalWidthOfSum(Leaves(e), LeavesOf(parms));
  }

  /** One operand; it fails if it is missing, has no net, or is not packed. */
  method ElaborateOperand(des: Design, parm: LExpr) returns (ok: bool, net: NetRef, width: nat)
    requires des.Valid()
    modifies des
    ensures des.Valid()
    ensures ok <==> OperandErrors(parm) == 0
    ensures des.errors + (if ok then 0 else 1) == old(des.errors) + OperandErrors(parm)
    ensures old(des.parts) <= des.parts && old(des.widths) <= des.widths
    ensures DrivesFrom(des.parts[|old(des.parts)|..], |old(des.widths)|)
    ensures ok ==>
      Hands(Operand(net, width), des.parts, des.widths, |old(des.parts)|, |old(des.widths)|, Leaves(parm))
    decreases parm, 3
  {
    if parm.Missing? { return false, Local(0), 0; }
    ok, net, width := ElaborateLnet(des, parm);
    if parm.Ident? && parm.status.Unpacked? { ok := false; }
  }

  /** The operands, most significant first, and the sum of their widths. */
  method ElaborateOperands(des: Design, e: LExpr) returns (errors: nat, nets: seq<Operand>, width: nat)
    requires e.Concat? && des.Valid()
    modifies des
    ensures des.Valid()
    ensures des.errors + errors == old(des.errors) + LnetErrorsOf(e.parms)
    ensures old(des.parts) <= des.parts && old(des.widths) <= des.widths
    ensures errors == 0 <==> LnetErrorsOf(e.parms) == 0
    ensures DrivesFrom(des.parts[|old(des.parts)|..], |old(des.widths)|)
    ensures errors == 0 ==>
      && width == TotalWidth(LeavesOf(e.parms))
      && AllHand(nets, des.parts, des.widths, |old(des.parts)|, |old(des.widths)|, e.parms)
    decreases e, 0
  {
    errors, nets, width := 0, [], 0;
    var idx := 0;
    while idx < |e.parms|
      invariant 0 <= idx <= |e.parms|
      invariant des.errors + errors == old(des.errors) + LnetErrorsOf(e.parms[..idx])
      invariant des.Valid() && old(des.parts) <= des.parts && old(des.widths) <= des.widths
      invariant errors == 0 <==> LnetErrorsOf(e.parms[..idx]) == 0
      invariant errors == 0 ==> width == TotalWidth(LeavesOf(e.parms[..idx]))
      invariant DrivesFrom(des.parts[|old(des.parts)|..], |old(des.widths)|)
      invariant errors == 0 ==>
        AllHand(nets, des.parts, des.widths, |old(des.parts)|, |old(des.widths)|, e.parms[..idx])
    {
      var parm := e.parms[idx];
      assert e.parms[..idx + 1] == e.parms[..idx] + [parm] && e.parms[..idx + 1][..idx] == e.parms[..idx];
      ghost var before, widths := des.parts, des.widths;
      var ok, net, wid := ElaborateOperand(des, parm);
      DrivesFromMore(before, des.parts, |old(des.parts)|, |old(des.widths)|, |widths|);
      if ok {
        if errors == 0 {
          AllHandAppend(nets, before, widths, des.parts, des.widths, |old(des.parts)|, |old(des.widths)|,
                        Operand(net, wid), e.parms[..idx], parm);
        }
        nets, width := nets + [Operand(net, wid)], width + wid;
      } else {
        errors := errors + 1;
      }
      idx := idx + 1;
    }
    assert e.parms[..idx] == e.parms;
  }

  method ElaborateConcat(des: Design, e: LExpr) returns (ok: bool, net: NetRef, width: nat)
    requires e.Concat? && des.Valid()
    modifies des
    ensures des.Valid()
    ensures des.errors == old(des.errors) + LnetErrors(e)
    ensures old(des.parts) <= des.parts && old(des.widths) <= des.widths
    ensures ok <==> LnetErrors(e) == 0
    ensures DrivesFrom(des.parts[|old(des.parts)|..], |old(des.widths)|)
    ensures ok ==>
      Hands(Operand(net, width), des.parts, des.widths, |old(des.parts)|, |old(des.widths)|, Leaves(e))
    decreases e, 1
  {
    net, width := Local(0), 0;
    if e.repeated {
      des.errors := des.errors + 1;
      return false, net, width;
    }
    var errors, nets;
    errors, nets, width := ElaborateOperands(des, e);
    if errors > 0 {
      des.errors := des.errors + errors;
      return false, net, width;
    }
    ghost var widths := des.widths;
    net := Local(|des.widths|);
    des.widths := des.widths + [width];
    WidthsGrow(nets, des.parts, widths, |old(des.widths)|, width);
    Slice(des, net, width, nets, e.parms, |old(des.parts)|, |old(des.widths)|);
    ok := true;
  }

  lemma WidthsGrow(nets: seq<Operand>, parts: seq<PartVP>, widths: seq<nat>, from: nat, width: nat)
    requires Wired(parts, widths) && AllFree(nets, parts, widths, from)
    ensures Wired(parts, widths + [width]) && AllFree(nets, parts, widths + [width], from)
    ensures forall k | 0 <= k < |nets| && nets[k].net.Local? :: nets[k].net.n < |widths|
    ensures forall p | p in parts :: p.dst != Local(|widths|)
  {
    forall k | 0 <= k < |nets| ensures Free(parts, widths + [width], from, nets[k].net, nets[k].width) {
      assert Free(parts, widths, from, nets[k].net, nets[k].width);
    }
  }

  /** What is left to slice: operands older than `osig`, which nothing drives. */
  ghost predicate Slicing(osig: NetRef, rest: seq<Operand>, parts: seq<PartVP>, widths: seq<nat>, base: nat,
                          from: nat, leaves: seq<LExpr>) {
    && base <= |parts| && osig.Local? && from <= osig.n < |widths|
    && Wired(parts, widths) && AllFree(rest, parts, widths, from) && DrivesFrom(parts[base..], from)
    && (forall k | 0 <= k < |rest| && rest[k].net.Local? :: rest[k].net.n < osig.n)
    && (forall p | p in parts :: p.dst != osig)
    && InAll(parts[base..], rest, leaves)
  }

  lemma SlicingNext(osig: NetRef, rest: seq<Operand>, parts: seq<PartVP>, widths: seq<nat>, base: nat, from: nat,
                    leaves: seq<LExpr>, p: PartVP)
    requires Slicing(osig, rest, parts, widths, base, from, leaves) && rest != []
    requires p.src == osig && p.dst == rest[0].net && p.wid == rest[0].width && p.off + p.wid <= widths[osig.n]
    ensures Slicing(osig, rest[1..], parts + [p], widths, base, from, leaves)
  {
    SlicingWired(osig, rest[0], parts, widths, from, p);
    SlicingTimes(rest, parts, base, leaves, p);
    SlicingFree(rest, parts, widths, from, p);
    SlicingDrives(rest[0], parts, widths, base, from, p);
  }

  lemma SlicingWired(osig: NetRef, o: Operand, parts: seq<PartVP>, widths: seq<nat>, from: nat, p: PartVP)
    requires Wired(parts, widths) && Free(parts, widths, from, o.net, o.width) && osig.Local? && osig.n < |widths|
    requires o.net.Local? ==> o.net.n < osig.n
    requires p.src == osig && p.dst == o.net && p.wid == o.width && p.off + p.wid <= widths[osig.n]
    ensures Wired(parts + [p], widths)
  {
    var parts' := parts + [p];
    forall i, j | 0 <= i < j < |parts'| && parts'[i].dst.Local? ensures parts'[i].dst != parts'[j].dst {
      assert parts'[i] in parts;
    }
  }

  lemma SlicingDrives(o: Operand, parts: seq<PartVP>, widths: seq<nat>, base: nat, from: nat, p: PartVP)
    requires base <= |parts| && DrivesFrom(parts[base..], from) && Free(parts, widths, from, o.net, o.width)
    requires p.dst == o.net
    ensures DrivesFrom((parts + [p])[base..], from)
  {
    assert (parts + [p])[base..] == parts[base..] + [p];
  }

  lemma SlicingTimes(rest: seq<Operand>, parts: seq<PartVP>, base: nat, leaves: seq<LExpr>, p: PartVP)
    requires base <= |parts| && rest != [] && p.dst == rest[0].net && InAll(parts[base..], rest, leaves)
    ensures InAll((parts + [p])[base..], rest[1..], leaves)
  {
    assert (parts + [p])[base..] == parts[base..] + [p];
    assert [p][1..] == [];
    forall sig
      ensures DrivenTimes((parts + [p])[base..], sig) + NetTimes(rest[1..], sig) == LeafTimes(leaves, sig)
    {
      DrivenTimesOfSum(parts[base..], [p], sig);
    }
  }

  lemma SlicingFree(rest: seq<Operand>, parts: seq<PartVP>, widths: seq<nat>, from: nat, p: PartVP)
    requires rest != [] && AllFree(rest, parts, widths, from) && p.dst == rest[0].net
    ensures AllFree(rest[1..], parts + [p], widths, from)
  {
    forall k | 0 <= k < |rest[1..]|
      ensures Free(parts + [p], widths, from, rest[1..][k].net, rest[1..][k].width)
    {
      assert Free(parts, widths, from, rest[k + 1].net, rest[k + 1].width);
      assert p.dst.Local? ==> rest[0].net != rest[k + 1].net;
    }
  }

  /** A part select drives its net. */
  method Emit(des: Design, p: PartVP, ghost base: nat)
    requires base <= |des.parts|
    modifies des`parts
    ensures des.parts == old(des.parts) + [p] && des.parts[base..] == old(des.parts[base..]) + [p]
  {
    des.parts := des.parts + [p];
  }

  /** Part selects for the operands, most significant first, `width` counting down to 0. */
  method Slice(des: Design, osig: NetRef, total: nat, nets: seq<Operand>, ghost parms: seq<LExpr>, ghost base: nat,
               ghost from: nat)
    requires base <= |des.parts| && AllFeed(nets, des.parts[base..], parms) && total == TotalWidth(LeavesOf(parms))
    requires Slicing(osig, nets, des.parts, des.widths, base, from, LeavesOf(parms)) && des.widths[osig.n] == total
    modifies des`parts
    ensures old(des.parts) <= des.parts && Feeds(osig, total, des.parts[base..], LeavesOf(parms))
    ensures Slicing(osig, [], des.parts, des.widths, base, from, LeavesOf(parms))
  {
    ghost var start := des.parts[base..];
    var width: nat, idx := total, 0;
    NoneHandedOut(osig, total, start, parms);
    assert nets[idx..] == nets;
    while idx < |nets|
      invariant 0 <= idx <= |nets| && width <= total && old(des.parts) <= des.parts
      invariant start <= des.parts[base..]
      invariant HandedOut(osig, total, width, des.parts[base..], parms, idx)
      invariant Slicing(osig, nets[idx..], des.parts, des.widths, base, from, LeavesOf(parms))
    {
      StillFeeds(nets, start, des.parts[base..], parms, idx);
      HandOneOut(osig, total, width, nets[idx], des.parts[base..], parms, idx);
      width := width - nets[idx].width;
      ghost var p := PartVP(osig, width, nets[idx].width, nets[idx].net);
      assert nets[idx..][1..] == nets[idx + 1..];
      SlicingNext(osig, nets[idx..], des.parts, des.widths, base, from, LeavesOf(parms), p);
      Emit(des, PartVP(osig, width, nets[idx].width, nets[idx].net), base);
      idx := idx + 1;
    }
    AllHandedOut(osig, total, width, des.parts[base..], parms);
  }

  /** The first `idx` operands have their slices, from `width` up. */
  ghost predicate HandedOut(osig: NetRef, total: nat, width: nat, parts: seq<PartVP>, parms: seq<LExpr>, idx: nat) {
    && idx <= |parms| && width + TotalWidth(LeavesOf(parms[..idx])) == total
    && Done(osig, total, width, parts, LeavesOf(parms[..idx]))
  }

  lemma NoneHandedOut(osig: NetRef, total: nat, parts: seq<PartVP>, parms: seq<LExpr>)
    ensures HandedOut(osig, total, total, parts, parms, 0)
  {
  }

  lemma StillFeeds(nets: seq<Operand>, start: seq<PartVP>, parts: seq<PartVP>, parms: seq<LExpr>, idx: nat)
    requires AllFeed(nets, start, parms) && start <= parts && idx < |nets|
    ensures Feeds(nets[idx].net, nets[idx].width, parts, Leaves(parms[idx]))
  {
    FeedsMore(nets[idx].net, nets[idx].width, start, parts, Leaves(parms[idx]));
  }

  lemma HandOneOut(osig: NetRef, total: nat, width: nat, o: Operand, parts: seq<PartVP>, parms: seq<LExpr>, idx: nat)
    requires idx < |parms| && Feeds(o.net, o.width, parts, Leaves(parms[idx]))
    requires HandedOut(osig, total, width, parts, parms, idx) && total == TotalWidth(LeavesOf(parms))
    ensures o.width <= width
    ensures HandedOut(osig, total, width - o.width, parts + [PartVP(osig, width - o.width, o.width, o.net)],
                      parms, idx + 1)
  {
    SliceOnward(osig, total, width, o, parts, parms, idx);
  }

  lemma AllHandedOut(osig: NetRef, total: nat, width: nat, parts: seq<PartVP>, parms: seq<LExpr>)
    requires HandedOut(osig, total, width, parts, parms, |parms|) && total == TotalWidth(LeavesOf(parms))
    ensures Feeds(osig, total, parts, LeavesOf(parms))
  {
    assert parms[..|parms|] == parms;
    DoneFeeds(osig, total, parts, LeavesOf(parms));
  }

  /** The bits of the temporary net from `width` up are handed out. */
  ghost predicate Done(osig: NetRef, total: nat, width: nat, parts: seq<PartVP>, leaves: seq<LExpr>) {
    width <= total &&
    forall val: Wiring | ObeysAll(val, parts) && |val(osig)| == total ::
        Cuts(val(osig)[width..], leaves, LeafValues(val, leaves))
  }

  lemma DoneFeeds(osig: NetRef, total: nat, parts: seq<PartVP>, leaves: seq<LExpr>)
    requires Done(osig, total, 0, parts, leaves) && total == TotalWidth(leaves)
    ensures Feeds(osig, total, parts, leaves)
  {
    forall val: Wiring | ObeysAll(val, parts) && |val(osig)| == total
      ensures Cuts(val(osig), leaves, LeafValues(val, leaves))
    {
      assert val(osig)[0..] == val(osig);
    }
  }

  lemma LeavesStep(parms: seq<LExpr>, idx: nat)
    requires idx < |parms|
    ensures LeavesOf(parms[..idx + 1]) == Leaves(parms[idx]) + LeavesOf(parms[..idx])
    ensures TotalWidth(LeavesOf(parms[..idx + 1]))
         == TotalWidth(Leaves(parms[idx])) + TotalWidth(LeavesOf(parms[..idx]))
  {
    assert parms[..idx + 1][..idx] == parms[..idx];
    TotalWidthOfSum(Leaves(parms[idx]), LeavesOf(parms[..idx]));
  }

  lemma SliceFits(parms: seq<LExpr>, idx: nat)
    requires idx <= |parms|
    ensures TotalWidth(LeavesOf(parms[..idx])) <= TotalWidth(LeavesOf(parms))
    decreases |parms| - idx
  {
    if idx == |parms| {
      assert parms[..idx] == parms;
    } else {
      LeavesStep(parms, idx);
      SliceFits(parms, idx + 1);
    }
  }

  /** One more operand gets the slice below the ones handed out. */
  lemma SliceOnward(osig: NetRef, total: nat, width: nat, o: Operand, parts: seq<PartVP>, parms: seq<LExpr>, idx: nat)
    requires idx < |parms| && Feeds(o.net, o.width, parts, Leaves(parms[idx]))
    requires total == TotalWidth(LeavesOf(parms)) && width + TotalWidth(LeavesOf(parms[..idx])) == total
    requires Done(osig, total, width, parts, LeavesOf(parms[..idx]))
    ensures o.width <= width && width - o.width + TotalWidth(LeavesOf(parms[..idx + 1])) == total
    ensures Done(osig, total, width - o.width, parts + [PartVP(osig, width - o.width, o.width, o.net)],
                 LeavesOf(parms[..idx + 1]))
  {
    LeavesStep(parms, idx);
    SliceFits(parms, idx + 1);
    SliceStep(osig, total, width, o, parts, Leaves(parms[idx]), LeavesOf(parms[..idx]));
  }

  lemma SliceStep(osig: NetRef, total: nat, width: nat, o: Operand, parts: seq<PartVP>, low: seq<LExpr>,
                  high: seq<LExpr>)
    requires o.width <= width && Done(osig, total, width, parts, high) && Feeds(o.net, o.width, parts, low)
    ensures Done(osig, total, width - o.width, parts + [PartVP(osig, width - o.width, o.width, o.net)], low + high)
  {
    var p := PartVP(osig, width - o.width, o.width, o.net);
    forall val: Wiring | ObeysAll(val, parts + [p]) && |val(osig)| == total
      ensures Cuts(val(osig)[width - o.width..], low + high, LeafValues(val, low + high))
    {
      assert p in parts + [p] && Obeys(val, p);
      assert ObeysAll(val, parts);
      assert val(osig)[width - o.width..] == val(o.net) + val(osig)[width..];
      assert LeafValues(val, low + high) == LeafValues(val, low) + LeafValues(val, high);
      JoinedOfSum(LeafValues(val, low), LeafValues(val, high));
    }
  }

  /** The two splitters agree: whatever value the target takes, each leaf gets from the
      part selects the very slice that the linked list assigns it. */
  lemma SplittersAgree(e: LExpr, net: NetRef, width: nat, parts: seq<PartVP>, val: Wiring, vals: seq<Vec>)
    requires e.Concat? && Feeds(net, width, parts, Leaves(e)) && ObeysAll(val, parts) && |val(net)| == width
    requires Cuts(val(net), LvalLeaves(e), vals)
    ensures forall k | 0 <= k < |Leaves(e)| :: Leaves(e)[k].Ident? && vals[k] == val(Signal(Leaves(e)[k].sig))
  {
    LeavesAreIdents(e);
    var leaves := Leaves(e);
    forall k | 0 <= k < |leaves| ensures leaves[k].Ident? && vals[k] == val(Signal(leaves[k].sig)) {
      assert leaves[k] in leaves;
      CutIsSlice(val(net), leaves, vals, k);
      CutIsSlice(val(net), leaves, LeafValues(val, leaves), k);
    }
  }
}
