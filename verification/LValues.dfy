/** Concatenations as assignment targets. Procedural assignment builds a linked list of
    l-values, least significant first; continuous assignment slices a temporary net at
    offsets counted down from its width. */
module LValues {
  import opened Vectors
  import opened Selects
  import opened SelectWrites

  /** What elaborating an operand that is an identifier comes to. */
  datatype Status = Good | Bad | Unpacked

  datatype LExpr =
    | Ident(sig: nat, range: Range, status: Status)
    | Missing
    | Concat(repeated: bool, parms: seq<LExpr>)

  // ----- the leaves that take a slice -----

  /** Operands that elaborate to something packed, least significant first. */
  function Leaves(e: LExpr): seq<LExpr>
    decreases e
  {
    match e
    case Ident(_, _, status) => if status.Good? then [e] else []
    case Missing => []
    case Concat(repeated, parms) => if repeated then [] else LeavesOf(parms)
  }

  function LeavesOf(parms: seq<LExpr>): seq<LExpr>
    decreases parms
  {
    if parms == [] then [] else Leaves(parms[|parms| - 1]) + LeavesOf(parms[..|parms| - 1])
  }

  lemma LeavesAreIdents(e: LExpr)
    ensures forall l | l in Leaves(e) :: l.Ident?
    decreases e
  {
    if e.Concat? { LeavesOfAreIdents(e.parms); }
  }

  lemma LeavesOfAreIdents(parms: seq<LExpr>)
    ensures forall l | l in LeavesOf(parms) :: l.Ident?
    decreases parms
  {
    if parms != [] {
      LeavesAreIdents(parms[|parms| - 1]);
      LeavesOfAreIdents(parms[..|parms| - 1]);
    }
  }

  // ----- procedural: the linked list -----

  /** The errors counted for a procedural target. */
  function LvalErrors(e: LExpr): nat
    decreases e
  {
    match e
    case Ident(_, _, status) => if status.Bad? then 1 else 0
    case Missing => 1
    case Concat(repeated, parms) => if repeated then 1 else LvalErrorsOf(parms)
  }

  function LvalErrorsOf(parms: seq<LExpr>): nat
    decreases parms
  {
    if parms == [] then 0
    else
      var last := parms[|parms| - 1];
      LvalErrorsOf(parms[..|parms| - 1]) + LvalErrors(last) + if last.Ident? && last.status.Unpacked? then 1 else 0
  }

  /** `nodes` are linked in order from `head` on. */
  ghost predicate Linked(head: NetAssign?, nodes: seq<NetAssign>)
    reads nodes
  {
    && (if nodes == [] then head == null else head == nodes[0] && nodes[|nodes| - 1].more == null)
    && (forall i | 0 <= i < |nodes| - 1 :: nodes[i].more == nodes[i + 1])
    && (forall i, j | 0 <= i < j < |nodes| :: nodes[i] != nodes[j])
  }

  /** Each l-value assigns the whole of its leaf. */
  ghost predicate Assigns(nodes: seq<NetAssign>, leaves: seq<LExpr>)
    reads nodes
  {
    && |nodes| == |leaves|
    && forall i | 0 <= i < |nodes| ::
         leaves[i].Ident? && nodes[i].sig == leaves[i].sig && nodes[i].range == leaves[i].range
           && nodes[i].part == WholeVar
  }

  /** An identifier alone is not asked whether it is packed. */
  function LvalLeaves(e: LExpr): seq<LExpr> {
    if e.Ident? && e.status.Unpacked? then [e] else Leaves(e)
  }

  /** Links the l-values so far to the most significant of the new ones. */
  method LinkAfter(tmp: NetAssign, ghost tmpNodes: seq<NetAssign>, ghost top: NetAssign, res: NetAssign?,
                   ghost nodes: seq<NetAssign>, ghost leaves: seq<LExpr>)
    requires Linked(tmp, tmpNodes) && Linked(res, nodes) && Assigns(tmpNodes, leaves)
    requires forall n | n in nodes :: n !in tmpNodes
    requires tmpNodes != [] && top == tmpNodes[|tmpNodes| - 1]
    modifies top`more
    ensures Linked(tmp, tmpNodes + nodes) && Assigns(tmpNodes, leaves)
  {
    var last: NetAssign := tmp;
    ghost var i := 0;
    while last.more != null
      invariant 0 <= i < |tmpNodes| && last == tmpNodes[i]
      invariant i == |tmpNodes| - 1 || last.more == tmpNodes[i + 1]
      decreases |tmpNodes| - i
    {
      last := last.more;
      i := i + 1;
    }
    assert i == |tmpNodes| - 1;
    ghost var all := tmpNodes + nodes;
    assert forall j | 0 <= j < |nodes| :: all[|tmpNodes| + j] == nodes[j] && nodes[j] in nodes;
    assert forall j | 0 <= j < |tmpNodes| :: all[j] == tmpNodes[j] && tmpNodes[j] in tmpNodes;
    last.more := res;
  }

  method ElaborateLval(e: LExpr) returns (res: NetAssign?, errors: nat, ghost nodes: seq<NetAssign>)
    ensures Linked(res, nodes) && forall n | n in nodes :: fresh(n)
    ensures Assigns(nodes, LvalLeaves(e))
    ensures res != null ==> (res.packed <==> !(e.Ident? && e.status.Unpacked?))
    ensures errors == LvalErrors(e)
    decreases e, 1
  {
    match e {
      case Ident(sig, range, status) =>
        if status.Bad? { return null, 1, []; }
        res := new NetAssign(sig, range, status.Good?);
        errors, nodes := 0, [res];
      case Missing =>
        res, errors, nodes := null, 1, [];
      case Concat(_, _) =>
        res, errors, nodes := ElaborateConcat(e);
    }
  }

  /** `PEConcat::elaborate_lval`: operands that fail or are not packed are skipped. */
  method ElaborateConcat(e: LExpr) returns (res: NetAssign?, errors: nat, ghost nodes: seq<NetAssign>)
    requires e.Concat?
    ensures Linked(res, nodes) && forall n | n in nodes :: fresh(n)
    ensures Assigns(nodes, Leaves(e)) && (res != null ==> res.packed)
    ensures errors == LvalErrors(e)
    decreases e, 0
  {
    res, errors, nodes := null, 0, [];
    if e.repeated { return null, 1, []; }
    var idx := 0;
    while idx < |e.parms|
      invariant 0 <= idx <= |e.parms|
      invariant Linked(res, nodes) && forall n | n in nodes :: fresh(n)
      invariant Assigns(nodes, LeavesOf(e.parms[..idx])) && (res != null ==> res.packed)
      invariant errors == LvalErrorsOf(e.parms[..idx])
    {
      assert e.parms[..idx + 1][..idx] == e.parms[..idx];
      var added;
      ghost var front;
      res, added, front := AddOperand(e.parms[idx], res, nodes);
      nodes := front + nodes;
      errors := errors + added;
      idx := idx + 1;
    }
    assert e.parms[..idx] == e.parms;
  }

  /** One more operand, less significant than all before. */
  method AddOperand(parm: LExpr, res: NetAssign?, ghost nodes: seq<NetAssign>)
    returns (res': NetAssign?, errors: nat, ghost front: seq<NetAssign>)
    requires Linked(res, nodes) && (res != null ==> res.packed)
    ensures Linked(res', front + nodes) && forall n | n in front :: fresh(n)
    ensures Assigns(front, Leaves(parm))
    ensures res' != null ==> res'.packed
    ensures errors == LvalErrors(parm) + if parm.Ident? && parm.status.Unpacked? then 1 else 0
    decreases parm, 2
  {
    front := [];
    assert front + nodes == nodes;
    if parm.Missing? { return res, 1, front; }
    var tmp;
    ghost var tmpNodes;
    tmp, errors, tmpNodes := ElaborateLval(parm);
    if tmp == null { return res, errors, front; }
    if !tmp.packed { return res, errors + 1, front; }
    assert forall n | n in nodes :: n !in tmpNodes;
    assert tmpNodes[|tmpNodes| - 1] in tmpNodes;
    LinkAfter(tmp, tmpNodes, tmpNodes[|tmpNodes| - 1], res, nodes, LvalLeaves(parm));
    res', front := tmp, tmpNodes;
  }

  // ----- what each leaf is assigned -----

  function LeafWidth(l: LExpr): nat {
    if l.Ident? then Width(l.range) else 0
  }

  function TotalWidth(leaves: seq<LExpr>): nat {
    if leaves == [] then 0 else LeafWidth(leaves[0]) + TotalWidth(leaves[1..])
  }

  /** The values of the leaves one after the other, least significant first. */
  function Joined(vals: seq<Vec>): Vec {
    if vals == [] then [] else vals[0] + Joined(vals[1..])
  }

  /** `vals` cuts `v` into slices of the widths of the leaves: read back in order, they
      rebuild it. */
  ghost predicate Cuts(v: Vec, leaves: seq<LExpr>, vals: seq<Vec>) {
    && |vals| == |leaves| && (forall k | 0 <= k < |vals| :: |vals[k]| == LeafWidth(leaves[k]))
    && Joined(vals) == v
  }

  /** There is only one way to cut: leaf `k` has the bits above those of the leaves before. */
  lemma {:induction false} CutIsSlice(v: Vec, leaves: seq<LExpr>, vals: seq<Vec>, k: nat)
    requires Cuts(v, leaves, vals) && k < |leaves|
    ensures var off := TotalWidth(leaves[..k]);
      |v| == TotalWidth(leaves) && off + LeafWidth(leaves[k]) <= |v| && vals[k] == v[off..off + LeafWidth(leaves[k])]
  {
    CutWidth(v, leaves, vals);
    var w := |vals[0]|;
    assert v[w..] == Joined(vals[1..]);
    if k > 0 {
      CutIsSlice(v[w..], leaves[1..], vals[1..], k - 1);
      assert leaves[..k][1..] == leaves[1..][..k - 1];
    }
  }

  lemma {:induction false} CutWidth(v: Vec, leaves: seq<LExpr>, vals: seq<Vec>)
    requires Cuts(v, leaves, vals)
    ensures |v| == TotalWidth(leaves)
    decreases |leaves|
  {
    if leaves != [] { CutWidth(Joined(vals[1..]), leaves[1..], vals[1..]); }
  }

  lemma {:induction false} TotalWidthOfSum(a: seq<LExpr>, b: seq<LExpr>)
    ensures TotalWidth(a + b) == TotalWidth(a) + TotalWidth(b)
  {
    if a == [] { assert a + b == b; } else {
      assert (a + b)[1..] == a[1..] + b;
      TotalWidthOfSum(a[1..], b);
    }
  }

  lemma {:induction false} JoinedOfSum(a: seq<Vec>, b: seq<Vec>)
    ensures Joined(a + b) == Joined(a) + Joined(b)
  {
    if a == [] { assert a + b == b; } else {
      assert (a + b)[1..] == a[1..] + b;
      JoinedOfSum(a[1..], b);
    }
  }

  /** `count_lval_width`. */
  method CountLvalWidth(head: NetAssign?, ghost nodes: seq<NetAssign>, ghost leaves: seq<LExpr>) returns (wid: nat)
    requires Linked(head, nodes) && Assigns(nodes, leaves)
    ensures wid == TotalWidth(leaves)
  {
    var cur: NetAssign? := head;
    ghost var i := 0;
    wid := 0;
    while cur != null
      invariant 0 <= i <= |nodes| && cur == (if i < |nodes| then nodes[i] else null)
      invariant wid == TotalWidth(leaves[..i])
      decreases |nodes| - i
    {
      assert leaves[..i + 1] == leaves[..i] + [leaves[i]];
      TotalWidthOfSum(leaves[..i], [leaves[i]]);
      wid := wid + cur.LWidth();
      cur := cur.more;
      i := i + 1;
    }
    assert leaves[..i] == leaves;
  }

  /** The walk of `synth_async`: each l-value is given the next bits of the r-value. */
  method AssignParts(head: NetAssign?, rval: Vec, ghost nodes: seq<NetAssign>, ghost leaves: seq<LExpr>)
    returns (vals: seq<Vec>)
    requires Linked(head, nodes) && Assigns(nodes, leaves) && |rval| == TotalWidth(leaves)
    ensures Cuts(rval, leaves, vals)
  {
    var cur: NetAssign? := head;
    var offset: nat := 0;
    vals := [];
    while cur != null
      invariant offset <= |rval| && |vals| <= |nodes| && cur == (if |vals| < |nodes| then nodes[|vals|] else null)
      invariant offset + TotalWidth(leaves[|vals|..]) == |rval|
      invariant Cuts(rval[..offset], leaves[..|vals|], vals)
      decreases |nodes| - |vals|
    {
      ghost var i := |vals|;
      assert leaves[i..][0] == leaves[i] && leaves[i..][1..] == leaves[i + 1..];
      var width := cur.LWidth();
      var part := rval[offset..offset + width];
      JoinedOfSum(vals, [part]);
      assert rval[..offset] + part == rval[..offset + width];
      assert Joined([part]) == part;
      vals := vals + [part];
      cur := cur.more;
      offset := offset + width;
    }
    assert leaves[..|vals|] == leaves;
    assert rval[..offset] == rval;
  }
}
