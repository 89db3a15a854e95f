/** Parsed expressions as mutable nodes: sizing stores widths and signs in the nodes
    and passes the mode along, elaboration overwrites the signs of operands. Both are
    proved to compute the functions of the tree they are specified by. */
module ExprNodes {
  import opened Vectors
  import opened NetExprs
  import opened Exprs
  import opened Pruning

  /** Below EXPAND mode the amount of a shift does not matter for its size. */
  lemma ShiftTest(cfg: Config, op: ShiftOp, a: Expr, b: Expr, amount: NetExpr, mode: Mode)
    requires var left, wb := Test(cfg, a, SIZED), Test(cfg, b, SIZED).width;
      Rank(if mode == SIZED then left.mode else mode) >= Rank(EXPAND) ==> amount == EvalExpr(Elab(cfg, b, wb, Sign(b)))
    ensures Test(cfg, ShiftExpr(op, a, b), mode)
      == TestShift(cfg, op, Test(cfg, a, SIZED), amount, Test(cfg, b, SIZED).width, Sign(a), Sign(b), mode)
  {
  }

  datatype Kind =
    | NumberKind(bits: Vec, hasLen: bool, hasSign: bool)
    | NetKind(id: nat, width: nat, netSigned: bool, twoState: bool)
    | UnaryKind(uop: UnOp)
    | BinaryKind(bop: BinOp)
    | CompKind(cop: CompOp)
    | ShiftKind(sop: ShiftOp)
    | TernaryKind

  class PExpr {
    const kind: Kind
    const first: PExpr?
    const second: PExpr?
    const third: PExpr?

    var exprWidth: nat
    var minWidth: nat
    var signed: bool
    var operandWidth: nat  // of a comparison

    ghost const Tree: Expr
    ghost const Repr: set<PExpr>

    constructor Leaf(kind: Kind)
      requires kind.NumberKind? || kind.NetKind?
      ensures Valid() && fresh(Repr)
      ensures Tree == if kind.NumberKind? then Number(kind.bits, kind.hasLen, kind.hasSign)
                      else Net(kind.id, kind.width, kind.netSigned, kind.twoState)
    {
      this.kind := kind;
      first, second, third := null, null, null;
      Tree := if kind.NumberKind? then Number(kind.bits, kind.hasLen, kind.hasSign)
              else Net(kind.id, kind.width, kind.netSigned, kind.twoState);
      Repr := {this};
    }

    constructor BinaryNode(op: BinOp, l: PExpr, r: PExpr)
      requires l.Valid() && r.Valid() && l.Repr !! r.Repr
      ensures Valid() && Tree == Binary(op, l.Tree, r.Tree) && fresh(Repr - l.Repr - r.Repr)
    {
      kind, first, second, third := BinaryKind(op), l, r, null;
      Tree := Binary(op, l.Tree, r.Tree);
      Repr := {this} + l.Repr + r.Repr;
    }

    constructor UnaryNode(op: UnOp, a: PExpr)
      requires a.Valid()
      ensures Valid() && Tree == Unary(op, a.Tree) && fresh(Repr - a.Repr)
    {
      kind, first, second, third := UnaryKind(op), a, null, null;
      Tree := Unary(op, a.Tree);
      Repr := {this} + a.Repr;
    }

    constructor CompareNode(op: CompOp, l: PExpr, r: PExpr)
      requires l.Valid() && r.Valid() && l.Repr !! r.Repr
      ensures Valid() && Tree == Comp(op, l.Tree, r.Tree) && fresh(Repr - l.Repr - r.Repr)
    {
      kind, first, second, third := CompKind(op), l, r, null;
      Tree := Comp(op, l.Tree, r.Tree);
      Repr := {this} + l.Repr + r.Repr;
    }

    constructor ShiftedNode(op: ShiftOp, l: PExpr, r: PExpr)
      requires l.Valid() && r.Valid() && l.Repr !! r.Repr
      ensures Valid() && Tree == ShiftExpr(op, l.Tree, r.Tree) && fresh(Repr - l.Repr - r.Repr)
    {
      kind, first, second, third := ShiftKind(op), l, r, null;
      Tree := ShiftExpr(op, l.Tree, r.Tree);
      Repr := {this} + l.Repr + r.Repr;
    }

    constructor ConditionalNode(c: PExpr, a: PExpr, b: PExpr)
      requires c.Valid() && a.Valid() && b.Valid() && c.Repr !! a.Repr !! b.Repr
      ensures Valid() && Tree == Ternary(c.Tree, a.Tree, b.Tree) && fresh(Repr - c.Repr - a.Repr - b.Repr)
    {
      kind, first, second, third := TernaryKind, c, a, b;
      Tree := Ternary(c.Tree, a.Tree, b.Tree);
      Repr := {this} + c.Repr + a.Repr + b.Repr;
    }

    /** Operands are separate trees, and `Tree` is the expression they make. */
    ghost predicate Valid()
      decreases Tree
    {
      match kind
      case NumberKind(b, l, s) => Tree == Number(b, l, s) && Repr == {this}
      case NetKind(i, w, s, two) => Tree == Net(i, w, s, two) && Repr == {this}
      case UnaryKind(op) =>
        && first != null && Tree == Unary(op, first.Tree) && first.Valid()
        && this !in first.Repr && Repr == {this} + first.Repr
      case BinaryKind(op) => Operands(first, second) && Tree == Binary(op, first.Tree, second.Tree)
                             && first.Valid() && second.Valid()
      case CompKind(op) => Operands(first, second) && Tree == Comp(op, first.Tree, second.Tree)
                           && first.Valid() && second.Valid()
      case ShiftKind(op) => Operands(first, second) && Tree == ShiftExpr(op, first.Tree, second.Tree)
                            && first.Valid() && second.Valid()
      case TernaryKind =>
        && first != null && second != null && third != null
        && Tree == Ternary(first.Tree, second.Tree, third.Tree)
        && first.Valid() && second.Valid() && third.Valid()
        && this !in first.Repr + second.Repr + third.Repr
        && first.Repr !! second.Repr !! third.Repr
        && Repr == {this} + first.Repr + second.Repr + third.Repr
    }

    ghost predicate Operands(l: PExpr?, r: PExpr?) {
      && l != null && r != null && this !in l.Repr + r.Repr && l.Repr !! r.Repr
      && Repr == {this} + l.Repr + r.Repr
    }

    /** The stored sizes that elaboration reads. */
    ghost predicate Sized(cfg: Config)
      requires Valid()
      reads Repr
      decreases Tree
    {
      match kind
      case NumberKind(_, _, _) => true
      case NetKind(_, _, _, _) => true
      case UnaryKind(op) => first.Sized(cfg) && (IsReduction(op) ==> first.SelfSized(cfg))
      case BinaryKind(_) => first.Sized(cfg) && second.Sized(cfg)
      case CompKind(_) =>
        && first.Sized(cfg) && second.Sized(cfg)
        && operandWidth == CompWidth(cfg, first.Tree, second.Tree)
        && ((first.signed && second.signed) <==> (Sign(first.Tree) && Sign(second.Tree)))
      case ShiftKind(_) => first.Sized(cfg) && second.Sized(cfg) && second.SelfSized(cfg)
      case TernaryKind => second.Sized(cfg) && third.Sized(cfg)
    }

    ghost predicate SelfSized(cfg: Config)
      reads this
    {
      exprWidth == SelfWidth(cfg, Tree) && signed == Sign(Tree)
    }

    /** The fields hold what sizing in `mode` computes. */
    ghost predicate HasSizes(cfg: Config, mode: Mode)
      reads this
    {
      var t := Test(cfg, Tree, mode);
      exprWidth == t.exprWidth && minWidth == t.minWidth && signed == Sign(Tree)
    }

    method CastSigned(flag: bool, ghost cfg: Config)
      requires Valid() && Sized(cfg)
      modifies this`signed
      ensures signed == flag && Sized(cfg)
    {
      signed := flag;
    }

    method Store(s: Sizing, sign: bool)
      modifies this`exprWidth, this`minWidth, this`signed
      ensures exprWidth == s.exprWidth && minWidth == s.minWidth && signed == sign
    {
      exprWidth, minWidth, signed := s.exprWidth, s.minWidth, sign;
    }

    /** `test_width`. */
    method TestWidth(cfg: Config, mode: Mode) returns (width: nat, newMode: Mode)
      requires Valid()
      modifies Repr
      ensures width == Test(cfg, Tree, mode).width && newMode == Test(cfg, Tree, mode).mode
      ensures HasSizes(cfg, mode) && Sized(cfg)
      decreases Size(Tree), 4
    {
      match kind {
        case NumberKind(bits, hasLen, hasSign) =>
          var t := TestNumber(cfg, bits, hasLen, mode);
          Store(t, hasSign);
          width, newMode := t.width, t.mode;
        case NetKind(_, w, s, _) =>
          Store(Sizing(w, w, w, mode), s);
          width, newMode := w, mode;
        case UnaryKind(op) => width, newMode := TestUnaryNode(cfg, op, mode);
        case BinaryKind(op) => width, newMode := TestBinaryNode(cfg, op, mode);
        case CompKind(_) => width, newMode := TestCompNode(cfg, mode);
        case ShiftKind(op) => width, newMode := TestShiftNode(cfg, op, mode);
        case TernaryKind => width, newMode := TestTernaryNode(cfg, mode);
      }
    }

    /** Reductions size their operand twice: the second time by itself. */
    method TestUnaryNode(cfg: Config, op: UnOp, mode: Mode) returns (width: nat, newMode: Mode)
      requires Valid() && kind == UnaryKind(op)
      modifies Repr
      ensures width == Test(cfg, Tree, mode).width && newMode == Test(cfg, Tree, mode).mode
      ensures HasSizes(cfg, mode) && Sized(cfg)
      decreases Size(Tree), 3
    {
      width, newMode := first.TestWidth(cfg, mode);
      if IsReduction(op) {
        var _, _ := first.TestWidth(cfg, SIZED);
        Store(Sizing(1, 1, 1, newMode), false);
        width := 1;
      } else {
        Store(FixWidth(cfg, width, first.minWidth, newMode), first.signed);
      }
    }

    /** The right operand, then the left, then perhaps the right again. */
    method TestOperands(cfg: Config, l: PExpr, r: PExpr, mode: Mode) returns (p: Pair)
      requires l.Valid() && r.Valid() && l.Repr !! r.Repr && this !in l.Repr + r.Repr
      modifies l.Repr, r.Repr
      ensures p == TestPair(cfg, l.Tree, r.Tree, mode)
      ensures l.Sized(cfg) && r.Sized(cfg)
      ensures l.minWidth == p.a.minWidth && l.signed == Sign(l.Tree)
      ensures r.minWidth == p.b.minWidth && r.signed == Sign(r.Tree)
      decreases Size(l.Tree) + Size(r.Tree), 5
    {
      var rWidth, rMode := r.TestWidth(cfg, mode);
      var lWidth, lMode := l.TestWidth(cfg, rMode);
      var m := lMode;
      if Rank(lMode) >= Rank(LOSSLESS) && Rank(rMode) < Rank(LOSSLESS) {
        rWidth, rMode := r.TestWidth(cfg, lMode);
        m := rMode;
      }
      p := Pair(Sizing(lWidth, l.exprWidth, l.minWidth, lMode), Sizing(rWidth, r.exprWidth, r.minWidth, rMode), m);
    }

    method TestBinaryNode(cfg: Config, op: BinOp, mode: Mode) returns (width: nat, newMode: Mode)
      requires Valid() && kind == BinaryKind(op)
      modifies Repr
      ensures width == Test(cfg, Tree, mode).width && newMode == Test(cfg, Tree, mode).mode
      ensures HasSizes(cfg, mode) && Sized(cfg)
      decreases Size(Tree), 3
    {
      var p := TestOperands(cfg, first, second, mode);
      var t := TestBinary(cfg, op, p, first.signed != second.signed);
      Store(t, first.signed && second.signed);
      width, newMode := t.width, t.mode;
    }

    /** The larger width, and one more bit for small operands without a size. */
    static method CommonWidth(cfg: Config, p: Pair) returns (w: nat)
      ensures w == Larger(p.a.width, p.b.width)
                   + if Rank(p.mode) >= Rank(EXPAND) && Larger(p.a.width, p.b.width) < cfg.integerWidth then 1 else 0
    {
      w := if p.b.width > p.a.width then p.b.width else p.a.width;
      if Rank(p.mode) >= Rank(EXPAND) && w < cfg.integerWidth { w := w + 1; }
    }

    /** A comparison leaves the mode alone and keeps a common operand width. */
    method TestCompNode(cfg: Config, mode: Mode) returns (width: nat, newMode: Mode)
      requires Valid() && kind.CompKind?
      modifies Repr
      ensures width == Test(cfg, Tree, mode).width && newMode == Test(cfg, Tree, mode).mode
      ensures HasSizes(cfg, mode) && Sized(cfg)
      decreases Size(Tree), 3
    {
      var p := TestOperands(cfg, first, second, SIZED);
      operandWidth := CommonWidth(cfg, p);
      Store(Sizing(1, 1, 1, mode), false);
      width, newMode := 1, mode;
    }

    /** Both operands are sized by themselves; from EXPAND mode on, the amount is
        elaborated to see whether it is constant. */
    method TestShiftOperands(cfg: Config, mode: Mode) returns (left: Sizing, rWidth: nat, amount: NetExpr)
      requires Valid() && kind.ShiftKind?
      modifies first.Repr, second.Repr
      ensures left == Test(cfg, first.Tree, SIZED) && rWidth == Test(cfg, second.Tree, SIZED).width
      ensures Rank(if mode == SIZED then left.mode else mode) >= Rank(EXPAND) ==>
        amount == EvalExpr(Elab(cfg, second.Tree, rWidth, Sign(second.Tree)))
      ensures first.Sized(cfg) && second.Sized(cfg) && second.SelfSized(cfg)
      ensures first.signed == Sign(first.Tree)
      decreases Size(Tree), 2
    {
      var rw, _ := second.TestWidth(cfg, SIZED);
      var lWidth, lMode := first.TestWidth(cfg, SIZED);
      rWidth := rw;
      left := Sizing(lWidth, first.exprWidth, first.minWidth, lMode);
      amount := second.ElaborateIf(cfg, rWidth, Rank(if mode == SIZED then lMode else mode) >= Rank(EXPAND));
    }

    method TestShiftNode(cfg: Config, op: ShiftOp, mode: Mode) returns (width: nat, newMode: Mode)
      requires Valid() && kind == ShiftKind(op)
      modifies Repr
      ensures width == Test(cfg, Tree, mode).width && newMode == Test(cfg, Tree, mode).mode
      ensures HasSizes(cfg, mode) && Sized(cfg)
      decreases Size(Tree), 3
    {
      var left, rWidth, amount := TestShiftOperands(cfg, mode);
      var t := TestShift(cfg, op, left, amount, rWidth, first.signed, second.signed, mode);
      ShiftTest(cfg, op, first.Tree, second.Tree, amount, mode);
      Store(t, first.signed);
      width, newMode := t.width, t.mode;
    }

    /** The amount of a shift, elaborated only where its value matters. */
    method ElaborateIf(cfg: Config, w: nat, wanted: bool) returns (n: NetExpr)
      requires Valid() && Sized(cfg)
      modifies Repr
      ensures wanted ==> n == EvalExpr(Elab(cfg, Tree, w, old(signed)))
      ensures Sized(cfg)
      ensures exprWidth == old(exprWidth) && minWidth == old(minWidth) && signed == old(signed)
      decreases Size(Tree), 4
    {
      n := Const([], false);
      if wanted {
        n := Elaborate(cfg, w);
        n := EvalExpr(n);
      }
    }

    method TestTernaryNode(cfg: Config, mode: Mode) returns (width: nat, newMode: Mode)
      requires Valid() && kind.TernaryKind?
      modifies Repr
      ensures width == Test(cfg, Tree, mode).width && newMode == Test(cfg, Tree, mode).mode
      ensures HasSizes(cfg, mode) && Sized(cfg)
      decreases Size(Tree), 3
    {
      var p := TestOperands(cfg, third, second, mode);
      var t := TestTernary(cfg, p, second.signed != third.signed);
      Store(t, second.signed && third.signed);
      width, newMode := t.width, t.mode;
    }

    /** `elaborate_expr`: the sign of this node is pushed down to the operands whose
        width the context determines. */
    method Elaborate(cfg: Config, w: nat) returns (n: NetExpr)
      requires Valid() && Sized(cfg)
      modifies Repr
      ensures n == Elab(cfg, Tree, w, old(signed))
      ensures Sized(cfg)
      ensures exprWidth == old(exprWidth) && minWidth == old(minWidth) && signed == old(signed)
      decreases Size(Tree), 3
    {
      match kind {
        case NumberKind(bits, hasLen, hasSign) => n := Const(CastNumber(bits, hasLen, hasSign, w, signed), signed);
        case NetKind(id, width, _, two) => n := PadTo(Signal(id, width, signed, two), w, signed);
        case UnaryKind(op) => n := ElaborateUnary(cfg, op, w);
        case BinaryKind(op) => n := ElaborateBinary(cfg, op, w);
        case CompKind(op) => n := ElaborateComp(cfg, op, w);
        case ShiftKind(op) => n := ElaborateShift(cfg, op, w);
        case TernaryKind => n := ElaborateTernary(cfg, w);
      }
    }

    /** The operand of a reduction keeps its own width and sign. */
    method ElaborateUnary(cfg: Config, op: UnOp, w: nat) returns (n: NetExpr)
      requires Valid() && Sized(cfg) && kind == UnaryKind(op)
      modifies first.Repr
      ensures n == Elab(cfg, Tree, w, signed) && Sized(cfg)
      decreases Size(Tree), 2
    {
      if IsReduction(op) {
        n := first.Elaborate(cfg, first.exprWidth);
      } else {
        first.CastSigned(signed, cfg);
        n := first.Elaborate(cfg, w);
      }
      n := ElabUnary(op, n, w, signed);
    }

    method ElaborateBinary(cfg: Config, op: BinOp, w: nat) returns (n: NetExpr)
      requires Valid() && Sized(cfg) && kind == BinaryKind(op)
      modifies first.Repr, second.Repr
      ensures n == Elab(cfg, Tree, w, signed) && Sized(cfg)
      decreases Size(Tree), 2
    {
      second.CastSigned(signed, cfg);
      first.CastSigned(signed, cfg);
      var l := first.Elaborate(cfg, w);
      var r := second.Elaborate(cfg, w);
      n := if op.Mul? then ElabMult(l, r, w, signed) else NetExpr.BinaryNode(op, l, r, signed);
    }

    /** An unsigned operand makes the other one unsigned. */
    method ElaborateComp(cfg: Config, op: CompOp, w: nat) returns (n: NetExpr)
      requires Valid() && Sized(cfg) && kind == CompKind(op)
      modifies first.Repr, second.Repr
      ensures n == Elab(cfg, Tree, w, signed) && Sized(cfg)
      decreases Size(Tree), 2
    {
      if !first.signed { second.CastSigned(false, cfg); }
      if !second.signed { first.CastSigned(false, cfg); }
      var l := first.Elaborate(cfg, operandWidth);
      var r := second.Elaborate(cfg, operandWidth);
      n := PadTo(CompNode(op, EvalExpr(l), EvalExpr(r)), w, signed);
    }

    method ElaborateShift(cfg: Config, op: ShiftOp, w: nat) returns (n: NetExpr)
      requires Valid() && Sized(cfg) && kind == ShiftKind(op)
      modifies first.Repr, second.Repr
      ensures n == Elab(cfg, Tree, w, signed) && Sized(cfg)
      decreases Size(Tree), 2
    {
      first.CastSigned(signed, cfg);
      var l := first.Elaborate(cfg, w);
      var r := second.Elaborate(cfg, second.exprWidth);
      if NetSign(r) { r := Pad(r, NetWidth(r), false); }
      n := ElabShift(op, EvalExpr(l), EvalExpr(r), w, signed);
    }

    /** The two clauses, with the sign of the conditional. */
    method ElaborateClauses(cfg: Config, w: nat) returns (l: NetExpr, r: NetExpr)
      requires Valid() && kind.TernaryKind? && second.Sized(cfg) && third.Sized(cfg)
      modifies second.Repr, third.Repr
      ensures l == Elab(cfg, second.Tree, w, signed) && r == Elab(cfg, third.Tree, w, signed)
      ensures second.Sized(cfg) && third.Sized(cfg)
      decreases Size(Tree), 1
    {
      second.CastSigned(signed, cfg);
      third.CastSigned(signed, cfg);
      l := second.Elaborate(cfg, w);
      r := third.Elaborate(cfg, w);
    }

    /** A constant condition still elaborates the other clause, to find errors. */
    method ElaborateTernary(cfg: Config, w: nat) returns (n: NetExpr)
      requires Valid() && Sized(cfg) && kind.TernaryKind?
      modifies first.Repr, second.Repr, third.Repr
      ensures n == Elab(cfg, Tree, w, signed) && Sized(cfg)
      decreases Size(Tree), 2
    {
      var c := first.ElaborateAsCondition(cfg);
      var l, r := ElaborateClauses(cfg, w);
      if c.Const? && c.value == [V1] {
        n := EvalExpr(l);
      } else if c.Const? && c.value == [V0] {
        n := EvalExpr(r);
      } else {
        n := TernaryNode(c, EvalExpr(l), EvalExpr(r), signed);
      }
    }

    /** `elab_and_eval` without a context width, then `condition_reduce`. */
    method ElaborateAsCondition(cfg: Config) returns (n: NetExpr)
      requires Valid()
      modifies Repr
      ensures n == ElabCondition(cfg, Tree)
      decreases Size(Tree), 5
    {
      var _, mode := TestWidth(cfg, SIZED);
      var w := if Rank(mode) >= Rank(LOSSLESS) && exprWidth > cfg.widthCap then cfg.widthCap else exprWidth;
      n := Elaborate(cfg, w);
      n := EvalExpr(n);
      if n.Const? && Rank(mode) >= Rank(LOSSLESS) { n := Const(Trim(n.value, n.sg), n.sg); }
      n := ReduceCondition(n);
    }

    /** The width `elab_and_eval` decides on: at least the target's, pruned, then capped. */
    method AssignWidth(cfg: Config, mode: Mode, target: nat) returns (w: nat)
      requires HasSizes(cfg, SIZED) && mode == Test(cfg, Tree, SIZED).mode
      ensures w == AssignedWidth(cfg, Tree, target)
    {
      w := exprWidth;
      if w < target { w := target; }
      if minWidth != UINT_MAX && target > 0 && w > target {
        w := if minWidth > target then minWidth else target;
      }
      if Rank(mode) >= Rank(LOSSLESS) && w > cfg.widthCap && w > target { w := cfg.widthCap; }
    }

    /** `elab_and_eval` for the right side of an assignment to `target` bits. */
    method ElabAndEval(cfg: Config, target: nat) returns (n: NetExpr)
      requires Valid()
      modifies Repr
      ensures n == AssignElab(cfg, Tree, target)
    {
      var _, mode := TestWidth(cfg, SIZED);
      var w := AssignWidth(cfg, mode, target);
      n := Elaborate(cfg, w);
      n := EvalExpr(n);
      if n.Const? && target > 0 { n := Const(Resize(n.value, target, n.sg), n.sg); }
    }
  }
}
