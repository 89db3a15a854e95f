/** Expressions without signals: they elaborate and fold to one constant, their value. */
module Constants {
  import opened Vectors
  import opened NetExprs
  import opened Exprs
  import opened Reference
  import opened ElabCorrect

  predicate SignalFree(n: NetExpr) {
    match n
    case Const(_, _) => true
    case Signal(_, _, _, _) => false
    case Pad(e, _, _) => SignalFree(e)
    case BitAt(e, _, _) => SignalFree(e)
    case UnaryNode(_, e, _) => SignalFree(e)
    case ReduceNode(_, e) => SignalFree(e)
    case BinaryNode(_, l, r, _) => SignalFree(l) && SignalFree(r)
    case CompNode(_, l, r) => SignalFree(l) && SignalFree(r)
    case ShiftNode(_, l, r, _) => SignalFree(l) && SignalFree(r)
    case TernaryNode(c, l, r, _) => SignalFree(c) && SignalFree(l) && SignalFree(r)
  }

  lemma {:induction false} FoldsToConst(n: NetExpr)
    requires Typed(n) && SignalFree(n)
    ensures Fold(n).Const?
  {
    match n {
      case Const(_, _) =>
      case Pad(e, _, _) => FoldsToConst(e);
      case BitAt(e, _, _) => FoldsToConst(e);
      case UnaryNode(_, e, _) => FoldsToConst(e);
      case ReduceNode(_, e) => FoldsToConst(e);
      case BinaryNode(_, l, r, _) =>
        FoldsToConst(l);
        FoldsToConst(r);
      case CompNode(_, l, r) =>
        FoldsToConst(l);
        FoldsToConst(r);
      case ShiftNode(_, l, r, _) =>
        FoldsToConst(l);
        FoldsToConst(r);
      case TernaryNode(c, l, r, _) =>
        FoldsToConst(c);
        FoldsToConst(l);
        FoldsToConst(r);
    }
  }

  /** Constant evaluation leaves nothing to do without signals: the result is the constant
      that the expression evaluates to. */
  lemma FoldIsValue(n: NetExpr, env: Env)
    requires Typed(n) && SignalFree(n)
    ensures Fold(n) == Const(Eval(n, env), NetSign(n))
  {
    FoldsToConst(n);
    FoldKeepsValue(n, env);
  }

  predicate NetFree(e: Expr) {
    match e
    case Number(_, _, _) => true
    case Net(_, _, _, _) => false
    case Unary(_, a) => NetFree(a)
    case Binary(_, a, b) => NetFree(a) && NetFree(b)
    case Comp(_, a, b) => NetFree(a) && NetFree(b)
    case ShiftExpr(_, a, b) => NetFree(a) && NetFree(b)
    case Ternary(c, a, b) => NetFree(c) && NetFree(a) && NetFree(b)
  }

  lemma EvalSignalFree(n: NetExpr)
    requires SignalFree(n)
    ensures SignalFree(EvalExpr(n))
  {
    if Typed(n) { FoldsToConst(n); }
  }

  lemma OperatorsSignalFree(l: NetExpr, r: NetExpr, w: nat, s: bool)
    requires SignalFree(l) && SignalFree(r)
    ensures forall op :: SignalFree(ElabUnary(op, l, w, s))
    ensures forall op :: SignalFree(ElabShift(op, l, r, w, s))
    ensures SignalFree(ElabMult(l, r, w, s)) && SignalFree(ReduceCondition(l))
  {
  }

  lemma {:induction false} ElabSignalFree(cfg: Config, e: Expr, w: nat, s: bool)
    requires NetFree(e)
    ensures SignalFree(Elab(cfg, e, w, s))
    decreases e, 1
  {
    match e {
      case Number(_, _, _) =>
      case Unary(op, a) =>
        var sw, ss := if IsReduction(op) then SelfWidth(cfg, a) else w, if IsReduction(op) then Sign(a) else s;
        ElabSignalFree(cfg, a, sw, ss);
        OperatorsSignalFree(Elab(cfg, a, sw, ss), Elab(cfg, a, sw, ss), w, s);
      case Binary(op, a, b) =>
        ElabSignalFree(cfg, a, w, s);
        ElabSignalFree(cfg, b, w, s);
        OperatorsSignalFree(Elab(cfg, a, w, s), Elab(cfg, b, w, s), w, s);
      case Comp(op, a, b) =>
        var cw, cs := CompWidth(cfg, a, b), Sign(a) && Sign(b);
        OperandSignalFree(cfg, a, cw, cs);
        OperandSignalFree(cfg, b, cw, cs);
      case ShiftExpr(op, a, b) => ShiftSignalFree(cfg, op, a, b, w, s);
      case Ternary(c, a, b) =>
        ConditionSignalFree(cfg, c);
        OperandSignalFree(cfg, a, w, s);
        OperandSignalFree(cfg, b, w, s);
    }
  }

  lemma {:induction false} OperandSignalFree(cfg: Config, a: Expr, w: nat, s: bool)
    requires NetFree(a)
    ensures SignalFree(EvalExpr(Elab(cfg, a, w, s)))
    decreases a, 2
  {
    ElabSignalFree(cfg, a, w, s);
    EvalSignalFree(Elab(cfg, a, w, s));
  }

  lemma {:induction false} ShiftSignalFree(cfg: Config, op: ShiftOp, a: Expr, b: Expr, w: nat, s: bool)
    requires NetFree(a) && NetFree(b)
    ensures SignalFree(Elab(cfg, ShiftExpr(op, a, b), w, s))
    decreases ShiftExpr(op, a, b), 0
  {
    OperandSignalFree(cfg, a, w, s);
    ElabSignalFree(cfg, b, SelfWidth(cfg, b), Sign(b));
    var n := Elab(cfg, b, SelfWidth(cfg, b), Sign(b));
    var r := if NetSign(n) then Pad(n, NetWidth(n), false) else n;
    EvalSignalFree(r);
    OperatorsSignalFree(EvalExpr(Elab(cfg, a, w, s)), EvalExpr(r), w, s);
  }

  lemma {:induction false} ConditionSignalFree(cfg: Config, c: Expr)
    requires NetFree(c)
    ensures SignalFree(ElabCondition(cfg, c))
    decreases c, 3
  {
    OperandSignalFree(cfg, c, CondWidth(cfg, c), Sign(c));
  }

  /** An expression of literals elaborates to one constant: its reference value at the context
      width, with the context sign. */
  lemma LiteralsFold(cfg: Config, e: Expr, w: nat, s: bool, env: Env)
    requires NetFree(e) && (s ==> Sign(e)) && Fits(cfg, e, w) && LiteralsKept(cfg, e, w, s)
    ensures EvalExpr(Elab(cfg, e, w, s)) == Const(Ref(cfg, e, w, s, env), s)
  {
    ElabMeans(cfg, e, w, s, env);
    ElabSignalFree(cfg, e, w, s);
    FoldIsValue(Elab(cfg, e, w, s), env);
  }
}
