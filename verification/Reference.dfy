/** A direct evaluator of section 5.5.2 of IEEE 1364-2005: width and sign are pushed
    down to the leaves, each operator works on vectors of the context width. It uses
    only the sizes of self-determined operands, no net expression and no folding. */
module Reference {
  import opened Vectors
  import opened NetExprs
  import opened Exprs

  /** An unsized literal extends its leftmost x or z; any other literal is extended
      by the context sign. */
  function Literal(bits: Vec, hasLen: bool, w: nat, s: bool): (v: Vec)
    ensures |v| == w
  {
    Resize(bits, w, s || (!hasLen && |bits| > 0 && !Known(bits[|bits| - 1])))
  }

  function Ref(cfg: Config, e: Expr, w: nat, s: bool, env: Env): (v: Vec)
    ensures |v| == w
    decreases Size(e)
  {
    match e
    case Number(bits, hasLen, _) => Literal(bits, hasLen, w, s)
    case Net(id, width, _, two) => Resize(ReadSignal(env, id, width, two), w, s)
    case Unary(op, a) =>
      if IsReduction(op) then Resize([Reduce(op, Ref(cfg, a, SelfWidth(cfg, a), Sign(a), env))], w, false)
      else ApplyUnary(op, Ref(cfg, a, w, s, env), s)
    case Binary(op, a, b) => Apply(op, Ref(cfg, a, w, s, env), Ref(cfg, b, w, s, env), s)
    case Comp(op, a, b) =>
      var cw, cs := CompWidth(cfg, a, b), Sign(a) && Sign(b);
      Resize([Compare(op, Ref(cfg, a, cw, cs, env), Ref(cfg, b, cw, cs, env), cs)], w, false)
    case ShiftExpr(op, a, b) =>
      Shift(op, Ref(cfg, a, w, s, env), Ref(cfg, b, SelfWidth(cfg, b), Sign(b), env), s)
    case Ternary(c, a, b) =>
      Choose(Truth(Ref(cfg, c, CondWidth(cfg, c), Sign(c), env)),
             Ref(cfg, a, w, s, env), Ref(cfg, b, w, s, env))
  }

  /** No net is wider than the context it is elaborated in, at any depth. */
  predicate Fits(cfg: Config, e: Expr, w: nat)
    decreases Size(e)
  {
    w >= 1 &&
    match e
    case Number(_, _, _) => true
    case Net(_, width, _, _) => width <= w
    case Unary(op, a) => Fits(cfg, a, if IsReduction(op) then SelfWidth(cfg, a) else w)
    case Binary(_, a, b) => Fits(cfg, a, w) && Fits(cfg, b, w)
    case Comp(_, a, b) => var cw := CompWidth(cfg, a, b); Fits(cfg, a, cw) && Fits(cfg, b, cw)
    case ShiftExpr(_, a, b) => Fits(cfg, a, w) && Fits(cfg, b, SelfWidth(cfg, b))
    case Ternary(c, a, b) => Fits(cfg, c, CondWidth(cfg, c)) && Fits(cfg, a, w) && Fits(cfg, b, w)
  }

  /** An unsized literal that is signed and has its top bit set. */
  predicate NegativeLiteral(bits: Vec, hasLen: bool, hasSign: bool) {
    !hasLen && hasSign && |bits| > 0 && bits[|bits| - 1] == V1
  }

  /** No such literal is extended in an unsigned context, at any depth. */
  predicate LiteralsKept(cfg: Config, e: Expr, w: nat, s: bool)
    decreases Size(e)
  {
    match e
    case Number(bits, hasLen, hasSign) => !(NegativeLiteral(bits, hasLen, hasSign) && !s && w > |bits|)
    case Net(_, _, _, _) => true
    case Unary(op, a) =>
      if IsReduction(op) then LiteralsKept(cfg, a, SelfWidth(cfg, a), Sign(a)) else LiteralsKept(cfg, a, w, s)
    case Binary(_, a, b) => LiteralsKept(cfg, a, w, s) && LiteralsKept(cfg, b, w, s)
    case Comp(_, a, b) =>
      var cw, cs := CompWidth(cfg, a, b), Sign(a) && Sign(b);
      LiteralsKept(cfg, a, cw, cs) && LiteralsKept(cfg, b, cw, cs)
    case ShiftExpr(_, a, b) => LiteralsKept(cfg, a, w, s) && LiteralsKept(cfg, b, SelfWidth(cfg, b), Sign(b))
    case Ternary(c, a, b) =>
      && LiteralsKept(cfg, c, CondWidth(cfg, c), Sign(c))
      && LiteralsKept(cfg, a, w, s) && LiteralsKept(cfg, b, w, s)
  }
}
