/** Elaboration asks that no net is wider than its context. Sizing guarantees it,
    except where a shift is clipped or a condition capped. */
module WidthsFit {
  import opened Vectors
  import opened VectorFacts
  import opened NetExprs
  import opened Exprs
  import opened Reference
  import opened SizingFacts

  /** The shift amount, as sizing elaborates it. */
  function AmountOf(cfg: Config, b: Expr): NetExpr {
    EvalExpr(Elab(cfg, b, Test(cfg, b, SIZED).width, Sign(b)))
  }

  /** A left shift by a variable amount, of a wide operand without a size of its own. */
  predicate MayClip(cfg: Config, op: ShiftOp, a: Expr, b: Expr) {
    var left := Test(cfg, a, SIZED);
    op.Shl? && left.mode != SIZED && !AmountOf(cfg, b).Const? && left.width > cfg.integerWidth
  }

  /** A shift is sized below its left operand exactly when the expansion for a variable
      amount is cut back to the integer width. */
  lemma ShiftClipExact(cfg: Config, op: ShiftOp, a: Expr, b: Expr, m: Mode)
    ensures Test(cfg, ShiftExpr(op, a, b), m).width < Test(cfg, a, SIZED).width
       <==> && MayClip(cfg, op, a, b)
            && Rank(if m == SIZED then Test(cfg, a, SIZED).mode else m) >= Rank(EXPAND)
            && ShiftBound(cfg, AmountOf(cfg, b), Test(cfg, b, SIZED).width, Sign(b)) > 0
  {
  }

  /** An unsized literal longer than an integer, shifted left by a net, is clipped: a
      40-bit one to 32 bits when integers have 32. */
  lemma LongLiteralIsClipped(cfg: Config, bits: Vec, s: bool, id: nat, width: nat, m: Mode)
    requires !cfg.strict && cfg.widthCap >= 1 && |bits| > cfg.integerWidth && width >= 1
    requires m == SIZED || Rank(m) >= Rank(EXPAND)
    ensures var e := ShiftExpr(Shl, Number(bits, false, s), Net(id, width, false, false));
      Test(cfg, e, m).width == cfg.integerWidth < |bits| == Test(cfg, e.a, SIZED).width
  {
    var a, b := Number(bits, false, s), Net(id, width, false, false);
    assert AmountOf(cfg, b) == Signal(id, width, false, false);
    assert Test(cfg, a, SIZED) == Sizing(|bits|, |bits|, |bits|, LOSSLESS);
    assert Pow2(width) == 2 * Pow2(width - 1);
    ShiftClipExact(cfg, Shl, a, b, m);
  }

  /** The bits above the integer width are lost, even when the shift is by 0. */
  lemma ClippedLiteralLosesBits(cfg: Config, bits: Vec, id: nat, width: nat, env: Env)
    requires !cfg.strict && cfg.widthCap >= 1 && |bits| > cfg.integerWidth && width >= 1
    requires ReadSignal(env, id, width, false) == Fill(V0, width)
    ensures var e := ShiftExpr(Shl, Number(bits, false, false), Net(id, width, false, false));
      Ref(cfg, e, Test(cfg, e, SIZED).width, false, env) == bits[..cfg.integerWidth]
  {
    var e := ShiftExpr(Shl, Number(bits, false, false), Net(id, width, false, false));
    LongLiteralIsClipped(cfg, bits, false, id, width, SIZED);
    FromIntOfSign(V0, width);
    ToIntOfFromInt(0, width, false);
    assert Ref(cfg, e.b, width, false, env) == Fill(V0, width);
    assert ShiftBy(Shl, bits[..cfg.integerWidth], 0, false) == bits[..cfg.integerWidth];
  }

  /** No shift that may be clipped, no condition that is capped, and no empty leaf. */
  predicate Roomy(cfg: Config, e: Expr) {
    match e
    case Number(bits, _, _) => |bits| >= 1
    case Net(_, width, _, _) => width >= 1
    case Unary(_, a) => Roomy(cfg, a)
    case Binary(_, a, b) => Roomy(cfg, a) && Roomy(cfg, b)
    case Comp(_, a, b) => Roomy(cfg, a) && Roomy(cfg, b)
    case ShiftExpr(op, a, b) => Roomy(cfg, a) && Roomy(cfg, b) && !MayClip(cfg, op, a, b)
    case Ternary(c, a, b) =>
      && Roomy(cfg, c) && Roomy(cfg, a) && Roomy(cfg, b)
      && CondWidth(cfg, c) == SelfWidth(cfg, c)
  }

  lemma ShiftKeepsWidth(cfg: Config, op: ShiftOp, a: Expr, b: Expr, m: Mode)
    requires !MayClip(cfg, op, a, b)
    ensures Test(cfg, ShiftExpr(op, a, b), m).width >= Test(cfg, a, SIZED).width
  {
    ShiftClipExact(cfg, op, a, b, m);
  }

  /** Any width from the calculated one on fits. */
  lemma {:induction false} SizingFits(cfg: Config, e: Expr, m: Mode, w: nat)
    requires cfg.integerWidth >= 1 && Roomy(cfg, e) && w >= Test(cfg, e, m).width
    ensures Test(cfg, e, m).width >= 1 && Fits(cfg, e, w)
    decreases Size(e), 0
  {
    match e {
      case Number(_, _, _) =>
      case Net(_, _, _, _) =>
      case Unary(op, a) =>
        if IsReduction(op) { SizingFits(cfg, a, SIZED, SelfWidth(cfg, a)); } else { SizingFits(cfg, a, m, w); }
      case Binary(op, a, b) => PairWidthFits(cfg, op, a, b, m); PairFits(cfg, a, b, m, w);
      case Comp(_, a, b) => PairFits(cfg, a, b, SIZED, CompWidth(cfg, a, b));
      case ShiftExpr(op, a, b) => ShiftFits(cfg, op, a, b, m, w);
      case Ternary(c, a, b) => TernaryFits(cfg, c, a, b, m, w);
    }
  }

  lemma {:induction false} ShiftFits(cfg: Config, op: ShiftOp, a: Expr, b: Expr, m: Mode, w: nat)
    requires cfg.integerWidth >= 1 && Roomy(cfg, ShiftExpr(op, a, b)) && w >= Test(cfg, ShiftExpr(op, a, b), m).width
    ensures Test(cfg, ShiftExpr(op, a, b), m).width >= 1 && Fits(cfg, ShiftExpr(op, a, b), w)
    decreases Size(a) + Size(b), 2
  {
    ShiftKeepsWidth(cfg, op, a, b, m);
    SizingFits(cfg, a, SIZED, w);
    SizingFits(cfg, b, SIZED, SelfWidth(cfg, b));
  }

  lemma {:induction false} TernaryFits(cfg: Config, c: Expr, a: Expr, b: Expr, m: Mode, w: nat)
    requires cfg.integerWidth >= 1 && Roomy(cfg, Ternary(c, a, b)) && w >= Test(cfg, Ternary(c, a, b), m).width
    ensures Test(cfg, Ternary(c, a, b), m).width >= 1 && Fits(cfg, Ternary(c, a, b), w)
    decreases Size(c) + Size(a) + Size(b), 2
  {
    SizingFits(cfg, c, SIZED, CondWidth(cfg, c));
    PairFits(cfg, b, a, m, w);
  }

  lemma {:induction false} PairFits(cfg: Config, a: Expr, b: Expr, m: Mode, w: nat)
    requires cfg.integerWidth >= 1 && Roomy(cfg, a) && Roomy(cfg, b)
    requires w >= TestPair(cfg, a, b, m).a.width && w >= TestPair(cfg, a, b, m).b.width
    ensures var p := TestPair(cfg, a, b, m);
      p.a.width >= 1 && p.b.width >= 1 && Fits(cfg, a, w) && Fits(cfg, b, w)
    decreases Size(a) + Size(b), 1
  {
    var rb := Test(cfg, b, m);
    var ra := Test(cfg, a, rb.mode);
    SizingFits(cfg, a, rb.mode, w);
    if Lossless(ra.mode) && !Lossless(rb.mode) {
      SizingFits(cfg, b, ra.mode, w);
    } else {
      SizingFits(cfg, b, m, w);
    }
  }
}
