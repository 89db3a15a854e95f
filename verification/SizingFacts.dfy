/** What sizing guarantees: modes only rise, one retest is enough, SIZED results are
    the standard's widths, and the minimum width does not depend on the mode. */
module SizingFacts {
  import opened Vectors
  import opened NetExprs
  import opened Exprs

  predicate Lossless(m: Mode) {
    Rank(m) >= Rank(LOSSLESS)
  }

  /** With the strict flag off, a mode that reaches LOSSLESS gives the width of a
      test of the whole tree that starts in LOSSLESS, and no mode ever drops. */
  ghost predicate OneRetest(cfg: Config, e: Expr, m: Mode) {
    var t := Test(cfg, e, m);
    && Rank(t.mode) >= Rank(m)
    && (Lossless(t.mode) ==> t.width == Test(cfg, e, LOSSLESS).width)
  }

  ghost predicate OneRetestPair(cfg: Config, a: Expr, b: Expr, m: Mode) {
    var p, q := TestPair(cfg, a, b, m), TestPair(cfg, a, b, LOSSLESS);
    && Rank(p.mode) >= Rank(m) && Lossless(q.mode)
    && (Lossless(p.mode) ==> p.a.width == q.a.width && p.b.width == q.b.width)
  }

  lemma {:induction false} RetestPairSuffices(cfg: Config, a: Expr, b: Expr, m: Mode)
    requires !cfg.strict
    ensures OneRetestPair(cfg, a, b, m)
    decreases Size(a) + Size(b), 1
  {
    var mb, nb := Test(cfg, b, m).mode, Test(cfg, b, LOSSLESS).mode;
    OneRetestSuffices(cfg, b, m);
    OneRetestSuffices(cfg, a, mb);
    OneRetestSuffices(cfg, b, Test(cfg, a, mb).mode);
    OneRetestSuffices(cfg, b, LOSSLESS);
    OneRetestSuffices(cfg, a, nb);
    PairFromOperands(cfg, a, b, m);
  }

  lemma PairModeRises(cfg: Config, a: Expr, b: Expr, m: Mode)
    requires var mb := Test(cfg, b, m).mode;
      OneRetest(cfg, b, m) && OneRetest(cfg, a, mb) && OneRetest(cfg, b, Test(cfg, a, mb).mode)
    ensures Rank(TestPair(cfg, a, b, m).mode) >= Rank(m)
  {
  }

  lemma LosslessPair(cfg: Config, a: Expr, b: Expr)
    requires OneRetest(cfg, b, LOSSLESS) && OneRetest(cfg, a, Test(cfg, b, LOSSLESS).mode)
    ensures var q := TestPair(cfg, a, b, LOSSLESS);
      Lossless(q.mode) && q.a.width == Test(cfg, a, LOSSLESS).width && q.b.width == Test(cfg, b, LOSSLESS).width
  {
  }

  lemma PairWidths(cfg: Config, a: Expr, b: Expr, m: Mode)
    requires var mb := Test(cfg, b, m).mode;
      OneRetest(cfg, b, m) && OneRetest(cfg, a, mb) && OneRetest(cfg, b, Test(cfg, a, mb).mode)
    requires Lossless(TestPair(cfg, a, b, m).mode)
    ensures var p := TestPair(cfg, a, b, m);
      p.a.width == Test(cfg, a, LOSSLESS).width && p.b.width == Test(cfg, b, LOSSLESS).width
  {
  }

  lemma PairFromOperands(cfg: Config, a: Expr, b: Expr, m: Mode)
    requires var mb := Test(cfg, b, m).mode;
      OneRetest(cfg, b, m) && OneRetest(cfg, a, mb) && OneRetest(cfg, b, Test(cfg, a, mb).mode)
    requires OneRetest(cfg, b, LOSSLESS) && OneRetest(cfg, a, Test(cfg, b, LOSSLESS).mode)
    ensures OneRetestPair(cfg, a, b, m)
  {
    PairModeRises(cfg, a, b, m);
    LosslessPair(cfg, a, b);
    if Lossless(TestPair(cfg, a, b, m).mode) { PairWidths(cfg, a, b, m); }
  }

  lemma {:induction false} OneRetestSuffices(cfg: Config, e: Expr, m: Mode)
    requires !cfg.strict
    ensures OneRetest(cfg, e, m)
    decreases Size(e), 0
  {
    match e {
      case Number(_, _, _) =>
      case Net(_, _, _, _) =>
      case Unary(op, a) =>
        OneRetestSuffices(cfg, a, m);
        OneRetestSuffices(cfg, a, LOSSLESS);
        UnaryRetest(cfg, op, a, m);
      case Binary(op, a, b) => RetestPairSuffices(cfg, a, b, m); BinaryRetest(cfg, op, a, b, m);
      case Comp(_, _, _) =>
      case ShiftExpr(op, a, b) => ShiftRetest(cfg, op, a, b, m);
      case Ternary(c, a, b) => RetestPairSuffices(cfg, b, a, m); TernaryRetest(cfg, c, a, b, m);
    }
  }

  lemma UnaryRetest(cfg: Config, op: UnOp, a: Expr, m: Mode)
    requires OneRetest(cfg, a, m) && OneRetest(cfg, a, LOSSLESS)
    ensures OneRetest(cfg, Unary(op, a), m)
  {
  }

  lemma BinaryRetest(cfg: Config, op: BinOp, a: Expr, b: Expr, m: Mode)
    requires OneRetestPair(cfg, a, b, m)
    ensures OneRetest(cfg, Binary(op, a, b), m)
  {
  }

  lemma ShiftRetest(cfg: Config, op: ShiftOp, a: Expr, b: Expr, m: Mode)
    ensures OneRetest(cfg, ShiftExpr(op, a, b), m)
  {
  }

  lemma TernaryRetest(cfg: Config, c: Expr, a: Expr, b: Expr, m: Mode)
    requires OneRetestPair(cfg, b, a, m)
    ensures OneRetest(cfg, Ternary(c, a, b), m)
  {
  }

  // ----- the standard's width table -----

  /** Table 5-22 of IEEE 1364-2005; an unsized literal is as wide as an integer. */
  function StandardWidth(cfg: Config, e: Expr): nat {
    match e
    case Number(bits, hasLen, _) => if hasLen then |bits| else cfg.integerWidth
    case Net(_, w, _, _) => w
    case Unary(op, a) => if IsReduction(op) then 1 else StandardWidth(cfg, a)
    case Binary(_, a, b) => Larger(StandardWidth(cfg, a), StandardWidth(cfg, b))
    case Comp(_, _, _) => 1
    case ShiftExpr(_, a, _) => StandardWidth(cfg, a)
    case Ternary(_, a, b) => Larger(StandardWidth(cfg, a), StandardWidth(cfg, b))
  }

  /** Where the context width reaches, no unsized literal is as long as an integer. */
  predicate ShortLiterals(cfg: Config, e: Expr) {
    match e
    case Number(bits, hasLen, _) => hasLen || |bits| < cfg.integerWidth
    case Unary(_, a) => ShortLiterals(cfg, a)
    case Binary(_, a, b) => ShortLiterals(cfg, a) && ShortLiterals(cfg, b)
    case ShiftExpr(_, a, _) => ShortLiterals(cfg, a)
    case Ternary(_, a, b) => ShortLiterals(cfg, a) && ShortLiterals(cfg, b)
    case _ => true
  }

  /** Every literal that is sized with the tree has a length. */
  predicate AllSized(e: Expr) {
    match e
    case Number(_, hasLen, _) => hasLen
    case Unary(_, a) => AllSized(a)
    case Binary(_, a, b) => AllSized(a) && AllSized(b)
    case ShiftExpr(_, a, _) => AllSized(a)
    case Ternary(_, a, b) => AllSized(a) && AllSized(b)
    case _ => true
  }

  /** Sized at width `w`, in no mode that lets widths grow. */
  ghost predicate IsStandard(t: Sizing, w: nat, sized: bool) {
    t.mode == (if sized then SIZED else UNSIZED) && t.width == t.exprWidth == w
  }

  /** Every tree of short literals is sized as the standard prescribes, and its mode tells
      whether a literal without a length was met. */
  lemma {:induction false} ShortIsStandard(cfg: Config, e: Expr, m: Mode)
    requires Rank(m) < Rank(EXPAND) && ShortLiterals(cfg, e)
    ensures IsStandard(Test(cfg, e, m), StandardWidth(cfg, e), m == SIZED && AllSized(e))
    decreases Size(e), 0
  {
    match e {
      case Number(_, _, _) =>
      case Net(_, _, _, _) =>
      case Comp(_, _, _) =>
      case Unary(op, a) => ShortIsStandard(cfg, a, m);
      case ShiftExpr(_, a, _) => ShortIsStandard(cfg, a, SIZED);
      case Binary(_, a, b) => ShortPair(cfg, a, b, m);
      case Ternary(_, a, b) => ShortPair(cfg, b, a, m);
    }
  }

  lemma {:induction false} ShortPair(cfg: Config, a: Expr, b: Expr, m: Mode)
    requires Rank(m) < Rank(EXPAND) && ShortLiterals(cfg, a) && ShortLiterals(cfg, b)
    ensures var p := TestPair(cfg, a, b, m);
      && p.a.width == StandardWidth(cfg, a) && p.b.width == StandardWidth(cfg, b)
      && p.mode == if m == SIZED && AllSized(a) && AllSized(b) then SIZED else UNSIZED
    decreases Size(a) + Size(b), 1
  {
    ShortIsStandard(cfg, b, m);
    ShortIsStandard(cfg, a, Test(cfg, b, m).mode);
  }

  /** A tree whose mode stays SIZED has no unsized literal there, so it is one of them. */
  lemma {:induction false} SizedIsShort(cfg: Config, e: Expr)
    requires !cfg.strict && Test(cfg, e, SIZED).mode == SIZED
    ensures ShortLiterals(cfg, e)
    decreases Size(e), 0
  {
    match e {
      case Unary(op, a) => SizedIsShort(cfg, a);
      case ShiftExpr(_, a, _) => SizedIsShort(cfg, a);
      case Binary(_, a, b) => SizedPair(cfg, a, b);
      case Ternary(_, a, b) => SizedPair(cfg, b, a);
      case _ =>
    }
  }

  lemma {:induction false} SizedPair(cfg: Config, a: Expr, b: Expr)
    requires !cfg.strict && TestPair(cfg, a, b, SIZED).mode == SIZED
    ensures ShortLiterals(cfg, a) && ShortLiterals(cfg, b)
    decreases Size(a) + Size(b), 1
  {
    OneRetestSuffices(cfg, b, SIZED);
    OneRetestSuffices(cfg, a, Test(cfg, b, SIZED).mode);
    OneRetestSuffices(cfg, b, Test(cfg, a, Test(cfg, b, SIZED).mode).mode);
    SizedIsShort(cfg, b);
    SizedIsShort(cfg, a);
  }

  /** When the mode stays SIZED the width is the one the standard prescribes. */
  lemma SizedIsStandard(cfg: Config, e: Expr)
    requires !cfg.strict && Test(cfg, e, SIZED).mode == SIZED
    ensures Test(cfg, e, SIZED).width == Test(cfg, e, SIZED).exprWidth == StandardWidth(cfg, e)
  {
    SizedIsShort(cfg, e);
    ShortIsStandard(cfg, e, SIZED);
  }

  /** So is a self-determined operand. */
  lemma SelfIsStandard(cfg: Config, e: Expr)
    requires ShortLiterals(cfg, e)
    ensures SelfWidth(cfg, e) == CondWidth(cfg, e) == StandardWidth(cfg, e)
  {
    ShortIsStandard(cfg, e, SIZED);
  }

  /** The operands of a comparison are evaluated at the larger of their widths. */
  lemma ComparedIsStandard(cfg: Config, a: Expr, b: Expr)
    requires ShortLiterals(cfg, a) && ShortLiterals(cfg, b)
    ensures CompWidth(cfg, a, b) == Larger(StandardWidth(cfg, a), StandardWidth(cfg, b))
  {
    ShortPair(cfg, a, b, SIZED);
  }

  // ----- the standard's sign rule -----

  /** The signs of the operands that the context reaches; comparisons and reductions are
      unsigned ones. */
  function ContextSigns(e: Expr): seq<bool> {
    match e
    case Number(_, _, s) => [s]
    case Net(_, _, s, _) => [s]
    case Unary(op, a) => if IsReduction(op) then [false] else ContextSigns(a)
    case Binary(_, a, b) => ContextSigns(a) + ContextSigns(b)
    case Comp(_, _, _) => [false]
    case ShiftExpr(_, a, _) => ContextSigns(a)
    case Ternary(_, a, b) => ContextSigns(a) + ContextSigns(b)
  }

  /** Section 5.5.1 of IEEE 1364-2005: an expression is signed exactly if all the operands
      that the context reaches are; the amount of a shift and a condition do not matter. */
  lemma {:induction false} SignIsStandard(e: Expr)
    ensures Sign(e) <==> false !in ContextSigns(e)
  {
    match e {
      case Unary(op, a) => if !IsReduction(op) { SignIsStandard(a); }
      case Binary(_, a, b) => SignIsStandard(a); SignIsStandard(b);
      case ShiftExpr(_, a, _) => SignIsStandard(a);
      case Ternary(_, a, b) => SignIsStandard(a); SignIsStandard(b);
      case _ =>
    }
  }

  // ----- operands are no wider than the result -----

  lemma PairWidthFits(cfg: Config, op: BinOp, a: Expr, b: Expr, m: Mode)
    ensures var p, n := TestPair(cfg, a, b, m), Test(cfg, Binary(op, a, b), m).width;
      p.a.width <= n && p.b.width <= n
  {
  }

  // ----- minimum widths -----

  /** The minimum width, which no mode changes. */
  function MinWidth(e: Expr): nat {
    match e
    case Number(bits, _, _) => |bits|
    case Net(_, w, _, _) => w
    case Unary(op, a) => if IsReduction(op) then 1 else MinWidth(a)
    case Binary(op, a, b) => if op.Div? || op.Mod? then UINT_MAX else Larger(MinWidth(a), MinWidth(b))
    case Comp(_, _, _) => 1
    case ShiftExpr(op, a, _) => if op.Shl? then MinWidth(a) else UINT_MAX
    case Ternary(_, a, b) => Larger(MinWidth(a), MinWidth(b))
  }

  lemma {:induction false} MinWidthFixed(cfg: Config, e: Expr, m: Mode)
    ensures Test(cfg, e, m).minWidth == MinWidth(e)
    decreases Size(e), 0
  {
    match e {
      case Unary(_, a) => MinWidthFixed(cfg, a, m);
      case ShiftExpr(_, a, _) => MinWidthFixed(cfg, a, SIZED);
      case Binary(_, a, b) => MinWidthPair(cfg, a, b, m);
      case Ternary(_, a, b) => MinWidthPair(cfg, b, a, m);
      case _ =>
    }
  }

  lemma {:induction false} MinWidthPair(cfg: Config, a: Expr, b: Expr, m: Mode)
    ensures var p := TestPair(cfg, a, b, m);
      p.a.minWidth == MinWidth(a) && p.b.minWidth == MinWidth(b)
    decreases Size(a) + Size(b), 1
  {
    var rb := Test(cfg, b, m);
    var ra := Test(cfg, a, rb.mode);
    MinWidthFixed(cfg, b, m);
    MinWidthFixed(cfg, a, rb.mode);
    MinWidthFixed(cfg, b, ra.mode);
  }
}
