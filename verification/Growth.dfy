/** Lossless widths are no wider than they have to be, and what an assignment stores of a
    lossless tree. */
module Growth {
  import opened Vectors
  import opened VectorFacts
  import opened NetExprs
  import opened Exprs
  import opened Reference
  import opened SizingFacts
  import opened Pruning
  import opened LosslessWidths
  import opened ValueLaws

  // ----- one bit less is not enough -----

  /** Operand values whose result needs every bit of the grown width. */
  function Extremes(op: BinOp, m: nat, n: nat, s: bool): (int, int)
    requires m >= 1 && n >= 1
  {
    if !s then (Pow2(m) - 1, Pow2(n) - 1)
    else if op.Sub? then (Pow2(m - 1) - 1, -Pow2(n - 1))
    else (-Pow2(m - 1), -Pow2(n - 1))
  }

  function Grown(op: BinOp, m: nat, n: nat): nat {
    if op.Mul? then m + n else Larger(m, n) + 1
  }

  lemma SumIsTight(m: nat, n: nat)
    requires m >= 1 && n >= 1
    ensures Pow2(m) - 1 + Pow2(n) - 1 >= Pow2(Larger(m, n)) && Pow2(m) + Pow2(n) > Pow2(Larger(m, n))
  {
    TwoOrMore(m);
    TwoOrMore(n);
  }

  lemma OddFactors(p: int, q: int)
    requires p >= 2 && q >= 2
    ensures (2 * p - 1) * (2 * q - 1) >= 2 * (p * q)
  {
    var z := p * q;
    assert (p - 2) * q >= 0 && (q - 2) * p >= 0;
    assert (p - 2) * q == z - 2 * q && (q - 2) * p == z - 2 * p;
    assert (2 * p - 1) * (2 * q - 1) == 4 * z - 2 * p - 2 * q + 1;
  }

  /** Two unsigned factors of two bits or more. */
  lemma ProductIsTight(m: nat, n: nat)
    requires m >= 2 && n >= 2
    ensures (Pow2(m) - 1) * (Pow2(n) - 1) >= Pow2(m + n - 1)
  {
    var p, q := Pow2(m - 1), Pow2(n - 1);
    TwoOrMore(m - 1);
    TwoOrMore(n - 1);
    Pow2Sum(m - 1, n - 1);
    OddFactors(p, q);
    assert Pow2(m) == 2 * p && Pow2(n) == 2 * q && Pow2(m + n - 1) == 2 * Pow2(m + n - 2);
  }

  lemma TwoOrMore(n: nat)
    requires n >= 1
    ensures Pow2(n) >= 2
  {
    assert Pow2(n) == 2 * Pow2(n - 1);
  }

  lemma SignedProductIsTight(m: nat, n: nat)
    requires m >= 1 && n >= 1
    ensures -Pow2(m - 1) * -Pow2(n - 1) == Pow2(m + n - 2)
  {
    Pow2Sum(m - 1, n - 1);
    assert -Pow2(m - 1) * -Pow2(n - 1) == Pow2(m - 1) * Pow2(n - 1);
  }

  /** A product with an unsigned factor of one bit does not grow. */
  predicate BitFactor(op: BinOp, m: nat, n: nat, s: bool) {
    op.Mul? && !s && (m == 1 || n == 1)
  }

  lemma ExtremesNeedGrowth(op: BinOp, m: nat, n: nat, s: bool)
    requires m >= 1 && n >= 1 && IsRing(op) && (op.Sub? ==> s) && !BitFactor(op, m, n, s)
    ensures var (x, y) := Extremes(op, m, n, s);
      InRange(x, m, s) && InRange(y, n, s) && !InRange(IntOp(op, x, y), Grown(op, m, n) - 1, s)
  {
    if op.Mul? {
      if s { SignedProductIsTight(m, n); } else { ProductIsTight(m, n); }
    } else if s {
      Pow2Monotone(0, m - 1);
      Pow2Monotone(0, n - 1);
    } else {
      SumIsTight(m, n);
    }
  }

  lemma NetsHold(a: Expr, b: Expr, x: int, y: int, s: bool) returns (env: Env)
    requires a.Net? && b.Net? && a.id != b.id && InRange(x, a.width, s) && InRange(y, b.width, s)
    requires 0 < a.width < UINT_MAX && 0 < b.width < UINT_MAX
    ensures KnownNet(a, env) && KnownNet(b, env) && IntOf(a, env, s) == x && IntOf(b, env, s) == y
  {
    env := id => if id == a.id then FromInt(x, a.width) else FromInt(y, b.width);
    assert ReadSignal(env, a.id, a.width, a.twoState) == FromInt(x, a.width);
    assert ReadSignal(env, b.id, b.width, b.twoState) == FromInt(y, b.width);
    ToIntOfFromInt(x, a.width, s);
    ToIntOfFromInt(y, b.width, s);
  }

  /** The width calculated for a sum, difference or product in a lossless mode is exact: for
      any smaller one there are values that it does not hold. */
  lemma GrowthIsTight(cfg: Config, op: BinOp, a: Expr, b: Expr, s: bool, k: nat) returns (env: Env)
    requires a.Net? && b.Net? && a.id != b.id && a.width < UINT_MAX && b.width < UINT_MAX
    requires IsRing(op) && LosslessTree(Binary(op, a, b), s) && !BitFactor(op, a.width, b.width, s)
    requires k < Test(cfg, Binary(op, a, b), LOSSLESS).width
    ensures Test(cfg, Binary(op, a, b), LOSSLESS).width == Grown(op, a.width, b.width)
    ensures AllDefined(cfg, Binary(op, a, b), env) && !InRange(Exact(cfg, Binary(op, a, b), s, env), k, s)
  {
    var (x, y) := Extremes(op, a.width, b.width, s);
    ExtremesNeedGrowth(op, a.width, b.width, s);
    env := NetsHold(a, b, x, y, s);
    GrownWidth(cfg, op, a, b);
    if InRange(IntOp(op, x, y), k, s) { RangeWidens(IntOp(op, x, y), k, Grown(op, a.width, b.width) - 1, s); }
  }

  lemma GrownWidth(cfg: Config, op: BinOp, a: Expr, b: Expr)
    requires a.Net? && b.Net? && IsRing(op)
    ensures Test(cfg, Binary(op, a, b), LOSSLESS).width == Grown(op, a.width, b.width)
  {
    assert Test(cfg, a, LOSSLESS).width == a.width && Test(cfg, b, LOSSLESS).width == b.width;
    assert Test(cfg, a, LOSSLESS).mode == Test(cfg, b, LOSSLESS).mode == LOSSLESS;
    assert TestPair(cfg, a, b, LOSSLESS) == Pair(Test(cfg, a, LOSSLESS), Test(cfg, b, LOSSLESS), LOSSLESS);
  }

  // ----- assignments -----

  /** A leaf of the tree's own sign is never extended wrongly. */
  lemma {:induction false} LosslessLiterals(cfg: Config, e: Expr, w: nat, w': nat, s: bool)
    requires LosslessTree(e, s) && LiteralsKept(cfg, e, w, s)
    ensures LiteralsKept(cfg, e, w', s)
  {
    match e {
      case Unary(op, a) => if !IsReduction(op) { LosslessLiterals(cfg, a, w, w', s); }
      case Binary(_, a, b) => LosslessLiterals(cfg, a, w, w', s); LosslessLiterals(cfg, b, w, w', s);
      case Ternary(_, a, b) => LosslessLiterals(cfg, a, w, w', s); LosslessLiterals(cfg, b, w, w', s);
      case _ =>
    }
  }

  /** The minimum width is no larger than the calculated one. */
  lemma {:induction false} MinInWidth(cfg: Config, e: Expr, m: Mode, s: bool)
    requires !cfg.strict && LosslessTree(e, s)
    ensures MinWidth(e) <= Test(cfg, e, m).width
    decreases Size(e), 0
  {
    match e {
      case Unary(op, a) => if !IsReduction(op) { MinInWidth(cfg, a, m, s); }
      case Binary(op, a, b) =>
        MinInPair(cfg, a, b, m, s);
        MinInBinary(cfg, op, a, b, m, s);
      case Ternary(_, a, b) => MinInPair(cfg, b, a, m, s);
      case _ =>
    }
  }

  lemma MinInBinary(cfg: Config, op: BinOp, a: Expr, b: Expr, m: Mode, s: bool)
    requires !cfg.strict && LosslessTree(Binary(op, a, b), s)
    requires MinWidth(a) <= TestPair(cfg, a, b, m).a.width && MinWidth(b) <= TestPair(cfg, a, b, m).b.width
    ensures MinWidth(Binary(op, a, b)) <= Test(cfg, Binary(op, a, b), m).width
  {
  }

  lemma {:induction false} MinInPair(cfg: Config, a: Expr, b: Expr, m: Mode, s: bool)
    requires !cfg.strict && LosslessTree(a, s) && LosslessTree(b, s)
    ensures MinWidth(a) <= TestPair(cfg, a, b, m).a.width && MinWidth(b) <= TestPair(cfg, a, b, m).b.width
    decreases Size(a) + Size(b), 1
  {
    var rb := Test(cfg, b, m);
    var ra := Test(cfg, a, rb.mode);
    MinInWidth(cfg, b, m, s);
    MinInWidth(cfg, a, rb.mode, s);
    MinInWidth(cfg, b, ra.mode, s);
  }

  /** At the full width, the tree has the unbounded value. */
  lemma FullWidthHolds(cfg: Config, e: Expr, target: nat, s: bool, env: Env)
    requires !cfg.strict && cfg.integerWidth >= 1
    requires LosslessTree(e, s) && AllDefined(cfg, e, env) && Lossless(Test(cfg, e, SIZED).mode)
    ensures Ref(cfg, e, FullWidth(cfg, e, target), s, env) == FromInt(Exact(cfg, e, s, env), FullWidth(cfg, e, target))
  {
    OneRetestSuffices(cfg, e, SIZED);
    SelfAtLeast(cfg, e, SIZED);
    WidthsAreExact(cfg, e, LOSSLESS, FullWidth(cfg, e, target), s, env);
  }

  lemma SelfAtLeast(cfg: Config, e: Expr, m: Mode)
    ensures Test(cfg, e, m).exprWidth >= Test(cfg, e, m).width
  {
  }

  /** An assignment from a tree that ends in a lossless mode, within the width cap, stores
      the low bits of the unbounded value. */
  lemma LosslessAssignment(cfg: Config, e: Expr, target: nat, s: bool, env: Env)
    requires !cfg.strict && cfg.integerWidth >= 1 && target > 0
    requires LosslessTree(e, s) && AllDefined(cfg, e, env) && Lossless(Test(cfg, e, SIZED).mode)
    requires SelfWidth(cfg, e) <= Larger(cfg.widthCap, target)
    requires Fits(cfg, e, Larger(SelfWidth(cfg, e), target)) && LiteralsKept(cfg, e, target, s)
    requires SelfWidth(cfg, e) > target ==> SmallLeaves(e) && NoMinMaxAbs(e)
    ensures Stores(cfg, e, target, env, Exact(cfg, e, s, env))
  {
    LosslessTreeSign(e, s);
    MinWidthFixed(cfg, e, SIZED);
    MinInWidth(cfg, e, SIZED, s);
    SelfAtLeast(cfg, e, SIZED);
    LosslessLiterals(cfg, e, target, PrunedWidth(cfg, e, target), s);
    AssignmentStoresFullValue(cfg, e, target, env);
    FullWidthHolds(cfg, e, target, s, env);
    FromIntPrefix(Exact(cfg, e, s, env), FullWidth(cfg, e, target), target);
  }

  // ----- left shifts -----

  lemma ProductGrows(d: int, p: int)
    requires d >= 0 && p >= 1
    ensures d * p >= 0
  {
  }

  lemma Scaled(x: int, lo: int, hi: int, p: int)
    requires lo <= x < hi && p >= 1
    ensures lo * p <= x * p < hi * p
  {
    ProductGrows(x - lo, p);
    ProductGrows(hi - 1 - x, p);
    assert (x - lo) * p == x * p - lo * p;
    assert (hi - 1 - x) * p == hi * p - p - x * p;
  }

  lemma NegativeTimes(y: int, p: int)
    ensures -y * p == -(y * p)
  {
  }

  lemma ShiftedInRange(x: int, m: nat, n: nat, s: bool)
    requires InRange(x, m, s)
    ensures InRange(x * Pow2(n), m + n, s)
  {
    var p := Pow2(n);
    if s {
      var q := Pow2(m - 1);
      Pow2Sum(m - 1, n);
      Scaled(x, -q, q, p);
      NegativeTimes(q, p);
      assert Pow2(m - 1 + n) == q * p && m - 1 + n == m + n - 1;
    } else {
      Pow2Sum(m, n);
      Scaled(x, 0, Pow2(m), p);
    }
  }

  lemma ConstantShift(cfg: Config, left: Sizing, amount: Vec, ls: bool, m: Mode)
    requires Lossless(left.mode) && (m == SIZED || Rank(m) >= Rank(EXPAND))
    requires Defined(amount) && |amount| < LONG_BITS && 0 <= ToInt(amount, false) <= cfg.widthCap
    ensures TestShift(cfg, Shl, left, Const(amount, false), |amount|, ls, false, m).width
         == left.width + ToInt(amount, false)
  {
  }

  lemma ConstantAmount(cfg: Config, amount: Vec)
    ensures var b := Number(amount, true, false);
      && Test(cfg, b, SIZED).width == SelfWidth(cfg, b) == |amount|
      && EvalExpr(Elab(cfg, b, |amount|, false)) == Const(amount, false)
  {
    assert Resize(amount, |amount|, false) == amount;
  }

  /** The width of a lossless operand shifted left by a constant that has a length. */
  lemma ShiftedWidth(cfg: Config, a: Expr, amount: Vec, m: Mode)
    requires !cfg.strict && Lossless(Test(cfg, a, SIZED).mode) && (m == SIZED || Rank(m) >= Rank(EXPAND))
    requires Defined(amount) && |amount| < LONG_BITS && 0 <= ToInt(amount, false) <= cfg.widthCap
    ensures var e := ShiftExpr(Shl, a, Number(amount, true, false));
      Test(cfg, e, m).width == Test(cfg, a, LOSSLESS).width + ToInt(amount, false)
  {
    OneRetestSuffices(cfg, a, SIZED);
    ConstantAmount(cfg, amount);
    ConstantShift(cfg, Test(cfg, a, SIZED), amount, Sign(a), m);
  }

  lemma ShiftedValue(cfg: Config, a: Expr, amount: Vec, w: nat, s: bool, env: Env, x: int)
    requires w > 0 && Defined(amount) && ToInt(amount, false) >= 0 && Ref(cfg, a, w, s, env) == FromInt(x, w)
    ensures Ref(cfg, ShiftExpr(Shl, a, Number(amount, true, false)), w, s, env)
         == FromInt(x * Pow2(ToInt(amount, false)), w)
  {
    LeftIsProduct(x, w, ToInt(amount, false), s);
    AmountLiteral(cfg, amount, env);
  }

  lemma AmountLiteral(cfg: Config, amount: Vec, env: Env)
    ensures var b := Number(amount, true, false); Ref(cfg, b, SelfWidth(cfg, b), Sign(b), env) == amount
  {
    assert SelfWidth(cfg, Number(amount, true, false)) == |amount|;
    assert Resize(amount, |amount|, false) == amount;
  }

  lemma ProductFits(x: int, v: nat, n: nat, k: nat, s: bool)
    requires InRange(x, v, s) && n <= k
    ensures InRange(x * Pow2(n), v + k, s)
  {
    ShiftedInRange(x, v, n, s);
    RangeWidens(x * Pow2(n), v + n, v + k, s);
  }

  /** Shifted left by a constant, it has the unbounded product at any width from that one on. */
  lemma LeftShiftHolds(cfg: Config, a: Expr, amount: Vec, w: nat, s: bool, env: Env)
    requires !cfg.strict && cfg.integerWidth >= 1 && LosslessTree(a, s) && AllDefined(cfg, a, env)
    requires Defined(amount) && ToInt(amount, false) >= 0
    requires w >= Test(cfg, a, LOSSLESS).width + ToInt(amount, false)
    ensures Holds(Ref(cfg, ShiftExpr(Shl, a, Number(amount, true, false)), w, s, env),
                  Exact(cfg, a, s, env) * Pow2(ToInt(amount, false)),
                  Test(cfg, a, LOSSLESS).width + ToInt(amount, false), s)
  {
    var n := ToInt(amount, false);
    WidthsAreExact(cfg, a, LOSSLESS, w, s, env);
    ShiftedInRange(Exact(cfg, a, s, env), Test(cfg, a, LOSSLESS).width, n, s);
    ShiftedValue(cfg, a, amount, w, s, env, Exact(cfg, a, s, env));
  }

  /** The width for every amount that `k` bits can hold, up to the width cap. */
  function Allowance(cfg: Config, k: nat): nat {
    if Pow2(k) - 1 > cfg.widthCap then cfg.widthCap else Pow2(k) - 1
  }

  lemma NetShift(cfg: Config, left: Sizing, amount: NetExpr, k: nat, ls: bool, bs: bool, m: Mode)
    requires Lossless(left.mode) && (m == SIZED || Rank(m) >= Rank(EXPAND)) && k < LONG_BITS && !amount.Const?
    ensures var want := left.width + Allowance(cfg, k);
      TestShift(cfg, Shl, left, amount, k, ls, bs, m).width
      == if want > cfg.integerWidth && Allowance(cfg, k) > 0 then cfg.integerWidth else want
  {
  }

  lemma NetAmount(cfg: Config, b: Expr)
    requires b.Net?
    ensures Test(cfg, b, SIZED).width == SelfWidth(cfg, b) == b.width
    ensures !EvalExpr(Elab(cfg, b, b.width, Sign(b))).Const?
  {
  }

  /** A lossless operand shifted left by a net is sized for the largest amount the net can
      hold, or else for an integer. */
  lemma ShiftedByNet(cfg: Config, a: Expr, b: Expr, m: Mode)
    requires !cfg.strict && Lossless(Test(cfg, a, SIZED).mode) && (m == SIZED || Rank(m) >= Rank(EXPAND))
    requires b.Net? && b.width < LONG_BITS
    ensures var want := Test(cfg, a, LOSSLESS).width + Allowance(cfg, b.width);
      Test(cfg, ShiftExpr(Shl, a, b), m).width
      == if want > cfg.integerWidth && Allowance(cfg, b.width) > 0 then cfg.integerWidth else want
  {
    OneRetestSuffices(cfg, a, SIZED);
    NetAmount(cfg, b);
    NetShift(cfg, Test(cfg, a, SIZED), EvalExpr(Elab(cfg, b, b.width, Sign(b))), b.width, Sign(a), Sign(b), m);
  }

  lemma ShiftedByValue(cfg: Config, a: Expr, b: Expr, w: nat, s: bool, env: Env, x: int)
    requires w > 0 && KnownNet(b, env) && Ref(cfg, a, w, s, env) == FromInt(x, w)
    ensures Ref(cfg, ShiftExpr(Shl, a, b), w, s, env) == FromInt(x * Pow2(AmountIn(b, env)), w)
  {
    AmountOfNet(cfg, b, env);
    LeftIsProduct(x, w, AmountIn(b, env), s);
  }

  lemma AmountAllowed(cfg: Config, b: Expr, env: Env)
    requires KnownNet(b, env) && Pow2(b.width) - 1 <= cfg.widthCap
    ensures AmountIn(b, env) <= Allowance(cfg, b.width)
  {
    ToIntInRange(BitsOf(b, env), false);
  }

  /** Where the width is not that of an integer, the shift has the unbounded product, for
      every amount in the net. */
  lemma NetShiftIsExact(cfg: Config, a: Expr, b: Expr, w: nat, s: bool, env: Env)
    requires !cfg.strict && cfg.integerWidth >= 1 && LosslessTree(a, s) && AllDefined(cfg, a, env)
    requires KnownNet(b, env) && Pow2(b.width) - 1 <= cfg.widthCap
    requires w >= Test(cfg, a, LOSSLESS).width + Allowance(cfg, b.width)
    ensures Holds(Ref(cfg, ShiftExpr(Shl, a, b), w, s, env), Exact(cfg, a, s, env) * Pow2(AmountIn(b, env)),
                  Test(cfg, a, LOSSLESS).width + Allowance(cfg, b.width), s)
  {
    var n, v := AmountIn(b, env), Test(cfg, a, LOSSLESS).width;
    AmountAllowed(cfg, b, env);
    WidthsAreExact(cfg, a, LOSSLESS, w, s, env);
    ProductFits(Exact(cfg, a, s, env), v, n, Allowance(cfg, b.width), s);
    ShiftedByValue(cfg, a, b, w, s, env, Exact(cfg, a, s, env));
  }
}
