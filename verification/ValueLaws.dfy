/** What an assignment stores, as integers: laws on the values of nets that name neither
    widths nor signs of the elaborator. */
module ValueLaws {
  import opened Vectors
  import opened VectorFacts
  import opened NetExprs
  import opened Exprs
  import opened Reference
  import opened SizingFacts
  import opened Pruning
  import opened LosslessWidths

  /** An assignment of `e` to `target` bits stores the low bits of `x`. */
  ghost predicate Stores(cfg: Config, e: Expr, target: nat, env: Env, x: int) {
    var n := AssignElab(cfg, e, target);
    Typed(n) && NetWidth(n) >= target && Eval(n, env)[..target] == FromInt(x, target)
  }

  /** A net with a value of known bits. */
  ghost predicate KnownNet(e: Expr, env: Env) {
    e.Net? && 0 < e.width < UINT_MAX && Defined(ReadSignal(env, e.id, e.width, e.twoState))
  }

  function BitsOf(e: Expr, env: Env): Vec
    requires e.Net?
  {
    ReadSignal(env, e.id, e.width, e.twoState)
  }

  /** The integer a net holds, read with this sign. */
  function IntOf(e: Expr, env: Env, s: bool): int
    requires e.Net?
  {
    ToInt(BitsOf(e, env), s)
  }

  lemma NetValue(cfg: Config, e: Expr, w: nat, s: bool, env: Env)
    requires KnownNet(e, env)
    ensures Ref(cfg, e, w, s, env) == FromInt(IntOf(e, env, s), w)
  {
    ResizeIsFromInt(BitsOf(e, env), w, s);
  }

  lemma StoresLowBits(cfg: Config, e: Expr, target: nat, env: Env, w: nat, s: bool, x: int)
    requires target > 0 && ShortLiterals(cfg, e) && w == Larger(StandardWidth(cfg, e), target)
    requires s == (false !in ContextSigns(e))
    requires Fits(cfg, e, w) && LiteralsKept(cfg, e, w, s)
    requires StandardWidth(cfg, e) > target ==> PruningSafe(cfg, e, env)
    requires Ref(cfg, e, w, s, env) == FromInt(x, w)
    ensures Stores(cfg, e, target, env, x)
  {
    AssignmentIsStandard(cfg, e, target, env);
    FromIntPrefix(x, w, target);
  }

  // ----- shifts -----

  lemma HalvedFromInt(u: Vec, s: bool)
    requires Defined(u) && |u| > 0
    ensures u[1..] + [if s then u[|u| - 1] else V0] == FromInt(ToInt(u, s) / 2, |u|)
  {
    var x, top := ToInt(u, s), if s then u[|u| - 1] else V0;
    FromIntOfToInt(u, s);
    assert u == [if x % 2 == 1 then V1 else V0] + FromInt(x / 2, |u| - 1);
    FromIntPrefix(x / 2, |u|, |u| - 1);
    TopOfHalf(u, s);
    assert FromInt(x / 2, |u|) == FromInt(x / 2, |u|)[..|u| - 1] + [FromInt(x / 2, |u|)[|u| - 1]];
  }

  lemma {:induction false} TopOfHalf(u: Vec, s: bool)
    requires Defined(u) && |u| > 0
    ensures FromInt(ToInt(u, s) / 2, |u|)[|u| - 1] == if s then u[|u| - 1] else V0
  {
    if |u| > 1 {
      var x, rest := ToInt(u, s), u[1..];
      assert x / 2 == ToInt(rest, s);
      TopOfHalf(rest, s);
      assert FromInt(x / 2, |u|)[1..] == FromInt(x / 2 / 2, |u| - 1);
    }
  }

  lemma HalvedPower(x: int, n: nat)
    requires n > 0
    ensures x / 2 / Pow2(n - 1) == x / Pow2(n)
  {
    var p := Pow2(n - 1);
    var q, r := x / 2 / p, x / 2 % p;
    assert x == 2 * (x / 2) + x % 2 && x / 2 == q * p + r;
    assert q * (2 * p) == 2 * (q * p);
    QuotientIs(x, 2 * p, q, 2 * r + x % 2);
  }

  lemma HalfInRange(u: Vec, s: bool)
    requires Defined(u) && |u| > 0
    ensures InRange(ToInt(u, s) / 2, |u|, s)
  {
    ToIntInRange(u, s);
  }

  /** Shifting right by one divides by two, rounding down. */
  lemma RightByOne(u: Vec, s: bool) returns (v: Vec)
    requires Defined(u) && |u| > 0
    ensures v == u[1..] + [if s then u[|u| - 1] else V0] && Defined(v) && |v| == |u|
    ensures ToInt(v, s) == ToInt(u, s) / 2 && v[|v| - 1] == if s then u[|u| - 1] else V0
  {
    v := u[1..] + [if s then u[|u| - 1] else V0];
    HalvedFromInt(u, s);
    HalfInRange(u, s);
    ToIntOfFromInt(ToInt(u, s) / 2, |u|, s);
  }

  lemma RightInSteps(u: Vec, v: Vec, n: nat, s: bool)
    requires |u| > 0 && n > 0 && v == u[1..] + [if s then u[|u| - 1] else V0]
    ensures ShiftBy(Ashr, u, n, s) == ShiftBy(Ashr, v, n - 1, s)
  {
    forall i | 0 <= i < |u| ensures ShiftBy(Ashr, u, n, s)[i] == ShiftBy(Ashr, v, n - 1, s)[i] {
    }
  }

  lemma {:induction false} RightIsQuotient(u: Vec, n: nat, s: bool)
    requires Defined(u) && |u| > 0
    ensures ShiftBy(Ashr, u, n, s) == FromInt(ToInt(u, s) / Pow2(n), |u|)
    decreases n
  {
    if n == 0 {
      FromIntOfToInt(u, s);
    } else {
      var v := RightByOne(u, s);
      RightInSteps(u, v, n, s);
      RightIsQuotient(v, n - 1, s);
      HalvedPower(ToInt(u, s), n);
    }
  }

  lemma LeftByOne(x: int, w: nat)
    requires w > 0
    ensures [V0] + FromInt(x, w)[..w - 1] == FromInt(2 * x, w)
  {
    FromIntPrefix(x, w, w - 1);
    FromIntStep(V0, x, w);
  }

  lemma LeftInSteps(u: Vec, n: nat, s: bool)
    requires |u| > 0 && n > 0
    ensures ShiftBy(Shl, u, n, s) == ShiftBy(Shl, [V0] + u[..|u| - 1], n - 1, s)
  {
  }

  lemma {:induction false} LeftIsProduct(x: int, w: nat, n: nat, s: bool)
    requires w > 0
    ensures ShiftBy(Shl, FromInt(x, w), n, s) == FromInt(x * Pow2(n), w)
    decreases n
  {
    if n > 0 {
      LeftInSteps(FromInt(x, w), n, s);
      LeftByOne(x, w);
      LeftIsProduct(2 * x, w, n - 1, s);
      assert 2 * x * Pow2(n - 1) == x * (2 * Pow2(n - 1));
    }
  }

  /** The amount that a net says, read as an unsigned number. */
  function AmountIn(e: Expr, env: Env): nat
    requires e.Net?
  {
    ToIntUnsigned(BitsOf(e, env));
    IntOf(e, env, false)
  }

  lemma AmountOfNet(cfg: Config, b: Expr, env: Env)
    requires KnownNet(b, env)
    ensures Ref(cfg, b, SelfWidth(cfg, b), Sign(b), env) == BitsOf(b, env)
  {
    assert Resize(BitsOf(b, env), b.width, Sign(b)) == BitsOf(b, env);
  }

  lemma NetTree(cfg: Config, a: Expr, b: Expr, op: ShiftOp, target: nat, env: Env)
    requires KnownNet(a, env) && KnownNet(b, env) && target > 0
    ensures var e, w := ShiftExpr(op, a, b), Larger(a.width, target);
      && ShortLiterals(cfg, e) && StandardWidth(cfg, e) == a.width && (false !in ContextSigns(e)) == a.hasSign
      && Fits(cfg, e, w) && LiteralsKept(cfg, e, w, a.hasSign) && PruningSafe(cfg, e, env)
  {
    AmountOfNet(cfg, b, env);
  }

  /** `a >>> b` of a signed net is the integer floor of a / 2^b, and of an unsigned net too,
      whatever the sign of the amount. */
  lemma AshrIsFloor(cfg: Config, a: Expr, b: Expr, target: nat, env: Env)
    requires KnownNet(a, env) && KnownNet(b, env) && target > 0
    ensures Stores(cfg, ShiftExpr(Ashr, a, b), target, env, IntOf(a, env, a.hasSign) / Pow2(AmountIn(b, env)))
  {
    var e, w, x := ShiftExpr(Ashr, a, b), Larger(a.width, target), IntOf(a, env, a.hasSign);
    NetTree(cfg, a, b, Ashr, target, env);
    NetValue(cfg, a, w, a.hasSign, env);
    AmountOfNet(cfg, b, env);
    NetInRange(a, w, a.hasSign, env);
    RightIsQuotient(FromInt(x, w), AmountIn(b, env), a.hasSign);
    StoresLowBits(cfg, e, target, env, w, a.hasSign, x / Pow2(AmountIn(b, env)));
  }

  lemma NetInRange(a: Expr, w: nat, s: bool, env: Env)
    requires KnownNet(a, env) && w >= a.width
    ensures ToInt(FromInt(IntOf(a, env, s), w), s) == IntOf(a, env, s)
  {
    ToIntInRange(BitsOf(a, env), s);
    RangeWidens(IntOf(a, env, s), a.width, w, s);
    ToIntOfFromInt(IntOf(a, env, s), w, s);
  }

  /** `a >> b` of an unsigned net divides too. */
  lemma ShrIsQuotient(cfg: Config, a: Expr, b: Expr, target: nat, env: Env)
    requires KnownNet(a, env) && KnownNet(b, env) && target > 0 && !a.hasSign
    ensures Stores(cfg, ShiftExpr(Shr, a, b), target, env, IntOf(a, env, false) / Pow2(AmountIn(b, env)))
  {
    var e, w, x, n := ShiftExpr(Shr, a, b), Larger(a.width, target), IntOf(a, env, false), AmountIn(b, env);
    NetTree(cfg, a, b, Shr, target, env);
    NetValue(cfg, a, w, false, env);
    AmountOfNet(cfg, b, env);
    NetInRange(a, w, false, env);
    RightIsQuotient(FromInt(x, w), n, false);
    assert ShiftBy(Shr, FromInt(x, w), n, false) == ShiftBy(Ashr, FromInt(x, w), n, false);
    StoresLowBits(cfg, e, target, env, w, false, x / Pow2(n));
  }

  /** `a << b` multiplies by 2^b. */
  lemma ShlIsProduct(cfg: Config, a: Expr, b: Expr, target: nat, env: Env)
    requires KnownNet(a, env) && KnownNet(b, env) && target > 0
    ensures Stores(cfg, ShiftExpr(Shl, a, b), target, env, IntOf(a, env, a.hasSign) * Pow2(AmountIn(b, env)))
  {
    var e, w, x, n := ShiftExpr(Shl, a, b), Larger(a.width, target), IntOf(a, env, a.hasSign), AmountIn(b, env);
    NetTree(cfg, a, b, Shl, target, env);
    NetValue(cfg, a, w, a.hasSign, env);
    AmountOfNet(cfg, b, env);
    LeftIsProduct(x, w, n, a.hasSign);
    StoresLowBits(cfg, e, target, env, w, a.hasSign, x * Pow2(n));
  }

  // ----- operands of different signs -----

  /** A sum, difference or product of two nets is that of their integers, read as signed
      numbers only if both nets are signed; otherwise both are extended with 0. */
  lemma ArithmeticOfNets(cfg: Config, op: BinOp, a: Expr, b: Expr, target: nat, env: Env)
    requires KnownNet(a, env) && KnownNet(b, env) && target > 0 && IsRing(op)
    ensures var s := a.hasSign && b.hasSign;
      Stores(cfg, Binary(op, a, b), target, env, IntOp(op, IntOf(a, env, s), IntOf(b, env, s)))
  {
    var s, w := a.hasSign && b.hasSign, Larger(Larger(a.width, b.width), target);
    NetValue(cfg, a, w, s, env);
    NetValue(cfg, b, w, s, env);
    ApplyFromInt(op, IntOf(a, env, s), IntOf(b, env, s), w, s);
    StoresLowBits(cfg, Binary(op, a, b), target, env, w, s, IntOp(op, IntOf(a, env, s), IntOf(b, env, s)));
  }

  /** A conditional extends its clause by the signs of both. */
  lemma ConditionalOfNets(cfg: Config, c: Expr, a: Expr, b: Expr, target: nat, env: Env)
    requires KnownNet(c, env) && KnownNet(a, env) && KnownNet(b, env) && target > 0
    ensures var s := a.hasSign && b.hasSign;
      Stores(cfg, Ternary(c, a, b), target, env,
             if V1 in BitsOf(c, env) then IntOf(a, env, s) else IntOf(b, env, s))
  {
    var s, w := a.hasSign && b.hasSign, Larger(Larger(a.width, b.width), target);
    NetValue(cfg, a, w, s, env);
    NetValue(cfg, b, w, s, env);
    SelfIsStandard(cfg, c);
    AmountOfNet(cfg, c, env);
    StoresLowBits(cfg, Ternary(c, a, b), target, env, w, s,
                  if V1 in BitsOf(c, env) then IntOf(a, env, s) else IntOf(b, env, s));
  }

  /** A comparison of two nets compares their integers, read as signed numbers only if both
      nets are signed; the result is 1 or 0. */
  lemma ComparisonOfNets(cfg: Config, op: CompOp, a: Expr, b: Expr, target: nat, env: Env)
    requires KnownNet(a, env) && KnownNet(b, env) && target > 0
    ensures var s := a.hasSign && b.hasSign;
      Stores(cfg, Comp(op, a, b), target, env, if IntCompare(op, IntOf(a, env, s), IntOf(b, env, s)) then 1 else 0)
  {
    var s := a.hasSign && b.hasSign;
    ComparedNets(cfg, op, a, b, env);
    BitValue(ToBit(IntCompare(op, IntOf(a, env, s), IntOf(b, env, s))), target);
    StoresLowBits(cfg, Comp(op, a, b), target, env, target, false,
                  if IntCompare(op, IntOf(a, env, s), IntOf(b, env, s)) then 1 else 0);
  }

  lemma BitValue(b: Bit, w: nat)
    requires Known(b)
    ensures Resize([b], w, false) == FromInt(Digit(b), w)
  {
    ResizeIsFromInt([b], w, false);
  }

  lemma ComparedNets(cfg: Config, op: CompOp, a: Expr, b: Expr, env: Env)
    requires KnownNet(a, env) && KnownNet(b, env)
    ensures var w, s := Larger(a.width, b.width), a.hasSign && b.hasSign;
      && CompWidth(cfg, a, b) == w
      && Compare(op, Ref(cfg, a, w, s, env), Ref(cfg, b, w, s, env), s)
         == ToBit(IntCompare(op, IntOf(a, env, s), IntOf(b, env, s)))
  {
    var w, s := Larger(a.width, b.width), a.hasSign && b.hasSign;
    ComparedIsStandard(cfg, a, b);
    NetValue(cfg, a, w, s, env);
    NetValue(cfg, b, w, s, env);
    ToIntInRange(BitsOf(a, env), s);
    ToIntInRange(BitsOf(b, env), s);
    RangeWidens(IntOf(a, env, s), a.width, w, s);
    RangeWidens(IntOf(b, env, s), b.width, w, s);
    CompareIsExact(op, Ref(cfg, a, w, s, env), Ref(cfg, b, w, s, env), IntOf(a, env, s), IntOf(b, env, s), s);
  }

  lemma ComparisonTree(cfg: Config, c: Expr, op: CompOp, a: Expr, b: Expr, target: nat, env: Env)
    requires KnownNet(c, env) && KnownNet(a, env) && KnownNet(b, env) && target > 0
    ensures var e, w := Binary(Add, c, Comp(op, a, b)), Larger(c.width, target);
      && ShortLiterals(cfg, e) && StandardWidth(cfg, e) == c.width && false in ContextSigns(e)
      && Fits(cfg, e, w) && LiteralsKept(cfg, e, w, false) && PruningSafe(cfg, e, env)
  {
    ComparedNets(cfg, op, a, b, env);
    assert ContextSigns(Binary(Add, c, Comp(op, a, b))) == [c.hasSign] + [false];
  }

  lemma BitSum(cfg: Config, c: Expr, e: Expr, bit: Bit, w: nat, env: Env)
    requires KnownNet(c, env) && Known(bit) && Ref(cfg, e, w, false, env) == Resize([bit], w, false)
    ensures Ref(cfg, Binary(Add, c, e), w, false, env)
         == FromInt(IntOf(c, env, false) + if bit == V1 then 1 else 0, w)
  {
    NetValue(cfg, c, w, false, env);
    BitValue(bit, w);
    ApplyFromInt(Add, IntOf(c, env, false), Digit(bit), w, false);
  }

  lemma ComparisonSum(cfg: Config, c: Expr, op: CompOp, a: Expr, b: Expr, w: nat, env: Env)
    requires KnownNet(c, env) && KnownNet(a, env) && KnownNet(b, env)
    ensures var s := a.hasSign && b.hasSign;
      Ref(cfg, Binary(Add, c, Comp(op, a, b)), w, false, env)
      == FromInt(IntOf(c, env, false) + if IntCompare(op, IntOf(a, env, s), IntOf(b, env, s)) then 1 else 0, w)
  {
    var s := a.hasSign && b.hasSign;
    var bit := ToBit(IntCompare(op, IntOf(a, env, s), IntOf(b, env, s)));
    ComparedNets(cfg, op, a, b, env);
    BitSum(cfg, c, Comp(op, a, b), bit, w, env);
  }

  /** A comparison is unsigned: added to a signed net, it makes the net unsigned too. */
  lemma SumWithComparison(cfg: Config, c: Expr, op: CompOp, a: Expr, b: Expr, target: nat, env: Env)
    requires KnownNet(c, env) && KnownNet(a, env) && KnownNet(b, env) && target > 0
    ensures var s := a.hasSign && b.hasSign;
      Stores(cfg, Binary(Add, c, Comp(op, a, b)), target, env,
             IntOf(c, env, false) + if IntCompare(op, IntOf(a, env, s), IntOf(b, env, s)) then 1 else 0)
  {
    var s, w := a.hasSign && b.hasSign, Larger(c.width, target);
    ComparisonTree(cfg, c, op, a, b, target, env);
    ComparisonSum(cfg, c, op, a, b, w, env);
    StoresLowBits(cfg, Binary(Add, c, Comp(op, a, b)), target, env, w, false,
                  IntOf(c, env, false) + if IntCompare(op, IntOf(a, env, s), IntOf(b, env, s)) then 1 else 0);
  }

  lemma ReductionTree(cfg: Config, c: Expr, op: UnOp, a: Expr, target: nat, env: Env)
    requires KnownNet(c, env) && KnownNet(a, env) && target > 0 && IsReduction(op)
    ensures var e, w := Binary(Add, c, Unary(op, a)), Larger(c.width, target);
      && ShortLiterals(cfg, e) && StandardWidth(cfg, e) == c.width && false in ContextSigns(e)
      && Fits(cfg, e, w) && LiteralsKept(cfg, e, w, false) && PruningSafe(cfg, e, env)
  {
    AmountOfNet(cfg, a, env);
    ReduceKnown(op, BitsOf(a, env));
    assert ContextSigns(Binary(Add, c, Unary(op, a))) == [c.hasSign] + [false];
  }

  lemma ReductionSum(cfg: Config, c: Expr, op: UnOp, a: Expr, w: nat, env: Env)
    requires KnownNet(c, env) && KnownNet(a, env) && IsReduction(op)
    ensures Ref(cfg, Binary(Add, c, Unary(op, a)), w, false, env)
         == FromInt(IntOf(c, env, false) + if Reduce(op, BitsOf(a, env)) == V1 then 1 else 0, w)
  {
    var bit := Reduce(op, BitsOf(a, env));
    AmountOfNet(cfg, a, env);
    ReduceKnown(op, BitsOf(a, env));
    BitSum(cfg, c, Unary(op, a), bit, w, env);
  }

  /** So is a reduction. */
  lemma SumWithReduction(cfg: Config, c: Expr, op: UnOp, a: Expr, target: nat, env: Env)
    requires KnownNet(c, env) && KnownNet(a, env) && target > 0 && IsReduction(op)
    ensures Stores(cfg, Binary(Add, c, Unary(op, a)), target, env,
                   IntOf(c, env, false) + if Reduce(op, BitsOf(a, env)) == V1 then 1 else 0)
  {
    ReductionTree(cfg, c, op, a, target, env);
    ReductionSum(cfg, c, op, a, Larger(c.width, target), env);
    StoresLowBits(cfg, Binary(Add, c, Unary(op, a)), target, env, Larger(c.width, target), false,
                  IntOf(c, env, false) + if Reduce(op, BitsOf(a, env)) == V1 then 1 else 0);
  }
}
