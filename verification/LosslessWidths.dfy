/** The width calculated in EXPAND, LOSSLESS and UPSIZE mode is enough to evaluate an
    expression as if integers were unbounded. */
module LosslessWidths {
  import opened Vectors
  import opened VectorFacts
  import opened NetExprs
  import opened Exprs
  import opened Reference
  import opened ElabCorrect
  import opened SizingFacts
  import opened Pruning

  // ----- bitwise operators on unbounded integers -----

  function LowBit(x: int): Bit {
    if x % 2 == 1 then V1 else V0
  }

  function Magnitude(x: int): nat {
    if x < 0 then -x - 1 else x
  }

  /** A bitwise operator on infinite two's complement numbers. */
  function IntBits(op: BinOp, x: int, y: int): int
    requires IsBitwise(op)
    decreases Magnitude(x) + Magnitude(y)
  {
    var d := Digit(BitTable(op, LowBit(x), LowBit(y)));
    if Magnitude(x) == Magnitude(y) == 0 then -d else d + 2 * IntBits(op, x / 2, y / 2)
  }

  lemma IntBitsStep(op: BinOp, x: int, y: int)
    requires IsBitwise(op)
    ensures IntBits(op, x, y) == Digit(BitTable(op, LowBit(x), LowBit(y))) + 2 * IntBits(op, x / 2, y / 2)
  {
  }

  lemma ApplyBitsStep(op: BinOp, a: Bit, b: Bit, u: Vec, v: Vec)
    requires IsBitwise(op) && |u| == |v|
    ensures ApplyBits(op, [a] + u, [b] + v) == [BitTable(op, a, b)] + ApplyBits(op, u, v)
  {
  }

  lemma FromIntTail(x: int, w: nat)
    requires w > 0
    ensures FromInt(x, w) == [LowBit(x)] + FromInt(x / 2, w - 1)
  {
  }

  lemma {:induction false} BitsFromInt(op: BinOp, x: int, y: int, w: nat)
    requires IsBitwise(op)
    ensures ApplyBits(op, FromInt(x, w), FromInt(y, w)) == FromInt(IntBits(op, x, y), w)
    decreases w
  {
    if w > 0 {
      BitsFromInt(op, x / 2, y / 2, w - 1);
      IntBitsStep(op, x, y);
      FromIntTail(x, w);
      FromIntTail(y, w);
      ApplyBitsStep(op, LowBit(x), LowBit(y), FromInt(x / 2, w - 1), FromInt(y / 2, w - 1));
      FromIntStep(BitTable(op, LowBit(x), LowBit(y)), IntBits(op, x / 2, y / 2), w);
    }
  }

  // ----- ranges -----

  lemma RangeWidens(x: int, w: nat, w': nat, s: bool)
    requires InRange(x, w, s) && w <= w'
    ensures InRange(x, w', s)
  {
    if s { Pow2Monotone(w - 1, w' - 1); } else { Pow2Monotone(w, w'); }
  }

  lemma RangeOfSum(x: int, y: int, w: nat, s: bool)
    requires InRange(x, w, s) && InRange(y, w, s)
    ensures InRange(x + y, w + 1, s)
    ensures s ==> InRange(x - y, w + 1, s)
  {
    if s { assert Pow2(w) == 2 * Pow2(w - 1); }
  }

  lemma ProductBound(x: int, y: int, p: int, q: int)
    requires -p <= x <= p && -q <= y <= q
    ensures -(p * q) <= x * y <= p * q
  {
    assert (p - x) * (q + y) >= 0 && (p + x) * (q - y) >= 0;
    assert (p - x) * (q - y) >= 0 && (p + x) * (q + y) >= 0;
  }

  lemma RangeOfSignedProduct(x: int, y: int, v: nat, w: nat)
    requires InRange(x, v, true) && InRange(y, w, true)
    ensures InRange(x * y, v + w, true)
  {
    ProductBound(x, y, Pow2(v - 1), Pow2(w - 1));
    Pow2Sum(v - 1, w - 1);
    assert Pow2(v + w - 1) == 2 * Pow2(v + w - 2);
  }

  lemma {:induction false} ProductMonotone(x: int, y: int, k: nat)
    requires x <= y
    ensures x * k <= y * k
  {
    if k > 0 {
      ProductMonotone(x, y, k - 1);
      assert x * k == x * (k - 1) + x && y * k == y * (k - 1) + y;
    }
  }

  lemma NatProductBound(x: nat, y: nat, p: nat, q: nat)
    requires x < p && y < q
    ensures 0 <= x * y < p * q
  {
    ProductMonotone(0, x, y);
    ProductMonotone(x, p - 1, y);
    ProductMonotone(y, q - 1, p - 1);
    assert (p - 1) * y == y * (p - 1);
    assert (q - 1) * (p - 1) == p * q - p - q + 1;
  }

  lemma RangeOfUnsignedProduct(x: int, y: int, v: nat, w: nat)
    requires InRange(x, v, false) && InRange(y, w, false)
    ensures InRange(x * y, v + w, false)
  {
    Pow2Sum(v, w);
    NatProductBound(x, y, Pow2(v), Pow2(w));
  }

  lemma {:induction false} RangeOfBits(op: BinOp, x: int, y: int, w: nat, s: bool)
    requires IsBitwise(op) && (s || op.And? || op.Or? || op.Xor?)
    requires InRange(x, w, s) && InRange(y, w, s)
    ensures InRange(IntBits(op, x, y), w, s)
    decreases w
  {
    IntBitsStep(op, x, y);
    if s && w == 1 {
      assert Magnitude(x) == Magnitude(y) == 0;
    } else if w > 0 {
      assert !s || Pow2(w - 1) == 2 * Pow2(w - 2);
      RangeOfBits(op, x / 2, y / 2, w - 1, s);
    }
  }

  // ----- expressions without loss -----

  /** Trees whose leaves all have sign `s` and whose operators never need more than
      the calculated width. Comparisons and reductions are one-bit unsigned leaves. */
  predicate LosslessTree(e: Expr, s: bool) {
    match e
    case Number(bits, _, sg) => sg == s && |bits| >= 1
    case Net(_, w, sg, _) => sg == s && w >= 1
    case Unary(op, a) => if IsReduction(op) then !s else (op.Plus? || (op.BitNot? && s)) && LosslessTree(a, s)
    case Binary(op, a, b) =>
      && (op.Add? || op.Mul? || op.And? || op.Or? || op.Xor? || op.Min? || op.Max?
          || (s && (op.Sub? || op.Nor? || op.Nand? || op.Xnor?)))
      && LosslessTree(a, s) && LosslessTree(b, s)
    case Comp(_, _, _) => !s
    case ShiftExpr(_, _, _) => false
    case Ternary(_, a, b) => LosslessTree(a, s) && LosslessTree(b, s)
  }

  /** The value over unbounded integers. */
  function Exact(cfg: Config, e: Expr, s: bool, env: Env): int
    requires LosslessTree(e, s)
  {
    match e
    case Number(bits, _, _) => ToInt(bits, s)
    case Net(id, w, _, two) => ToInt(ReadSignal(env, id, w, two), s)
    case Unary(op, a) =>
      if IsReduction(op) then Digit(Reduce(op, Ref(cfg, a, SelfWidth(cfg, a), Sign(a), env)))
      else if op.Plus? then Exact(cfg, a, s, env)
      else -Exact(cfg, a, s, env) - 1
    case Binary(op, a, b) =>
      var x, y := Exact(cfg, a, s, env), Exact(cfg, b, s, env);
      if IsBitwise(op) then IntBits(op, x, y) else IntOp(op, x, y)
    case Comp(op, a, b) =>
      var cw, cs := CompWidth(cfg, a, b), Sign(a) && Sign(b);
      Digit(Compare(op, Ref(cfg, a, cw, cs, env), Ref(cfg, b, cw, cs, env), cs))
    case Ternary(c, a, b) =>
      if Truth(Ref(cfg, c, CondWidth(cfg, c), Sign(c), env)) == V1 then Exact(cfg, a, s, env)
      else Exact(cfg, b, s, env)
  }

  lemma {:induction false} LosslessTreeSign(e: Expr, s: bool)
    requires LosslessTree(e, s)
    ensures Sign(e) == s
  {
    match e {
      case Unary(op, a) => if !IsReduction(op) { LosslessTreeSign(a, s); }
      case Binary(_, a, b) => LosslessTreeSign(a, s); LosslessTreeSign(b, s);
      case Ternary(_, a, b) => LosslessTreeSign(a, s); LosslessTreeSign(b, s);
      case _ =>
    }
  }

  /** `x` fits in `n` bits and is what `v` holds. */
  ghost predicate Holds(v: Vec, x: int, n: nat, s: bool) {
    InRange(x, n, s) && v == FromInt(x, |v|)
  }

  lemma BitHolds(b: Bit, w: nat)
    requires Known(b) && w >= 1
    ensures Holds(Resize([b], w, false), Digit(b), 1, false)
  {
    ResizeIsFromInt([b], w, false);
    assert Pow2(1) == 2 * Pow2(0);
  }

  lemma LeafHolds(v: Vec, n: nat, w: nat, s: bool)
    requires Defined(v) && 1 <= |v| <= n <= w
    ensures Holds(Resize(v, w, s), ToInt(v, s), n, s)
  {
    ResizeIsFromInt(v, w, s);
    ToIntInRange(v, s);
    RangeWidens(ToInt(v, s), |v|, n, s);
  }

  lemma InvertHolds(u: Vec, x: int, n: nat)
    requires Holds(u, x, n, true)
    ensures Holds(ApplyUnary(BitNot, u, true), -x - 1, n, true)
  {
    InvertFromInt(x, |u|);
  }

  lemma {:induction false} InvertFromInt(x: int, w: nat)
    ensures ApplyUnary(BitNot, FromInt(x, w), true) == FromInt(-x - 1, w)
    decreases w
  {
    if w > 0 {
      InvertFromInt(x / 2, w - 1);
      var u, d := FromInt(x, w), Invert(LowBit(x));
      assert u[1..] == FromInt(x / 2, w - 1);
      InvertTail(u);
      assert -x - 1 == Digit(d) + 2 * (-(x / 2) - 1);
      FromIntStep(d, -(x / 2) - 1, w);
    }
  }

  lemma InvertTail(u: Vec)
    requires |u| > 0
    ensures ApplyUnary(BitNot, u, true) == [Invert(u[0])] + ApplyUnary(BitNot, u[1..], true)
  {
  }

  /** One binary operator: operands that fit give a result that fits the grown width. */
  lemma BinaryHolds(op: BinOp, u: Vec, v: Vec, x: int, y: int, m: nat, n: nat, r: nat, s: bool)
    requires op.Add? || op.Mul? || op.And? || op.Or? || op.Xor? || op.Min? || op.Max?
      || (s && (op.Sub? || op.Nor? || op.Nand? || op.Xnor?))
    requires Holds(u, x, m, s) && Holds(v, y, n, s) && |u| == |v| && m <= |u| && n <= |u|
    requires r == if op.Add? || op.Sub? then Larger(m, n) + 1 else if op.Mul? then m + n else Larger(m, n)
    ensures Holds(Apply(op, u, v, s), if IsBitwise(op) then IntBits(op, x, y) else IntOp(op, x, y), r, s)
  {
    RangeWidens(x, m, Larger(m, n), s);
    RangeWidens(y, n, Larger(m, n), s);
    if IsBitwise(op) {
      BitsFromInt(op, x, y, |u|);
      RangeOfBits(op, x, y, r, s);
    } else if IsRing(op) {
      ApplyFromInt(op, x, y, |u|, s);
      if op.Mul? && s { RangeOfSignedProduct(x, y, m, n); }
      else if op.Mul? { RangeOfUnsignedProduct(x, y, m, n); }
      else { RangeOfSum(x, y, Larger(m, n), s); }
    } else {
      RangeWidens(x, m, |u|, s);
      RangeWidens(y, n, |u|, s);
      ToIntOfFromInt(x, |u|, s);
      ToIntOfFromInt(y, |u|, s);
    }
  }

  predicate Expanding(m: Mode) {
    Rank(m) >= Rank(EXPAND)
  }

  /** What `WidthsAreExact` states, for the widths of one test. */
  ghost predicate ExactAt(cfg: Config, e: Expr, n: nat, w: nat, s: bool, env: Env)
    requires LosslessTree(e, s)
  {
    n >= 1 && Holds(Ref(cfg, e, w, s, env), Exact(cfg, e, s, env), n, s)
  }

  lemma BinaryIsExact(cfg: Config, op: BinOp, a: Expr, b: Expr, m: Mode, w: nat, s: bool, env: Env)
    requires !cfg.strict && Expanding(m) && LosslessTree(Binary(op, a, b), s)
    requires ExactAt(cfg, a, TestPair(cfg, a, b, m).a.width, w, s, env)
    requires ExactAt(cfg, b, TestPair(cfg, a, b, m).b.width, w, s, env)
    requires w >= Test(cfg, Binary(op, a, b), m).width
    ensures ExactAt(cfg, Binary(op, a, b), Test(cfg, Binary(op, a, b), m).width, w, s, env)
  {
    var p := TestPair(cfg, a, b, m);
    RetestPairSuffices(cfg, a, b, m);
    BinaryHolds(op, Ref(cfg, a, w, s, env), Ref(cfg, b, w, s, env), Exact(cfg, a, s, env),
                Exact(cfg, b, s, env), p.a.width, p.b.width, Test(cfg, Binary(op, a, b), m).width, s);
  }

  lemma TernaryIsExact(cfg: Config, c: Expr, a: Expr, b: Expr, m: Mode, w: nat, s: bool, env: Env)
    requires LosslessTree(Ternary(c, a, b), s) && AllDefined(cfg, Ternary(c, a, b), env)
    requires ExactAt(cfg, b, TestPair(cfg, b, a, m).a.width, w, s, env)
    requires ExactAt(cfg, a, TestPair(cfg, b, a, m).b.width, w, s, env)
    ensures ExactAt(cfg, Ternary(c, a, b), Test(cfg, Ternary(c, a, b), m).width, w, s, env)
  {
    var p := TestPair(cfg, b, a, m);
    RangeWidens(Exact(cfg, b, s, env), p.a.width, Larger(p.a.width, p.b.width), s);
    RangeWidens(Exact(cfg, a, s, env), p.b.width, Larger(p.a.width, p.b.width), s);
  }

  lemma OneBitIsExact(cfg: Config, e: Expr, w: nat, env: Env)
    requires e.Comp? || (e.Unary? && IsReduction(e.uop))
    requires AllDefined(cfg, e, env) && w >= 1
    ensures ExactAt(cfg, e, 1, w, false, env)
  {
    if e.Comp? {
      var cw, cs := CompWidth(cfg, e.a, e.b), Sign(e.a) && Sign(e.b);
      BitHolds(Compare(e.cop, Ref(cfg, e.a, cw, cs, env), Ref(cfg, e.b, cw, cs, env), cs), w);
    } else {
      BitHolds(Reduce(e.uop, Ref(cfg, e.a, SelfWidth(cfg, e.a), Sign(e.a), env)), w);
    }
  }

  lemma UnaryIsExact(cfg: Config, op: UnOp, a: Expr, n: nat, w: nat, s: bool, env: Env)
    requires !IsReduction(op) && LosslessTree(Unary(op, a), s) && ExactAt(cfg, a, n, w, s, env)
    ensures ExactAt(cfg, Unary(op, a), n, w, s, env)
  {
    if op.BitNot? { InvertHolds(Ref(cfg, a, w, s, env), Exact(cfg, a, s, env), n); }
  }

  /** Lossless widths are exact: sized in EXPAND mode or above, the returned width
      holds the unbounded value, and evaluation modulo any width from there on gives
      exactly that value. */
  lemma {:induction false} WidthsAreExact(cfg: Config, e: Expr, m: Mode, w: nat, s: bool, env: Env)
    requires !cfg.strict && cfg.integerWidth >= 1 && Expanding(m)
    requires LosslessTree(e, s) && AllDefined(cfg, e, env)
    requires w >= Test(cfg, e, m).width
    ensures ExactAt(cfg, e, Test(cfg, e, m).width, w, s, env)
    decreases Size(e), 0
  {
    var n := Test(cfg, e, m).width;
    match e {
      case Number(bits, _, _) => LeafHolds(bits, n, w, s);
      case Net(id, width, _, two) => LeafHolds(ReadSignal(env, id, width, two), n, w, s);
      case Unary(op, a) =>
        if IsReduction(op) {
          OneBitIsExact(cfg, e, w, env);
        } else {
          WidthsAreExact(cfg, a, m, w, s, env);
          UnaryIsExact(cfg, op, a, n, w, s, env);
        }
      case Comp(_, _, _) => OneBitIsExact(cfg, e, w, env);
      case Binary(op, a, b) =>
        PairWidthFits(cfg, op, a, b, m);
        PairIsExact(cfg, a, b, m, w, s, env);
        BinaryIsExact(cfg, op, a, b, m, w, s, env);
      case Ternary(c, a, b) =>
        PairIsExact(cfg, b, a, m, w, s, env);
        TernaryIsExact(cfg, c, a, b, m, w, s, env);
    }
  }

  lemma {:induction false} PairIsExact(cfg: Config, a: Expr, b: Expr, m: Mode, w: nat, s: bool, env: Env)
    requires !cfg.strict && cfg.integerWidth >= 1 && Expanding(m)
    requires LosslessTree(a, s) && AllDefined(cfg, a, env)
    requires LosslessTree(b, s) && AllDefined(cfg, b, env)
    requires w >= TestPair(cfg, a, b, m).a.width && w >= TestPair(cfg, a, b, m).b.width
    ensures ExactAt(cfg, a, TestPair(cfg, a, b, m).a.width, w, s, env)
    ensures ExactAt(cfg, b, TestPair(cfg, a, b, m).b.width, w, s, env)
    decreases Size(a) + Size(b), 1
  {
    var rb := Test(cfg, b, m);
    var ra := Test(cfg, a, rb.mode);
    OneRetestSuffices(cfg, b, m);
    OneRetestSuffices(cfg, a, rb.mode);
    WidthsAreExact(cfg, a, rb.mode, w, s, env);
    if Lossless(ra.mode) && !Lossless(rb.mode) {
      WidthsAreExact(cfg, b, ra.mode, w, s, env);
    } else {
      WidthsAreExact(cfg, b, m, w, s, env);
    }
  }

  /** The net expression elaborated at a lossless width, or wider, holds the exact
      value in every environment of defined operands. */
  lemma LosslessElaboration(cfg: Config, e: Expr, m: Mode, w: nat, s: bool, env: Env)
    requires !cfg.strict && cfg.integerWidth >= 1 && Expanding(m)
    requires LosslessTree(e, s) && AllDefined(cfg, e, env)
    requires w >= Test(cfg, e, m).width && Fits(cfg, e, w) && LiteralsKept(cfg, e, w, s)
    ensures Typed(Elab(cfg, e, w, s))
    ensures ToInt(Eval(Elab(cfg, e, w, s), env), s) == Exact(cfg, e, s, env)
  {
    LosslessTreeSign(e, s);
    ElabMeans(cfg, e, w, s, env);
    WidthsAreExact(cfg, e, m, w, s, env);
    RangeWidens(Exact(cfg, e, s, env), Test(cfg, e, m).width, w, s);
    ToIntOfFromInt(Exact(cfg, e, s, env), w, s);
  }

  /** A comparison operator on unbounded integers. */
  predicate IntCompare(op: CompOp, x: int, y: int) {
    match op
    case Eq => x == y
    case Ne => x != y
    case CaseEq => x == y
    case CaseNe => x != y
    case Lt => x < y
    case Le => x <= y
    case Gt => x > y
    case Ge => x >= y
  }

  lemma CompareIsExact(op: CompOp, u: Vec, v: Vec, x: int, y: int, s: bool)
    requires |u| == |v| && Holds(u, x, |u|, s) && Holds(v, y, |u|, s)
    ensures Compare(op, u, v, s) == ToBit(IntCompare(op, x, y))
  {
    ToIntOfFromInt(x, |u|, s);
    ToIntOfFromInt(y, |u|, s);
    assert u == v <==> x == y;
    if u != v {
      var i :| 0 <= i < |u| && u[i] != v[i];
      assert Known(u[i]) && Known(v[i]);
    }
  }

  /** Operands of a comparison that ends in a lossless mode are compared as unbounded
      integers, whether or not one more bit was added to their width. */
  lemma LosslessComparison(cfg: Config, op: CompOp, a: Expr, b: Expr, s: bool, env: Env)
    requires !cfg.strict && cfg.integerWidth >= 1
    requires LosslessTree(a, s) && LosslessTree(b, s) && AllDefined(cfg, a, env) && AllDefined(cfg, b, env)
    requires Lossless(TestPair(cfg, a, b, SIZED).mode)
    ensures var w := CompWidth(cfg, a, b);
      Compare(op, Ref(cfg, a, w, s, env), Ref(cfg, b, w, s, env), s)
      == ToBit(IntCompare(op, Exact(cfg, a, s, env), Exact(cfg, b, s, env)))
  {
    var w := CompWidth(cfg, a, b);
    var p := TestPair(cfg, a, b, LOSSLESS);
    RetestPairSuffices(cfg, a, b, SIZED);
    PairIsExact(cfg, a, b, LOSSLESS, w, s, env);
    RangeWidens(Exact(cfg, a, s, env), p.a.width, w, s);
    RangeWidens(Exact(cfg, b, s, env), p.b.width, w, s);
    CompareIsExact(op, Ref(cfg, a, w, s, env), Ref(cfg, b, w, s, env), Exact(cfg, a, s, env), Exact(cfg, b, s, env), s);
  }

  /** Unary minus keeps the width of its operand, and so is exact for every value of
      that width but the most negative one. */
  lemma NegationExact(x: int, n: nat)
    requires InRange(x, n, true)
    ensures ToInt(ApplyUnary(Neg, FromInt(x, n), true), true) == -x <==> x != -Pow2(n - 1)
  {
    NegFromInt(x, n, true);
    if x == -Pow2(n - 1) {
      ToIntInRange(FromInt(-x, n), true);
    } else {
      ToIntOfFromInt(-x, n, true);
    }
  }
}
