/** The operators that the pruning guard misses: for `max`, `min` and `abs` an assignment
    can store other bits than the value at the full width has. */
module PruningBreaks {
  import opened Vectors
  import opened VectorFacts
  import opened NetExprs
  import opened Exprs
  import opened Reference
  import opened Pruning

  /** What an assignment to `target` bits stores is not the low bits of the value at the
      full width. */
  ghost predicate StoresOther(cfg: Config, e: Expr, target: nat, env: Env) {
    var n := AssignElab(cfg, e, target);
    && Typed(n) && NetWidth(n) >= target && FullWidth(cfg, e, target) >= target
    && Eval(n, env)[..target] != Ref(cfg, e, FullWidth(cfg, e, target), Sign(e), env)[..target]
  }

  lemma PrunedIsOther(cfg: Config, e: Expr, x: int, y: int, env: Env)
    requires PrunedWidth(cfg, e, 4) == 4 && FullWidth(cfg, e, 4) == cfg.integerWidth >= 4
    requires Fits(cfg, e, 4) && LiteralsKept(cfg, e, 4, Sign(e))
    requires Ref(cfg, e, 4, Sign(e), env) == FromInt(x, 4)
    requires Ref(cfg, e, cfg.integerWidth, Sign(e), env) == FromInt(y, cfg.integerWidth)
    requires FromInt(x, 4) != FromInt(y, 4)
    ensures StoresOther(cfg, e, 4, env)
  {
    AssignmentStoresPruned(cfg, e, 4, env);
    FromIntPrefix(y, cfg.integerWidth, 4);
  }

  lemma SixteenFits(w: nat)
    requires w >= 5
    ensures Pow2(4) == 16 && Pow2(w) >= 32 && Pow2(w - 1) >= 16
  {
    assert Pow2(2) == 4 && Pow2(3) == 8 && Pow2(4) == 16;
    Pow2Monotone(5, w);
    Pow2Monotone(4, w - 1);
  }

  lemma LeafValue(x: int, w: nat, s: bool)
    requires 0 <= x < (if s then 8 else 16) && Pow2(4) == 16
    ensures Resize(FromInt(x, 4), w, s) == FromInt(x, w)
  {
    assert Pow2(4) == 2 * Pow2(3);
    ToIntOfFromInt(x, 4, s);
    ResizeIsFromInt(FromInt(x, 4), w, s);
  }

  // ----- `max` and `min` -----

  /** a + b with 4-bit operands. */
  function SumTree(): Expr {
    Binary(Add, Net(0, 4, false, false), Net(1, 4, false, false))
  }

  /** op(a + b, 5), with an unsized 5. */
  function ExtremeTree(op: BinOp): Expr {
    Binary(op, SumTree(), Number(FromInt(5, 4), false, false))
  }

  function FifteenOne(id: nat): Vec {
    FromInt(if id == 0 then 15 else 1, 4)
  }

  lemma SumTreeValue(cfg: Config, w: nat)
    requires Pow2(4) == 16
    ensures Ref(cfg, SumTree(), w, false, FifteenOne) == FromInt(16, w)
  {
    LeafValue(15, w, false);
    LeafValue(1, w, false);
    assert ReadSignal(FifteenOne, 0, 4, false) == FromInt(15, 4);
    assert ReadSignal(FifteenOne, 1, 4, false) == FromInt(1, 4);
    ApplyFromInt(Add, 15, 1, w, false);
  }

  lemma FiveValue(cfg: Config, w: nat)
    requires Pow2(4) == 16
    ensures Ref(cfg, Number(FromInt(5, 4), false, false), w, false, FifteenOne) == FromInt(5, w)
  {
    LeafValue(5, w, false);
    assert Known(FromInt(5, 4)[3]);
  }

  lemma ExtremeOf(op: BinOp, x: int, y: int, w: nat)
    requires (op.Max? || op.Min?) && 0 <= x < Pow2(w) && 0 <= y < Pow2(w)
    ensures Apply(op, FromInt(x, w), FromInt(y, w), false) == FromInt(IntOp(op, x, y), w)
  {
    ToIntOfFromInt(x, w, false);
    ToIntOfFromInt(y, w, false);
  }

  lemma ExtremeValue(cfg: Config, op: BinOp, w: nat, sum: int)
    requires (op.Max? || op.Min?) && Pow2(4) == 16
    requires 0 <= sum < Pow2(w) && 5 < Pow2(w) && FromInt(16, w) == FromInt(sum, w)
    ensures Ref(cfg, ExtremeTree(op), w, false, FifteenOne) == FromInt(IntOp(op, sum, 5), w)
  {
    SumTreeValue(cfg, w);
    FiveValue(cfg, w);
    ExtremeOf(op, sum, 5, w);
  }

  lemma ExtremeSizes(cfg: Config, op: BinOp)
    requires (op.Max? || op.Min?) && cfg.integerWidth >= 5 && !cfg.strict
    ensures PrunedWidth(cfg, ExtremeTree(op), 4) == 4 && FullWidth(cfg, ExtremeTree(op), 4) == cfg.integerWidth
  {
    var n, five := cfg.integerWidth, Number(FromInt(5, 4), false, false);
    assert Test(cfg, five, SIZED) == Sizing(n, n, 4, UNSIZED);
    assert TestPair(cfg, SumTree().a, SumTree().b, UNSIZED).mode == UNSIZED;
    assert Test(cfg, SumTree(), UNSIZED) == Sizing(4, 4, 4, UNSIZED);
    assert Test(cfg, ExtremeTree(op), SIZED) == Sizing(n, n, 4, UNSIZED);
  }

  lemma LowBitsOfSixteen()
    requires Pow2(4) == 16
    ensures FromInt(16, 4) == FromInt(0, 4) && FromInt(0, 4) != FromInt(5, 4)
  {
    CongFromWitness(0, 1, 4);
    ToIntOfFromInt(0, 4, false);
    ToIntOfFromInt(5, 4, false);
  }

  lemma ExtremeElaborates(cfg: Config, op: BinOp)
    requires op.Max? || op.Min?
    ensures !Sign(ExtremeTree(op)) && Fits(cfg, ExtremeTree(op), 4) && LiteralsKept(cfg, ExtremeTree(op), 4, false)
  {
  }

  /** Assigning max(a + b, 5) or min(a + b, 5) to 4 bits, for a = 15 and b = 1: at 4 bits
      the sum is 0, at the full width 16. So 5 is stored for the maximum where the
      value's low bits are 0, and 0 for the minimum where they are 5. */
  lemma PruningBreaksMinMax(cfg: Config, op: BinOp)
    requires (op.Max? || op.Min?) && cfg.integerWidth >= 5 && !cfg.strict
    ensures StoresOther(cfg, ExtremeTree(op), 4, FifteenOne)
  {
    var n := cfg.integerWidth;
    SixteenFits(n);
    LowBitsOfSixteen();
    ExtremeSizes(cfg, op);
    ExtremeElaborates(cfg, op);
    ExtremeValue(cfg, op, 4, 0);
    ExtremeValue(cfg, op, n, 16);
    PrunedIsOther(cfg, ExtremeTree(op), IntOp(op, 0, 5), IntOp(op, 16, 5), FifteenOne);
  }

  // ----- `abs` -----

  /** a + b + 0 with signed 4-bit operands and an unsized 0. */
  function SignedSum(): Expr {
    Binary(Add, Binary(Add, Net(0, 4, true, false), Net(1, 4, true, false)), Number(FromInt(0, 4), false, true))
  }

  function SevenTwo(id: nat): Vec {
    FromInt(if id == 0 then 7 else 2, 4)
  }

  lemma SevenTwoValue(cfg: Config, w: nat)
    requires Pow2(4) == 16
    ensures Ref(cfg, Net(0, 4, true, false), w, true, SevenTwo) == FromInt(7, w)
    ensures Ref(cfg, Net(1, 4, true, false), w, true, SevenTwo) == FromInt(2, w)
  {
    LeafValue(7, w, true);
    LeafValue(2, w, true);
    assert ReadSignal(SevenTwo, 0, 4, false) == FromInt(7, 4);
    assert ReadSignal(SevenTwo, 1, 4, false) == FromInt(2, 4);
  }

  lemma SignedSumValue(cfg: Config, w: nat)
    requires Pow2(4) == 16
    ensures Ref(cfg, SignedSum(), w, true, SevenTwo) == FromInt(9, w)
  {
    SevenTwoValue(cfg, w);
    LeafValue(0, w, true);
    ApplyFromInt(Add, 7, 2, w, true);
    ApplyFromInt(Add, 9, 0, w, true);
  }

  lemma SignedSumSizes(cfg: Config)
    requires cfg.integerWidth >= 5 && !cfg.strict
    ensures var e := Unary(Abs, SignedSum());
      PrunedWidth(cfg, e, 4) == 4 && FullWidth(cfg, e, 4) == cfg.integerWidth
  {
    var n, inner := cfg.integerWidth, SignedSum().a;
    assert Test(cfg, SignedSum().b, SIZED) == Sizing(n, n, 4, UNSIZED);
    assert TestPair(cfg, inner.a, inner.b, UNSIZED).mode == UNSIZED;
    assert Test(cfg, inner, UNSIZED) == Sizing(4, 4, 4, UNSIZED);
    assert Test(cfg, SignedSum(), SIZED) == Sizing(n, n, 4, UNSIZED);
  }

  /** Nine is -7 at 4 bits, and 9 at the full width. */
  lemma AbsOfNine(w: nat)
    requires w >= 5 && Pow2(4) == 16 && Pow2(w - 1) >= 16
    ensures ApplyUnary(Abs, FromInt(9, 4), true) == FromInt(7, 4)
    ensures ApplyUnary(Abs, FromInt(9, w), true) == FromInt(9, w)
    ensures FromInt(7, 4) != FromInt(9, 4)
  {
    assert Pow2(3) == 8;
    CongFromWitness(-7, 1, 4);
    ToIntOfFromInt(-7, 4, true);
    ToIntOfFromInt(9, w, true);
    ToIntOfFromInt(7, 4, false);
    ToIntOfFromInt(9, 4, false);
  }

  lemma AbsValue(cfg: Config, w: nat)
    requires Pow2(4) == 16
    ensures Ref(cfg, Unary(Abs, SignedSum()), w, true, SevenTwo) == ApplyUnary(Abs, FromInt(9, w), true)
  {
    SignedSumValue(cfg, w);
  }

  lemma SignedSumElaborates(cfg: Config)
    ensures var e := Unary(Abs, SignedSum());
      Sign(e) && Fits(cfg, e, 4) && LiteralsKept(cfg, e, 4, true)
  {
  }

  /** Assigning abs(a + b + 0) to 4 bits, for signed a = 7 and b = 2, stores 7 where the
      value at the full width is 9. */
  lemma PruningBreaksAbs(cfg: Config)
    requires cfg.integerWidth >= 5 && !cfg.strict
    ensures StoresOther(cfg, Unary(Abs, SignedSum()), 4, SevenTwo)
  {
    var n := cfg.integerWidth;
    SixteenFits(n);
    SignedSumSizes(cfg);
    SignedSumElaborates(cfg);
    AbsValue(cfg, 4);
    AbsValue(cfg, n);
    AbsOfNine(n);
    PrunedIsOther(cfg, Unary(Abs, SignedSum()), 7, 9, SevenTwo);
  }

  // ----- operands with unknown bits -----

  /** (a << 1) + 0 with a 4-bit operand and an unsized 0. */
  function ShiftedTree(): Expr {
    Binary(Add, ShiftExpr(Shl, Net(0, 4, false, false), Number([V1], true, false)), Number(FromInt(0, 4), false, false))
  }

  function TopUnknown(id: nat): Vec {
    [V0, V0, V0, Vx]
  }

  lemma ShiftedValue(cfg: Config, w: nat)
    requires w >= 4
    ensures var u := Ref(cfg, ShiftedTree().a, w, false, TopUnknown);
      if w == 4 then u == Fill(V0, 4) else u[4] == Vx
  {
    var u := Resize([V0, V0, V0, Vx], w, false);
    assert ReadSignal(TopUnknown, 0, 4, false) == [V0, V0, V0, Vx];
    assert Ref(cfg, Number([V1], true, false), 1, false, TopUnknown) == [V1];
    assert Shift(Shl, u, [V1], false) == [V0] + u[..w - 1];
  }

  lemma ZeroValue(cfg: Config, w: nat)
    ensures Ref(cfg, Number(FromInt(0, 4), false, false), w, false, TopUnknown) == Fill(V0, w)
  {
    FromIntOfSign(V0, 4);
  }

  lemma ShiftedSum(cfg: Config, w: nat)
    requires w >= 4
    ensures Ref(cfg, ShiftedTree(), w, false, TopUnknown) == Fill(if w == 4 then V0 else Vx, w)
  {
    ShiftedValue(cfg, w);
    ZeroValue(cfg, w);
    FromIntOfSign(V0, w);
    ToIntOfFromInt(0, w, false);
  }

  lemma ShiftedSizes(cfg: Config)
    requires cfg.integerWidth >= 5 && !cfg.strict
    ensures PrunedWidth(cfg, ShiftedTree(), 4) == 4 && FullWidth(cfg, ShiftedTree(), 4) == cfg.integerWidth
  {
    var n := cfg.integerWidth;
    assert Test(cfg, ShiftedTree().b, SIZED) == Sizing(n, n, 4, UNSIZED);
    assert Test(cfg, ShiftedTree().a, UNSIZED) == Sizing(4, 4, 4, UNSIZED);
    assert Test(cfg, ShiftedTree(), SIZED) == Sizing(n, n, 4, UNSIZED);
  }

  /** Pruning also drops unknown bits that would spoil a sum: for a = 4'bx000, assigning
      (a << 1) + 0 to 4 bits stores 0 where the full width gives x. */
  lemma PruningBreaksUnknown(cfg: Config)
    requires cfg.integerWidth >= 5 && !cfg.strict
    ensures Prunable(ShiftedTree()) && StoresOther(cfg, ShiftedTree(), 4, TopUnknown)
  {
    var e, n := ShiftedTree(), cfg.integerWidth;
    ShiftedSizes(cfg);
    assert Fits(cfg, e, 4) && LiteralsKept(cfg, e, 4, false);
    AssignmentStoresPruned(cfg, e, 4, TopUnknown);
    ShiftedSum(cfg, 4);
    ShiftedSum(cfg, n);
    assert Fill(V0, 4)[..4][0] != Fill(Vx, n)[..4][0];
  }
}
