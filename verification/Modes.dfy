/** Which mode an expression is sized in, read off its literals and signs. */
module Modes {
  import opened Vectors
  import opened Exprs

  /** No shift among the operators that share the width of `e`. */
  predicate NoShifts(e: Expr) {
    match e
    case Unary(_, a) => NoShifts(a)
    case Binary(_, a, b) => NoShifts(a) && NoShifts(b)
    case ShiftExpr(_, _, _) => false
    case Ternary(_, a, b) => NoShifts(a) && NoShifts(b)
    case _ => true
  }

  /** A literal without a length, as long as an integer or longer if `long` is asked for. A
      shift that is not entered in SIZED mode keeps the modes of its operands to itself. */
  predicate HasUnsized(cfg: Config, e: Expr, long: bool) {
    match e
    case Number(bits, hasLen, _) => !hasLen && (long ==> |bits| >= cfg.integerWidth)
    case Unary(_, a) => HasUnsized(cfg, a, long)
    case Binary(_, a, b) => HasUnsized(cfg, a, long) || HasUnsized(cfg, b, long)
    case Ternary(_, a, b) => HasUnsized(cfg, a, long) || HasUnsized(cfg, b, long)
    case _ => false
  }

  /** An operator or a conditional with one signed and one unsigned operand, or a right shift
      of a signed one. */
  predicate MixesSigns(e: Expr) {
    match e
    case Unary(_, a) => MixesSigns(a)
    case Binary(_, a, b) => Sign(a) != Sign(b) || MixesSigns(a) || MixesSigns(b)
    case Ternary(_, a, b) => Sign(a) != Sign(b) || MixesSigns(a) || MixesSigns(b)
    case ShiftExpr(op, a, _) => !op.Shl? && Sign(a)
    case _ => false
  }

  /** The mode in which sizing ends. */
  function FinalMode(cfg: Config, e: Expr, m: Mode): Mode {
    if m == UPSIZE then UPSIZE
    else if m == LOSSLESS || HasUnsized(cfg, e, true) then (if MixesSigns(e) then UPSIZE else LOSSLESS)
    else if m == SIZED && HasUnsized(cfg, e, false) then UNSIZED
    else m
  }

  /** Sizing ends lossless exactly if it began so or some literal without a length is as long
      as an integer, wherever it stands; and then in UPSIZE mode exactly if signs are mixed
      somewhere, whichever is met first. Entered in SIZED mode, a shift takes the mode of its
      left operand, so there the tree has none. */
  lemma {:induction false} ModeExactly(cfg: Config, e: Expr, m: Mode)
    requires !cfg.strict && (m == SIZED ==> NoShifts(e))
    ensures Test(cfg, e, m).mode == FinalMode(cfg, e, m)
    decreases Size(e), 0
  {
    match e {
      case Unary(_, a) => ModeExactly(cfg, a, m);
      case Binary(op, a, b) => PairMode(cfg, a, b, m); BinaryMode(cfg, op, a, b, m);
      case Ternary(c, a, b) => PairMode(cfg, b, a, m); TernaryMode(cfg, c, a, b, m);
      case ShiftExpr(op, a, b) => ShiftMode(cfg, op, a, b, m);
      case _ =>
    }
  }

  /** A shift entered in another mode than SIZED. */
  lemma ShiftMode(cfg: Config, op: ShiftOp, a: Expr, b: Expr, m: Mode)
    requires m != SIZED
    ensures Test(cfg, ShiftExpr(op, a, b), m).mode == if m == LOSSLESS && !op.Shl? && Sign(a) then UPSIZE else m
  {
  }

  lemma BinaryMode(cfg: Config, op: BinOp, a: Expr, b: Expr, m: Mode)
    requires TestPair(cfg, a, b, m).mode == Both(cfg, a, b, m)
    ensures Test(cfg, Binary(op, a, b), m).mode == FinalMode(cfg, Binary(op, a, b), m)
  {
  }

  lemma TernaryMode(cfg: Config, c: Expr, a: Expr, b: Expr, m: Mode)
    requires TestPair(cfg, b, a, m).mode == Both(cfg, b, a, m)
    ensures Test(cfg, Ternary(c, a, b), m).mode == FinalMode(cfg, Ternary(c, a, b), m)
  {
  }

  /** The mode of two operands, the second sized first. */
  function Both(cfg: Config, a: Expr, b: Expr, m: Mode): Mode {
    if m == UPSIZE then UPSIZE
    else if m == LOSSLESS || HasUnsized(cfg, a, true) || HasUnsized(cfg, b, true) then
      (if MixesSigns(a) || MixesSigns(b) then UPSIZE else LOSSLESS)
    else if m == SIZED && (HasUnsized(cfg, a, false) || HasUnsized(cfg, b, false)) then UNSIZED
    else m
  }

  lemma {:induction false} PairMode(cfg: Config, a: Expr, b: Expr, m: Mode)
    requires !cfg.strict && (m == SIZED ==> NoShifts(a) && NoShifts(b))
    ensures TestPair(cfg, a, b, m).mode == Both(cfg, a, b, m)
    decreases Size(a) + Size(b), 1
  {
    ModeExactly(cfg, b, m);
    var mb := FinalMode(cfg, b, m);
    ModeExactly(cfg, a, mb);
    var ma := FinalMode(cfg, a, mb);
    if Rank(ma) >= Rank(LOSSLESS) && Rank(mb) < Rank(LOSSLESS) { ModeExactly(cfg, b, ma); }
    PairFlow(cfg, a, b, m);
    Settles(cfg, a, b, m);
  }

  lemma PairFlow(cfg: Config, a: Expr, b: Expr, m: Mode)
    ensures var mb := Test(cfg, b, m).mode;
      var ma := Test(cfg, a, mb).mode;
      TestPair(cfg, a, b, m).mode
      == if Rank(ma) >= Rank(LOSSLESS) && Rank(mb) < Rank(LOSSLESS) then Test(cfg, b, ma).mode else ma
  {
  }

  /** The first operand in the mode of the second, and the second again if that is lossless. */
  lemma Settles(cfg: Config, a: Expr, b: Expr, m: Mode)
    ensures var mb := FinalMode(cfg, b, m);
      var ma := FinalMode(cfg, a, mb);
      Both(cfg, a, b, m)
      == if Rank(ma) >= Rank(LOSSLESS) && Rank(mb) < Rank(LOSSLESS) then FinalMode(cfg, b, ma) else ma
  {
  }

  /** The width an operator keeps is the one it returns, but in UPSIZE mode no less than the
      integer width; a reduction and a comparison keep one bit. */
  lemma StoredWidth(cfg: Config, e: Expr, m: Mode)
    requires e.Unary? || e.Binary? || e.Ternary? || e.ShiftExpr? || e.Comp?
    ensures var t, bit := Test(cfg, e, m), e.Comp? || (e.Unary? && IsReduction(e.uop));
      t.exprWidth == if bit then 1 else if t.mode == UPSIZE then Larger(t.width, cfg.integerWidth) else t.width
  {
  }
}
