/** Expression trees, their sizing (`test_width`) and their elaboration
    (`elaborate_expr`), as functions of the tree. The two are mutually recursive:
    sizing a shift elaborates its amount, and elaboration uses the stored sizes. */
module Exprs {
  import opened Vectors
  import opened NetExprs

  datatype Expr =
    | Number(bits: Vec, hasLen: bool, hasSign: bool)
    | Net(id: nat, width: nat, hasSign: bool, twoState: bool)
    | Unary(uop: UnOp, a: Expr)
    | Binary(bop: BinOp, a: Expr, b: Expr)
    | Comp(cop: CompOp, a: Expr, b: Expr)
    | ShiftExpr(sop: ShiftOp, a: Expr, b: Expr)
    | Ternary(c: Expr, a: Expr, b: Expr)

  /** Command-line settings: the integer width, the width cap of unsized
      expressions and the strict-width flag. */
  datatype Config = Config(integerWidth: nat, widthCap: nat, strict: bool)

  const UINT_MAX: nat := 0xFFFF_FFFF
  const LONG_MAX: nat := 0x7FFF_FFFF_FFFF_FFFF
  const LONG_BITS: nat := 64

  datatype Mode = SIZED | UNSIZED | EXPAND | LOSSLESS | UPSIZE

  function Rank(m: Mode): nat {
    match m case SIZED => 0 case UNSIZED => 1 case EXPAND => 2 case LOSSLESS => 3 case UPSIZE => 4
  }

  /** What `test_width` returns and stores: the returned width, the expression
      width kept in the node, the minimum width and the final mode. */
  datatype Sizing = Sizing(width: nat, exprWidth: nat, minWidth: nat, mode: Mode)

  function Larger(x: nat, y: nat): nat {
    if x > y then x else y
  }

  /** The sign of an expression, which no mode changes. */
  predicate Sign(e: Expr) {
    match e
    case Number(_, _, s) => s
    case Net(_, _, s, _) => s
    case Unary(op, a) => !IsReduction(op) && Sign(a)
    case Binary(_, a, b) => Sign(a) && Sign(b)
    case Comp(_, _, _) => false
    case ShiftExpr(_, a, _) => Sign(a)
    case Ternary(_, a, b) => Sign(a) && Sign(b)
  }

  /** In UPSIZE mode the stored width is at least the integer width; the caller
      still gets the calculated one. */
  function FixWidth(cfg: Config, width: nat, minWidth: nat, mode: Mode): Sizing {
    Sizing(width, if mode == UPSIZE && width < cfg.integerWidth then cfg.integerWidth else width,
           minWidth, mode)
  }

  function TestNumber(cfg: Config, bits: Vec, hasLen: bool, mode: Mode): Sizing {
    var w := |bits|;
    if hasLen then Sizing(w, w, w, mode)
    else if cfg.strict then Sizing(cfg.integerWidth, cfg.integerWidth, w, UNSIZED)
    else if Rank(mode) >= Rank(LOSSLESS) then Sizing(w, w, w, mode)
    else if w < cfg.integerWidth then
      Sizing(cfg.integerWidth, cfg.integerWidth, w, if mode == SIZED then UNSIZED else mode)
    else Sizing(w, w, w, LOSSLESS)
  }

  function Size(e: Expr): nat {
    match e
    case Unary(_, a) => 1 + Size(a)
    case Binary(_, a, b) => 1 + Size(a) + Size(b)
    case Comp(_, a, b) => 1 + Size(a) + Size(b)
    case ShiftExpr(_, a, b) => 1 + Size(a) + Size(b)
    case Ternary(c, a, b) => 1 + Size(c) + Size(a) + Size(b)
    case _ => 0
  }

  /** Two operands sized together: the second first, then the first, then the
      second again when the first raised the mode to LOSSLESS or above. */
  datatype Pair = Pair(a: Sizing, b: Sizing, mode: Mode)

  function TestPair(cfg: Config, a: Expr, b: Expr, mode: Mode): Pair
    decreases Size(a) + Size(b), 2
  {
    var rb := Test(cfg, b, mode);
    var ra := Test(cfg, a, rb.mode);
    if Rank(ra.mode) >= Rank(LOSSLESS) && Rank(rb.mode) < Rank(LOSSLESS) then
      var again := Test(cfg, b, ra.mode);
      Pair(ra, again, again.mode)
    else
      Pair(ra, rb, ra.mode)
  }

  function TestBinary(cfg: Config, op: BinOp, p: Pair, mixedSigns: bool): Sizing {
    var mode := if p.mode == LOSSLESS && mixedSigns then UPSIZE else p.mode;
    var grow := Rank(mode) >= Rank(EXPAND);
    var w := Larger(p.a.width, p.b.width);
    FixWidth(cfg,
             if grow && (op.Add? || op.Sub?) then w + 1
             else if grow && op.Mul? then p.a.width + p.b.width
             else w,
             if op.Div? || op.Mod? then UINT_MAX else Larger(p.a.minWidth, p.b.minWidth),
             mode)
  }

  function TestTernary(cfg: Config, p: Pair, mixedSigns: bool): Sizing {
    FixWidth(cfg, Larger(p.a.width, p.b.width), Larger(p.a.minWidth, p.b.minWidth),
             if p.mode == LOSSLESS && mixedSigns then UPSIZE else p.mode)
  }

  /** The largest amount a lossless left shift has to allow for: the amount itself
      when it is a constant that fits a long, otherwise the largest value of its
      width, clipped to the width cap. */
  function ShiftBound(cfg: Config, amount: NetExpr, width: nat, signed: bool): nat {
    var bound: int :=
      if amount.Const? && width <= (if signed then LONG_BITS else LONG_BITS - 1) then
        (if Defined(amount.value) then ToInt(amount.value, signed) else 0)
      else if width < LONG_BITS then Pow2(width) - 1
      else LONG_MAX;
    if bound < 0 then 0 else if bound > cfg.widthCap then cfg.widthCap else bound
  }

  /** Sizing of a shift from the sizes of its operands, each sized in SIZED mode. */
  function TestShift(cfg: Config, op: ShiftOp, left: Sizing, amount: NetExpr, amountWidth: nat,
                     leftSigned: bool, amountSigned: bool, mode: Mode): Sizing {
    var mode := if mode == SIZED then left.mode else mode;
    var minWidth := if op.Shl? then left.minWidth else UINT_MAX;
    if Rank(mode) < Rank(EXPAND) then FixWidth(cfg, left.width, minWidth, mode)
    else
      var want := if op.Shl? && left.mode != SIZED
                  then left.width + ShiftBound(cfg, amount, amountWidth, amountSigned)
                  else left.width;
      var use := if !amount.Const? && want > left.width && want > cfg.integerWidth
                 then cfg.integerWidth else want;
      FixWidth(cfg, use, minWidth, if !op.Shl? && mode == LOSSLESS && leftSigned then UPSIZE else mode)
  }

  /** `test_width`: the sizes of an expression entered in a given mode. */
  function Test(cfg: Config, e: Expr, mode: Mode): Sizing
    decreases Size(e), 1
  {
    match e
    case Number(bits, hasLen, _) => TestNumber(cfg, bits, hasLen, mode)
    case Net(_, w, _, _) => Sizing(w, w, w, mode)
    case Unary(op, a) =>
      var t := Test(cfg, a, mode);
      if IsReduction(op) then Sizing(1, 1, 1, t.mode) else FixWidth(cfg, t.width, t.minWidth, t.mode)
    case Binary(op, a, b) => TestBinary(cfg, op, TestPair(cfg, a, b, mode), Sign(a) != Sign(b))
    case Comp(_, _, _) => Sizing(1, 1, 1, mode)
    case ShiftExpr(op, a, b) =>
      var wb := Test(cfg, b, SIZED).width;
      TestShift(cfg, op, Test(cfg, a, SIZED), EvalExpr(Elab(cfg, b, wb, Sign(b))), wb, Sign(a), Sign(b), mode)
    case Ternary(_, a, b) => TestTernary(cfg, TestPair(cfg, b, a, mode), Sign(a) != Sign(b))  // a is sized first
  }

  /** The width of a self-determined operand. */
  function SelfWidth(cfg: Config, e: Expr): nat
    decreases Size(e), 2
  {
    Test(cfg, e, SIZED).exprWidth
  }

  /** The common width of the operands of a comparison. */
  function CompWidth(cfg: Config, a: Expr, b: Expr): nat
    decreases Size(a) + Size(b), 3
  {
    var p := TestPair(cfg, a, b, SIZED);
    var w := Larger(p.a.width, p.b.width);
    if Rank(p.mode) >= Rank(EXPAND) && w < cfg.integerWidth then w + 1 else w
  }

  /** The width of a condition, which `elab_and_eval` may cap. */
  function CondWidth(cfg: Config, c: Expr): nat
    decreases Size(c), 2
  {
    var t := Test(cfg, c, SIZED);
    if Rank(t.mode) >= Rank(LOSSLESS) && t.exprWidth > cfg.widthCap then cfg.widthCap else t.exprWidth
  }

  // ----- elaboration -----

  /** `eval_expr`. */
  function EvalExpr(n: NetExpr): NetExpr {
    if Typed(n) then Fold(n) else n
  }

  function CastSign(n: NetExpr, s: bool): NetExpr {
    match n
    case Const(v, _) => Const(v, s)
    case Signal(id, w, _, two) => Signal(id, w, s, two)
    case Pad(e, w, _) => Pad(e, w, s)
    case BitAt(e, i, _) => BitAt(e, i, s)
    case _ => n
  }

  /** `pad_to_width`. */
  function PadTo(n: NetExpr, w: nat, s: bool): NetExpr {
    if w <= NetWidth(n) then CastSign(n, s)
    else if n.Const? then Const(Resize(n.value, w, s), s)
    else Pad(n, w, s)
  }

  /** A literal at the context width. A sized literal takes the context sign; an
      unsized one keeps its own, and extends a leading x or z. */
  function CastNumber(bits: Vec, hasLen: bool, hasSign: bool, w: nat, s: bool): Vec {
    var sg := if hasLen then s else hasSign;
    if w <= |bits| || |bits| == 0 then Resize(bits, w, sg)
    else Resize(bits, w, sg || (!hasLen && !Known(bits[|bits| - 1])))
  }

  function ElabUnary(op: UnOp, n: NetExpr, w: nat, s: bool): NetExpr {
    match op
    case Plus => n
    case Abs => UnaryNode(Abs, n, s)
    case Neg => if n.Const? then Const(ApplyUnary(Neg, n.value, n.sg), s) else UnaryNode(Neg, n, s)
    case BitNot => if n.Const? then Const(ApplyUnary(BitNot, n.value, n.sg), n.sg) else UnaryNode(BitNot, n, s)
    case Not => PadTo(if n.Const? then Const([NotByCount(n.value)], false) else ReduceNode(Not, n), w, s)
    case _ => PadTo(ReduceNode(op, n), w, s)
  }

  function Count(v: Vec, known: bool): nat {
    if |v| == 0 then 0
    else (if (if known then v[0] == V1 else !Known(v[0])) then 1 else 0) + Count(v[1..], known)
  }

  /** Logical negation of a constant by counting its 1 bits and its unknown bits. */
  function NotByCount(v: Vec): Bit {
    if Count(v, true) > 0 then V0 else if Count(v, false) > 0 then Vx else V1
  }

  function ElabMult(l: NetExpr, r: NetExpr, w: nat, s: bool): NetExpr {
    var a, b := if l.Const? then r else l, if l.Const? then l else r;
    if b.Const? && !Defined(b.value) && !IsBool(a) then Const(Fill(Vx, w), s)
    else if b.Const? && b.value == Fill(V0, |b.value|) && IsBool(a) then Const(Fill(V0, w), s)
    else BinaryNode(Mul, a, b, s)
  }

  function ElabShift(op: ShiftOp, l: NetExpr, r: NetExpr, w: nat, s: bool): NetExpr {
    if l.Const? then
      if l.value == Fill(V0, |l.value|) && IsBool(r) then Const(Fill(V0, w), s) else ShiftNode(op, l, r, s)
    else if r.Const? then
      var n := ToInt(r.value, false);
      if !Defined(r.value) then Const(Fill(Vx, w), s)
      else if n == 0 then l
      else if op.Ashr? && s && n >= w > 0 then PadTo(BitAt(l, w - 1, false), w, true)
      else if n >= w then Const(Fill(V0, w), s)
      else ShiftNode(op, l, r, s)
    else ShiftNode(op, l, r, s)
  }

  /** Drops redundant leading bits of an unsized constant. */
  function Trim(v: Vec, s: bool): Vec {
    var n := |v|;
    if n >= 2 && v[n - 1] == v[n - 2] && (s || v[n - 1] == V0) then Trim(v[..n - 1], s) else v
  }

  /** `condition_reduce`: anything wider than one bit is compared with zero. */
  function ReduceCondition(n: NetExpr): NetExpr {
    if NetWidth(n) == 1 then n else CompNode(Ne, n, Const(Fill(V0, NetWidth(n)), NetSign(n)))
  }

  function ElabCondition(cfg: Config, c: Expr): NetExpr
    decreases Size(c), 3
  {
    var n := EvalExpr(Elab(cfg, c, CondWidth(cfg, c), Sign(c)));
    ReduceCondition(if n.Const? && Rank(Test(cfg, c, SIZED).mode) >= Rank(LOSSLESS)
                    then Const(Trim(n.value, n.sg), n.sg) else n)
  }

  /** `elaborate_expr` at context width `w` with the sign `s` pushed down. */
  function Elab(cfg: Config, e: Expr, w: nat, s: bool): NetExpr
    decreases Size(e), 0
  {
    match e
    case Number(bits, hasLen, sg) => Const(CastNumber(bits, hasLen, sg, w, s), s)
    case Net(id, width, _, two) => PadTo(Signal(id, width, s, two), w, s)
    case Unary(op, a) =>
      if IsReduction(op) then ElabUnary(op, Elab(cfg, a, SelfWidth(cfg, a), Sign(a)), w, s)
      else ElabUnary(op, Elab(cfg, a, w, s), w, s)
    case Binary(op, a, b) =>
      if op.Mul? then ElabMult(Elab(cfg, a, w, s), Elab(cfg, b, w, s), w, s)
      else BinaryNode(op, Elab(cfg, a, w, s), Elab(cfg, b, w, s), s)
    case Comp(op, a, b) =>
      var cw, cs := CompWidth(cfg, a, b), Sign(a) && Sign(b);
      PadTo(CompNode(op, EvalExpr(Elab(cfg, a, cw, cs)), EvalExpr(Elab(cfg, b, cw, cs))), w, s)
    case ShiftExpr(op, a, b) =>
      var l := Elab(cfg, a, w, s);
      var r := Elab(cfg, b, SelfWidth(cfg, b), Sign(b));
      ElabShift(op, EvalExpr(l), EvalExpr(if NetSign(r) then Pad(r, NetWidth(r), false) else r), w, s)
    case Ternary(c, a, b) =>
      var n := ElabCondition(cfg, c);
      if n.Const? && n.value == [V1] then EvalExpr(Elab(cfg, a, w, s))
      else if n.Const? && n.value == [V0] then EvalExpr(Elab(cfg, b, w, s))
      else TernaryNode(n, EvalExpr(Elab(cfg, a, w, s)), EvalExpr(Elab(cfg, b, w, s)), s)
  }
}
