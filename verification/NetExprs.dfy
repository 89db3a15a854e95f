/** The net expressions that elaboration builds, their four-state value, and the
    constant evaluation that `eval_expr` performs on them. */
module NetExprs {
  import opened Vectors
  import opened VectorFacts

  /** The value of every signal, by signal number. */
  type Env = nat -> Vec

  datatype NetExpr =
    | Const(value: Vec, sg: bool)
    | Signal(id: nat, width: nat, sg: bool, twoState: bool)
    | Pad(e: NetExpr, width: nat, sg: bool)
    | BitAt(e: NetExpr, index: nat, sg: bool)
    | UnaryNode(uop: UnOp, e: NetExpr, sg: bool)
    | ReduceNode(uop: UnOp, e: NetExpr)
    | BinaryNode(bop: BinOp, l: NetExpr, r: NetExpr, sg: bool)
    | CompNode(cop: CompOp, l: NetExpr, r: NetExpr)
    | ShiftNode(sop: ShiftOp, l: NetExpr, r: NetExpr, sg: bool)
    | TernaryNode(c: NetExpr, l: NetExpr, r: NetExpr, sg: bool)

  function NetWidth(n: NetExpr): nat {
    match n
    case Const(v, _) => |v|
    case Signal(_, w, _, _) => w
    case Pad(_, w, _) => w
    case BitAt(_, _, _) => 1
    case UnaryNode(_, e, _) => NetWidth(e)
    case ReduceNode(_, _) => 1
    case BinaryNode(_, l, _, _) => NetWidth(l)
    case CompNode(_, _, _) => 1
    case ShiftNode(_, l, _, _) => NetWidth(l)
    case TernaryNode(_, l, _, _) => NetWidth(l)
  }

  predicate NetSign(n: NetExpr) {
    match n
    case ReduceNode(_, _) => false
    case CompNode(_, _, _) => false
    case _ => n.sg
  }

  /** Operands have the width and sign their operator was built for. */
  predicate Typed(n: NetExpr) {
    match n
    case Const(_, _) => true
    case Signal(_, _, _, _) => true
    case Pad(e, w, _) => Typed(e) && NetWidth(e) <= w
    case BitAt(e, i, _) => Typed(e) && i < NetWidth(e)
    case UnaryNode(op, e, s) => Typed(e) && !IsReduction(op) && NetSign(e) == s
    case ReduceNode(op, e) => Typed(e) && IsReduction(op)
    case BinaryNode(_, l, r, s) =>
      Typed(l) && Typed(r) && NetWidth(l) == NetWidth(r) && NetSign(l) == NetSign(r) == s
    case CompNode(_, l, r) => Typed(l) && Typed(r) && NetWidth(l) == NetWidth(r)
    case ShiftNode(_, l, r, s) => Typed(l) && Typed(r) && NetSign(l) == s
    case TernaryNode(c, l, r, s) =>
      && Typed(c) && Typed(l) && Typed(r)
      && NetWidth(c) == 1 && NetWidth(l) == NetWidth(r) && NetSign(l) == NetSign(r) == s
  }

  function TwoStateBit(b: Bit): Bit {
    if b == V1 then V1 else V0
  }

  /** A signal's value at its declared width; a 2-state signal holds no x or z. */
  function ReadSignal(env: Env, id: nat, width: nat, twoState: bool): (v: Vec)
    ensures |v| == width
    ensures twoState ==> Defined(v)
  {
    var v := Resize(env(id), width, false);
    if twoState then seq(width, i requires 0 <= i < width => TwoStateBit(v[i])) else v
  }

  function Eval(n: NetExpr, env: Env): (v: Vec)
    requires Typed(n)
    ensures |v| == NetWidth(n)
  {
    match n
    case Const(v, _) => v
    case Signal(id, w, _, two) => ReadSignal(env, id, w, two)
    case Pad(e, w, s) => Resize(Eval(e, env), w, s)
    case BitAt(e, i, _) => [Eval(e, env)[i]]
    case UnaryNode(op, e, s) => ApplyUnary(op, Eval(e, env), s)
    case ReduceNode(op, e) => [Reduce(op, Eval(e, env))]
    case BinaryNode(op, l, r, s) => Apply(op, Eval(l, env), Eval(r, env), s)
    case CompNode(op, l, r) => [Compare(op, Eval(l, env), Eval(r, env), NetSign(l) && NetSign(r))]
    case ShiftNode(op, l, r, s) => Shift(op, Eval(l, env), Eval(r, env), s)
    case TernaryNode(c, l, r, _) => Choose(Truth(Eval(c, env)), Eval(l, env), Eval(r, env))
  }

  /** The type the netlist reports for an expression: true for 2-state. */
  predicate IsBool(n: NetExpr) {
    match n
    case Const(v, _) => |v| > 0 && Defined(v)
    case Signal(_, _, _, two) => two
    case Pad(e, _, _) => IsBool(e)
    case BitAt(e, _, _) => IsBool(e)
    case UnaryNode(_, e, _) => IsBool(e)
    case ReduceNode(_, e) => IsBool(e)
    case BinaryNode(op, l, r, _) => !op.Div? && !op.Mod? && IsBool(l) && IsBool(r)
    case CompNode(op, l, r) => op.CaseEq? || op.CaseNe? || (IsBool(l) && IsBool(r))
    case ShiftNode(_, l, r, _) => IsBool(l) && IsBool(r)
    case TernaryNode(c, l, r, _) => IsBool(c) && IsBool(l) && IsBool(r)
  }

  lemma {:induction false} FoldBitsKnown(op: BinOp, u: Vec, unit: Bit)
    requires IsBitwise(op) && Defined(u) && Known(unit)
    ensures Known(FoldBits(op, u, unit))
  {
    if |u| > 0 { FoldBitsKnown(op, u[1..], unit); }
  }

  lemma ReduceKnown(op: UnOp, u: Vec)
    requires IsReduction(op) && Defined(u)
    ensures Known(Reduce(op, u))
  {
    match op {
      case Not =>
      case RedAnd => FoldBitsKnown(And, u, V1);
      case RedNand => FoldBitsKnown(And, u, V1);
      case RedOr => FoldBitsKnown(Or, u, V0);
      case RedNor => FoldBitsKnown(Or, u, V0);
      case _ => FoldBitsKnown(Xor, u, V0);
    }
  }

  lemma ApplyDefined(op: BinOp, u: Vec, v: Vec, s: bool)
    requires |u| == |v| && Defined(u) && Defined(v) && !op.Div? && !op.Mod?
    ensures Defined(Apply(op, u, v, s))
  {
  }

  lemma CompareKnown(op: CompOp, u: Vec, v: Vec, s: bool)
    requires |u| == |v|
    requires op.CaseEq? || op.CaseNe? || (Defined(u) && Defined(v))
    ensures Known(Compare(op, u, v, s))
  {
  }

  lemma ShiftDefined(op: ShiftOp, u: Vec, v: Vec, s: bool)
    requires Defined(u) && Defined(v)
    ensures Defined(Shift(op, u, v, s))
  {
    ToIntUnsigned(v);
  }

  /** The reported type is sound: a 2-state expression never evaluates to x or z. */
  lemma {:induction false} BoolIsDefined(n: NetExpr, env: Env)
    requires Typed(n) && IsBool(n)
    ensures Defined(Eval(n, env))
  {
    match n {
      case Const(_, _) =>
      case Signal(_, _, _, _) =>
      case Pad(e, _, _) => BoolIsDefined(e, env);
      case BitAt(e, _, _) => BoolIsDefined(e, env);
      case UnaryNode(_, e, _) => BoolIsDefined(e, env);
      case ReduceNode(op, e) => BoolIsDefined(e, env); ReduceKnown(op, Eval(e, env));
      case BinaryNode(op, l, r, s) =>
        BoolIsDefined(l, env);
        BoolIsDefined(r, env);
        ApplyDefined(op, Eval(l, env), Eval(r, env), s);
      case CompNode(op, l, r) =>
        if !op.CaseEq? && !op.CaseNe? { BoolIsDefined(l, env); BoolIsDefined(r, env); }
        CompareKnown(op, Eval(l, env), Eval(r, env), NetSign(l) && NetSign(r));
      case ShiftNode(op, l, r, s) =>
        BoolIsDefined(l, env);
        BoolIsDefined(r, env);
        ShiftDefined(op, Eval(l, env), Eval(r, env), s);
      case TernaryNode(c, l, r, _) =>
        BoolIsDefined(c, env);
        BoolIsDefined(l, env);
        BoolIsDefined(r, env);
    }
  }

  // ----- constant evaluation -----

  /** Joins two constant operands of nested additions: (a + 2) - 1 becomes a - (1 - 2). */
  function Regroup(op: BinOp, l: NetExpr, r: NetExpr, s: bool): (n: NetExpr)
    requires op.Add? || op.Sub?
    requires Typed(l) && Typed(r) && NetWidth(l) == NetWidth(r) && NetSign(l) == NetSign(r) == s
    ensures Typed(n) && NetWidth(n) == NetWidth(l) && NetSign(n) == s
  {
    if l.BinaryNode? && (l.bop.Add? || l.bop.Sub?) && l.r.Const? && r.Const? then
      var k := Apply(if op == l.bop then Add else Sub, r.value, l.r.value, s);
      BinaryNode(op, l.l, Const(k, s), s)
    else
      BinaryNode(op, l, r, s)
  }

  function FoldBinary(op: BinOp, l: NetExpr, r: NetExpr, s: bool): (n: NetExpr)
    requires Typed(l) && Typed(r) && NetWidth(l) == NetWidth(r) && NetSign(l) == NetSign(r) == s
    ensures Typed(n) && NetWidth(n) == NetWidth(l) && NetSign(n) == s
  {
    if l.Const? && r.Const? then Const(Apply(op, l.value, r.value, s), s)
    else if op.Add? || op.Sub? then Regroup(op, l, r, s)
    else BinaryNode(op, l, r, s)
  }

  /** A known condition selects its clause; an unknown one blends constant clauses. */
  function FoldTernary(c: NetExpr, l: NetExpr, r: NetExpr, s: bool): (n: NetExpr)
    requires Typed(c) && Typed(l) && Typed(r) && NetWidth(c) == 1
    requires NetWidth(l) == NetWidth(r) && NetSign(l) == NetSign(r) == s
    ensures Typed(n) && NetWidth(n) == NetWidth(l) && NetSign(n) == s
  {
    if c.Const? && Truth(c.value) == V1 then l
    else if c.Const? && Truth(c.value) == V0 then r
    else if c.Const? && l.Const? && r.Const? then Const(Choose(Vx, l.value, r.value), s)
    else TernaryNode(c, l, r, s)
  }

  /** The largest value of `w` bits. */
  function MaxValue(w: nat, s: bool): int {
    if s && w > 0 then Pow2(w - 1) - 1 else Pow2(w) - 1
  }

  /** `must_be_leeq_`: a 2-state expression whose largest value is below the constant. */
  predicate MustBeBelow(n: NetExpr, bound: Vec, s: bool, orEqual: bool) {
    var max, x := MaxValue(NetWidth(n), s), ToInt(bound, s);
    IsBool(n) && (max < x || (orEqual && max == x))
  }

  datatype Decision = Undecided | Decided(bit: Bit)

  /** `a` below the constant `b`, from the range of `a` if it has no value. */
  function FoldBelow(a: NetExpr, b: NetExpr, s: bool, orEqual: bool): Decision {
    if !b.Const? then Undecided
    else if !Defined(b.value) then Decided(Vx)
    else if MustBeBelow(a, b.value, s, orEqual) then Decided(V1)
    else if !a.Const? then Undecided
    else if !Defined(a.value) then Decided(Vx)
    else
      var x, y := ToInt(a.value, s), ToInt(b.value, s);
      Decided(ToBit(x < y || (orEqual && x == y)))
  }

  /** A comparison of constants, or an ordering that the range of one side decides. */
  function FoldComp(op: CompOp, l: NetExpr, r: NetExpr): Decision
    requires NetWidth(l) == NetWidth(r)
  {
    var s := NetSign(l) && NetSign(r);
    match op
    case Lt => FoldBelow(l, r, s, false)
    case Le => FoldBelow(l, r, s, true)
    case Gt => FoldBelow(r, l, s, false)
    case Ge => FoldBelow(r, l, s, true)
    case _ => if l.Const? && r.Const? then Decided(Compare(op, l.value, r.value, s)) else Undecided
  }

  /** Evaluates every constant operand, bottom up. */
  function Fold(n: NetExpr): (r: NetExpr)
    requires Typed(n)
    ensures Typed(r) && NetWidth(r) == NetWidth(n) && NetSign(r) == NetSign(n)
  {
    match n
    case Const(_, _) => n
    case Signal(_, _, _, _) => n
    case Pad(e, w, s) =>
      var e := Fold(e);
      if e.Const? then Const(Resize(e.value, w, s), s) else Pad(e, w, s)
    case BitAt(e, i, s) =>
      var e := Fold(e);
      if e.Const? then Const([e.value[i]], s) else BitAt(e, i, s)
    case UnaryNode(op, e, s) =>
      var e := Fold(e);
      if e.Const? then Const(ApplyUnary(op, e.value, s), s) else UnaryNode(op, e, s)
    case ReduceNode(op, e) =>
      var e := Fold(e);
      if e.Const? then Const([Reduce(op, e.value)], false) else ReduceNode(op, e)
    case BinaryNode(op, l, r, s) => FoldBinary(op, Fold(l), Fold(r), s)
    case CompNode(op, l, r) =>
      var l, r := Fold(l), Fold(r);
      var d := FoldComp(op, l, r);
      if d.Decided? then Const([d.bit], false) else CompNode(op, l, r)
    case ShiftNode(op, l, r, s) =>
      var l, r := Fold(l), Fold(r);
      if l.Const? && r.Const? then Const(Shift(op, l.value, r.value, s), s) else ShiftNode(op, l, r, s)
    case TernaryNode(c, l, r, s) => FoldTernary(Fold(c), Fold(l), Fold(r), s)
  }

  lemma RegroupLeft(op: BinOp, inner: BinOp, i: int, k: int, j: int, w: nat, s: bool)
    requires (op.Add? || op.Sub?) && (inner.Add? || inner.Sub?)
    ensures Apply(op, Apply(inner, FromInt(i, w), FromInt(k, w), s), FromInt(j, w), s)
         == FromInt(IntOp(op, IntOp(inner, i, k), j), w)
  {
    ApplyFromInt(inner, i, k, w, s);
    ApplyFromInt(op, IntOp(inner, i, k), j, w, s);
  }

  lemma RegroupRight(op: BinOp, join: BinOp, i: int, j: int, k: int, w: nat, s: bool)
    requires (op.Add? || op.Sub?) && (join.Add? || join.Sub?)
    ensures Apply(op, FromInt(i, w), Apply(join, FromInt(j, w), FromInt(k, w), s), s)
         == FromInt(IntOp(op, i, IntOp(join, j, k)), w)
  {
    ApplyFromInt(join, j, k, w, s);
    ApplyFromInt(op, i, IntOp(join, j, k), w, s);
  }

  lemma AddUndefined(op: BinOp, u: Vec, v: Vec, s: bool)
    requires (op.Add? || op.Sub?) && |u| == |v|
    ensures Defined(Apply(op, u, v, s)) <==> |u| == 0 || (Defined(u) && Defined(v))
    ensures !Defined(u) || !Defined(v) ==> Apply(op, u, v, s) == Fill(Vx, |u|)
  {
    if !Defined(u) || !Defined(v) { assert |u| > 0 ==> Fill(Vx, |u|)[0] == Vx; }
  }

  lemma RegroupIntOps(op: BinOp, inner: BinOp, i: int, k: int, j: int)
    requires (op.Add? || op.Sub?) && (inner.Add? || inner.Sub?)
    ensures IntOp(op, IntOp(inner, i, k), j) == IntOp(op, i, IntOp(if op == inner then Add else Sub, j, k))
  {
  }

  lemma RegroupDefined(op: BinOp, inner: BinOp, a: Vec, y: Vec, x: Vec, s: bool)
    requires (op.Add? || op.Sub?) && (inner.Add? || inner.Sub?)
    requires |a| == |y| == |x| && Defined(a) && Defined(x) && Defined(y)
    ensures Apply(op, Apply(inner, a, y, s), x, s)
         == Apply(op, a, Apply(if op == inner then Add else Sub, x, y, s), s)
  {
    var i, j, k := ToInt(a, s), ToInt(x, s), ToInt(y, s);
    FromIntOfToInt(a, s);
    FromIntOfToInt(x, s);
    FromIntOfToInt(y, s);
    RegroupLeft(op, inner, i, k, j, |a|, s);
    RegroupRight(op, if op == inner then Add else Sub, i, j, k, |a|, s);
    RegroupIntOps(op, inner, i, k, j);
  }

  lemma RegroupUndefined(op: BinOp, inner: BinOp, join: BinOp, a: Vec, y: Vec, x: Vec, s: bool)
    requires (op.Add? || op.Sub?) && (inner.Add? || inner.Sub?) && (join.Add? || join.Sub?)
    requires |a| == |y| == |x| && !(Defined(a) && Defined(x) && Defined(y))
    ensures Apply(op, Apply(inner, a, y, s), x, s) == Fill(Vx, |a|) == Apply(op, a, Apply(join, x, y, s), s)
  {
    AddUndefined(inner, a, y, s);
    AddUndefined(join, x, y, s);
    AddUndefined(op, Apply(inner, a, y, s), x, s);
    AddUndefined(op, a, Apply(join, x, y, s), s);
  }

  /** (a op1 y) op2 x == a op2 (x +/- y), also when operands hold x or z. */
  lemma RegroupVectors(op: BinOp, inner: BinOp, a: Vec, y: Vec, x: Vec, s: bool)
    requires (op.Add? || op.Sub?) && (inner.Add? || inner.Sub?)
    requires |a| == |y| == |x|
    ensures Apply(op, Apply(inner, a, y, s), x, s)
         == Apply(op, a, Apply(if op == inner then Add else Sub, x, y, s), s)
  {
    if Defined(a) && Defined(x) && Defined(y) {
      RegroupDefined(op, inner, a, y, x, s);
    } else {
      RegroupUndefined(op, inner, if op == inner then Add else Sub, a, y, x, s);
    }
  }

  lemma RegroupKeepsValue(op: BinOp, l: NetExpr, r: NetExpr, s: bool, env: Env)
    requires op.Add? || op.Sub?
    requires Typed(l) && Typed(r) && NetWidth(l) == NetWidth(r) && NetSign(l) == NetSign(r) == s
    ensures Eval(Regroup(op, l, r, s), env) == Apply(op, Eval(l, env), Eval(r, env), s)
  {
    var n := Regroup(op, l, r, s);
    if l.BinaryNode? && (l.bop.Add? || l.bop.Sub?) && l.r.Const? && r.Const? {
      var a, y, x := Eval(l.l, env), l.r.value, r.value;
      RegroupVectors(op, l.bop, a, y, x, s);
      assert Eval(l, env) == Apply(l.bop, a, y, s);
      assert Eval(n, env) == Apply(op, a, Apply(if op == l.bop then Add else Sub, x, y, s), s);
    } else {
      assert n == BinaryNode(op, l, r, s);
    }
  }

  lemma BelowMaxValue(v: Vec, s: bool)
    requires Defined(v)
    ensures ToInt(v, s) <= MaxValue(|v|, s)
  {
    if |v| > 0 { ToIntInRange(v, s); }
  }

  lemma FoldBelowIsRight(a: NetExpr, b: NetExpr, s: bool, orEqual: bool, env: Env)
    requires Typed(a) && Typed(b) && NetWidth(a) == NetWidth(b) && FoldBelow(a, b, s, orEqual).Decided?
    ensures FoldBelow(a, b, s, orEqual).bit
         == Compare(if orEqual then Le else Lt, Eval(a, env), Eval(b, env), s)
         == Compare(if orEqual then Ge else Gt, Eval(b, env), Eval(a, env), s)
  {
    if Defined(b.value) && MustBeBelow(a, b.value, s, orEqual) {
      BoolIsDefined(a, env);
      BelowMaxValue(Eval(a, env), s);
    }
  }

  /** Where a comparison is decided, it is decided as its value in every environment,
      whatever the side that has no value. */
  lemma FoldCompIsRight(op: CompOp, l: NetExpr, r: NetExpr, env: Env)
    requires Typed(l) && Typed(r) && NetWidth(l) == NetWidth(r) && FoldComp(op, l, r).Decided?
    ensures FoldComp(op, l, r).bit == Compare(op, Eval(l, env), Eval(r, env), NetSign(l) && NetSign(r))
  {
    var s := NetSign(l) && NetSign(r);
    match op {
      case Lt => FoldBelowIsRight(l, r, s, false, env);
      case Le => FoldBelowIsRight(l, r, s, true, env);
      case Gt => FoldBelowIsRight(r, l, s, false, env);
      case Ge => FoldBelowIsRight(r, l, s, true, env);
      case _ =>
    }
  }

  lemma FoldCompKeepsValue(op: CompOp, l: NetExpr, r: NetExpr, n: NetExpr, env: Env)
    requires Typed(l) && Typed(r) && NetWidth(l) == NetWidth(r)
    requires var d := FoldComp(op, l, r); n == if d.Decided? then Const([d.bit], false) else CompNode(op, l, r)
    ensures Typed(n) && Eval(n, env) == [Compare(op, Eval(l, env), Eval(r, env), NetSign(l) && NetSign(r))]
  {
    if FoldComp(op, l, r).Decided? { FoldCompIsRight(op, l, r, env); }
  }

  lemma FoldBinaryKeepsValue(op: BinOp, l: NetExpr, r: NetExpr, s: bool, n: NetExpr, env: Env)
    requires Typed(l) && Typed(r) && NetWidth(l) == NetWidth(r) && NetSign(l) == NetSign(r) == s
    requires Typed(n) && n == FoldBinary(op, l, r, s)
    ensures Eval(n, env) == Apply(op, Eval(l, env), Eval(r, env), s)
  {
    if (op.Add? || op.Sub?) && !(l.Const? && r.Const?) { RegroupKeepsValue(op, l, r, s, env); }
  }

  /** Constant evaluation keeps the value in every environment. */
  lemma {:induction false} FoldKeepsValue(n: NetExpr, env: Env)
    requires Typed(n)
    ensures Eval(Fold(n), env) == Eval(n, env)
  {
    match n {
      case Const(_, _) =>
      case Signal(_, _, _, _) =>
      case Pad(e, w, s) => FoldKeepsValue(e, env);
      case BitAt(e, _, _) => FoldKeepsValue(e, env);
      case UnaryNode(op, e, s) => FoldKeepsValue(e, env);
      case ReduceNode(op, e) => FoldKeepsValue(e, env);
      case BinaryNode(op, l, r, s) =>
        FoldKeepsValue(l, env);
        FoldKeepsValue(r, env);
        FoldBinaryKeepsValue(op, Fold(l), Fold(r), s, Fold(n), env);
      case CompNode(op, l, r) =>
        FoldKeepsValue(l, env);
        FoldKeepsValue(r, env);
        FoldCompKeepsValue(op, Fold(l), Fold(r), Fold(n), env);
      case ShiftNode(op, l, r, s) => FoldKeepsValue(l, env); FoldKeepsValue(r, env);
      case TernaryNode(c, l, r, s) =>
        FoldKeepsValue(c, env);
        FoldKeepsValue(l, env);
        FoldKeepsValue(r, env);
    }
  }
}
