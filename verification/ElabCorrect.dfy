/** Elaboration preserves meaning: the folds agree with the operators they replace,
    and the elaborated net expression has the value of the reference evaluator. */
module ElabCorrect {
  import opened Vectors
  import opened VectorFacts
  import opened NetExprs
  import opened Exprs
  import opened Reference

  // ----- the folds -----

  lemma {:induction false} CountMeaning(v: Vec, known: bool)
    ensures Count(v, known) > 0 <==> if known then V1 in v else !Defined(v)
  {
    if |v| > 0 {
      CountMeaning(v[1..], known);
      assert v == [v[0]] + v[1..];
    }
  }

  /** Counting bits decides logical negation exactly. */
  lemma NotByCountIsNot(v: Vec)
    ensures NotByCount(v) == Reduce(Not, v)
  {
    CountMeaning(v, true);
    CountMeaning(v, false);
  }

  lemma MulCommutes(u: Vec, v: Vec, s: bool)
    requires |u| == |v|
    ensures Apply(Mul, u, v, s) == Apply(Mul, v, u, s)
  {
    assert ToInt(u, s) * ToInt(v, s) == ToInt(v, s) * ToInt(u, s);
  }

  lemma MulByZero(u: Vec, s: bool)
    requires Defined(u)
    ensures Apply(Mul, u, Fill(V0, |u|), s) == Fill(V0, |u|)
  {
    ToIntOfZeros(|u|, s);
    FromIntOfSign(V0, |u|);
    assert ToInt(u, s) * 0 == 0;
  }

  /** `n` is a net expression of width `w` and sign `s` with value `v`. */
  ghost predicate Means(n: NetExpr, w: nat, s: bool, v: Vec, env: Env) {
    Typed(n) && NetWidth(n) == w && NetSign(n) == s && Eval(n, env) == v
  }

  /** The multiply folds: an undefined constant, or a zero times a 2-state operand. */
  lemma MultFold(l: NetExpr, r: NetExpr, w: nat, s: bool, u: Vec, v: Vec, env: Env)
    requires Means(l, w, s, u, env) && Means(r, w, s, v, env)
    ensures Means(ElabMult(l, r, w, s), w, s, Apply(Mul, u, v, s), env)
  {
    MulCommutes(u, v, s);
    if l.Const? { MultByConst(r, l, w, s, v, u, env); } else { MultByConst(l, r, w, s, u, v, env); }
  }

  lemma MultByConst(a: NetExpr, b: NetExpr, w: nat, s: bool, u: Vec, v: Vec, env: Env)
    requires Means(a, w, s, u, env) && Means(b, w, s, v, env)
    ensures Means(if b.Const? && !Defined(b.value) && !IsBool(a) then Const(Fill(Vx, w), s)
                  else if b.Const? && b.value == Fill(V0, |b.value|) && IsBool(a) then Const(Fill(V0, w), s)
                  else BinaryNode(Mul, a, b, s), w, s, Apply(Mul, u, v, s), env)
  {
    if b.Const? && IsBool(a) {
      BoolIsDefined(a, env);
      MulByZero(u, s);
    }
  }

  lemma ShiftOfZeros(op: ShiftOp, w: nat, amount: Vec, s: bool)
    requires Defined(amount)
    ensures Shift(op, Fill(V0, w), amount, s) == Fill(V0, w)
  {
    ToIntUnsigned(amount);
  }

  lemma ShiftByConstant(op: ShiftOp, u: Vec, amount: Vec, s: bool)
    requires Defined(amount)
    ensures ToInt(amount, false) == 0 ==> Shift(op, u, amount, s) == u
    ensures ToInt(amount, false) >= |u| ==>
      Shift(op, u, amount, s) == Fill(if op.Ashr? && s && |u| > 0 then u[|u| - 1] else V0, |u|)
  {
    ToIntUnsigned(amount);
  }

  lemma TopBitReplicated(l: NetExpr, w: nat, u: Vec, env: Env)
    requires Means(l, w, true, u, env) && w > 0
    ensures Means(PadTo(BitAt(l, w - 1, false), w, true), w, true, Fill(u[w - 1], w), env)
  {
    var n := PadTo(BitAt(l, w - 1, false), w, true);
    assert Eval(n, env) == Fill(u[w - 1], w);
  }

  lemma ShiftNodeMeans(op: ShiftOp, l: NetExpr, r: NetExpr, w: nat, s: bool, u: Vec, v: Vec, env: Env)
    requires Means(l, w, s, u, env) && Means(r, NetWidth(r), false, v, env)
    ensures Means(ShiftNode(op, l, r, s), w, s, Shift(op, u, v, s), env)
  {
  }

  /** The shift folds: zero operand, zero, undefined and over-wide constant amounts. */
  lemma ShiftFold(op: ShiftOp, l: NetExpr, r: NetExpr, w: nat, s: bool, u: Vec, v: Vec, env: Env)
    requires Means(l, w, s, u, env) && Means(r, NetWidth(r), false, v, env)
    ensures Means(ElabShift(op, l, r, w, s), w, s, Shift(op, u, v, s), env)
  {
    var n := ElabShift(op, l, r, w, s);
    if n == ShiftNode(op, l, r, s) {
      ShiftNodeMeans(op, l, r, w, s, u, v, env);
    } else if l.Const? {
      BoolIsDefined(r, env);
      ShiftOfZeros(op, w, v, s);
    } else if Defined(v) {
      assert r.value == v;
      ShiftByConstant(op, u, v, s);
      if op.Ashr? && s && ToInt(v, false) >= w > 0 { TopBitReplicated(l, w, u, env); }
    } else {
      assert n == Const(Fill(Vx, w), s);
    }
  }

  lemma UnaryFold(op: UnOp, n: NetExpr, w: nat, s: bool, u: Vec, env: Env)
    requires !IsReduction(op) && Means(n, w, s, u, env)
    ensures Means(ElabUnary(op, n, w, s), w, s, ApplyUnary(op, u, s), env)
  {
  }

  lemma ReductionFold(op: UnOp, n: NetExpr, w: nat, u: Vec, env: Env)
    requires IsReduction(op) && Typed(n) && Eval(n, env) == u && w >= 1
    ensures Means(ElabUnary(op, n, w, false), w, false, Resize([Reduce(op, u)], w, false), env)
  {
    NotByCountIsNot(u);
    var bit := [Reduce(op, u)];
    assert Resize(bit, 1, false) == bit;
  }

  lemma CompareFold(op: CompOp, l: NetExpr, r: NetExpr, w: nat, cw: nat, cs: bool, u: Vec, v: Vec, env: Env)
    requires Means(l, cw, cs, u, env) && Means(r, cw, cs, v, env) && w >= 1
    ensures Means(PadTo(CompNode(op, l, r), w, false), w, false, Resize([Compare(op, u, v, cs)], w, false), env)
  {
    var bit := [Compare(op, u, v, cs)];
    assert Eval(CompNode(op, l, r), env) == bit;
    assert Resize(bit, 1, false) == bit;
  }

  // ----- conditions -----

  lemma {:induction false} TrimKeepsTruth(v: Vec, s: bool)
    ensures Truth(Trim(v, s)) == Truth(v) && (|v| > 0 ==> |Trim(v, s)| > 0)
    decreases |v|
  {
    var n := |v|;
    if n >= 2 && v[n - 1] == v[n - 2] && (s || v[n - 1] == V0) {
      TrimKeepsTruth(v[..n - 1], s);
      assert v == v[..n - 1] + [v[n - 2]];
    }
  }

  lemma NotZeroIsTruth(v: Vec)
    ensures Truth([Compare(Ne, v, Fill(V0, |v|), false)]) == Truth(v)
    ensures Truth([Compare(Ne, v, Fill(V0, |v|), true)]) == Truth(v)
  {
    var bit := [Compare(Ne, v, Fill(V0, |v|), false)];
    assert bit[0] in bit;
    if V1 in v {
      var i :| 0 <= i < |v| && v[i] == V1;
      assert v[i] != Fill(V0, |v|)[i];
    }
  }

  lemma ReducedCondition(n: NetExpr, u: Vec, env: Env)
    requires Typed(n) && Eval(n, env) == u
    ensures var r := ReduceCondition(n);
      Typed(r) && NetWidth(r) == 1 && Truth(Eval(r, env)) == Truth(u)
  {
    NotZeroIsTruth(u);
  }

  // ----- literals -----

  /** A literal elaborates to its reference value exactly when it is not an unsized
      negative one that an unsigned context has to extend. */
  lemma LiteralExact(bits: Vec, hasLen: bool, hasSign: bool, w: nat, s: bool)
    requires s ==> hasSign
    ensures CastNumber(bits, hasLen, hasSign, w, s) == Literal(bits, hasLen, w, s)
       <==> !(NegativeLiteral(bits, hasLen, hasSign) && !s && w > |bits|)
  {
    if NegativeLiteral(bits, hasLen, hasSign) && !s && w > |bits| {
      assert CastNumber(bits, hasLen, hasSign, w, s)[w - 1] == V1;
      assert Literal(bits, hasLen, w, s)[w - 1] == V0;
    }
  }

  // ----- the whole tree -----

  lemma EvalExprMeans(n: NetExpr, w: nat, s: bool, v: Vec, env: Env)
    requires Means(n, w, s, v, env)
    ensures Means(EvalExpr(n), w, s, v, env)
  {
    FoldKeepsValue(n, env);
  }

  lemma NetMeans(id: nat, width: nat, two: bool, w: nat, s: bool, env: Env)
    requires width <= w
    ensures Means(PadTo(Signal(id, width, s, two), w, s), w, s, Resize(ReadSignal(env, id, width, two), w, s), env)
  {
    var v := ReadSignal(env, id, width, two);
    assert Eval(Signal(id, width, s, two), env) == v;
    assert Resize(v, width, s) == v;
  }

  lemma UnsignedAmount(r: NetExpr, v: Vec, env: Env)
    requires Typed(r) && Eval(r, env) == v
    ensures Means(if NetSign(r) then Pad(r, NetWidth(r), false) else r, NetWidth(r), false, v, env)
  {
    assert Resize(v, |v|, false) == v;
  }

  lemma BinaryFold(op: BinOp, l: NetExpr, r: NetExpr, w: nat, s: bool, u: Vec, v: Vec, env: Env)
    requires Means(l, w, s, u, env) && Means(r, w, s, v, env)
    ensures Means(if op.Mul? then ElabMult(l, r, w, s) else BinaryNode(op, l, r, s), w, s, Apply(op, u, v, s), env)
  {
    if op.Mul? { MultFold(l, r, w, s, u, v, env); }
  }

  /** A condition that is the constant 1 or 0 leaves only its clause. */
  lemma TernaryFold(c: NetExpr, l: NetExpr, r: NetExpr, w: nat, s: bool, b: Bit, u: Vec, v: Vec, env: Env)
    requires Typed(c) && NetWidth(c) == 1 && Truth(Eval(c, env)) == b
    requires Means(l, w, s, u, env) && Means(r, w, s, v, env)
    ensures Means(if c.Const? && c.value == [V1] then l
                  else if c.Const? && c.value == [V0] then r
                  else TernaryNode(c, l, r, s), w, s, Choose(b, u, v), env)
  {
    if c.Const? && c.value == [V1] {
      assert V1 in c.value;
    } else if c.Const? && c.value == [V0] {
      assert V1 !in c.value;
    } else {
      TernaryNodeMeans(c, l, r, w, s, b, u, v, env);
    }
  }

  lemma TernaryNodeMeans(c: NetExpr, l: NetExpr, r: NetExpr, w: nat, s: bool, b: Bit, u: Vec, v: Vec, env: Env)
    requires Typed(c) && NetWidth(c) == 1 && Truth(Eval(c, env)) == b
    requires Means(l, w, s, u, env) && Means(r, w, s, v, env)
    ensures Means(TernaryNode(c, l, r, s), w, s, Choose(b, u, v), env)
  {
  }

  lemma {:induction false} ConditionMeans(cfg: Config, c: Expr, env: Env)
    requires Fits(cfg, c, CondWidth(cfg, c)) && LiteralsKept(cfg, c, CondWidth(cfg, c), Sign(c))
    ensures var n := ElabCondition(cfg, c);
      && Typed(n) && NetWidth(n) == 1
      && Truth(Eval(n, env)) == Truth(Ref(cfg, c, CondWidth(cfg, c), Sign(c), env))
    decreases Size(c), 1
  {
    var w, s := CondWidth(cfg, c), Sign(c);
    var v := Ref(cfg, c, w, s, env);
    ElabMeans(cfg, c, w, s, env);
    var n := EvalExpr(Elab(cfg, c, w, s));
    EvalExprMeans(Elab(cfg, c, w, s), w, s, v, env);
    if n.Const? && Rank(Test(cfg, c, SIZED).mode) >= Rank(LOSSLESS) {
      TrimKeepsTruth(v, s);
      ReducedCondition(Const(Trim(v, s), s), Trim(v, s), env);
    } else {
      ReducedCondition(n, v, env);
    }
  }

  /** Elaboration at any width that fits, and with any sign the expression can take,
      yields a net expression of that width and sign whose value, in every
      environment, is the one the reference evaluator computes. */
  lemma {:induction false} ElabMeans(cfg: Config, e: Expr, w: nat, s: bool, env: Env)
    requires s ==> Sign(e)
    requires Fits(cfg, e, w) && LiteralsKept(cfg, e, w, s)
    ensures Means(Elab(cfg, e, w, s), w, s, Ref(cfg, e, w, s, env), env)
    decreases Size(e), 0
  {
    match e {
      case Number(bits, hasLen, hasSign) => LiteralExact(bits, hasLen, hasSign, w, s);
      case Net(id, width, _, two) => NetMeans(id, width, two, w, s, env);
      case Unary(op, a) => ElabUnaryMeans(cfg, op, a, w, s, env);
      case Binary(op, a, b) =>
        ElabMeans(cfg, a, w, s, env);
        ElabMeans(cfg, b, w, s, env);
        BinaryFold(op, Elab(cfg, a, w, s), Elab(cfg, b, w, s), w, s,
                   Ref(cfg, a, w, s, env), Ref(cfg, b, w, s, env), env);
      case Comp(op, a, b) =>
        var cw, cs := CompWidth(cfg, a, b), Sign(a) && Sign(b);
        ElabMeans(cfg, a, cw, cs, env);
        ElabMeans(cfg, b, cw, cs, env);
        var u, v := Ref(cfg, a, cw, cs, env), Ref(cfg, b, cw, cs, env);
        EvalExprMeans(Elab(cfg, a, cw, cs), cw, cs, u, env);
        EvalExprMeans(Elab(cfg, b, cw, cs), cw, cs, v, env);
        CompareFold(op, EvalExpr(Elab(cfg, a, cw, cs)), EvalExpr(Elab(cfg, b, cw, cs)), w, cw, cs, u, v, env);
      case ShiftExpr(op, a, b) => ElabShiftMeans(cfg, op, a, b, w, s, env);
      case Ternary(c, a, b) =>
        ConditionMeans(cfg, c, env);
        ElabMeans(cfg, a, w, s, env);
        ElabMeans(cfg, b, w, s, env);
        var u, v := Ref(cfg, a, w, s, env), Ref(cfg, b, w, s, env);
        EvalExprMeans(Elab(cfg, a, w, s), w, s, u, env);
        EvalExprMeans(Elab(cfg, b, w, s), w, s, v, env);
        TernaryFold(ElabCondition(cfg, c), EvalExpr(Elab(cfg, a, w, s)), EvalExpr(Elab(cfg, b, w, s)), w, s,
                    Truth(Ref(cfg, c, CondWidth(cfg, c), Sign(c), env)), u, v, env);
    }
  }

  lemma {:induction false} ElabUnaryMeans(cfg: Config, op: UnOp, a: Expr, w: nat, s: bool, env: Env)
    requires s ==> Sign(Unary(op, a))
    requires Fits(cfg, Unary(op, a), w) && LiteralsKept(cfg, Unary(op, a), w, s)
    ensures Means(Elab(cfg, Unary(op, a), w, s), w, s, Ref(cfg, Unary(op, a), w, s, env), env)
    decreases Size(a), 1
  {
    if IsReduction(op) {
      var sw := SelfWidth(cfg, a);
      ElabMeans(cfg, a, sw, Sign(a), env);
      ReductionFold(op, Elab(cfg, a, sw, Sign(a)), w, Ref(cfg, a, sw, Sign(a), env), env);
    } else {
      ElabMeans(cfg, a, w, s, env);
      UnaryFold(op, Elab(cfg, a, w, s), w, s, Ref(cfg, a, w, s, env), env);
    }
  }

  lemma {:induction false} ElabShiftMeans(cfg: Config, op: ShiftOp, a: Expr, b: Expr, w: nat, s: bool, env: Env)
    requires s ==> Sign(a)
    requires Fits(cfg, a, w) && Fits(cfg, b, SelfWidth(cfg, b))
    requires LiteralsKept(cfg, a, w, s) && LiteralsKept(cfg, b, SelfWidth(cfg, b), Sign(b))
    ensures Means(Elab(cfg, ShiftExpr(op, a, b), w, s), w, s, Ref(cfg, ShiftExpr(op, a, b), w, s, env), env)
    decreases Size(a) + Size(b), 1
  {
    ElabMeans(cfg, a, w, s, env);
    ElabMeans(cfg, b, SelfWidth(cfg, b), Sign(b), env);
    ShiftFromParts(cfg, op, a, b, w, s, env);
  }

  lemma ShiftFromParts(cfg: Config, op: ShiftOp, a: Expr, b: Expr, w: nat, s: bool, env: Env)
    requires Means(Elab(cfg, a, w, s), w, s, Ref(cfg, a, w, s, env), env)
    requires var rw := SelfWidth(cfg, b);
      Means(Elab(cfg, b, rw, Sign(b)), rw, Sign(b), Ref(cfg, b, rw, Sign(b), env), env)
    ensures Means(Elab(cfg, ShiftExpr(op, a, b), w, s), w, s, Ref(cfg, ShiftExpr(op, a, b), w, s, env), env)
  {
    var rw := SelfWidth(cfg, b);
    var u, v := Ref(cfg, a, w, s, env), Ref(cfg, b, rw, Sign(b), env);
    ShiftOfParts(op, Elab(cfg, a, w, s), Elab(cfg, b, rw, Sign(b)), w, s, u, v, env);
    ShiftUnfolds(cfg, op, a, b, w, s, env);
  }

  lemma ShiftUnfolds(cfg: Config, op: ShiftOp, a: Expr, b: Expr, w: nat, s: bool, env: Env)
    ensures var r := Elab(cfg, b, SelfWidth(cfg, b), Sign(b));
      Elab(cfg, ShiftExpr(op, a, b), w, s)
      == ElabShift(op, EvalExpr(Elab(cfg, a, w, s)),
                   EvalExpr(if NetSign(r) then Pad(r, NetWidth(r), false) else r), w, s)
    ensures Ref(cfg, ShiftExpr(op, a, b), w, s, env)
      == Shift(op, Ref(cfg, a, w, s, env), Ref(cfg, b, SelfWidth(cfg, b), Sign(b), env), s)
  {
  }

  lemma ShiftOfParts(op: ShiftOp, l: NetExpr, r: NetExpr, w: nat, s: bool, u: Vec, v: Vec, env: Env)
    requires Means(l, w, s, u, env) && Typed(r) && Eval(r, env) == v
    ensures var amount := if NetSign(r) then Pad(r, NetWidth(r), false) else r;
      Means(ElabShift(op, EvalExpr(l), EvalExpr(amount), w, s), w, s, Shift(op, u, v, s), env)
  {
    var amount := if NetSign(r) then Pad(r, NetWidth(r), false) else r;
    UnsignedAmount(r, v, env);
    EvalExprMeans(l, w, s, u, env);
    EvalExprMeans(amount, NetWidth(r), false, v, env);
    ShiftFold(op, EvalExpr(l), EvalExpr(amount), w, s, u, v, env);
  }
}
