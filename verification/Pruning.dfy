/** Width pruning: when only the low bits of a result are used, the expression may be
    evaluated at a smaller width. */
module Pruning {
  import opened Vectors
  import opened VectorFacts
  import opened NetExprs
  import opened Exprs
  import opened Reference
  import opened ElabCorrect
  import opened SizingFacts

  // ----- which operators keep low bits -----

  /** The low bits of the result depend only on the low bits of the operands. */
  ghost predicate KeepsLowBits(op: BinOp) {
    forall u: Vec, v: Vec, s: bool, k: nat
      | |u| == |v| && Defined(u) && Defined(v) && k <= |u| ::
      Apply(op, u, v, s)[..k] == Apply(op, u[..k], v[..k], s)
  }

  lemma IntAgreesBelow(u: Vec, u': Vec, k: nat, s: bool)
    requires Defined(u) && Defined(u') && k <= |u| && k <= |u'| && u[..k] == u'[..k]
    ensures Cong(ToInt(u, s), ToInt(u', s), k)
  {
    FromIntOfToInt(u, s);
    FromIntOfToInt(u', s);
    FromIntPrefix(ToInt(u, s), |u|, k);
    FromIntPrefix(ToInt(u', s), |u'|, k);
  }

  /** Sums, differences, products and bitwise operators at two widths agree on the
      low bits when their operands do. */
  lemma ApplyAgreesBelow(op: BinOp, u: Vec, v: Vec, u': Vec, v': Vec, s: bool, k: nat)
    requires IsRing(op) || IsBitwise(op)
    requires |u| == |v| && |u'| == |v'| && k <= |u| && k <= |u'|
    requires Defined(u) && Defined(v) && Defined(u') && Defined(v')
    requires u[..k] == u'[..k] && v[..k] == v'[..k]
    ensures Apply(op, u, v, s)[..k] == Apply(op, u', v', s)[..k]
  {
    if IsRing(op) {
      IntAgreesBelow(u, u', k, s);
      IntAgreesBelow(v, v', k, s);
      var x, y, x', y' := ToInt(u, s), ToInt(v, s), ToInt(u', s), ToInt(v', s);
      CongIntOp(op, x, x', y, y', k);
      FromIntPrefix(IntOp(op, x, y), |u|, k);
      FromIntPrefix(IntOp(op, x', y'), |u'|, k);
    } else {
      forall i | 0 <= i < k ensures Apply(op, u, v, s)[i] == Apply(op, u', v', s)[i] {
        assert u[i] == u[..k][i] && v[i] == v[..k][i];
      }
    }
  }

  lemma UnaryAgreesBelow(op: UnOp, u: Vec, u': Vec, s: bool, k: nat)
    requires !IsReduction(op) && op != Abs
    requires k <= |u| && k <= |u'| && Defined(u) && Defined(u') && u[..k] == u'[..k]
    ensures ApplyUnary(op, u, s)[..k] == ApplyUnary(op, u', s)[..k]
  {
    if op.Neg? {
      IntAgreesBelow(u, u', k, s);
      CongNeg(ToInt(u, s), ToInt(u', s), k);
      FromIntPrefix(-ToInt(u, s), |u|, k);
      FromIntPrefix(-ToInt(u', s), |u'|, k);
    } else {
      forall i | 0 <= i < k ensures ApplyUnary(op, u, s)[i] == ApplyUnary(op, u', s)[i] {
        assert u[i] == u[..k][i] && u'[i] == u'[..k][i];
      }
    }
  }

  lemma ShlAgreesBelow(u: Vec, u': Vec, amount: Vec, s: bool, k: nat)
    requires k <= |u| && k <= |u'| && Defined(amount) && u[..k] == u'[..k]
    ensures Shift(Shl, u, amount, s)[..k] == Shift(Shl, u', amount, s)[..k]
  {
    ToIntUnsigned(amount);
    var n := ToInt(amount, false);
    forall i | 0 <= i < k ensures ShiftBy(Shl, u, n, s)[i] == ShiftBy(Shl, u', n, s)[i] {
      if i >= n { assert u[i - n] == u[..k][i - n] && u'[i - n] == u'[..k][i - n]; }
    }
  }

  lemma RingKeepsLowBits(op: BinOp)
    requires IsRing(op) || IsBitwise(op)
    ensures KeepsLowBits(op)
  {
    forall u: Vec, v: Vec, s: bool, k: nat
      | |u| == |v| && Defined(u) && Defined(v) && k <= |u|
      ensures Apply(op, u, v, s)[..k] == Apply(op, u[..k], v[..k], s)
    {
      ApplyAgreesBelow(op, u, v, u[..k], v[..k], s, k);
    }
  }

  lemma TwoBits(v: Vec)
    requires |v| == 2 && Defined(v)
    ensures ToInt(v, false) == Digit(v[0]) + 2 * Digit(v[1])
    ensures v[..1] == [v[0]] && v[1..] == [v[1]]
  {
    assert v[1..] == [v[1]];
  }

  lemma LowBitOf(op: BinOp, u: Vec, v: Vec, x: int)
    requires op.Div? || op.Mod? || op.Min? || op.Max?
    requires |u| == |v| == 2 && Defined(u) && Defined(v) && ToInt(v, false) > 0
    requires x == IntOp(op, ToInt(u, false), ToInt(v, false))
    ensures Apply(op, u, v, false)[..1] == FromInt(x, 1)
  {
    FromIntPrefix(x, 2, 1);
  }

  /** A pair of two-bit operands whose low bits give another low bit. */
  lemma OneBitDiffers(op: BinOp, u: Vec, v: Vec)
    requires |u| == |v| == 2 && Defined(u) && Defined(v)
    requires Apply(op, u, v, false)[..1] != Apply(op, [u[0]], [v[0]], false)
    ensures !KeepsLowBits(op)
  {
    assert u[..1] == [u[0]] && v[..1] == [v[0]];
    assert Apply(op, u, v, false)[..1] != Apply(op, u[..1], v[..1], false);
  }

  /** Two-bit operands 2 and 1 (for `/` and `%`, 2 and 2) against their low bits. */
  lemma OthersLoseLowBits(op: BinOp)
    requires op.Div? || op.Mod? || op.Min? || op.Max?
    ensures !KeepsLowBits(op)
  {
    var u := [V0, V1];
    TwoBits(u);
    if op.Div? || op.Mod? {
      LowBitOf(op, u, u, if op.Div? then 1 else 0);
      assert Apply(op, [V0], [V0], false) == [Vx];
      OneBitDiffers(op, u, u);
    } else {
      TwoBits([V1, V0]);
      LowBitOf(op, u, [V1, V0], if op.Min? then 1 else 2);
      assert Apply(op, [V0], [V1], false) == [if op.Min? then V0 else V1];
      OneBitDiffers(op, u, [V1, V0]);
    }
  }

  /** The guard that turns pruning off (`/` and `%`) is exact for every binary
      operator except `min` and `max`, which it lets through. */
  lemma PruningGuardExact(op: BinOp)
    ensures ((op.Div? || op.Mod?) <==> !KeepsLowBits(op)) <==> !(op.Min? || op.Max?)
  {
    if IsRing(op) || IsBitwise(op) { RingKeepsLowBits(op); } else { OthersLoseLowBits(op); }
  }

  ghost predicate UnaryKeepsLowBits(op: UnOp)
    requires !IsReduction(op)
  {
    forall u: Vec, s: bool, k: nat | Defined(u) && k <= |u| :: ApplyUnary(op, u, s)[..k] == ApplyUnary(op, u[..k], s)
  }

  /** The low two bits of a signed 3 stand for -1. */
  lemma AbsLosesLowBits()
    ensures !UnaryKeepsLowBits(Abs)
  {
    var u := [V1, V1, V0];
    assert u[1..] == [V1, V0] && u[1..][1..] == [V0];
    assert ToInt(u, true) == 3;
    assert u[..2] == [V1, V1] && [V1, V1][1..] == [V1];
    assert ToInt(u[..2], true) == -1;
    assert ApplyUnary(Abs, u, true) == u;
    assert ApplyUnary(Abs, u[..2], true)[1] == FromInt(1, 2)[1] == FromInt(0, 1)[0];
    assert u[..2][1] != ApplyUnary(Abs, u[..2], true)[1];
  }

  /** No unary operator turns pruning off, which is right for all but `abs`. */
  lemma UnaryGuardExact(op: UnOp)
    requires !IsReduction(op)
    ensures UnaryKeepsLowBits(op) <==> !op.Abs?
  {
    if op.Abs? {
      AbsLosesLowBits();
    } else {
      forall u: Vec, s: bool, k: nat | Defined(u) && k <= |u|
        ensures ApplyUnary(op, u, s)[..k] == ApplyUnary(op, u[..k], s)
      {
        UnaryAgreesBelow(op, u, u[..k], s, k);
      }
    }
  }

  ghost predicate ShiftKeepsLowBits(op: ShiftOp) {
    forall u: Vec, amount: Vec, s: bool, k: nat | Defined(amount) && k <= |u| ::
      Shift(op, u, amount, s)[..k] == Shift(op, u[..k], amount, s)
  }

  /** The bit above the kept one moves down. */
  lemma RightShiftLosesLowBits(op: ShiftOp)
    requires !op.Shl?
    ensures !ShiftKeepsLowBits(op)
  {
    var u, amount := [V0, V1], [V1];
    assert Shift(op, u, amount, false)[0] == V1;
    assert u[..1] == [V0] && Shift(op, [V0], amount, false)[0] == V0;
    assert Shift(op, u, amount, false)[..1] != Shift(op, u[..1], amount, false);
  }

  /** For shifts the guard (`>>` and `>>>`) is exact. */
  lemma ShiftGuardExact(op: ShiftOp)
    ensures ShiftKeepsLowBits(op) <==> op.Shl?
  {
    if op.Shl? {
      forall u: Vec, amount: Vec, s: bool, k: nat | Defined(amount) && k <= |u|
        ensures Shift(op, u, amount, s)[..k] == Shift(op, u[..k], amount, s)
      {
        ShlAgreesBelow(u, u[..k], amount, s, k);
      }
    } else {
      RightShiftLosesLowBits(op);
    }
  }

  // ----- trees -----

  /** No operator that turns pruning off (`/`, `%`, `>>`, `>>>`) where the context width
      reaches. */
  predicate Unguarded(e: Expr) {
    match e
    case Unary(op, a) => IsReduction(op) || Unguarded(a)
    case Binary(op, a, b) => !op.Div? && !op.Mod? && Unguarded(a) && Unguarded(b)
    case ShiftExpr(op, a, _) => op.Shl? && Unguarded(a)
    case Ternary(_, a, b) => Unguarded(a) && Unguarded(b)
    case _ => true
  }

  /** No `min`, `max` or `abs` where the context width reaches. */
  predicate NoMinMaxAbs(e: Expr) {
    match e
    case Unary(op, a) => IsReduction(op) || (op != Abs && NoMinMaxAbs(a))
    case Binary(op, a, b) => op != Min && op != Max && NoMinMaxAbs(a) && NoMinMaxAbs(b)
    case ShiftExpr(_, a, _) => NoMinMaxAbs(a)
    case Ternary(_, a, b) => NoMinMaxAbs(a) && NoMinMaxAbs(b)
    case _ => true
  }

  /** Only operators that keep low bits where the context width reaches. */
  predicate Prunable(e: Expr) {
    match e
    case Unary(op, a) => IsReduction(op) || (op != Abs && Prunable(a))
    case Binary(op, a, b) => (IsRing(op) || IsBitwise(op)) && Prunable(a) && Prunable(b)
    case ShiftExpr(op, a, _) => op.Shl? && Prunable(a)
    case Ternary(_, a, b) => Prunable(a) && Prunable(b)
    case _ => true
  }

  lemma {:induction false} PrunableMeans(e: Expr)
    ensures Prunable(e) <==> Unguarded(e) && NoMinMaxAbs(e)
  {
    match e {
      case Unary(op, a) => if !IsReduction(op) { PrunableMeans(a); }
      case Binary(_, a, b) => PrunableMeans(a); PrunableMeans(b);
      case ShiftExpr(_, a, _) => PrunableMeans(a);
      case Ternary(_, a, b) => PrunableMeans(a); PrunableMeans(b);
      case _ =>
    }
  }

  /** Leaf widths are C++ unsigned values other than the reserved one. */
  predicate SmallLeaves(e: Expr) {
    match e
    case Number(bits, _, _) => |bits| < UINT_MAX
    case Net(_, w, _, _) => w < UINT_MAX
    case Unary(_, a) => SmallLeaves(a)
    case Binary(_, a, b) => SmallLeaves(a) && SmallLeaves(b)
    case Comp(_, _, _) => true
    case ShiftExpr(_, a, _) => SmallLeaves(a)
    case Ternary(_, a, b) => SmallLeaves(a) && SmallLeaves(b)
  }

  /** The reserved minimum width is absorbed upward through every operator the
      context width passes through, and appears for no other reason. */
  lemma {:induction false} ReservedWidthAbsorbed(e: Expr)
    requires SmallLeaves(e)
    ensures MinWidth(e) <= UINT_MAX
    ensures MinWidth(e) != UINT_MAX <==> Unguarded(e)
  {
    match e {
      case Unary(op, a) => if !IsReduction(op) { ReservedWidthAbsorbed(a); }
      case Binary(_, a, b) => ReservedWidthAbsorbed(a); ReservedWidthAbsorbed(b);
      case ShiftExpr(_, a, _) => ReservedWidthAbsorbed(a);
      case Ternary(_, a, b) => ReservedWidthAbsorbed(a); ReservedWidthAbsorbed(b);
      case _ =>
    }
  }

  /** Every operand value is fully defined. */
  predicate AllDefined(cfg: Config, e: Expr, env: Env) {
    match e
    case Number(bits, _, _) => Defined(bits)
    case Net(id, w, _, two) => Defined(ReadSignal(env, id, w, two))
    case Unary(op, a) =>
      if IsReduction(op) then Known(Reduce(op, Ref(cfg, a, SelfWidth(cfg, a), Sign(a), env)))
      else AllDefined(cfg, a, env)
    case Binary(_, a, b) => AllDefined(cfg, a, env) && AllDefined(cfg, b, env)
    case Comp(op, a, b) =>
      var cw, cs := CompWidth(cfg, a, b), Sign(a) && Sign(b);
      Known(Compare(op, Ref(cfg, a, cw, cs, env), Ref(cfg, b, cw, cs, env), cs))
    case ShiftExpr(_, a, b) =>
      AllDefined(cfg, a, env) && Defined(Ref(cfg, b, SelfWidth(cfg, b), Sign(b), env))
    case Ternary(c, a, b) =>
      && Known(Truth(Ref(cfg, c, CondWidth(cfg, c), Sign(c), env)))
      && AllDefined(cfg, a, env) && AllDefined(cfg, b, env)
  }

  lemma {:induction false} PrunableIsDefined(cfg: Config, e: Expr, w: nat, s: bool, env: Env)
    requires Prunable(e) && AllDefined(cfg, e, env)
    ensures Defined(Ref(cfg, e, w, s, env))
  {
    match e {
      case Unary(op, a) => if !IsReduction(op) { PrunableIsDefined(cfg, a, w, s, env); }
      case Binary(op, a, b) =>
        PrunableIsDefined(cfg, a, w, s, env);
        PrunableIsDefined(cfg, b, w, s, env);
        ApplyDefined(op, Ref(cfg, a, w, s, env), Ref(cfg, b, w, s, env), s);
      case ShiftExpr(op, a, b) =>
        PrunableIsDefined(cfg, a, w, s, env);
        ShiftDefined(op, Ref(cfg, a, w, s, env), Ref(cfg, b, SelfWidth(cfg, b), Sign(b), env), s);
      case Ternary(_, a, b) => PrunableIsDefined(cfg, a, w, s, env); PrunableIsDefined(cfg, b, w, s, env);
      case _ =>
    }
  }

  /** Pruning is sound: for defined operands, evaluating at any two widths agrees on
      all the bits they share. */
  lemma {:induction false} WidthsAgreeBelow(cfg: Config, e: Expr, w: nat, w': nat, s: bool, env: Env, k: nat)
    requires Prunable(e) && AllDefined(cfg, e, env)
    requires k <= w && k <= w'
    ensures Ref(cfg, e, w, s, env)[..k] == Ref(cfg, e, w', s, env)[..k]
  {
    match e {
      case Number(_, _, _) =>
      case Net(_, _, _, _) =>
      case Comp(_, _, _) =>
      case Unary(op, a) =>
        if !IsReduction(op) {
          WidthsAgreeBelow(cfg, a, w, w', s, env, k);
          PrunableIsDefined(cfg, a, w, s, env);
          PrunableIsDefined(cfg, a, w', s, env);
          UnaryAgreesBelow(op, Ref(cfg, a, w, s, env), Ref(cfg, a, w', s, env), s, k);
        }
      case Binary(op, a, b) =>
        WidthsAgreeBelow(cfg, a, w, w', s, env, k);
        WidthsAgreeBelow(cfg, b, w, w', s, env, k);
        PrunableIsDefined(cfg, a, w, s, env);
        PrunableIsDefined(cfg, a, w', s, env);
        PrunableIsDefined(cfg, b, w, s, env);
        PrunableIsDefined(cfg, b, w', s, env);
        ApplyAgreesBelow(op, Ref(cfg, a, w, s, env), Ref(cfg, b, w, s, env),
                         Ref(cfg, a, w', s, env), Ref(cfg, b, w', s, env), s, k);
      case ShiftExpr(_, a, b) =>
        WidthsAgreeBelow(cfg, a, w, w', s, env, k);
        ShlAgreesBelow(Ref(cfg, a, w, s, env), Ref(cfg, a, w', s, env),
                       Ref(cfg, b, SelfWidth(cfg, b), Sign(b), env), s, k);
      case Ternary(_, a, b) =>
        WidthsAgreeBelow(cfg, a, w, w', s, env, k);
        WidthsAgreeBelow(cfg, b, w, w', s, env, k);
    }
  }

  // ----- assignments -----

  lemma {:induction false} MinWidthFits(cfg: Config, e: Expr, w: nat, w': nat)
    requires Prunable(e) && Fits(cfg, e, w) && w' >= 1 && w' >= MinWidth(e)
    ensures Fits(cfg, e, w')
  {
    match e {
      case Unary(op, a) => if !IsReduction(op) { MinWidthFits(cfg, a, w, w'); }
      case Binary(_, a, b) => MinWidthFits(cfg, a, w, w'); MinWidthFits(cfg, b, w, w');
      case ShiftExpr(_, a, _) => MinWidthFits(cfg, a, w, w');
      case Ternary(_, a, b) => MinWidthFits(cfg, a, w, w'); MinWidthFits(cfg, b, w, w');
      case _ =>
    }
  }

  /** The width before pruning: the expression's own, at least the target's. */
  function FullWidth(cfg: Config, e: Expr, target: nat): nat {
    Larger(SelfWidth(cfg, e), target)
  }

  predicate CapApplies(cfg: Config, e: Expr, width: nat, target: nat) {
    Lossless(Test(cfg, e, SIZED).mode) && width > cfg.widthCap && width > target
  }

  function PrunedWidth(cfg: Config, e: Expr, target: nat): nat {
    var t, full := Test(cfg, e, SIZED), FullWidth(cfg, e, target);
    if t.minWidth != UINT_MAX && target > 0 && full > target then Larger(t.minWidth, target) else full
  }

  /** `elab_and_eval` for the right side of an assignment to `target` bits. */
  function AssignElab(cfg: Config, e: Expr, target: nat): NetExpr {
    var n := EvalExpr(Elab(cfg, e, AssignedWidth(cfg, e, target), Sign(e)));
    if n.Const? && target > 0 then Const(Resize(n.value, target, n.sg), n.sg) else n
  }

  function Smaller(x: nat, y: nat): nat {
    if x < y then x else y
  }

  /** The width at which the right side of an assignment is elaborated. */
  function AssignedWidth(cfg: Config, e: Expr, target: nat): nat {
    var w := PrunedWidth(cfg, e, target);
    if CapApplies(cfg, e, w, target) then cfg.widthCap else w
  }

  /** A lossless mode is held to the width cap, in a condition and, from the width of the target
      on, in an assignment; no other mode is. Pruning never goes below the target, and does
      nothing to an expression no wider than it. */
  lemma CapExactly(cfg: Config, e: Expr, target: nat)
    requires 0 < target <= cfg.widthCap
    ensures var lossless := Rank(Test(cfg, e, SIZED).mode) >= Rank(LOSSLESS);
      && CondWidth(cfg, e) == (if lossless then Smaller(SelfWidth(cfg, e), cfg.widthCap) else SelfWidth(cfg, e))
      && target <= AssignedWidth(cfg, e, target) && (lossless ==> AssignedWidth(cfg, e, target) <= cfg.widthCap)
      && (!lossless || PrunedWidth(cfg, e, target) <= cfg.widthCap ==>
            AssignedWidth(cfg, e, target) == PrunedWidth(cfg, e, target))
      && (SelfWidth(cfg, e) <= target ==> PrunedWidth(cfg, e, target) == target)
  {
  }

  /** What is stored is the low bits of the value at the pruned width. */
  lemma AssignmentStoresPruned(cfg: Config, e: Expr, target: nat, env: Env)
    requires target > 0 && !CapApplies(cfg, e, PrunedWidth(cfg, e, target), target)
    requires var w := PrunedWidth(cfg, e, target); Fits(cfg, e, w) && LiteralsKept(cfg, e, w, Sign(e))
    ensures var n, w := AssignElab(cfg, e, target), PrunedWidth(cfg, e, target);
      && Typed(n) && NetWidth(n) >= target && w >= target
      && Eval(n, env)[..target] == Ref(cfg, e, w, Sign(e), env)[..target]
  {
    var w, s := PrunedWidth(cfg, e, target), Sign(e);
    ElabMeans(cfg, e, w, s, env);
    EvalExprMeans(Elab(cfg, e, w, s), w, s, Ref(cfg, e, w, s, env), env);
  }

  /** An assignment stores the low bits of the value at the full width, although the
      right side may be elaborated at the pruned width. */
  lemma AssignmentStoresFullValue(cfg: Config, e: Expr, target: nat, env: Env)
    requires target > 0 && !CapApplies(cfg, e, PrunedWidth(cfg, e, target), target)
    requires Fits(cfg, e, FullWidth(cfg, e, target)) && LiteralsKept(cfg, e, PrunedWidth(cfg, e, target), Sign(e))
    requires PrunedWidth(cfg, e, target) != FullWidth(cfg, e, target) ==>
      SmallLeaves(e) && NoMinMaxAbs(e) && AllDefined(cfg, e, env)
    ensures var n := AssignElab(cfg, e, target);
      && Typed(n) && NetWidth(n) >= target
      && Eval(n, env)[..target] == Ref(cfg, e, FullWidth(cfg, e, target), Sign(e), env)[..target]
  {
    var w, full, s := PrunedWidth(cfg, e, target), FullWidth(cfg, e, target), Sign(e);
    if w != full {
      MinWidthFixed(cfg, e, SIZED);
      ReservedWidthAbsorbed(e);
      PrunableMeans(e);
      MinWidthFits(cfg, e, full, w);
      WidthsAgreeBelow(cfg, e, w, full, s, env, target);
    }
    AssignmentStoresPruned(cfg, e, target, env);
  }

  lemma {:induction false} LiteralsKeptBelow(cfg: Config, e: Expr, w: nat, w': nat, s: bool)
    requires LiteralsKept(cfg, e, w, s) && w' <= w
    ensures LiteralsKept(cfg, e, w', s)
  {
    match e {
      case Unary(op, a) => if !IsReduction(op) { LiteralsKeptBelow(cfg, a, w, w', s); }
      case Binary(_, a, b) => LiteralsKeptBelow(cfg, a, w, w', s); LiteralsKeptBelow(cfg, b, w, w', s);
      case ShiftExpr(_, a, _) => LiteralsKeptBelow(cfg, a, w, w', s);
      case Ternary(_, a, b) => LiteralsKeptBelow(cfg, a, w, w', s); LiteralsKeptBelow(cfg, b, w, w', s);
      case _ =>
    }
  }

  /** An unguarded tree needs no more than the standard's width. */
  lemma {:induction false} MinIsSmaller(cfg: Config, e: Expr)
    requires ShortLiterals(cfg, e)
    ensures Unguarded(e) ==> MinWidth(e) <= StandardWidth(cfg, e)
  {
    match e {
      case Unary(op, a) => if !IsReduction(op) { MinIsSmaller(cfg, a); }
      case Binary(_, a, b) => MinIsSmaller(cfg, a); MinIsSmaller(cfg, b);
      case ShiftExpr(_, a, _) => MinIsSmaller(cfg, a);
      case Ternary(_, a, b) => MinIsSmaller(cfg, a); MinIsSmaller(cfg, b);
      case _ =>
    }
  }

  /** What pruning asks of a tree wider than its target. */
  ghost predicate PruningSafe(cfg: Config, e: Expr, env: Env) {
    SmallLeaves(e) && (Unguarded(e) ==> NoMinMaxAbs(e) && AllDefined(cfg, e, env))
  }

  /** For a tree of short literals the width of an assignment is the one of the standard,
      the larger of the tree's own and the target's, and the sign is that of all operands. */
  lemma AssignmentIsStandard(cfg: Config, e: Expr, target: nat, env: Env)
    requires target > 0 && ShortLiterals(cfg, e)
    requires var w := Larger(StandardWidth(cfg, e), target);
      Fits(cfg, e, w) && LiteralsKept(cfg, e, w, false !in ContextSigns(e))
    requires StandardWidth(cfg, e) > target ==> PruningSafe(cfg, e, env)
    ensures var n, w := AssignElab(cfg, e, target), Larger(StandardWidth(cfg, e), target);
      && Typed(n) && NetWidth(n) >= target
      && Eval(n, env)[..target] == Ref(cfg, e, w, false !in ContextSigns(e), env)[..target]
  {
    var w := Larger(StandardWidth(cfg, e), target);
    ShortIsStandard(cfg, e, SIZED);
    SignIsStandard(e);
    MinWidthFixed(cfg, e, SIZED);
    if StandardWidth(cfg, e) > target { ReservedWidthAbsorbed(e); }
    MinIsSmaller(cfg, e);
    LiteralsKeptBelow(cfg, e, w, PrunedWidth(cfg, e, target), Sign(e));
    AssignmentStoresFullValue(cfg, e, target, env);
  }
}
