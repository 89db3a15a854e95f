/** Four-state vectors and the operators of IEEE 1364-2005 section 5.1 on them.
    Index 0 of a vector is its least significant bit. */
module Vectors {

  datatype Bit = V0 | V1 | Vx | Vz

  type Vec = seq<Bit>

  predicate Known(b: Bit) {
    b == V0 || b == V1
  }

  predicate Defined(v: Vec) {
    forall i | 0 <= i < |v| :: Known(v[i])
  }

  function Fill(b: Bit, n: nat): (v: Vec)
    ensures |v| == n && forall i | 0 <= i < n :: v[i] == b
  {
    seq(n, i => b)
  }

  function Pow2(n: nat): (p: int)
    ensures p >= 1
  {
    if n == 0 then 1 else 2 * Pow2(n - 1)
  }

  function Digit(b: Bit): int {
    if b == V1 then 1 else 0
  }

  /** The low `w` bits of the two's complement form of `x`. */
  function FromInt(x: int, w: nat): (v: Vec)
    ensures |v| == w && Defined(v)
    decreases w
  {
    if w == 0 then [] else [if x % 2 == 1 then V1 else V0] + FromInt(x / 2, w - 1)
  }

  /** The integer a vector stands for; x and z bits count as 0. */
  function ToInt(v: Vec, signed: bool): int {
    if |v| == 0 then 0
    else if |v| == 1 then (if signed then -Digit(v[0]) else Digit(v[0]))
    else Digit(v[0]) + 2 * ToInt(v[1..], signed)
  }

  /** Truncation, or extension by the top bit (signed) or by zero. */
  function Resize(v: Vec, w: nat, signed: bool): (r: Vec)
    ensures |r| == w
  {
    if w <= |v| then v[..w]
    else v + Fill(if signed && |v| > 0 then v[|v| - 1] else V0, w - |v|)
  }

  // ----- operators -----

  datatype UnOp = Plus | Neg | BitNot | Abs
                | Not | RedAnd | RedOr | RedXor | RedNand | RedNor | RedXnor

  datatype BinOp = Add | Sub | Mul | Div | Mod | Min | Max
                 | And | Or | Xor | Nor | Nand | Xnor

  datatype CompOp = Eq | Ne | CaseEq | CaseNe | Lt | Le | Gt | Ge

  datatype ShiftOp = Shl | Shr | Ashr

  predicate IsReduction(op: UnOp) {
    op.Not? || op.RedAnd? || op.RedOr? || op.RedXor? || op.RedNand? || op.RedNor? || op.RedXnor?
  }

  predicate IsBitwise(op: BinOp) {
    op.And? || op.Or? || op.Xor? || op.Nor? || op.Nand? || op.Xnor?
  }

  function Invert(a: Bit): Bit {
    match a case V0 => V1 case V1 => V0 case _ => Vx
  }

  function BitAnd(a: Bit, b: Bit): Bit {
    if a == V0 || b == V0 then V0 else if a == V1 && b == V1 then V1 else Vx
  }

  function BitOr(a: Bit, b: Bit): Bit {
    if a == V1 || b == V1 then V1 else if a == V0 && b == V0 then V0 else Vx
  }

  function BitXor(a: Bit, b: Bit): Bit {
    if !Known(a) || !Known(b) then Vx else if a == b then V0 else V1
  }

  function BitTable(op: BinOp, a: Bit, b: Bit): Bit
    requires IsBitwise(op)
  {
    match op
    case And => BitAnd(a, b)
    case Or => BitOr(a, b)
    case Xor => BitXor(a, b)
    case Nor => Invert(BitOr(a, b))
    case Nand => Invert(BitAnd(a, b))
    case Xnor => Invert(BitXor(a, b))
  }

  /** Division that truncates toward zero. */
  function Quotient(x: int, y: int): int
    requires y != 0
  {
    if x >= 0 then x / y else -((-x) / y)
  }

  function Remainder(x: int, y: int): int
    requires y != 0
  {
    x - y * Quotient(x, y)
  }

  function IntOp(op: BinOp, x: int, y: int): int
    requires !IsBitwise(op)
    requires op.Div? || op.Mod? ==> y != 0
  {
    match op
    case Add => x + y
    case Sub => x - y
    case Mul => x * y
    case Div => Quotient(x, y)
    case Mod => Remainder(x, y)
    case Min => if x < y then x else y
    case Max => if x > y then x else y
  }

  predicate IsRing(op: BinOp) {
    op.Add? || op.Sub? || op.Mul?
  }

  function ApplyBits(op: BinOp, u: Vec, v: Vec): (r: Vec)
    requires IsBitwise(op) && |u| == |v|
    ensures |r| == |u|
  {
    seq(|u|, i requires 0 <= i < |u| => BitTable(op, u[i], v[i]))
  }

  /** An undefined bit anywhere, or a zero divisor, makes the whole result unknown. */
  function ApplyInt(op: BinOp, u: Vec, v: Vec, signed: bool): (r: Vec)
    requires !IsBitwise(op) && |u| == |v|
    ensures |r| == |u|
  {
    if !Defined(u) || !Defined(v) then Fill(Vx, |u|)
    else if (op.Div? || op.Mod?) && ToInt(v, signed) == 0 then Fill(Vx, |u|)
    else FromInt(IntOp(op, ToInt(u, signed), ToInt(v, signed)), |u|)
  }

  /** A binary operator on two vectors of the context width. */
  function Apply(op: BinOp, u: Vec, v: Vec, signed: bool): (r: Vec)
    requires |u| == |v|
    ensures |r| == |u|
  {
    if IsBitwise(op) then ApplyBits(op, u, v) else ApplyInt(op, u, v, signed)
  }

  function ApplyUnary(op: UnOp, u: Vec, signed: bool): (r: Vec)
    requires !IsReduction(op)
    ensures |r| == |u|
  {
    match op
    case Plus => u
    case BitNot => seq(|u|, i requires 0 <= i < |u| => Invert(u[i]))
    case Neg => if Defined(u) then FromInt(-ToInt(u, signed), |u|) else Fill(Vx, |u|)
    case Abs =>
      if !Defined(u) then Fill(Vx, |u|)
      else if ToInt(u, signed) < 0 then FromInt(-ToInt(u, signed), |u|) else u
  }

  function FoldBits(op: BinOp, u: Vec, unit: Bit): Bit
    requires IsBitwise(op)
  {
    if |u| == 0 then unit else BitTable(op, u[0], FoldBits(op, u[1..], unit))
  }

  /** V1 when some bit is 1, V0 when every bit is 0, otherwise Vx. */
  function Truth(u: Vec): Bit {
    if V1 in u then V1 else if forall i | 0 <= i < |u| :: u[i] == V0 then V0 else Vx
  }

  function Reduce(op: UnOp, u: Vec): Bit
    requires IsReduction(op)
  {
    match op
    case Not => Invert(Truth(u))
    case RedAnd => FoldBits(And, u, V1)
    case RedOr => FoldBits(Or, u, V0)
    case RedXor => FoldBits(Xor, u, V0)
    case RedNand => Invert(FoldBits(And, u, V1))
    case RedNor => Invert(FoldBits(Or, u, V0))
    case RedXnor => Invert(FoldBits(Xor, u, V0))
  }

  function ToBit(b: bool): Bit {
    if b then V1 else V0
  }

  /** Logical equality: known as soon as two known bits differ. */
  function Equal(u: Vec, v: Vec): Bit
    requires |u| == |v|
  {
    if exists i | 0 <= i < |u| :: Known(u[i]) && Known(v[i]) && u[i] != v[i] then V0
    else if Defined(u) && Defined(v) then V1
    else Vx
  }

  function Compare(op: CompOp, u: Vec, v: Vec, signed: bool): Bit
    requires |u| == |v|
  {
    match op
    case CaseEq => ToBit(u == v)
    case CaseNe => ToBit(u != v)
    case Eq => Equal(u, v)
    case Ne => Invert(Equal(u, v))
    case _ =>
      if !Defined(u) || !Defined(v) then Vx
      else
        var x, y := ToInt(u, signed), ToInt(v, signed);
        ToBit(match op
              case Lt => x < y
              case Le => x <= y
              case Gt => x > y
              case _ => x >= y)
  }

  function ShiftBy(op: ShiftOp, u: Vec, n: nat, signed: bool): (r: Vec)
    ensures |r| == |u|
  {
    var k := if n > |u| then |u| else n;
    match op
    case Shl => Fill(V0, k) + u[..|u| - k]
    case Shr => u[k..] + Fill(V0, k)
    case Ashr => u[k..] + Fill(if signed && |u| > 0 then u[|u| - 1] else V0, k)
  }

  /** The shift amount is read as an unsigned number. */
  function Shift(op: ShiftOp, u: Vec, amount: Vec, signed: bool): (r: Vec)
    ensures |r| == |u|
  {
    var n := ToInt(amount, false);
    if !Defined(amount) || n < 0 then Fill(Vx, |u|) else ShiftBy(op, u, n, signed)
  }

  function Blend(a: Bit, b: Bit): Bit {
    if a == b then a else Vx
  }

  /** The conditional operator on an already reduced condition. */
  function Choose(c: Bit, u: Vec, v: Vec): (r: Vec)
    requires |u| == |v|
    ensures |r| == |u|
  {
    match c
    case V1 => u
    case V0 => v
    case _ => seq(|u|, i requires 0 <= i < |u| => Blend(u[i], v[i]))
  }
}
