/** Arithmetic on constants (`verinum`), bit by bit as the compiler does it: ripple carry,
    shift and add, comparison from the top, long division. Each method is proved to
    compute the operator on vectors. */
module Verinums {
  import opened Vectors
  import opened VectorFacts

  // ----- vectors as sums of digits -----

  lemma ToIntStep(b: Bit, v: Vec)
    ensures ToInt([b] + v, false) == Digit(b) + 2 * ToInt(v, false)
  {
    assert ([b] + v)[1..] == v;
  }

  lemma {:induction false} ToIntAppend(v: Vec, b: Bit)
    ensures ToInt(v + [b], false) == ToInt(v, false) + Digit(b) * Pow2(|v|)
  {
    if v == [] {
      assert v + [b] == [b];
    } else {
      assert (v + [b])[1..] == v[1..] + [b];
      ToIntAppend(v[1..], b);
      assert Digit(b) * Pow2(|v|) == 2 * (Digit(b) * Pow2(|v| - 1));
      assert ToInt(v, false) == Digit(v[0]) + 2 * ToInt(v[1..], false);
    }
  }

  lemma ToIntPrefix(v: Vec, k: nat)
    requires k < |v|
    ensures ToInt(v[..k + 1], false) == ToInt(v[..k], false) + Digit(v[k]) * Pow2(k)
  {
    assert v[..k + 1] == v[..k] + [v[k]];
    ToIntAppend(v[..k], v[k]);
  }

  lemma SplitStep(low: int, d: int, p: int, rest: int)
    ensures low + d * p + 2 * p * rest == low + p * (d + 2 * rest)
  {
    assert p * (d + 2 * rest) == p * d + p * (2 * rest);
  }

  lemma {:induction false} ToIntSplit(v: Vec, k: nat)
    requires k <= |v|
    ensures ToInt(v, false) == ToInt(v[..k], false) + Pow2(k) * ToInt(v[k..], false)
    decreases |v| - k
  {
    if k == |v| {
      assert v[..k] == v && v[k..] == [];
    } else {
      ToIntSplit(v, k + 1);
      ToIntPrefix(v, k);
      assert v[k..] == [v[k]] + v[k + 1..];
      ToIntStep(v[k], v[k + 1..]);
      SplitStep(ToInt(v[..k], false), Digit(v[k]), Pow2(k), ToInt(v[k + 1..], false));
    }
  }

  lemma {:induction false} SignedValue(v: Vec)
    requires |v| > 0
    ensures ToInt(v, true) == ToInt(v, false) - Digit(v[|v| - 1]) * Pow2(|v|)
  {
    if |v| == 1 {
      assert Pow2(1) == 2 * Pow2(0);
    } else {
      SignedValue(v[1..]);
      assert Digit(v[|v| - 1]) * Pow2(|v|) == 2 * (Digit(v[|v| - 1]) * Pow2(|v| - 1));
    }
  }

  /** A ring operator may be applied to the unsigned values, whatever the sign. */
  lemma ApplyUnsigned(op: BinOp, u: Vec, v: Vec, s: bool)
    requires IsRing(op) && |u| == |v| && Defined(u) && Defined(v)
    ensures Apply(op, u, v, s) == FromInt(IntOp(op, ToInt(u, false), ToInt(v, false)), |u|)
  {
    FromIntOfToInt(u, false);
    FromIntOfToInt(v, false);
    ApplyFromInt(op, ToInt(u, false), ToInt(v, false), |u|, s);
  }

  // ----- addition and subtraction -----

  /** `add_with_carry`: an unknown bit spoils sum and carry. */
  method AddWithCarry(l: Bit, r: Bit, c: Bit) returns (sum: Bit, carry: Bit)
    ensures if Known(l) && Known(r) && Known(c)
            then Known(sum) && Known(carry) && Digit(sum) + 2 * Digit(carry) == Digit(l) + Digit(r) + Digit(c)
            else sum == Vx && carry == Vx
  {
    if !Known(c) || !Known(l) || !Known(r) { return Vx, Vx; }
    var n := Digit(c) + Digit(l) + Digit(r);
    carry := if n >= 2 then V1 else V0;
    sum := if n % 2 == 1 then V1 else V0;
  }

  lemma CarryStep(sum: int, carry: int, l: int, r: int, c: int, p: int)
    requires sum + 2 * carry == l + r + c
    ensures sum * p + carry * (2 * p) == l * p + r * p + c * p
  {
    assert (sum + 2 * carry) * p == (l + r + c) * p;
  }

  /** The value of the first `k` bits of the second operand; inverted, with the carry
      that goes in. */
  function Addend(v: Vec, k: nat, invert: bool): int
    requires k <= |v|
  {
    if invert then Pow2(k) - ToInt(v[..k], false) else ToInt(v[..k], false)
  }

  lemma AddendStep(v: Vec, k: nat, invert: bool)
    requires k < |v| && Known(v[k])
    ensures Addend(v, k + 1, invert)
         == Addend(v, k, invert) + Digit(if invert then Invert(v[k]) else v[k]) * Pow2(k)
  {
    ToIntPrefix(v, k);
  }

  /** What one turn of the adding loop keeps. */
  lemma AddStep(low: Vec, sum: Bit, u: Vec, v: Vec, k: nat, invert: bool, c: Bit, carry: Bit)
    requires k < |u| && k < |v| && |low| == k && Known(v[k])
    requires Digit(sum) + 2 * Digit(carry)
          == Digit(u[k]) + Digit(if invert then Invert(v[k]) else v[k]) + Digit(c)
    requires ToInt(low, false) + Digit(c) * Pow2(k) == ToInt(u[..k], false) + Addend(v, k, invert)
    ensures ToInt(low + [sum], false) + Digit(carry) * Pow2(k + 1)
         == ToInt(u[..k + 1], false) + Addend(v, k + 1, invert)
  {
    ToIntPrefix(u, k);
    AddendStep(v, k, invert);
    ToIntAppend(low, sum);
    CarryStep(Digit(sum), Digit(carry), Digit(u[k]), Digit(if invert then Invert(v[k]) else v[k]), Digit(c), Pow2(k));
  }

  /** Equal but for a multiple of the modulus. */
  lemma SumModulo(r: Vec, x: int, q: int)
    requires Defined(r) && x == ToInt(r, false) + q * Pow2(|r|)
    ensures r == FromInt(x, |r|)
  {
    FromIntOfToInt(r, false);
    CongFromWitness(ToInt(r, false), q, |r|);
  }

  lemma DigitTimes(b: Bit, p: int)
    ensures Digit(b) * p == if b == V1 then p else 0
  {
  }

  lemma SumOfBits(r: Vec, x: int, p: int, carry: bool, borrow: bool)
    requires Defined(r) && p == Pow2(|r|)
    requires ToInt(r, false) + (if carry then p else 0) == x + if borrow then p else 0
    ensures r == FromInt(x, |r|)
  {
    if carry == borrow {
      SumModulo(r, x, 0);
    } else if carry {
      SumModulo(r, x, 1);
    } else {
      SumModulo(r, x, -1);
    }
  }

  /** The loop of `+` and `-`; subtraction adds the inverted bits and 1. */
  method AddBits(u: Vec, v: Vec, invert: bool) returns (r: Vec)
    requires |u| == |v| && Defined(u) && Defined(v)
    ensures |r| == |u| && Defined(r)
    ensures r == FromInt(ToInt(u, false) + if invert then -ToInt(v, false) else ToInt(v, false), |u|)
  {
    var bits, carry, idx := new Bit[|u|], if invert then V1 else V0, 0;
    while idx < |u|
      invariant 0 <= idx <= |u| && Known(carry) && Defined(bits[..idx])
      invariant ToInt(bits[..idx], false) + Digit(carry) * Pow2(idx) == ToInt(u[..idx], false) + Addend(v, idx, invert)
    {
      ghost var low, c := bits[..idx], carry;
      bits[idx], carry := AddWithCarry(u[idx], if invert then Invert(v[idx]) else v[idx], carry);
      AddStep(low, bits[idx], u, v, idx, invert, c, carry);
      assert bits[..idx + 1] == low + [bits[idx]];
      idx := idx + 1;
    }
    r := bits[..];
    assert bits[..idx] == r && u[..idx] == u && v[..idx] == v;
    DigitTimes(carry, Pow2(|u|));
    SumOfBits(r, ToInt(u, false) + if invert then -ToInt(v, false) else ToInt(v, false), Pow2(|u|),
              carry == V1, invert);
  }

  /** `operator +`, for operands of one length. */
  method Plus(u: Vec, v: Vec) returns (r: Vec)
    requires |u| == |v|
    ensures forall s :: r == Apply(Add, u, v, s)
  {
    if !Defined(u) || !Defined(v) { return Fill(Vx, |u|); }
    r := AddBits(u, v, false);
    forall s: bool ensures r == Apply(Add, u, v, s) { ApplyUnsigned(Add, u, v, s); }
  }

  /** `operator -`. */
  method Minus(u: Vec, v: Vec) returns (r: Vec)
    requires |u| == |v|
    ensures forall s :: r == Apply(Sub, u, v, s)
  {
    if !Defined(u) || !Defined(v) { return Fill(Vx, |u|); }
    r := AddBits(u, v, true);
    forall s: bool ensures r == Apply(Sub, u, v, s) { ApplyUnsigned(Sub, u, v, s); }
  }

  /** Unary minus subtracts from 0. */
  method Negate(v: Vec) returns (r: Vec)
    ensures forall s :: r == ApplyUnary(Neg, v, s)
  {
    if !Defined(v) { return Fill(Vx, |v|); }
    r := AddBits(Fill(V0, |v|), v, true);
    ToIntOfZeros(|v|, false);
    FromIntOfToInt(v, false);
    forall s: bool ensures r == ApplyUnary(Neg, v, s) { NegFromInt(ToInt(v, false), |v|, s); }
  }

  // ----- multiplication -----

  lemma ShiftedArithmetic(wl: int, wh: int, nh: int, ul: int, h: int, c: int, p: int, q: int)
    requires nh + c * q == wh + ul
    ensures wl + p * nh == wl + p * wh + (ul + q * h) * p + (-c - h) * (p * q)
  {
    assert p * (nh + c * q) == p * nh + p * (c * q) && p * (wh + ul) == p * wh + p * ul;
    assert (ul + q * h) * p == ul * p + q * h * p;
    assert q * h * p == h * (p * q) && p * (c * q) == c * (p * q);
    assert (-c - h) * (p * q) == -(c * (p * q)) - h * (p * q);
  }

  lemma ShiftedSum(was: Vec, now: Vec, u: Vec, k: nat, carry: int)
    requires |was| == |now| == |u| && k <= |u| && now[..k] == was[..k]
    requires ToInt(now[k..], false) + carry * Pow2(|u| - k)
          == ToInt(was[k..], false) + ToInt(u[..|u| - k], false)
    ensures Cong(ToInt(now, false), ToInt(was, false) + ToInt(u, false) * Pow2(k), |u|)
  {
    var n, m := |u|, |u| - k;
    ToIntSplit(was, k);
    ToIntSplit(now, k);
    ToIntSplit(u, m);
    Pow2Sum(k, m);
    var h := ToInt(u[m..], false);
    ShiftedArithmetic(ToInt(was[..k], false), ToInt(was[k..], false), ToInt(now[k..], false),
                      ToInt(u[..m], false), h, carry, Pow2(k), Pow2(m));
    CongFromWitness(ToInt(was, false) + ToInt(u, false) * Pow2(k), -carry - h, n);
  }

  /** The inner loop of `operator *` adds the left operand at bit `k`. */
  method AddShifted(result: array<Bit>, u: Vec, k: nat)
    requires result.Length == |u| && k <= |u| && Defined(u) && Defined(result[..])
    modifies result
    ensures Defined(result[..])
    ensures Cong(ToInt(result[..], false), ToInt(old(result[..]), false) + ToInt(u, false) * Pow2(k), |u|)
  {
    ghost var was, high := result[..], result[k..];
    var carry, j := V0, 0;
    while j < |u| - k
      invariant 0 <= j <= |u| - k && Known(carry) && Defined(result[..])
      invariant forall i | 0 <= i < |u| && !(k <= i < k + j) :: result[i] == was[i]
      invariant ToInt(result[k..k + j], false) + Digit(carry) * Pow2(j) == ToInt(u[..j], false) + Addend(high, j, false)
    {
      ghost var low, c := result[k..k + j], carry;
      result[j + k], carry := AddWithCarry(u[j], result[k + j], carry);
      AddStep(low, result[j + k], u, high, j, false, c, carry);
      assert result[k..k + j + 1] == low + [result[j + k]];
      j := j + 1;
    }
    assert result[k..k + j] == result[..][k..] && high[..j] == was[k..];
    assert result[..][..k] == was[..k];
    ShiftedSum(was, result[..], u, k, Digit(carry));
  }

  lemma PartialProduct(x: int, v: Vec, k: nat)
    requires k < |v| && Known(v[k])
    ensures x * ToInt(v[..k + 1], false) == x * ToInt(v[..k], false) + if v[k] == V1 then x * Pow2(k) else 0
  {
    ToIntPrefix(v, k);
    assert x * (ToInt(v[..k], false) + Pow2(k)) == x * ToInt(v[..k], false) + x * Pow2(k);
  }

  lemma CongAdds(x: int, y: int, d: int, z: int, n: nat)
    requires Cong(x, y, n) && Cong(z, x + d, n)
    ensures Cong(z, y + d, n)
  {
    CongIntOp(Add, x, y, d, d, n);
  }

  lemma ProductStep(x: int, v: Vec, k: nat, was: int, now: int, n: nat)
    requires k < |v| && Known(v[k]) && Cong(was, x * ToInt(v[..k], false), n)
    requires Cong(now, was + if v[k] == V1 then x * Pow2(k) else 0, n)
    ensures Cong(now, x * ToInt(v[..k + 1], false), n)
  {
    PartialProduct(x, v, k);
    CongAdds(was, x * ToInt(v[..k], false), if v[k] == V1 then x * Pow2(k) else 0, now, n);
  }

  /** `operator *`: shift and add, in place. */
  method Times(u: Vec, v: Vec) returns (r: Vec)
    requires |u| == |v|
    ensures forall s :: r == Apply(Mul, u, v, s)
  {
    if !Defined(u) || !Defined(v) { return Fill(Vx, |u|); }
    var result, k := new Bit[|u|](_ => V0), 0;
    assert result[..] == Fill(V0, |u|);
    ToIntOfZeros(|u|, false);
    while k < |u|
      invariant 0 <= k <= |u| && Defined(result[..])
      invariant Cong(ToInt(result[..], false), ToInt(u, false) * ToInt(v[..k], false), |u|)
    {
      ghost var was := ToInt(result[..], false);
      if v[k] != V0 { AddShifted(result, u, k); }
      ProductStep(ToInt(u, false), v, k, was, ToInt(result[..], false), |u|);
      k := k + 1;
    }
    r := result[..];
    assert v[..k] == v;
    FromIntOfToInt(r, false);
    forall s: bool ensures r == Apply(Mul, u, v, s) { ApplyUnsigned(Mul, u, v, s); }
  }

  // ----- comparison -----

  lemma HigherBitDecides(u: Vec, v: Vec, k: nat)
    requires k < |u| == |v| && u[k + 1..] == v[k + 1..] && u[k] == V0 && v[k] == V1
    ensures ToInt(u, false) < ToInt(v, false)
  {
    ToIntSplit(u, k + 1);
    ToIntSplit(v, k + 1);
    ToIntPrefix(u, k);
    ToIntPrefix(v, k);
    ToIntUnsigned(u[..k]);
    ToIntUnsigned(v[..k]);
  }

  lemma SignDecides(u: Vec, v: Vec)
    requires |u| == |v| > 0 && u[|u| - 1] == V1 && v[|v| - 1] == V0
    ensures ToInt(u, true) < ToInt(v, true)
  {
    SignedValue(u);
    SignedValue(v);
    ToIntUnsigned(u);
    ToIntUnsigned(v);
  }

  lemma SameSign(u: Vec, v: Vec)
    requires |u| == |v| > 0 && u[|u| - 1] == v[|v| - 1]
    ensures ToInt(u, true) - ToInt(v, true) == ToInt(u, false) - ToInt(v, false)
  {
    SignedValue(u);
    SignedValue(v);
  }

  /** `operator <` and `operator <=`: the signs first, then the bits from the top. */
  method Before(u: Vec, v: Vec, signed: bool, orEqual: bool) returns (before: bool)
    requires |u| == |v| > 0 && Defined(u) && Defined(v)
    ensures before <==> ToInt(u, signed) < ToInt(v, signed) || (orEqual && ToInt(u, signed) == ToInt(v, signed))
  {
    var top := |u| - 1;
    if signed {
      if u[top] == V1 && v[top] == V0 { SignDecides(u, v); return true; }
      if u[top] == V0 && v[top] == V1 { SignDecides(v, u); return false; }
      SameSign(u, v);
    }
    var idx := |u|;
    while idx > 0
      invariant 0 <= idx <= |u| && u[idx..] == v[idx..]
    {
      if u[idx - 1] == V1 && v[idx - 1] == V0 { HigherBitDecides(v, u, idx - 1); return false; }
      if u[idx - 1] == V0 && v[idx - 1] == V1 { HigherBitDecides(u, v, idx - 1); return true; }
      assert u[idx - 1..] == [u[idx - 1]] + u[idx..] && v[idx - 1..] == [v[idx - 1]] + v[idx..];
      idx := idx - 1;
    }
    assert u == v;
    before := orEqual;
  }

  /** `==` and `!=`: a known difference decides, otherwise an unknown bit. */
  method EqEq(u: Vec, v: Vec, ne: bool) returns (res: Bit)
    requires |u| == |v|
    ensures res == Compare(if ne then Ne else Eq, u, v, false)
  {
    res := if ne then V0 else V1;
    var idx := 0;
    while idx < |u|
      invariant 0 <= idx <= |u|
      invariant forall i | 0 <= i < idx :: Known(u[i]) && Known(v[i]) ==> u[i] == v[i]
      invariant res == if Defined(u[..idx]) && Defined(v[..idx]) then (if ne then V0 else V1) else Vx
    {
      assert Defined(u[..idx + 1]) <==> Defined(u[..idx]) && Known(u[idx]) by { PrefixDefined(u, idx); }
      assert Defined(v[..idx + 1]) <==> Defined(v[..idx]) && Known(v[idx]) by { PrefixDefined(v, idx); }
      if !Known(u[idx]) || !Known(v[idx]) {
        res := Vx;
      } else if u[idx] != v[idx] {
        return if ne then V1 else V0;
      }
      idx := idx + 1;
    }
    assert u[..idx] == u && v[..idx] == v;
    assert Defined(u) && Defined(v) ==> u == v;
  }

  lemma PrefixDefined(v: Vec, k: nat)
    requires k < |v|
    ensures Defined(v[..k + 1]) <==> Defined(v[..k]) && Known(v[k])
  {
    assert v[..k + 1] == v[..k] + [v[k]];
  }

  // ----- division -----

  /** The number of bits up to the highest 1. */
  method Significant(v: Vec) returns (n: nat)
    requires Defined(v)
    ensures n <= |v| && ToInt(v, false) < Pow2(n) && (n > 0 ==> ToInt(v, false) >= Pow2(n - 1))
  {
    n := |v|;
    assert v[..n] == v;
    while n > 0 && v[n - 1] == V0
      invariant n <= |v| && ToInt(v, false) == ToInt(v[..n], false)
    {
      ToIntPrefix(v, n - 1);
      n := n - 1;
    }
    ToIntUnsigned(v[..n]);
    if n > 0 {
      ToIntPrefix(v, n - 1);
      ToIntUnsigned(v[..n - 1]);
    }
  }

  lemma SetBit(v: Vec, k: nat)
    requires k < |v| && v[k] == V0
    ensures ToInt(v[k := V1], false) == ToInt(v, false) + Pow2(k)
  {
    var w := v[k := V1];
    ToIntSplit(v, k + 1);
    ToIntSplit(w, k + 1);
    ToIntPrefix(v, k);
    ToIntPrefix(w, k);
    assert w[..k] == v[..k] && w[k + 1..] == v[k + 1..];
  }

  lemma Doubled(d: int, k: nat)
    requires k > 0
    ensures d * Pow2(k) == 2 * (d * Pow2(k - 1))
  {
  }

  /** Setting bit `k` of the quotient takes `den` off the rest. */
  lemma QuotientStep(q: Vec, k: nat, d: int, num: int, whole: int)
    requires k < |q| && q[k] == V0 && ToInt(q, false) * d + num == whole
    ensures ToInt(q[k := V1], false) * d + (num - d * Pow2(k)) == whole
  {
    SetBit(q, k);
    assert (ToInt(q, false) + Pow2(k)) * d == ToInt(q, false) * d + d * Pow2(k);
  }

  /** The numerator is below the denominator shifted one past it. */
  lemma ShiftedAbove(x: nat, d: nat, nwid: nat, dwid: nat)
    requires x < Pow2(nwid) && 0 < dwid <= nwid && d >= Pow2(dwid - 1)
    ensures x < d * Pow2(nwid - dwid + 1)
  {
    var p := Pow2(nwid - dwid + 1);
    Pow2Sum(dwid - 1, nwid - dwid + 1);
    assert d * p >= Pow2(dwid - 1) * p by { assert (d - Pow2(dwid - 1)) * p >= 0; }
  }

  /** The loop of long division, from the denominator shifted by `places - 1` down. */
  method DivideShifted(num: nat, d: nat, places: nat, size: nat) returns (r: Vec)
    requires 0 < places <= size && 0 < d && num < d * Pow2(places)
    ensures Defined(r) && |r| == size && forall k | places <= k < size :: r[k] == V0
    ensures ToInt(r, false) == num / d
  {
    var rest, den, idx := num, d * Pow2(places - 1), places;
    var bits := new Bit[size](_ => V0);
    assert bits[..] == Fill(V0, size);
    ToIntOfZeros(size, false);
    while idx > 0
      invariant 0 <= idx <= places && Defined(bits[..])
      invariant forall k | 0 <= k < size && (k < idx || k >= places) :: bits[k] == V0
      invariant idx > 0 ==> den == d * Pow2(idx - 1)
      invariant ToInt(bits[..], false) * d + rest == num && 0 <= rest < d * Pow2(idx)
    {
      Doubled(d, idx);
      if den <= rest {
        ghost var was := bits[..];
        QuotientStep(was, idx - 1, d, rest, num);
        rest := rest - den;
        bits[idx - 1] := V1;
        assert bits[..] == was[idx - 1 := V1];
      }
      if idx > 1 { Doubled(d, idx - 1); }
      den := den / 2;
      idx := idx - 1;
    }
    r := bits[..];
    QuotientIs(num, d, ToInt(r, false), rest);
  }

  /** `unsigned_divide`: long division; a signed result has one more bit, a 0. The
      denominator is shifted without loss. */
  method UnsignedDivide(u: Vec, v: Vec, signedResult: bool) returns (r: Vec)
    requires Defined(u) && Defined(v) && ToInt(v, false) > 0
    ensures Defined(r) && |r| > 0 && (signedResult ==> r[|r| - 1] == V0)
    ensures ToInt(u, false) >= 0 && ToInt(r, false) == ToInt(u, false) / ToInt(v, false)
  {
    ToIntUnsigned(u);
    var num: nat, d: nat := ToInt(u, false), ToInt(v, false);
    var nwid := Significant(u);
    var dwid := Significant(v);
    if dwid > nwid {
      Pow2Monotone(nwid, dwid - 1);
      QuotientIs(num, d, 0, num);
      return [V0];
    }
    ShiftedAbove(num, d, nwid, dwid);
    var places := nwid - dwid + 1;
    r := DivideShifted(num, d, places, if signedResult then places + 1 else places);
  }

  lemma NegIsFromInt(q: Vec, x: int)
    requires Defined(q) && x == ToInt(q, true)
    ensures ApplyUnary(Neg, q, true) == FromInt(-x, |q|)
  {
  }

  lemma TopZero(q: Vec)
    requires Defined(q) && |q| > 0 && q[|q| - 1] == V0
    ensures 0 <= ToInt(q, true) == ToInt(q, false) && InRange(-ToInt(q, true), |q|, true)
  {
    SignedValue(q);
    ToIntUnsigned(q);
    ToIntInRange(q, true);
  }

  lemma TopOne(v: Vec)
    requires Defined(v) && |v| > 0 && v[|v| - 1] == V1
    ensures ToInt(v, true) < 0 && InRange(-ToInt(v, true), |v|, false)
  {
    SignedValue(v);
    ToIntUnsigned(v);
    ToIntInRange(v, true);
    assert Pow2(|v|) == 2 * Pow2(|v| - 1);
  }

  /** The magnitude of a signed operand, and whether it was negated. */
  method Magnitude(v: Vec) returns (negative: bool, m: Vec)
    requires Defined(v) && |v| > 0
    ensures negative <==> ToInt(v, true) < 0
    ensures Defined(m) && ToInt(m, false) == if negative then -ToInt(v, true) else ToInt(v, true)
  {
    negative, m := v[|v| - 1] == V1, v;
    ghost var x := ToInt(v, true);
    if negative {
      TopOne(v);
      m := Negate(v);
      NegIsFromInt(v, x);
      ToIntOfFromInt(-x, |v|, false);
    } else {
      TopZero(v);
    }
  }

  lemma SignedCast(r: Vec, q: int, n: nat)
    requires Defined(r) && |r| > 0 && ToInt(r, true) == q
    ensures Resize(r, n, true) == FromInt(q, n)
  {
    ResizeIsFromInt(r, n, true);
  }

  /** `operator /` of signed operands too wide for a `long`: the magnitudes are divided,
      and the quotient is negated if one sign differs. */
  method SignedDivide(u: Vec, v: Vec) returns (r: Vec)
    requires |u| == |v| > 0
    ensures r == Apply(Div, u, v, true)
  {
    if !Defined(u) || !Defined(v) { return Fill(Vx, |u|); }
    var lneg, l := Magnitude(u);
    var rneg, m := Magnitude(v);
    if ToInt(m, false) == 0 { return Fill(Vx, |u|); }
    ToIntUnsigned(m);
    var q := UnsignedDivide(l, m, true);
    SignedValue(q);
    ghost var quotient := ToInt(q, true);
    if lneg != rneg {
      NegatedQuotient(q);
      q := Negate(q);
      quotient := -quotient;
    }
    assert quotient == Quotient(ToInt(u, true), ToInt(v, true)) by {
      QuotientOfSigns(ToInt(u, true), ToInt(v, true));
    }
    SignedCast(q, quotient, |u|);
    r := Resize(q, |u|, true);
  }

  lemma NegatedQuotient(q: Vec)
    requires Defined(q) && |q| > 0 && q[|q| - 1] == V0
    ensures Defined(ApplyUnary(Neg, q, true)) && ToInt(ApplyUnary(Neg, q, true), true) == -ToInt(q, true)
  {
    var x := ToInt(q, true);
    TopZero(q);
    NegIsFromInt(q, x);
    ToIntOfFromInt(-x, |q|, true);
  }

  function Abs(x: int): nat {
    if x < 0 then -x else x
  }

  lemma NegativeDivisor(a: int, b: int)
    requires a >= 0 && b > 0
    ensures a / -b == -(a / b)
  {
    var y := -b;
    assert a == b * (a / b) + a % b && a == y * (a / y) + a % y;
    assert (a / b + a / y) * b == b * (a / b) - y * (a / y) == a % y - a % b;
    SmallMultiple(a / b + a / y, b);
  }

  lemma QuotientOfSigns(x: int, y: int)
    requires y != 0
    ensures Quotient(x, y) == if (x < 0) != (y < 0) then -(Abs(x) / Abs(y)) else Abs(x) / Abs(y)
  {
    if y < 0 { NegativeDivisor(Abs(x), Abs(y)); }
  }
}
