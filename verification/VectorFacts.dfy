/** Facts that tie four-state vectors to integers. */
module VectorFacts {
  import opened Vectors

  lemma {:induction false} FromIntPrefix(x: int, w: nat, k: nat)
    requires k <= w
    ensures FromInt(x, w)[..k] == FromInt(x, k)
    decreases w
  {
    if k > 0 {
      FromIntPrefix(x / 2, w - 1, k - 1);
      assert FromInt(x, w)[..k] == [FromInt(x, w)[0]] + FromInt(x / 2, w - 1)[..k - 1];
    }
  }

  lemma {:induction false} Pow2Monotone(i: nat, j: nat)
    requires i <= j
    ensures Pow2(i) <= Pow2(j)
    decreases j
  {
    if i < j { Pow2Monotone(i, j - 1); }
  }

  lemma {:induction false} Pow2Sum(i: nat, j: nat)
    ensures Pow2(i + j) == Pow2(i) * Pow2(j)
  {
    if i > 0 { Pow2Sum(i - 1, j); }
  }

  lemma {:induction false} ToIntOfZeros(n: nat, s: bool)
    ensures ToInt(Fill(V0, n), s) == 0
  {
    if n > 1 {
      assert Fill(V0, n)[1..] == Fill(V0, n - 1);
      ToIntOfZeros(n - 1, s);
    }
  }

  lemma {:induction false} ToIntUnsigned(v: Vec)
    ensures 0 <= ToInt(v, false) < Pow2(|v|)
  {
    if |v| > 1 { ToIntUnsigned(v[1..]); }
  }

  /** Reading a vector and writing it back at its own width changes nothing. */
  lemma {:induction false} FromIntOfToInt(v: Vec, s: bool)
    requires Defined(v)
    ensures FromInt(ToInt(v, s), |v|) == v
  {
    if |v| == 1 {
      assert FromInt(ToInt(v, s), 1) == [v[0]] + FromInt(ToInt(v, s) / 2, 0);
    } else if |v| > 1 {
      FromIntOfToInt(v[1..], s);
      assert v == [v[0]] + v[1..];
    }
  }

  predicate InRange(x: int, w: nat, s: bool) {
    if s then w >= 1 && -Pow2(w - 1) <= x < Pow2(w - 1) else 0 <= x < Pow2(w)
  }

  /** Writing a number that fits and reading it back gives the number. */
  lemma {:induction false} ToIntOfFromInt(x: int, w: nat, s: bool)
    requires InRange(x, w, s)
    ensures ToInt(FromInt(x, w), s) == x
    decreases w
  {
    if w == 1 {
      assert Pow2(1) == 2 * Pow2(0);
      assert FromInt(x, 1) == [if x % 2 == 1 then V1 else V0] + FromInt(x / 2, 0);
    } else if w > 1 {
      assert Pow2(w - 1) == 2 * Pow2(w - 2);
      ToIntOfFromInt(x / 2, w - 1, s);
      assert FromInt(x, w)[1..] == FromInt(x / 2, w - 1);
    }
  }

  lemma {:induction false} ToIntInRange(v: Vec, s: bool)
    requires |v| >= 1
    ensures InRange(ToInt(v, s), |v|, s)
  {
    if |v| == 1 {
      assert Pow2(1) == 2 * Pow2(0);
    } else {
      ToIntInRange(v[1..], s);
      assert Pow2(|v| - 1) == 2 * Pow2(|v| - 2);
    }
  }

  lemma {:induction false} FromIntOfSign(b: Bit, w: nat)
    requires Known(b)
    ensures FromInt(-Digit(b), w) == Fill(b, w)
  {
    if w > 0 {
      FromIntOfSign(b, w - 1);
      assert Fill(b, w) == [b] + Fill(b, w - 1);
    }
  }

  lemma {:induction false} FromIntStep(d: Bit, t: int, w: nat)
    requires Known(d) && w > 0
    ensures FromInt(Digit(d) + 2 * t, w) == [d] + FromInt(t, w - 1)
  {
    var x := Digit(d) + 2 * t;
    assert x % 2 == Digit(d) && x / 2 == t;
  }

  /** Extension keeps the number. */
  lemma {:induction false} ExtendIsFromInt(v: Vec, w: nat, s: bool)
    requires Defined(v) && |v| >= 1 && w > |v|
    ensures v + Fill(if s then v[|v| - 1] else V0, w - |v|) == FromInt(ToInt(v, s), w)
    decreases |v|
  {
    var pad := if s then v[|v| - 1] else V0;
    if |v| == 1 {
      FromIntOfSign(pad, w - 1);
      FromIntStep(v[0], -Digit(pad), w);
    } else {
      var rest := v[1..];
      assert rest[|rest| - 1] == v[|v| - 1];
      ExtendIsFromInt(rest, w - 1, s);
      FromIntStep(v[0], ToInt(rest, s), w);
      assert v == [v[0]] + rest;
      assert [v[0]] + rest + Fill(pad, w - |v|) == [v[0]] + (rest + Fill(pad, w - |v|));
    }
  }

  /** Extension and truncation keep the number, as far as it fits. */
  lemma ResizeIsFromInt(v: Vec, w: nat, s: bool)
    requires Defined(v)
    ensures Resize(v, w, s) == FromInt(ToInt(v, s), w)
  {
    if w <= |v| {
      FromIntOfToInt(v, s);
      FromIntPrefix(ToInt(v, s), |v|, w);
    } else if |v| == 0 {
      FromIntOfSign(V0, w);
      assert v + Fill(V0, w) == Fill(V0, w);
    } else {
      ExtendIsFromInt(v, w, s);
    }
  }

  // ----- congruence modulo a power of two -----

  predicate Cong(x: int, y: int, w: nat) {
    FromInt(x, w) == FromInt(y, w)
  }

  lemma {:induction false} CongWitness(x: int, y: int, w: nat) returns (q: int)
    requires Cong(x, y, w)
    ensures x == y + q * Pow2(w)
    decreases w
  {
    if w == 0 {
      q := x - y;
    } else {
      assert FromInt(x, w)[0] == FromInt(y, w)[0];
      assert FromInt(x, w)[1..] == FromInt(x / 2, w - 1);
      assert FromInt(y, w)[1..] == FromInt(y / 2, w - 1);
      q := CongWitness(x / 2, y / 2, w - 1);
      calc {
        x;
        2 * (y / 2 + q * Pow2(w - 1)) + y % 2;
        y + q * (2 * Pow2(w - 1));
      }
    }
  }

  lemma {:induction false} CongFromWitness(y: int, q: int, w: nat)
    ensures Cong(y + q * Pow2(w), y, w)
    decreases w
  {
    if w > 0 {
      var h := q * Pow2(w - 1);
      assert q * Pow2(w) == 2 * h;
      assert (y + 2 * h) / 2 == y / 2 + h && (y + 2 * h) % 2 == y % 2;
      CongFromWitness(y / 2, q, w - 1);
    }
  }

  lemma ProductExpands(x: int, y: int, a: int, b: int)
    ensures (x + a) * (y + b) == x * y + (a * y + b * x + a * b)
  {
    assert (x + a) * (y + b) == x * (y + b) + a * (y + b);
  }

  lemma ProductWitness(x: int, y: int, p: int, q: int, n: int)
    ensures (x + p * n) * (y + q * n) == x * y + (p * y + q * x + p * q * n) * n
  {
    ProductExpands(x, y, p * n, q * n);
    assert p * n * y == p * y * n && q * n * x == q * x * n;
    assert p * n * (q * n) == p * q * n * n;
    assert (p * y + q * x + p * q * n) * n == p * y * n + q * x * n + p * q * n * n;
  }

  lemma SumWitness(p: int, q: int, n: int)
    ensures (p + q) * n == p * n + q * n && (p - q) * n == p * n - q * n
  {
  }

  lemma CongIntOp(op: BinOp, x: int, x': int, y: int, y': int, w: nat)
    requires IsRing(op)
    requires Cong(x, x', w) && Cong(y, y', w)
    ensures Cong(IntOp(op, x, y), IntOp(op, x', y'), w)
  {
    var p := CongWitness(x, x', w);
    var q := CongWitness(y, y', w);
    var n := Pow2(w);
    var k := match op case Add => p + q case Sub => p - q case _ => p * y' + q * x' + p * q * n;
    if op.Mul? { ProductWitness(x', y', p, q, n); } else { SumWitness(p, q, n); }
    assert IntOp(op, x, y) == IntOp(op, x', y') + k * n;
    CongFromWitness(IntOp(op, x', y'), k, w);
  }

  lemma CongNeg(x: int, y: int, w: nat)
    requires Cong(x, y, w)
    ensures Cong(-x, -y, w)
  {
    CongIntOp(Sub, 0, 0, x, y, w);
  }

  /** Ring operators may be applied to the integers before or after truncation. */
  lemma ApplyFromInt(op: BinOp, x: int, y: int, w: nat, s: bool)
    requires IsRing(op)
    ensures Apply(op, FromInt(x, w), FromInt(y, w), s) == FromInt(IntOp(op, x, y), w)
  {
    var u, v := FromInt(x, w), FromInt(y, w);
    FromIntOfToInt(u, s);
    FromIntOfToInt(v, s);
    CongIntOp(op, ToInt(u, s), x, ToInt(v, s), y, w);
  }

  lemma NegFromInt(x: int, w: nat, s: bool)
    ensures ApplyUnary(Neg, FromInt(x, w), s) == FromInt(-x, w)
  {
    FromIntOfToInt(FromInt(x, w), s);
    CongNeg(ToInt(FromInt(x, w), s), x, w);
  }

  // ----- quotients -----

  lemma FactorAtLeast(z: int, d: int)
    requires z >= 1 && d >= 0
    ensures z * d >= d
  {
    assert (z - 1) * d >= 0;
  }

  lemma SmallMultiple(z: int, d: int)
    requires d > 0 && -d < z * d < d
    ensures z == 0
  {
    if z >= 1 { FactorAtLeast(z, d); }
    if z <= -1 { FactorAtLeast(-z, d); }
  }

  lemma QuotientIs(x: int, d: int, q: int, rest: int)
    requires q * d + rest == x && 0 <= rest < d
    ensures q == x / d
  {
    assert (x / d - q) * d == x / d * d - q * d == rest - x % d;
    SmallMultiple(x / d - q, d);
  }
}
