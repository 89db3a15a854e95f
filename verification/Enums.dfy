/** Numbering of enumeration names: explicit values are fitted to the enumeration's width,
    the others follow the value before. */
module Enums {
  import opened Vectors
  import opened VectorFacts

  /** A constant, as wide as it was written or evaluated. */
  datatype Num = Num(bits: Vec, sized: bool, signed: bool)

  /** What the explicit expression was, if it was a literal. */
  datatype Literal = NoLiteral | UnsizedLiteral | SizedLiteral(len: nat)

  datatype Entry =
    | Implicit(name: string)
    | NotConstant(name: string)
    | Explicit(name: string, value: Num, literal: Literal)

  // ----- numbers of different widths -----

  lemma {:induction false} SignIrrelevant(v: Vec)
    requires |v| >= 1 && v[|v| - 1] == V0
    ensures ToInt(v, true) == ToInt(v, false)
  {
    if |v| > 1 { SignIrrelevant(v[1..]); }
  }

  function PadBit(top: Bit, signed: bool): Bit {
    if signed then top else V0
  }

  lemma ExtensionKeepsValue(v: Vec, w: nat, s: bool)
    requires Defined(v) && 1 <= |v| < w
    ensures ToInt(v + Fill(PadBit(v[|v| - 1], s), w - |v|), s) == ToInt(v, s)
  {
    ExtendIsFromInt(v, w, s);
    ToIntInRange(v, s);
    Pow2Monotone(|v|, w);
    Pow2Monotone(|v| - 1, w - 1);
    ToIntOfFromInt(ToInt(v, s), w, s);
  }

  /** A wider number fits exactly when the bits cut off repeat the padding of what is left,
      unless that padding makes an unsigned number negative. */
  predicate UpperFit(bits: Vec, w: nat, vs: bool, s: bool)
    requires |bits| > w >= 1
  {
    && (forall j | w <= j < |bits| :: bits[j] == PadBit(bits[w - 1], s))
    && !(s && bits[w - 1] == V1 && !vs)
  }

  lemma CutKeepsValue(bits: Vec, w: nat, vs: bool, s: bool)
    requires Defined(bits) && |bits| > w >= 1 && UpperFit(bits, w, vs, s)
    ensures ToInt(bits[..w], s) == ToInt(bits, vs) && InRange(ToInt(bits, vs), w, s)
  {
    var v := bits[..w];
    assert bits == v + Fill(PadBit(v[w - 1], s), |bits| - w);
    ExtensionKeepsValue(v, |bits|, s);
    ToIntInRange(v, s);
    if s != vs { SignIrrelevant(bits); }
  }

  lemma FittingIsUpperFit(bits: Vec, w: nat, vs: bool, s: bool)
    requires Defined(bits) && |bits| > w >= 1 && InRange(ToInt(bits, vs), w, s)
    ensures UpperFit(bits, w, vs, s)
  {
    var x, v := ToInt(bits, vs), bits[..w];
    FromIntOfToInt(bits, vs);
    FromIntPrefix(x, |bits|, w);
    ToIntOfFromInt(x, w, s);
    ExtendIsFromInt(v, |bits|, s);
    assert bits == v + Fill(PadBit(v[w - 1], s), |bits| - w);
    if s && v[w - 1] == V1 && !vs {
      ToIntUnsigned(bits);
      NegativeTop(v);
    }
  }

  lemma {:induction false} NegativeTop(v: Vec)
    requires Defined(v) && |v| >= 1 && v[|v| - 1] == V1
    ensures ToInt(v, true) < 0
  {
    if |v| > 1 { NegativeTop(v[1..]); }
  }

  // ----- explicit values -----

  /** `pad_to_width`. */
  function PadToWidth(n: Num, w: nat): Vec
    requires 1 <= |n.bits| < w
  {
    var top := n.bits[|n.bits| - 1];
    var pad := if n.signed then top
               else if top == V1 || (n.sized && !Known(top)) then V0
               else top;
    n.bits + Fill(pad, w - |n.bits|)
  }

  lemma PaddingKeepsValue(n: Num, w: nat, s: bool)
    requires Defined(n.bits) && 1 <= |n.bits| < w
    requires !s && n.signed ==> n.bits[|n.bits| - 1] == V0
    ensures Defined(PadToWidth(n, w)) && ToInt(PadToWidth(n, w), s) == ToInt(n.bits, n.signed)
  {
    var v, top := PadToWidth(n, w), n.bits[|n.bits| - 1];
    assert v == n.bits + Fill(PadBit(top, n.signed), w - |n.bits|);
    ExtensionKeepsValue(n.bits, w, n.signed);
    if s != n.signed { SignIrrelevant(v); }
  }

  /** Checks the bits to be cut off against the top bit left; one zero bit above it is let
      pass for an unsigned enumeration. */
  method UpperBitsMatch(bits: Vec, w: nat, signed: bool) returns (ok: bool)
    requires |bits| > w >= 1
    ensures ok <==> forall j | w <= j < |bits| ::
      bits[j] == if !signed && bits[w] == V0 then V0 else bits[w - 1]
  {
    var check, idx := w - 1, w;
    ghost var pad := if !signed && bits[w] == V0 then V0 else bits[w - 1];
    while idx < |bits|
      invariant w <= idx <= |bits| && (check == w - 1 || check == w)
      invariant idx > w ==> bits[check] == pad
      invariant idx == w ==> check == w - 1
      invariant forall j | w <= j < idx :: bits[j] == pad
    {
      if bits[idx] != bits[check] {
        if !signed && idx == w && bits[idx] == V0 {
          check := check + 1;
        } else {
          return false;
        }
      }
      idx := idx + 1;
    }
    ok := true;
  }

  /** Padding or cutting a negative number for an unsigned enumeration, or one without a length. */
  predicate NegativeBad(n: Num, w: nat, signed: bool)
    requires |n.bits| >= 1
  {
    (|n.bits| != w || !n.sized) && !signed && n.signed && n.bits[|n.bits| - 1] == V1
  }

  /** The value of the name: the same bits, cut or padded, and the same integer in another width. */
  ghost predicate Fitted(n: Num, v: Vec, w: nat, signed: bool)
    requires |n.bits| >= 1
  {
    && |v| == w
    && (|n.bits| == w ==> v == n.bits)
    && (|n.bits| > w ==> v == n.bits[..w])
    && (|n.bits| < w ==>
          && v[..|n.bits|] == n.bits
          && forall j | |n.bits| <= j < w :: v[j] == Extension(n))
    && (Defined(n.bits) && |n.bits| != w ==> Defined(v) && ToInt(v, signed) == ToInt(n.bits, n.signed))
  }

  /** What a narrower number is extended with: its top bit, unless it is unsigned and that
      bit is known or was written. */
  predicate Repeats(n: Num)
    requires |n.bits| >= 1
  {
    n.signed || (!Known(n.bits[|n.bits| - 1]) && !n.sized)
  }

  function Extension(n: Num): Bit
    requires |n.bits| >= 1
  {
    if Repeats(n) then n.bits[|n.bits| - 1] else V0
  }

  lemma FittedUnique(n: Num, v: Vec, v': Vec, w: nat, signed: bool)
    requires |n.bits| >= 1 && Fitted(n, v, w, signed) && Fitted(n, v', w, signed)
    ensures v == v'
  {
    if |n.bits| < w {
      assert v == v[..|n.bits|] + v[|n.bits|..] && v' == v'[..|n.bits|] + v'[|n.bits|..];
      assert v[|n.bits|..] == v'[|n.bits|..];
    }
  }

  predicate NegativeTopped(n: Num)
    requires |n.bits| >= 1
  {
    n.signed && n.bits[|n.bits| - 1] == V1
  }

  /** The explicit values that an enumeration can take. Of the enumeration's width, any but
      a negative one without a length for an unsigned enumeration; of another width, those
      in its range, and an undefined one if it is not negative for an unsigned enumeration
      and the bits cut off repeat the top bit left, or 0 where that is allowed. */
  ghost predicate Acceptable(n: Num, literal: Literal, w: nat, signed: bool, twoState: bool)
    requires |n.bits| >= 1 && w >= 1
  {
    && (twoState ==> Defined(n.bits))
    && (literal.SizedLiteral? ==> literal.len == w)
    && if |n.bits| == w then n.sized || signed || !NegativeTopped(n)
       else if Defined(n.bits) then InRange(ToInt(n.bits, n.signed), w, signed)
       else (signed || !NegativeTopped(n)) && (|n.bits| > w ==> CutFits(n, w, signed))
  }

  ghost predicate CutFits(n: Num, w: nat, signed: bool)
    requires |n.bits| > w >= 1
  {
    && (n.signed || n.bits[w] != V1)
    && ((forall j | w <= j < |n.bits| :: n.bits[j] == n.bits[w - 1])
        || (!signed && forall j | w <= j < |n.bits| :: n.bits[j] == V0))
  }

  lemma NarrowFits(n: Num, w: nat, s: bool)
    requires Defined(n.bits) && 1 <= |n.bits| < w
    ensures InRange(ToInt(n.bits, n.signed), w, s) <==> !NegativeBad(n, w, s)
  {
    var top := n.bits[|n.bits| - 1];
    if n.signed && top == V1 {
      NegativeTop(n.bits);
      ToIntInRange(n.bits, true);
      Pow2Monotone(|n.bits| - 1, w - 1);
    } else {
      if n.signed { SignIrrelevant(n.bits); }
      ToIntUnsigned(n.bits);
      Pow2Monotone(|n.bits|, w - 1);
      Pow2Monotone(|n.bits|, w);
    }
  }

  lemma WideFits(n: Num, w: nat, s: bool)
    requires Defined(n.bits) && |n.bits| > w >= 1
    ensures InRange(ToInt(n.bits, n.signed), w, s) <==>
      !NegativeBad(n, w, s)
      && (forall j | w <= j < |n.bits| :: n.bits[j] == if !s && n.bits[w] == V0 then V0 else n.bits[w - 1])
      && !(!n.signed && n.bits[w] == V1)
  {
    if InRange(ToInt(n.bits, n.signed), w, s) {
      FittingIsUpperFit(n.bits, w, n.signed, s);
      if n.signed && n.bits[|n.bits| - 1] == V1 { NegativeTop(n.bits); }
    }
    if !NegativeBad(n, w, s)
      && (forall j | w <= j < |n.bits| :: n.bits[j] == if !s && n.bits[w] == V0 then V0 else n.bits[w - 1])
      && !(!n.signed && n.bits[w] == V1)
    {
      assert n.bits[|n.bits| - 1] == n.bits[w];
      assert UpperFit(n.bits, w, n.signed, s);
      CutKeepsValue(n.bits, w, n.signed, s);
    }
  }

  /** The block for an explicit value. Exactly an acceptable value gives no error, and one of
      another width than the enumeration's then keeps its integer value. */
  method FitValue(n: Num, literal: Literal, w: nat, signed: bool, twoState: bool)
    returns (errors: nat, stop: bool, v: Vec)
    requires |n.bits| >= 1 && w >= 1
    ensures if stop then errors > 0 else |v| == w
    ensures errors == 0 <==> Acceptable(n, literal, w, signed, twoState)
    ensures errors == 0 ==> Fitted(n, v, w, signed)
  {
    errors, stop, v := 0, false, n.bits;
    if twoState && !Defined(v) { errors := errors + 1; }
    if literal.SizedLiteral? && literal.len != w { errors := errors + 1; }
    if (|v| != w || !n.sized) && !signed && n.signed && v[|v| - 1] == V1 { errors := errors + 1; }
    if |v| < w {
      if Defined(n.bits) {
        NarrowFits(n, w, signed);
        if !NegativeBad(n, w, signed) { PaddingKeepsValue(n, w, signed); }
      }
      v := PadToWidth(n, w);
    } else if |v| > w {
      if Defined(n.bits) { WideFits(n, w, signed); }
      var ok := UpperBitsMatch(v, w, signed);
      if !ok { errors := errors + 1; }
      if !n.signed && v[w] == V1 { return errors + 1, true, v; }
      if Defined(n.bits) && errors == 0 {
        FittingIsUpperFit(n.bits, w, n.signed, signed);
        CutKeepsValue(n.bits, w, n.signed, signed);
      }
      v := v[..w];
    }
  }

  /** A number as wide as the enumeration keeps its bits, but its value only if the signs
      agree or its top bit is 0. */
  lemma SameWidthExact(v: Vec, vs: bool, s: bool)
    requires Defined(v) && |v| >= 1
    ensures ToInt(v, s) == ToInt(v, vs) <==> s == vs || v[|v| - 1] == V0
  {
    if v[|v| - 1] == V0 {
      SignIrrelevant(v);
    } else {
      NegativeTop(v);
      ToIntUnsigned(v);
    }
  }

  // ----- implicit values -----

  /** `max_value`: computed with the one of the enumeration's own type. */
  function MaxValue(w: nat, signed: bool): int
    requires w >= 1
  {
    (if signed then Pow2(w - 1) else Pow2(w)) - ToInt(FromInt(1, w), signed)
  }

  predicate AtMax(v: Vec, w: nat, signed: bool)
    requires w >= 1
  {
    ToInt(v, signed) == MaxValue(w, signed)
  }

  function Next(v: Vec, signed: bool): Vec {
    FromInt(ToInt(v, signed) + 1, |v|)
  }

  lemma OneIsOne(w: nat, signed: bool)
    requires w >= 1
    ensures ToInt(FromInt(1, w), signed) == if signed && w == 1 then -1 else 1
  {
    if signed && w == 1 {
      assert FromInt(1, 1) == [V1] + FromInt(0, 0);
    } else {
      if w > 1 { Pow2Monotone(1, w - 1); Pow2Monotone(1, w); }
      assert Pow2(1) == 2 * Pow2(0);
      ToIntOfFromInt(1, w, signed);
    }
  }

  /** The overflow test is right for every value exactly unless the enumeration is signed
      and one bit wide: there its one is -1, and 0 is not seen to be the largest. */
  lemma OverflowTestExact(w: nat, signed: bool)
    requires w >= 1
    ensures (forall v | |v| == w && Defined(v) ::
               !AtMax(v, w, signed) <==> ToInt(Next(v, signed), signed) == ToInt(v, signed) + 1)
       <==> !(signed && w == 1)
  {
    OneIsOne(w, signed);
    if signed && w == 1 {
      var v := [V0];
      assert Next(v, true) == [V1] + FromInt(0, 0);
      assert !AtMax(v, 1, true) && ToInt(Next(v, true), true) == -1;
    } else {
      forall v | |v| == w && Defined(v)
        ensures !AtMax(v, w, signed) <==> ToInt(Next(v, signed), signed) == ToInt(v, signed) + 1
      {
        NextExact(v, signed);
      }
    }
  }

  lemma NextExact(v: Vec, signed: bool)
    requires Defined(v) && |v| >= 1
    ensures ToInt(Next(v, signed), signed) == ToInt(v, signed) + 1
       <==> ToInt(v, signed) != (if signed then Pow2(|v| - 1) else Pow2(|v|)) - 1
  {
    ToIntInRange(v, signed);
    ToIntInRange(Next(v, signed), signed);
    if ToInt(v, signed) != (if signed then Pow2(|v| - 1) else Pow2(|v|)) - 1 {
      ToIntOfFromInt(ToInt(v, signed) + 1, |v|, signed);
    }
  }

  // ----- the enumeration -----

  /** What the value of entry `i` has to do with the entry and the value before. */
  ghost predicate Numbered(entries: seq<Entry>, vals: seq<Vec>, i: nat, w: nat, signed: bool)
    requires i < |entries| && i < |vals| && w >= 1
  {
    match entries[i]
    case NotConstant(_) => false
    case Explicit(_, n, _) => |n.bits| >= 1 && Fitted(n, vals[i], w, signed)
    case Implicit(_) =>
      && Defined(vals[i]) && |vals[i]| == w
      && if i == 0 then vals[i] == FromInt(0, w)
         else Defined(vals[i - 1]) && |vals[i - 1]| == w && vals[i] == Next(vals[i - 1], signed)
              && !AtMax(vals[i - 1], w, signed)
  }

  /** An implicit value is the integer successor of the one before. */
  lemma ImplicitIsSuccessor(entries: seq<Entry>, vals: seq<Vec>, i: nat, w: nat, signed: bool)
    requires 0 < i < |entries| && i < |vals| && w >= 1 && Numbered(entries, vals, i, w, signed) && entries[i].Implicit?
    requires !(signed && w == 1)
    ensures ToInt(vals[i], signed) == ToInt(vals[i - 1], signed) + 1
  {
    OverflowTestExact(w, signed);
    assert |vals[i - 1]| == w && Defined(vals[i - 1]);
  }

  datatype Outcome = Value(v: Vec) | Skip | Stop

  predicate Sensible(entries: seq<Entry>) {
    forall e | e in entries && e.Explicit? :: |e.value.bits| >= 1
  }

  /** An entry is refused for a value that is no constant or not acceptable, and without a
      value if the next one is not defined or has wrapped. */
  ghost predicate Allowed(e: Entry, cur: Vec, wrapped: bool, w: nat, signed: bool, twoState: bool)
    requires w >= 1
  {
    match e
    case NotConstant(_) => false
    case Explicit(_, n, literal) => |n.bits| >= 1 && Acceptable(n, literal, w, signed, twoState)
    case Implicit(_) => Defined(cur) && !wrapped
  }

  /** The value for one name, before it is compared with the others. */
  method ValueOf(e: Entry, cur: Vec, wrapped: bool, w: nat, signed: bool, twoState: bool)
    returns (outcome: Outcome, wrapped': bool, errors: nat)
    requires w >= 1 && |cur| == w && (e.Explicit? ==> |e.value.bits| >= 1)
    ensures if outcome.Value? then |outcome.v| == w else errors > 0
    ensures wrapped' == (wrapped && !e.Explicit?)
    ensures errors == 0 <==> Allowed(e, cur, wrapped, w, signed, twoState)
    ensures errors == 0 && e.Implicit? ==> outcome.v == cur
    ensures errors == 0 && e.Explicit? ==> Fitted(e.value, outcome.v, w, signed)
  {
    errors, wrapped' := 0, wrapped;
    match e {
      case NotConstant(_) => return Skip, wrapped, 1;
      case Explicit(_, n, literal) =>
        wrapped' := false;
        var stop, v;
        errors, stop, v := FitValue(n, literal, w, signed, twoState);
        if stop { return Stop, wrapped', errors; }
        outcome := Value(v);
      case Implicit(_) =>
        if !Defined(cur) { return Skip, wrapped, 1; }
        outcome := Value(cur);
    }
    if wrapped' { errors := errors + 1; }
  }

  /** What the next implicit value will be. */
  ghost predicate Ready(vals: seq<Vec>, cur: Vec, wrapped: bool, w: nat, signed: bool)
    requires w >= 1
  {
    if vals == [] then cur == FromInt(0, w) && !wrapped
    else
      var last := vals[|vals| - 1];
      && |last| == w
      && if Defined(last) then cur == Next(last, signed) && wrapped == AtMax(last, w, signed)
         else cur == last && !wrapped
  }

  // ----- good enumerations -----

  ghost predicate AcceptableEntry(e: Entry, w: nat, signed: bool, twoState: bool)
    requires w >= 1
  {
    e.Explicit? ==> |e.value.bits| >= 1 && Acceptable(e.value, e.literal, w, signed, twoState)
  }

  /** The names are new and distinct, and the values are distinct. */
  ghost predicate Distinct(entries: seq<Entry>, vals: seq<Vec>, taken: set<string>) {
    && |vals| == |entries|
    && (forall i | 0 <= i < |entries| :: entries[i].name !in taken)
    && forall i, j | 0 <= i < j < |entries| :: entries[i].name != entries[j].name && vals[i] != vals[j]
  }

  /** Each value is what its entry asks for, and may have. */
  ghost predicate AllNumbered(entries: seq<Entry>, vals: seq<Vec>, w: nat, signed: bool, twoState: bool)
    requires w >= 1 && |vals| == |entries|
  {
    forall i | 0 <= i < |entries| ::
      Numbered(entries, vals, i, w, signed) && AcceptableEntry(entries[i], w, signed, twoState)
  }

  ghost predicate Good(entries: seq<Entry>, vals: seq<Vec>, taken: set<string>, w: nat, signed: bool, twoState: bool)
    requires w >= 1
  {
    Distinct(entries, vals, taken) && AllNumbered(entries, vals, w, signed, twoState)
  }

  lemma NumberedPrefix(entries: seq<Entry>, vals: seq<Vec>, i: nat, k: nat, w: nat, signed: bool)
    requires i < k <= |entries| && k <= |vals| && w >= 1
    ensures Numbered(entries[..k], vals[..k], i, w, signed) <==> Numbered(entries, vals, i, w, signed)
  {
  }

  lemma GoodPrefix(entries: seq<Entry>, vals: seq<Vec>, k: nat, taken: set<string>, w: nat, signed: bool,
                   twoState: bool)
    requires w >= 1 && k <= |entries| && Good(entries, vals, taken, w, signed, twoState)
    ensures Good(entries[..k], vals[..k], taken, w, signed, twoState)
  {
    forall i | 0 <= i < k ensures Numbered(entries[..k], vals[..k], i, w, signed) {
      NumberedPrefix(entries, vals, i, k, w, signed);
    }
  }

  lemma NumberedUnique(entries: seq<Entry>, a: seq<Vec>, b: seq<Vec>, i: nat, w: nat, signed: bool)
    requires w >= 1 && i < |entries| && i < |a| && i < |b| && (i > 0 ==> a[i - 1] == b[i - 1])
    requires Numbered(entries, a, i, w, signed) && Numbered(entries, b, i, w, signed)
    ensures a[i] == b[i]
  {
    if entries[i].Explicit? { FittedUnique(entries[i].value, a[i], b[i], w, signed); }
  }

  /** There is at most one list of values. */
  lemma {:induction false} NumberingUnique(entries: seq<Entry>, a: seq<Vec>, b: seq<Vec>, k: nat, w: nat, signed: bool)
    requires w >= 1 && k <= |entries| && k <= |a| && k <= |b|
    requires forall i | 0 <= i < k :: Numbered(entries, a, i, w, signed) && Numbered(entries, b, i, w, signed)
    ensures a[..k] == b[..k]
  {
    if k > 0 {
      NumberingUnique(entries, a, b, k - 1, w, signed);
      if k > 1 { assert a[..k - 1][k - 2] == b[..k - 1][k - 2]; }
      assert Numbered(entries, a, k - 1, w, signed) && Numbered(entries, b, k - 1, w, signed);
      NumberedUnique(entries, a, b, k - 1, w, signed);
      assert a[..k] == a[..k - 1] + [a[k - 1]] && b[..k] == b[..k - 1] + [b[k - 1]];
    }
  }

  lemma GoodUnique(entries: seq<Entry>, a: seq<Vec>, b: seq<Vec>, taken: set<string>, w: nat, signed: bool,
                   twoState: bool)
    requires w >= 1 && Good(entries, a, taken, w, signed, twoState) && Good(entries, b, taken, w, signed, twoState)
    ensures a == b
  {
    NumberingUnique(entries, a, b, |entries|, w, signed);
    assert a[..|entries|] == a && b[..|entries|] == b;
  }

  /** The value `v` for entry `e`, when `cur` is the next implicit one. */
  ghost predicate Gives(e: Entry, cur: Vec, v: Vec, w: nat, signed: bool) {
    match e
    case NotConstant(_) => false
    case Explicit(_, n, _) => |n.bits| >= 1 && Fitted(n, v, w, signed)
    case Implicit(_) => v == cur
  }

  lemma LastNumbered(entries: seq<Entry>, vals: seq<Vec>, v: Vec, cur: Vec, wrapped: bool, w: nat, signed: bool,
                     twoState: bool)
    requires w >= 1 && |entries| == |vals| + 1 && Ready(vals, cur, wrapped, w, signed)
    ensures var e := entries[|vals|];
      (Numbered(entries, vals + [v], |vals|, w, signed) && AcceptableEntry(e, w, signed, twoState)
       <==> Allowed(e, cur, wrapped, w, signed, twoState) && Gives(e, cur, v, w, signed))
  {
    var i, vals' := |vals|, vals + [v];
    assert vals'[i] == v && (i > 0 ==> vals'[i - 1] == vals[i - 1]);
  }

  /** The name and the value of the last entry are new. */
  ghost predicate New(entries: seq<Entry>, vals: seq<Vec>, v: Vec, taken: set<string>)
    requires |entries| == |vals| + 1
  {
    && v !in vals && entries[|vals|].name !in taken
    && forall i | 0 <= i < |vals| :: entries[i].name != entries[|vals|].name
  }

  lemma DistinctNext(entries: seq<Entry>, vals: seq<Vec>, v: Vec, taken: set<string>)
    requires |entries| == |vals| + 1
    ensures Distinct(entries, vals + [v], taken)
      <==> Distinct(entries[..|vals|], vals, taken) && New(entries, vals, v, taken)
  {
    var n, vals' := |vals|, vals + [v];
    assert forall i | 0 <= i < n :: vals'[i] == vals[i] && entries[..n][i] == entries[i];
    assert vals'[n] == v;
    if Distinct(entries, vals', taken) {
      forall i | 0 <= i < n ensures vals[i] != v && entries[i].name != entries[n].name {
        assert vals'[i] != vals'[n];
      }
      forall i, j | 0 <= i < j < n ensures entries[..n][i].name != entries[..n][j].name && vals[i] != vals[j] {
        assert vals'[i] != vals'[j];
      }
    }
    if Distinct(entries[..n], vals, taken) && New(entries, vals, v, taken) {
      forall i, j | 0 <= i < j <= n ensures entries[i].name != entries[j].name && vals'[i] != vals'[j] {
        if j < n { assert entries[..n][i].name != entries[..n][j].name; }
      }
    }
  }

  lemma AllNumberedNext(entries: seq<Entry>, vals: seq<Vec>, v: Vec, w: nat, signed: bool, twoState: bool)
    requires w >= 1 && |entries| == |vals| + 1
    ensures AllNumbered(entries, vals + [v], w, signed, twoState)
      <==> AllNumbered(entries[..|vals|], vals, w, signed, twoState)
           && Numbered(entries, vals + [v], |vals|, w, signed)
           && AcceptableEntry(entries[|vals|], w, signed, twoState)
  {
    var n, vals' := |vals|, vals + [v];
    assert vals'[..n] == vals;
    forall i | 0 <= i < n
      ensures Numbered(entries[..n], vals, i, w, signed) <==> Numbered(entries, vals', i, w, signed)
    {
      NumberedPrefix(entries, vals', i, n, w, signed);
    }
  }

  /** Values for one entry more are good exactly when the next one is allowed, as its entry
      asks, and new. */
  lemma GoodNext(entries: seq<Entry>, vals: seq<Vec>, v: Vec, cur: Vec, wrapped: bool, taken: set<string>, w: nat,
                 signed: bool, twoState: bool)
    requires w >= 1 && |entries| == |vals| + 1 && Ready(vals, cur, wrapped, w, signed)
    ensures Good(entries, vals + [v], taken, w, signed, twoState)
      <==> && Good(entries[..|vals|], vals, taken, w, signed, twoState)
           && Allowed(entries[|vals|], cur, wrapped, w, signed, twoState)
           && Gives(entries[|vals|], cur, v, w, signed) && New(entries, vals, v, taken)
  {
    DistinctNext(entries, vals, v, taken);
    AllNumberedNext(entries, vals, v, w, signed, twoState);
    LastNumbered(entries, vals, v, cur, wrapped, w, signed, twoState);
  }

  lemma GivesOne(e: Entry, cur: Vec, v: Vec, v': Vec, w: nat, signed: bool)
    requires Gives(e, cur, v, w, signed) && Gives(e, cur, v', w, signed)
    ensures v == v'
  {
    if e.Explicit? { FittedUnique(e.value, v, v', w, signed); }
  }

  /** A good list begins with the good values so far. */
  lemma GoodBegins(entries: seq<Entry>, vals: seq<Vec>, vs: seq<Vec>, taken: set<string>, w: nat, signed: bool,
                   twoState: bool)
    requires w >= 1 && |vals| < |entries| && Good(entries[..|vals|], vals, taken, w, signed, twoState)
    requires Good(entries, vs, taken, w, signed, twoState)
    ensures |vs| == |entries| && vs[..|vals| + 1] == vals + [vs[|vals|]]
  {
    var n := |vals|;
    GoodPrefix(entries, vs, n, taken, w, signed, twoState);
    GoodUnique(entries[..n], vals, vs[..n], taken, w, signed, twoState);
  }

  /** In a good list the value of the next entry is allowed, as its entry asks, and new. */
  lemma GoodHere(entries: seq<Entry>, vals: seq<Vec>, vs: seq<Vec>, cur: Vec, wrapped: bool, taken: set<string>,
                 w: nat, signed: bool, twoState: bool)
    requires w >= 1 && |vals| < |entries| && Ready(vals, cur, wrapped, w, signed)
    requires |vs| == |entries| && vs[..|vals| + 1] == vals + [vs[|vals|]]
    requires Good(entries, vs, taken, w, signed, twoState)
    ensures Allowed(entries[|vals|], cur, wrapped, w, signed, twoState)
    ensures Gives(entries[|vals|], cur, vs[|vals|], w, signed)
    ensures New(entries[..|vals| + 1], vals, vs[|vals|], taken)
  {
    var n := |vals|;
    GoodPrefix(entries, vs, n + 1, taken, w, signed, twoState);
    GoodNext(entries[..n + 1], vals, vs[n], cur, wrapped, taken, w, signed, twoState);
  }

  /** If no value will do for the next entry, no list of values is good. */
  lemma NoneGood(entries: seq<Entry>, vals: seq<Vec>, cur: Vec, wrapped: bool, taken: set<string>, w: nat, signed: bool,
                 twoState: bool)
    requires w >= 1 && |vals| < |entries| && Ready(vals, cur, wrapped, w, signed)
    requires Good(entries[..|vals|], vals, taken, w, signed, twoState)
    requires Allowed(entries[|vals|], cur, wrapped, w, signed, twoState) ==>
      forall v | Gives(entries[|vals|], cur, v, w, signed) :: !New(entries[..|vals| + 1], vals, v, taken)
    ensures !Numberable(entries, taken, w, signed, twoState)
  {
    if vs :| Good(entries, vs, taken, w, signed, twoState) {
      GoodBegins(entries, vals, vs, taken, w, signed, twoState);
      GoodHere(entries, vals, vs, cur, wrapped, taken, w, signed, twoState);
    }
  }

  /** The values so far are good, and the next implicit one is known. */
  ghost predicate GoodSoFar(entries: seq<Entry>, vals: seq<Vec>, cur: Vec, wrapped: bool, taken: set<string>, w: nat,
                            signed: bool, twoState: bool)
    requires w >= 1
  {
    && |vals| <= |entries| && Good(entries[..|vals|], vals, taken, w, signed, twoState)
    && Ready(vals, cur, wrapped, w, signed)
  }

  ghost predicate Numberable(entries: seq<Entry>, taken: set<string>, w: nat, signed: bool, twoState: bool)
    requires w >= 1
  {
    exists vs :: Good(entries, vs, taken, w, signed, twoState)
  }

  /** An entry that is not allowed leaves no good list of values. */
  lemma JudgeEntry(entries: seq<Entry>, vals: seq<Vec>, cur: Vec, wrapped: bool, taken: set<string>, w: nat,
                   signed: bool, twoState: bool)
    requires w >= 1 && |vals| < |entries| && GoodSoFar(entries, vals, cur, wrapped, taken, w, signed, twoState)
    requires !Allowed(entries[|vals|], cur, wrapped, w, signed, twoState)
    ensures !Numberable(entries, taken, w, signed, twoState)
  {
    NoneGood(entries, vals, cur, wrapped, taken, w, signed, twoState);
  }

  /** A value that its entry gives is good with those before exactly if it is new; if it is
      not, no list of values is good. */
  lemma JudgeValue(entries: seq<Entry>, vals: seq<Vec>, v: Vec, cur: Vec, wrapped: bool, taken: set<string>, w: nat,
                   signed: bool, twoState: bool)
    requires w >= 1 && |vals| < |entries| && GoodSoFar(entries, vals, cur, wrapped, taken, w, signed, twoState)
    requires Allowed(entries[|vals|], cur, wrapped, w, signed, twoState) && Gives(entries[|vals|], cur, v, w, signed)
    ensures if New(entries[..|vals| + 1], vals, v, taken)
            then |v| == w ==> GoodSoFar(entries, vals + [v], if Defined(v) then Next(v, signed) else v,
                                        Defined(v) && AtMax(v, w, signed), taken, w, signed, twoState)
            else !Numberable(entries, taken, w, signed, twoState)
  {
    assert entries[..|vals| + 1][..|vals|] == entries[..|vals|];
    if New(entries[..|vals| + 1], vals, v, taken) {
      GoodNext(entries[..|vals| + 1], vals, v, cur, wrapped, taken, w, signed, twoState);
    } else {
      forall v' | Gives(entries[|vals|], cur, v', w, signed) ensures v' == v {
        GivesOne(entries[|vals|], cur, v, v', w, signed);
      }
      NoneGood(entries, vals, cur, wrapped, taken, w, signed, twoState);
    }
  }

  // ----- enumerations without explicit values -----

  function Count(w: nat, signed: bool): nat
    requires w >= 1
  {
    if signed then Pow2(w - 1) else Pow2(w)
  }

  lemma CountingValue(i: nat, w: nat, signed: bool)
    requires w >= 1 && !(signed && w == 1) && i < Count(w, signed)
    ensures ToInt(FromInt(i, w), signed) == i
    ensures AtMax(FromInt(i, w), w, signed) <==> i == Count(w, signed) - 1
  {
    ToIntOfFromInt(i, w, signed);
    OneIsOne(w, signed);
  }

  lemma {:induction false} ImplicitCounts(entries: seq<Entry>, vals: seq<Vec>, i: nat, w: nat, signed: bool)
    requires w >= 1 && !(signed && w == 1) && i < |entries| && i < |vals|
    requires forall j | 0 <= j <= i :: entries[j].Implicit? && Numbered(entries, vals, j, w, signed)
    ensures ToInt(vals[i], signed) == i < Count(w, signed)
  {
    assert Numbered(entries, vals, i, w, signed);
    ToIntInRange(vals[i], signed);
    if i > 0 {
      ImplicitCounts(entries, vals, i - 1, w, signed);
      ImplicitIsSuccessor(entries, vals, i, w, signed);
    } else {
      CountingValue(0, w, signed);
    }
  }

  lemma CountingIsGood(entries: seq<Entry>, vals: seq<Vec>, taken: set<string>, w: nat, signed: bool, twoState: bool)
    requires w >= 1 && !(signed && w == 1) && |entries| <= Count(w, signed)
    requires vals == seq(|entries|, i requires 0 <= i < |entries| => FromInt(i, w))
    requires forall e | e in entries :: e.Implicit? && e.name !in taken
    requires forall i, j | 0 <= i < j < |entries| :: entries[i].name != entries[j].name
    ensures Good(entries, vals, taken, w, signed, twoState)
  {
    forall i | 0 <= i < |entries| ensures Numbered(entries, vals, i, w, signed) && entries[i].Implicit? {
      assert entries[i] in entries;
      CountingValue(i, w, signed);
      if i > 0 { CountingValue(i - 1, w, signed); }
    }
    forall i, j | 0 <= i < j < |entries| ensures vals[i] != vals[j] {
      CountingValue(i, w, signed);
      CountingValue(j, w, signed);
    }
  }

  /** Names without values that are new and distinct are good exactly as long as the type
      has as many values from 0 on. */
  lemma PlainExactly(entries: seq<Entry>, taken: set<string>, w: nat, signed: bool, twoState: bool)
    requires w >= 1 && !(signed && w == 1)
    requires forall e | e in entries :: e.Implicit? && e.name !in taken
    requires forall i, j | 0 <= i < j < |entries| :: entries[i].name != entries[j].name
    ensures Numberable(entries, taken, w, signed, twoState) <==> |entries| <= Count(w, signed)
  {
    if |entries| <= Count(w, signed) {
      var vals := seq(|entries|, i requires 0 <= i < |entries| => FromInt(i, w));
      CountingIsGood(entries, vals, taken, w, signed, twoState);
    }
    if vs :| Good(entries, vs, taken, w, signed, twoState) {
      if entries != [] {
        var n := |entries| - 1;
        forall j | 0 <= j <= n ensures entries[j].Implicit? && Numbered(entries, vs, j, w, signed) {
          assert entries[j] in entries;
        }
        ImplicitCounts(entries, vs, n, w, signed);
      }
    }
  }

  // ----- names -----

  /** The last value of each name. */
  function Named(entries: seq<Entry>, vals: seq<Vec>): map<string, Vec>
    requires |vals| == |entries|
  {
    if entries == [] then map[]
    else
      var n := |entries| - 1;
      Named(entries[..n], vals[..n])[entries[n].name := vals[n]]
  }

  /** Every name in the map is that of an entry, with its value. */
  lemma {:induction false} NamedFrom(entries: seq<Entry>, vals: seq<Vec>, k: string) returns (i: nat)
    requires |vals| == |entries| && k in Named(entries, vals)
    ensures i < |entries| && entries[i].name == k && Named(entries, vals)[k] == vals[i]
  {
    i := |entries| - 1;
    if entries[i].name != k { i := NamedFrom(entries[..i], vals[..i], k); }
  }

  /** A name that comes once keeps its value. */
  lemma {:induction false} NamedKeeps(entries: seq<Entry>, vals: seq<Vec>, i: nat)
    requires |vals| == |entries| && i < |entries|
    requires forall j | i < j < |entries| :: entries[j].name != entries[i].name
    ensures entries[i].name in Named(entries, vals) && Named(entries, vals)[entries[i].name] == vals[i]
  {
    var n := |entries| - 1;
    if i < n { NamedKeeps(entries[..n], vals[..n], i); }
  }

  lemma NamedHolds(entries: seq<Entry>, vals: seq<Vec>, k: string, v: Vec, taken: set<string>)
    requires Distinct(entries, vals, taken)
    ensures v in Named(entries, vals).Values <==> v in vals
    ensures k in Named(entries, vals) <==> exists i :: 0 <= i < |entries| && entries[i].name == k
  {
    var named := Named(entries, vals);
    if v in named.Values {
      var n :| n in named && named[n] == v;
      var i := NamedFrom(entries, vals, n);
    }
    if i :| 0 <= i < |vals| && vals[i] == v { NamedKeeps(entries, vals, i); }
    if k in named { var i := NamedFrom(entries, vals, k); }
    if i :| 0 <= i < |entries| && entries[i].name == k { NamedKeeps(entries, vals, i); }
  }

  lemma NewIsUnnamed(entries: seq<Entry>, vals: seq<Vec>, v: Vec, taken: set<string>)
    requires |entries| == |vals| + 1
    requires Distinct(entries[..|vals|], vals, taken)
    ensures var named, name := Named(entries[..|vals|], vals), entries[|vals|].name;
      New(entries, vals, v, taken) <==> v !in named.Values && name !in named && name !in taken
  {
    var front := entries[..|vals|];
    NamedHolds(front, vals, entries[|vals|].name, v, taken);
    assert forall i | 0 <= i < |vals| :: front[i] == entries[i];
  }

  /** The names and values of an enumeration, and the names of its scope. */
  class Enumeration {
    var names: map<string, Vec>
    var scopeNames: set<string>
    var errors: nat

    constructor (scopeNames: set<string>)
      ensures names == map[] && this.scopeNames == scopeNames && errors == 0
    {
      names, this.scopeNames, errors := map[], scopeNames, 0;
    }

    /** `find_value` and `insert_name`: a value or a name that is taken is an error. */
    method Insert(name: string, v: Vec)
      modifies this
      ensures scopeNames == old(scopeNames) + {name} && name in names
      ensures names == if name in old(names) then old(names) else old(names)[name := v]
      ensures errors >= old(errors)
      ensures errors == old(errors) <==> v !in old(names).Values && name !in old(names) && name !in old(scopeNames)
    {
      if v in names.Values { errors := errors + 1; }
      if name in names || name in scopeNames { errors := errors + 1; }
      if name !in names { names := names[name := v]; }
      scopeNames := scopeNames + {name};
    }

    /** The map has the names of `entries` with their values, and the scope has them beside
        those it had. */
    ghost predicate Holds(entries: seq<Entry>, vals: seq<Vec>, taken: set<string>)
      reads this
    {
      && |vals| == |entries| && names == Named(entries, vals) && scopeNames == taken + names.Keys
    }

    /** One entry: an error exactly if its name or value is not new. */
    method Take(ghost clean: bool, ghost entries: seq<Entry>, e: Entry, ghost vals: seq<Vec>, v: Vec,
                ghost taken: set<string>)
      requires clean ==> |entries| == |vals| + 1 && entries[|vals|] == e && Holds(entries[..|vals|], vals, taken)
      requires clean ==> Distinct(entries[..|vals|], vals, taken)
      modifies this
      ensures errors >= old(errors)
      ensures clean ==> (errors == old(errors) <==> New(entries, vals, v, taken))
      ensures clean && errors == old(errors) ==> Holds(entries, vals + [v], taken)
    {
      if clean { NewIsUnnamed(entries, vals, v, taken); }
      Insert(e.name, v);
      assert clean ==> (vals + [v])[..|vals|] == vals;
    }

    /** `elaborate_scope_enumeration`. No error is counted exactly when some list of values is
        good for the entries, and then each name is inserted with its value from that list. */
    method Elaborate(entries: seq<Entry>, w: nat, signed: bool, twoState: bool) returns (ghost vals: seq<Vec>)
      requires w >= 1 && names == map[] && Sensible(entries)
      modifies this
      ensures errors >= old(errors)
      ensures errors == old(errors) <==> Numberable(entries, old(scopeNames), w, signed, twoState)
      ensures errors == old(errors) ==>
        Good(entries, vals, old(scopeNames), w, signed, twoState) && Holds(entries, vals, old(scopeNames))
    {
      vals := [];
      ghost var taken := scopeNames;
      var cur, wrapped, idx := FromInt(0, w), false, 0;
      while idx < |entries|
        invariant 0 <= idx <= |entries| && |cur| == w && errors >= old(errors)
        invariant errors == old(errors) ==> |vals| == idx && Holds(entries[..idx], vals, taken)
        invariant errors == old(errors) ==> GoodSoFar(entries, vals, cur, wrapped, taken, w, signed, twoState)
        invariant errors > old(errors) ==> !Numberable(entries, taken, w, signed, twoState)
      {
        assert entries[idx] in entries;
        ghost var clean := errors == old(errors);
        var outcome, wrapped', bad := ValueOf(entries[idx], cur, wrapped, w, signed, twoState);
        if clean && bad > 0 { JudgeEntry(entries, vals, cur, wrapped, taken, w, signed, twoState); }
        errors := errors + bad;
        if outcome.Stop? { return; }
        if outcome.Value? {
          ghost var entries' := entries[..idx + 1];
          assert entries'[..idx] == entries[..idx];
          Take(clean && bad == 0, entries', entries[idx], vals, outcome.v, taken);
          if clean && bad == 0 {
            JudgeValue(entries, vals, outcome.v, cur, wrapped, taken, w, signed, twoState);
          }
          cur := outcome.v;
          if Defined(cur) {
            if AtMax(cur, w, signed) { wrapped' := true; }
            cur := Next(cur, signed);
          }
          vals := vals + [outcome.v];
        }
        wrapped := wrapped';
        idx := idx + 1;
      }
      assert entries[..idx] == entries;
    }
  }
}
