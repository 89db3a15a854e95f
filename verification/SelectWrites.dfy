/** Writes through bit, part and indexed part selects, procedural and continuous, and
    their agreement with reads. */
module SelectWrites {
  import opened Vectors
  import opened Selects

  /** The part of its variable an l-value assigns; nothing when the base is x. */
  datatype Part = WholeVar | PartAt(base: int, wid: nat) | PartX(wid: nat)

  /** `NetAssign_`: an l-value, linked to the next more significant one. */
  class NetAssign {
    const sig: nat
    const range: Range
    const packed: bool
    var part: Part
    var more: NetAssign?

    constructor (sig: nat, range: Range, packed: bool)
      ensures this.sig == sig && this.range == range && this.packed == packed
      ensures part == WholeVar && more == null
    {
      this.sig, this.range, this.packed := sig, range, packed;
      part, more := WholeVar, null;
    }

    function LWidth(): nat
      reads this
    {
      match part
      case WholeVar => Width(range)
      case PartAt(_, wid) => wid
      case PartX(wid) => wid
    }
  }

  /** The variable after the assignment of `val`; bits that fall outside are dropped. */
  function Stored(part: Part, v: Vec, val: Vec): Vec
    requires match part case WholeVar => |val| == |v| case PartAt(_, wid) => |val| == wid case PartX(_) => true
  {
    match part
    case WholeVar => val
    case PartAt(base, wid) =>
      seq(|v|, i requires 0 <= i < |v| => if base <= i < base + wid then val[i - base] else v[i])
    case PartX(_) => v
  }

  /** The index of bit `k` points at position `p`. */
  predicate Points(r: Range, dir: Dir, b: int, wid: nat, k: int, p: int) {
    SbToIdx(r, IndexOf(r, dir, b, wid, k)) == p
  }

  /** Bit `k` of the value goes where the index of bit `k` points; all else stays. */
  ghost predicate WritesBits(r: Range, dir: Dir, b: int, wid: nat, v: Vec, val: Vec, v': Vec)
    requires |val| == wid
  {
    && |v'| == |v|
    && (forall k, p | 0 <= k < wid && 0 <= p < |v| && Points(r, dir, b, wid, k, p) :: v'[p] == val[k])
    && (forall p | 0 <= p < |v| :: (forall k | 0 <= k < wid :: !Points(r, dir, b, wid, k, p)) ==> v'[p] == v[p])
  }

  // ----- procedural l-values -----

  function LvalBase(r: Range, dir: Dir, b: int, wid: nat): int {
    SbToIdx(r, b) + if (r.msb < r.lsb && dir.IdxUp?) || (r.msb > r.lsb && dir.IdxDo?) then 1 - wid else 0
  }

  /** The part an indexed select with this base assigns. */
  function IdxPart(r: Range, dir: Dir, b: Base, wid: nat): Part {
    if b.BaseX? then PartX(wid)
    else if LvalBase(r, dir, b.value, wid) == 0 && wid == Width(r) then WholeVar
    else PartAt(LvalBase(r, dir, b.value, wid), wid)
  }

  /** `elaborate_lval_net_idx_`: a wrapped base is refused. */
  method ElaborateLvalNetIdx(lv: NetAssign, dir: Dir, b: Base, wid: nat) returns (ok: bool)
    requires lv.part == WholeVar && wid >= 1
    modifies lv`part
    ensures ok <==> !Wrapped(b)
    ensures lv.part == if ok then IdxPart(lv.range, dir, b, wid) else WholeVar
  {
    if b.BaseAt? {
      if !b.signed && b.value % 0x1_0000_0000 >= 0x8000_0000 { return false; }
      var rng, offset := lv.range, 0;
      if (rng.msb < rng.lsb && dir.IdxUp?) || (rng.msb > rng.lsb && dir.IdxDo?) {
        offset := 1 - wid;
      }
      var relBase := SbToIdx(rng, b.value) + offset;
      if relBase == 0 && wid == Width(rng) { return true; }
      lv.part := PartAt(relBase, wid);
    } else {
      lv.part := PartX(wid);
    }
    ok := true;
  }

  /** The width of `[m:l]` in the declared order. */
  function RangeWidth(r: Range, m: int, l: int): int {
    SbToIdx(r, m) - SbToIdx(r, l) + 1
  }

  /** The part `[m:l]` assigns. */
  function RangePart(r: Range, m: int, l: int): Part
    requires !ReadRange(r, m, l).OutOfOrder?
  {
    if SbToIdx(r, l) == 0 && RangeWidth(r, m, l) == Width(r) then WholeVar
    else PartAt(SbToIdx(r, l), RangeWidth(r, m, l))
  }

  /** `elaborate_lval_net_part_`, for defined `[m:l]`: a reversed range is an error. */
  method ElaborateLvalNetPart(lv: NetAssign, m: int, l: int) returns (ok: bool)
    requires lv.part == WholeVar
    modifies lv`part
    ensures ok <==> !ReadRange(lv.range, m, l).OutOfOrder?
    ensures lv.part == if ok then RangePart(lv.range, m, l) else WholeVar
  {
    var loff, moff := SbToIdx(lv.range, l), SbToIdx(lv.range, m);
    if moff < loff { return false; }
    var wid := moff - loff + 1;
    if loff == 0 && wid == Width(lv.range) { return true; }
    lv.part := PartAt(loff, wid);
    ok := true;
  }

  lemma PointsAt(r: Range, dir: Dir, b: int, wid: nat, k: int, p: int)
    ensures Points(r, dir, b, wid, k, p) <==> p == Low(r, dir, b, wid) + k
  {
    Consecutive(r, dir, b, wid, k);
  }

  lemma PartWrites(r: Range, dir: Dir, b: int, wid: nat, v: Vec, val: Vec)
    requires |val| == wid
    ensures WritesBits(r, dir, b, wid, v, val, Stored(PartAt(Low(r, dir, b, wid), wid), v, val))
  {
    var low := Low(r, dir, b, wid);
    var v' := Stored(PartAt(low, wid), v, val);
    forall k, p | 0 <= k < wid && 0 <= p < |v| && Points(r, dir, b, wid, k, p)
      ensures v'[p] == val[k]
    {
      PointsAt(r, dir, b, wid, k, p);
    }
    forall p | 0 <= p < |v| && forall k | 0 <= k < wid :: !Points(r, dir, b, wid, k, p)
      ensures v'[p] == v[p]
    {
      PointsAt(r, dir, b, wid, p - low, p);
      assert low <= p < low + wid ==> !Points(r, dir, b, wid, p - low, p);
    }
  }

  /** `-:` on a vector of one bit, wider than the vector and near it. */
  predicate DoWriteIsOff(r: Range, dir: Dir, b: int, wid: nat) {
    dir.IdxDo? && r.msb == r.lsb && wid > 1 && b - r.lsb < wid && r.lsb - b < wid
  }

  lemma OffWriteShows(r: Range, b: Base, wid: nat, v: Vec, val: Vec)
    requires Placeable(b) && DoWriteIsOff(r, IdxDo, b.value, wid)
    requires v == Fill(V0, Width(r)) && val == [V1] + Fill(Vz, wid - 1)
    ensures !WritesBits(r, IdxDo, b.value, wid, v, val, Stored(IdxPart(r, IdxDo, b, wid), v, val))
  {
    var base := b.value - r.lsb;
    var v' := Stored(IdxPart(r, IdxDo, b, wid), v, val);
    assert IdxPart(r, IdxDo, b, wid) == PartAt(base, wid) && val[0] == V1 && |v| == 1;
    if base >= 0 {
      assert Points(r, IdxDo, b.value, wid, wid - 1 - base, 0);
      assert v'[0] == if base == 0 then val[0] else v[0];
      assert base == 0 ==> val[wid - 1] == Vz;
    } else {
      forall k | 0 <= k < wid ensures !Points(r, IdxDo, b.value, wid, k, 0) {
        PointsAt(r, IdxDo, b.value, wid, k, 0);
      }
      assert v'[0] == val[-base];
    }
  }

  lemma NoWrites(low: int, base: int, wid: nat, v: Vec, val: Vec)
    requires |val| == wid
    requires (low >= |v| || low + wid <= 0) && (base >= |v| || base + wid <= 0)
    ensures Stored(PartAt(low, wid), v, val) == v == Stored(PartAt(base, wid), v, val)
  {
  }

  lemma IdxWrites(r: Range, dir: Dir, b: Base, wid: nat, v: Vec, val: Vec)
    requires Placeable(b) && |v| == Width(r) && |val| == wid >= 1 && !DoWriteIsOff(r, dir, b.value, wid)
    ensures Stored(IdxPart(r, dir, b, wid), v, val) == Stored(PartAt(Low(r, dir, b.value, wid), wid), v, val)
  {
    var part, low := IdxPart(r, dir, b, wid), Low(r, dir, b.value, wid);
    if part.WholeVar? {
      assert Stored(PartAt(0, wid), v, val) == val;
    } else if part != PartAt(low, wid) {
      NoWrites(low, part.base, wid, v, val);
    }
  }

  /** A procedural indexed write stores each bit where the bit selects point, for every
      variable and value, except in that case. */
  lemma IdxWriteExact(r: Range, dir: Dir, b: Base, wid: nat)
    requires Placeable(b) && wid >= 1
    ensures (forall v, val | |v| == Width(r) && |val| == wid ::
               WritesBits(r, dir, b.value, wid, v, val, Stored(IdxPart(r, dir, b, wid), v, val)))
       <==> !DoWriteIsOff(r, dir, b.value, wid)
  {
    if DoWriteIsOff(r, dir, b.value, wid) {
      OffWriteShows(r, b, wid, Fill(V0, Width(r)), [V1] + Fill(Vz, wid - 1));
    } else {
      forall v, val | |v| == Width(r) && |val| == wid
        ensures WritesBits(r, dir, b.value, wid, v, val, Stored(IdxPart(r, dir, b, wid), v, val))
      {
        PartWrites(r, dir, b.value, wid, v, val);
        IdxWrites(r, dir, b, wid, v, val);
      }
    }
  }

  /** The lower declared index of `[m:l]`. */
  function LowerEnd(r: Range, m: int, l: int): int {
    if Descending(r) then l else m
  }

  lemma RangeStores(r: Range, m: int, l: int, v: Vec, val: Vec)
    requires !ReadRange(r, m, l).OutOfOrder? && |v| == Width(r) && |val| == RangeWidth(r, m, l)
    ensures Stored(RangePart(r, m, l), v, val) == Stored(PartAt(SbToIdx(r, l), |val|), v, val)
    ensures Low(r, IdxUp, LowerEnd(r, m, l), |val|) == SbToIdx(r, l)
  {
    if RangePart(r, m, l).WholeVar? { assert Stored(PartAt(0, |val|), v, val) == val; }
  }

  /** A write through `[m:l]` in the declared order stores each bit where the bit selects
      from `l` to `m` point, and no other, in and out of range. */
  lemma RangeWriteExact(r: Range, m: int, l: int, v: Vec, val: Vec)
    requires !ReadRange(r, m, l).OutOfOrder? && |v| == Width(r) && |val| == RangeWidth(r, m, l)
    ensures WritesBits(r, IdxUp, LowerEnd(r, m, l), |val|, v, val, Stored(RangePart(r, m, l), v, val))
    ensures Points(r, IdxUp, LowerEnd(r, m, l), |val|, 0, SbToIdx(r, l))
    ensures Points(r, IdxUp, LowerEnd(r, m, l), |val|, |val| - 1, SbToIdx(r, m))
  {
    RangeStores(r, m, l, v, val);
    PartWrites(r, IdxUp, LowerEnd(r, m, l), |val|, v, val);
    PointsAt(r, IdxUp, LowerEnd(r, m, l), |val|, 0, SbToIdx(r, l));
    PointsAt(r, IdxUp, LowerEnd(r, m, l), |val|, |val| - 1, SbToIdx(r, m));
  }

  // ----- continuous l-values -----

  /** `eval_part_select_` for an indexed select: the canonical ends are swapped into order,
      and a range wholly outside the net is skipped. */
  method EvalIndexedPart(r: Range, dir: Dir, b: Base, wid: nat) returns (ok: bool, midx: int, lidx: int)
    requires wid >= 1
    ensures ok <==> Placeable(b) && Low(r, dir, b.value, wid) < Width(r) && Low(r, dir, b.value, wid) + wid > 0
    ensures ok ==> lidx == Low(r, dir, b.value, wid) && midx == lidx + wid - 1
  {
    midx, lidx := 0, 0;
    if b.BaseX? { return false, midx, lidx; }
    if !b.signed && b.value % 0x1_0000_0000 >= 0x8000_0000 { return false, midx, lidx; }
    midx := SbToIdx(r, b.value);
    if dir.IdxUp? {
      lidx := SbToIdx(r, b.value + wid - 1);
    } else {
      lidx := SbToIdx(r, b.value - wid + 1);
    }
    if midx < lidx { midx, lidx := lidx, midx; }
    ok := !(lidx >= Width(r) || midx < 0);
  }

  /** `eval_part_select_` for defined `[m:l]`: reversed ends are an error, and swapped. */
  method EvalPart(r: Range, m: int, l: int) returns (ok: bool, midx: int, lidx: int, errors: nat)
    ensures errors == if ReadRange(r, m, l).OutOfOrder? then 1 else 0
    ensures if errors == 0 then lidx == SbToIdx(r, l) && midx == SbToIdx(r, m)
            else lidx == SbToIdx(r, m) && midx == SbToIdx(r, l)
    ensures lidx <= midx
    ensures ok <==> lidx < Width(r) && midx >= 0
  {
    lidx, midx := SbToIdx(r, l), SbToIdx(r, m);
    errors := 0;
    if lidx > midx {
      errors := 1;
      lidx, midx := midx, lidx;
    }
    ok := !(lidx >= Width(r) || midx < 0);
  }

  // ----- agreement -----

  lemma PartInRange(v: Vec, low: nat, wid: nat)
    requires low + wid <= |v|
    ensures ReadValue(ReadPart(low, wid), v) == v[low..low + wid]
  {
    var bits := ReadValue(ReadPart(low, wid), v);
    forall k | 0 <= k < wid ensures bits[k] == v[low + k] {
      assert bits[k] == BitAt(v, low + k);
    }
  }

  /** In range, the three calculations give one range, and a read gives back what either
      kind of write stored, in both directions of declaration and of select. */
  lemma ReadAfterWrite(r: Range, dir: Dir, b: Base, wid: nat, v: Vec, val: Vec)
    requires Placeable(b) && wid >= 1 && |v| == Width(r) && |val| == wid
    requires 0 <= Low(r, dir, b.value, wid) && Low(r, dir, b.value, wid) + wid <= Width(r)
    ensures var low := Low(r, dir, b.value, wid);
      && Stored(IdxPart(r, dir, b, wid), v, val) == Stored(PartAt(low, wid), v, val)
      && ReadValue(ReadIdx(r, dir, b, wid), v) == v[low..low + wid]
      && ReadValue(ReadIdx(r, dir, b, wid), Stored(IdxPart(r, dir, b, wid), v, val)) == val
  {
    var low := Low(r, dir, b.value, wid);
    var v' := Stored(PartAt(low, wid), v, val);
    IdxWrites(r, dir, b, wid, v, val);
    InRangeRead(r, dir, b, wid, v);
    InRangeRead(r, dir, b, wid, v');
    StoredSlice(low, wid, v, val);
  }

  lemma StoredSlice(low: nat, wid: nat, v: Vec, val: Vec)
    requires |val| == wid && low + wid <= |v|
    ensures Stored(PartAt(low, wid), v, val)[low..low + wid] == val
  {
  }

  lemma InRangeRead(r: Range, dir: Dir, b: Base, wid: nat, v: Vec)
    requires Placeable(b) && wid >= 1 && |v| == Width(r)
    requires 0 <= Low(r, dir, b.value, wid) && Low(r, dir, b.value, wid) + wid <= Width(r)
    ensures var low := Low(r, dir, b.value, wid); ReadValue(ReadIdx(r, dir, b, wid), v) == v[low..low + wid]
  {
    var low := Low(r, dir, b.value, wid);
    PartInRange(v, low, wid);
    PartIsBitSelects(r, v, dir, b.value, wid);
    if dir.IdxUp? {
      ReadUpIsBitSelects(r, v, b, wid);
    } else {
      assert !DoReadIsOff(r, b.value, wid);
      ReadDoExact(r, b, wid);
    }
  }

  /** In range, a read `[m:l]` gives back what a procedural write `[m:l]` stored, and what
      a continuous one stored at its canonical ends. */
  lemma RangeReadAfterWrite(r: Range, m: int, l: int, v: Vec, val: Vec)
    requires !ReadRange(r, m, l).OutOfOrder? && |v| == Width(r) && |val| == RangeWidth(r, m, l)
    requires 0 <= SbToIdx(r, l) && SbToIdx(r, m) < Width(r)
    ensures Stored(RangePart(r, m, l), v, val) == Stored(PartAt(SbToIdx(r, l), |val|), v, val)
    ensures ReadValue(ReadRange(r, m, l), Stored(RangePart(r, m, l), v, val)) == val
  {
    var low, wid := SbToIdx(r, l), |val|;
    var v' := Stored(PartAt(low, wid), v, val);
    RangeStores(r, m, l, v, val);
    PartInRange(v', low, wid);
    StoredSlice(low, wid, v, val);
  }

  /** A write does not show in a read of other bits. */
  lemma ReadElsewhere(r: Range, dir: Dir, b: Base, wid: nat, v: Vec, val: Vec, dir': Dir, b': int, wid': nat)
    requires Placeable(b) && wid >= 1 && |v| == Width(r) && |val| == wid && !DoWriteIsOff(r, dir, b.value, wid)
    requires var low, low' := Low(r, dir, b.value, wid), Low(r, dir', b', wid');
      low' + wid' <= low || low + wid <= low'
    ensures BitSelects(r, Stored(IdxPart(r, dir, b, wid), v, val), dir', b', wid') == BitSelects(r, v, dir', b', wid')
  {
    IdxWriteExact(r, dir, b, wid);
    var v' := Stored(IdxPart(r, dir, b, wid), v, val);
    assert WritesBits(r, dir, b.value, wid, v, val, v');
    forall k | 0 <= k < wid'
      ensures var p := SbToIdx(r, IndexOf(r, dir', b', wid', k)); BitAt(v', p) == BitAt(v, p)
    {
      Consecutive(r, dir', b', wid', k);
      var p := SbToIdx(r, IndexOf(r, dir', b', wid', k));
      if 0 <= p < |v| {
        forall j | 0 <= j < wid ensures !Points(r, dir, b.value, wid, j, p) {
          PointsAt(r, dir, b.value, wid, j, p);
        }
      }
    }
  }
}
