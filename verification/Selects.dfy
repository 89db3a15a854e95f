/** Bit, part and indexed part selects of one-dimensional vectors with constant indices:
    reads, procedural writes and continuous writes each compute their own range. */
module Selects {
  import opened Vectors

  /** The declared range `[msb:lsb]`. */
  datatype Range = Range(msb: int, lsb: int)

  predicate Descending(r: Range) {
    r.msb >= r.lsb
  }

  function Width(r: Range): nat {
    if Descending(r) then r.msb - r.lsb + 1 else r.lsb - r.msb + 1
  }

  /** `NetNet::sb_to_idx`. */
  function SbToIdx(r: Range, sb: int): int {
    if r.msb >= r.lsb then sb - r.lsb else r.lsb - sb
  }

  datatype Dir = IdxUp | IdxDo

  /** The value of a constant base expression. */
  datatype Base = BaseX | BaseAt(value: int, signed: bool)

  /** An unsigned base whose low 32 bits are negative as an `int32_t`. */
  predicate Wrapped(b: Base) {
    b.BaseAt? && !b.signed && b.value % 0x1_0000_0000 >= 0x8000_0000
  }

  /** A base that selects a place at all. */
  predicate Placeable(b: Base) {
    b.BaseAt? && !Wrapped(b)
  }

  // ----- what a select means -----

  function BitAt(v: Vec, i: int): Bit {
    if 0 <= i < |v| then v[i] else Vx
  }

  /** The declared index of bit `k` of an indexed select; `+:` and `-:` name the same
      indices whatever the direction, but its least significant bit depends on it. */
  function IndexOf(r: Range, dir: Dir, b: int, wid: nat, k: int): int {
    var low := if dir.IdxUp? then b else b - wid + 1;
    if Descending(r) then low + k else low + wid - 1 - k
  }

  /** The concatenation of the single-bit selects. */
  function BitSelects(r: Range, v: Vec, dir: Dir, b: int, wid: nat): Vec {
    seq(wid, k => BitAt(v, SbToIdx(r, IndexOf(r, dir, b, wid, k))))
  }

  /** The position of the least significant selected bit. */
  function Low(r: Range, dir: Dir, b: int, wid: nat): int {
    SbToIdx(r, IndexOf(r, dir, b, wid, 0))
  }

  /** Selected bits are adjacent. */
  lemma Consecutive(r: Range, dir: Dir, b: int, wid: nat, k: int)
    ensures SbToIdx(r, IndexOf(r, dir, b, wid, k)) == Low(r, dir, b, wid) + k
  {
  }

  // ----- indices and positions -----

  /** The declared indices: those between the two ends. */
  predicate Declared(r: Range, i: int) {
    r.lsb <= i <= r.msb || r.msb <= i <= r.lsb
  }

  /** Positions count from the right end of the range to its left end, one for each declared
      index, and no other index has a position in the vector. */
  lemma PositionsExactly(r: Range, i: int, j: int)
    ensures SbToIdx(r, r.lsb) == 0 && SbToIdx(r, r.msb) == Width(r) - 1
    ensures 0 <= SbToIdx(r, i) < Width(r) <==> Declared(r, i)
    ensures SbToIdx(r, i) == SbToIdx(r, j) <==> i == j
    ensures Declared(r, i) && Declared(r, j) && (j == i + 1 || j == i - 1) ==>
      (SbToIdx(r, j) == SbToIdx(r, i) + 1 <==> (if r.msb > r.lsb then j == i + 1 else j == i - 1))
  {
  }

  /** `b +: w` names the indices from b up to b + w - 1 and `b -: w` those from b down to
      b - w + 1, each once; of any two, the one nearer the left end is more significant. */
  lemma IndicesExactly(r: Range, dir: Dir, b: int, wid: nat, i: int)
    ensures (exists k :: 0 <= k < wid && IndexOf(r, dir, b, wid, k) == i)
      <==> if dir.IdxUp? then b <= i < b + wid else b - wid < i <= b
    ensures forall k, l :: 0 <= k < l < wid ==>
      if r.msb >= r.lsb then IndexOf(r, dir, b, wid, k) < IndexOf(r, dir, b, wid, l)
      else IndexOf(r, dir, b, wid, l) < IndexOf(r, dir, b, wid, k)
  {
    var low := if dir.IdxUp? then b else b - wid + 1;
    var k := if r.msb >= r.lsb then i - low else low + wid - 1 - i;
    assert IndexOf(r, dir, b, wid, k) == i;
  }

  /** A base selects a place unless it is unknown, or unsigned and too large for 32 bits with
      a sign. */
  lemma PlaceableExactly(b: Base)
    requires b.BaseAt? && !b.signed ==> 0 <= b.value < 0x1_0000_0000
    ensures Placeable(b) <==> b.BaseAt? && (b.signed || b.value <= 0x7FFF_FFFF)
  {
  }

  // ----- reads -----

  datatype Read = WholeNet | ReadPart(base: int, wid: nat) | ReadX(wid: nat) | OutOfOrder

  /** `elaborate_expr_net_idx_up_`. */
  function ReadUp(r: Range, b: Base, wid: nat): Read {
    if b.BaseX? || Wrapped(b) then ReadX(wid)
    else
      var offset := if r.msb < r.lsb then 1 - wid else 0;
      var base := SbToIdx(r, b.value) + offset;
      if base == 0 && wid == Width(r) then WholeNet else ReadPart(base, wid)
  }

  /** `elaborate_expr_net_idx_do_`; its test for the whole vector looks for base `wid - 1`. */
  function ReadDo(r: Range, b: Base, wid: nat): Read {
    if b.BaseX? || Wrapped(b) then ReadX(wid)
    else
      var base := DoBase(r, b.value, wid);
      if base == wid - 1 && wid == Width(r) then WholeNet else ReadPart(base, wid)
  }

  function DoBase(r: Range, b: int, wid: nat): int {
    SbToIdx(r, b) + if r.msb > r.lsb then 1 - wid else 0
  }

  function ReadIdx(r: Range, dir: Dir, b: Base, wid: nat): Read {
    if dir.IdxUp? then ReadUp(r, b, wid) else ReadDo(r, b, wid)
  }

  /** `elaborate_expr_net_part_`, for defined `[m:l]`. */
  function ReadRange(r: Range, m: int, l: int): Read {
    var lsb, msb := SbToIdx(r, l), SbToIdx(r, m);
    if msb < lsb then OutOfOrder
    else if lsb == 0 && msb - lsb + 1 == Width(r) then WholeNet
    else if lsb >= Width(r) || msb < 0 then ReadX(msb - lsb + 1)
    else ReadPart(lsb, msb - lsb + 1)
  }

  /** `elaborate_expr_net_bit_`, for a defined index. */
  function ReadBit(r: Range, i: int): Read {
    var idx := SbToIdx(r, i);
    if idx >= Width(r) || idx < 0 then ReadX(1)
    else if Width(r) == 1 then WholeNet
    else ReadPart(idx, 1)
  }

  /** What the expression reads from a vector; bits outside it are x. */
  function ReadValue(e: Read, v: Vec): Vec {
    match e
    case WholeNet => v
    case ReadPart(base, wid) => seq(wid, k => BitAt(v, base + k))
    case ReadX(wid) => Fill(Vx, wid)
    case OutOfOrder => []
  }

  lemma PartIsBitSelects(r: Range, v: Vec, dir: Dir, b: int, wid: nat)
    ensures ReadValue(ReadPart(Low(r, dir, b, wid), wid), v) == BitSelects(r, v, dir, b, wid)
  {
    forall k | 0 <= k < wid
      ensures BitAt(v, Low(r, dir, b, wid) + k) == BitAt(v, SbToIdx(r, IndexOf(r, dir, b, wid, k)))
    {
      Consecutive(r, dir, b, wid, k);
    }
  }

  lemma OffVector(v: Vec, base: int, wid: nat)
    requires base >= |v| || base + wid <= 0
    ensures ReadValue(ReadPart(base, wid), v) == Fill(Vx, wid)
  {
    var bits := ReadValue(ReadPart(base, wid), v);
    forall k | 0 <= k < wid ensures bits[k] == Vx {
      assert bits[k] == BitAt(v, base + k);
    }
  }

  /** A `+:` read always gives the concatenated bit selects. */
  lemma ReadUpIsBitSelects(r: Range, v: Vec, b: Base, wid: nat)
    requires |v| == Width(r) && Placeable(b)
    ensures ReadValue(ReadUp(r, b, wid), v) == BitSelects(r, v, IdxUp, b.value, wid)
  {
    PartIsBitSelects(r, v, IdxUp, b.value, wid);
    if ReadUp(r, b, wid).WholeNet? {
      assert ReadValue(ReadPart(0, wid), v) == v;
    }
  }

  /** The reads `-:` gets wrong: its whole-vector test hits a select that is all but one
      bit off the vector, and a vector of one bit does not move its base down. */
  predicate DoReadIsOff(r: Range, b: int, wid: nat) {
    wid > 1 &&
    if r.msb == r.lsb then b - r.lsb < wid && r.lsb - b < wid
    else wid == Width(r) && DoBase(r, b, wid) == wid - 1
  }

  lemma OffReadShows(r: Range, v: Vec, b: Base, wid: nat)
    requires Placeable(b) && DoReadIsOff(r, b.value, wid) && v == Fill(V0, Width(r))
    ensures ReadValue(ReadDo(r, b, wid), v) != BitSelects(r, v, IdxDo, b.value, wid)
  {
    var low := Low(r, IdxDo, b.value, wid);
    PartIsBitSelects(r, v, IdxDo, b.value, wid);
    var spec, got := BitSelects(r, v, IdxDo, b.value, wid), ReadValue(ReadDo(r, b, wid), v);
    if r.msb == r.lsb {
      var base := b.value - r.lsb;
      assert low == base - wid + 1 && ReadDo(r, b, wid) == ReadPart(base, wid);
      assert forall k | 0 <= k < wid :: got[k] == BitAt(v, base + k) && spec[k] == BitAt(v, low + k);
      if base > 0 {
        assert spec[wid - 1 - base] == V0 && got[wid - 1 - base] == Vx;
      } else if base == 0 {
        assert spec[0] == Vx && got[0] == V0;
      } else {
        assert got[-base] == V0 && spec[-base] == Vx;
      }
    } else {
      assert got[1] == V0;
      assert spec[1] == BitAt(v, low + 1) == Vx;
    }
  }

  /** A `-:` read gives the concatenated bit selects of every vector, unless it is one of those. */
  lemma ReadDoExact(r: Range, b: Base, wid: nat)
    requires Placeable(b) && wid >= 1
    ensures (forall v | |v| == Width(r) :: ReadValue(ReadDo(r, b, wid), v) == BitSelects(r, v, IdxDo, b.value, wid))
       <==> !DoReadIsOff(r, b.value, wid)
  {
    if DoReadIsOff(r, b.value, wid) {
      OffReadShows(r, Fill(V0, Width(r)), b, wid);
    } else {
      forall v | |v| == Width(r)
        ensures ReadValue(ReadDo(r, b, wid), v) == BitSelects(r, v, IdxDo, b.value, wid)
      {
        PartIsBitSelects(r, v, IdxDo, b.value, wid);
        var base := DoBase(r, b.value, wid);
        if r.msb == r.lsb && wid > 1 {
          OffVector(v, base, wid);
          OffVector(v, Low(r, IdxDo, b.value, wid), wid);
        } else {
          assert base == Low(r, IdxDo, b.value, wid);
          if ReadDo(r, b, wid).WholeNet? { assert ReadValue(ReadPart(0, 1), v) == v; }
        }
      }
    }
  }

  /** A bit select reads the bit, and `[m:l]` in order is the `+:` or `-:` from its ends. */
  lemma ReadBitIsBit(r: Range, v: Vec, i: int)
    requires |v| == Width(r)
    ensures ReadValue(ReadBit(r, i), v) == [BitAt(v, SbToIdx(r, i))]
  {
  }

  lemma ReadRangeIsBitSelects(r: Range, v: Vec, m: int, l: int)
    requires |v| == Width(r)
    ensures ReadRange(r, m, l).OutOfOrder? <==> if Descending(r) then m < l else l < m
    ensures !ReadRange(r, m, l).OutOfOrder? ==>
      ReadValue(ReadRange(r, m, l), v)
      == if Descending(r) then BitSelects(r, v, IdxUp, l, m - l + 1) else BitSelects(r, v, IdxUp, m, l - m + 1)
  {
    if !ReadRange(r, m, l).OutOfOrder? {
      var low, wid := if Descending(r) then l else m, if Descending(r) then m - l + 1 else l - m + 1;
      PartIsBitSelects(r, v, IdxUp, low, wid);
      assert Low(r, IdxUp, low, wid) == SbToIdx(r, l);
      var part := ReadValue(ReadPart(SbToIdx(r, l), wid), v);
      if ReadRange(r, m, l).WholeNet? { assert part == v; }
      if ReadRange(r, m, l).ReadX? { OffVector(v, SbToIdx(r, l), wid); }
    }
  }

  /** A read that selects no place is x in every bit. */
  lemma UnplacedReadsX(r: Range, dir: Dir, v: Vec, b: Base, wid: nat)
    requires !Placeable(b)
    ensures ReadValue(ReadIdx(r, dir, b, wid), v) == Fill(Vx, wid)
  {
  }
}
