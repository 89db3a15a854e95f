/** Constant selects of parameters: the bit select, and the loop that builds the part and
    indexed part selects. */
module ParamSelects {
  import opened Vectors
  import opened Selects

  /** A parameter value that is not a string; one without a length extends for ever. */
  datatype Param = Param(value: Vec, sized: bool, signed: bool, range: Range)

  predicate Usable(p: Param) {
    |p.value| > 0
  }

  function SignBit(p: Param): Bit
    requires Usable(p)
  {
    if p.signed then p.value[|p.value| - 1] else V0
  }

  /** `elaborate_expr_param_bit_` for a defined index. */
  function ParamBit(p: Param, i: int): Bit
    requires Usable(p)
  {
    var sel := if p.range.msb >= p.range.lsb then i - p.range.lsb else p.range.lsb - i;
    if 0 <= sel < |p.value| then p.value[sel]
    else if sel >= 0 && !p.sized then (if p.signed then p.value[|p.value| - 1] else V0)
    else Vx
  }

  /** Bit `off` of the value from its canonical end. */
  function FarBit(p: Param, off: int): Bit
    requires Usable(p)
  {
    if off < 0 then Vx
    else if off < |p.value| then p.value[off]
    else if p.sized then Vx
    else SignBit(p)
  }

  /** `param_part_select_bits`. */
  method PartSelectBits(p: Param, wid: nat, lsv: int) returns (result: Vec)
    requires Usable(p)
    ensures |result| == wid && forall k | 0 <= k < wid :: result[k] == FarBit(p, lsv + k)
  {
    result := Fill(Vx, wid);
    var idx := 0;
    while idx < wid
      invariant 0 <= idx <= wid && |result| == wid
      invariant forall k | 0 <= k < idx :: result[k] == FarBit(p, lsv + k)
      invariant forall k | idx <= k < wid :: result[k] == Vx
    {
      var off := idx + lsv;
      if off < 0 {
      } else if off < |p.value| {
        result := result[idx := p.value[off]];
      } else if p.sized {
      } else {
        result := result[idx := SignBit(p)];
      }
      idx := idx + 1;
    }
  }

  lemma BitIsFarBit(p: Param, i: int)
    requires Usable(p)
    ensures ParamBit(p, i) == FarBit(p, SbToIdx(p.range, i))
  {
  }

  /** A parameter reads as its value at its declared indices; past its left end one with a
      length is x and one without is extended, as far as any width `w` goes; below its right
      end it is x. */
  lemma ParamBitExactly(p: Param, i: int, w: nat)
    requires Usable(p) && |p.value| <= w && SbToIdx(p.range, i) < w
    ensures var k := SbToIdx(p.range, i);
      ParamBit(p, i)
      == if k < 0 || (p.sized && k >= |p.value|) then Vx else Resize(p.value, w, p.signed)[k]
  {
  }

  /** `elaborate_expr_param_part_` for defined `[m:l]`. In order, the result spells the bit
      selects from `l` to `m`. */
  method ParamPart(p: Param, m: int, l: int) returns (ok: bool, result: Vec)
    requires Usable(p)
    ensures ok <==> if Descending(p.range) then l <= m else m <= l
    ensures ok ==> |result| == 1 + (if m >= l then m - l else l - m)
    ensures ok ==> forall k | 0 <= k < |result| ::
                     result[k] == ParamBit(p, if Descending(p.range) then l + k else l - k)
  {
    var msb, lsb := p.range.msb, p.range.lsb;
    if (m > l && msb < lsb) || (m < l && msb >= lsb) { return false, []; }
    var wid := 1 + if m >= l then m - l else l - m;
    var base := if msb < lsb then lsb - l else l - lsb;
    result := PartSelectBits(p, wid, base);
    ok := true;
  }

  /** The single-bit select at bit `k` of an indexed select; an undefined index reads x. */
  function BitOfSelect(p: Param, dir: Dir, b: Base, wid: nat, k: int): Bit
    requires Usable(p)
  {
    if b.BaseX? then Vx else ParamBit(p, IndexOf(p.range, dir, b.value, wid, k))
  }

  /** `elaborate_expr_param_idx_up_`: bit by bit the single-bit selects, in or out of range. */
  method ParamIdxUp(p: Param, b: Base, wid: nat) returns (result: Vec)
    requires Usable(p) && wid >= 1
    ensures |result| == wid
    ensures forall k | 0 <= k < wid :: result[k] == BitOfSelect(p, IdxUp, b, wid, k)
  {
    if b.BaseX? { return Fill(Vx, wid); }
    var lsv, parBase := b.value, p.range.lsb;
    if p.range.msb < p.range.lsb {
      parBase := lsv;
      lsv := p.range.lsb - wid + 1;
    }
    result := PartSelectBits(p, wid, lsv - parBase);
  }

  /** `elaborate_expr_param_idx_do_`: likewise. */
  method ParamIdxDo(p: Param, b: Base, wid: nat) returns (result: Vec)
    requires Usable(p) && wid >= 1
    ensures |result| == wid
    ensures forall k | 0 <= k < wid :: result[k] == BitOfSelect(p, IdxDo, b, wid, k)
  {
    if b.BaseX? { return Fill(Vx, wid); }
    var lsv, parBase := b.value, p.range.lsb + wid - 1;
    if p.range.msb < p.range.lsb {
      parBase := lsv;
      lsv := p.range.lsb;
    }
    result := PartSelectBits(p, wid, lsv - parBase);
  }

  /** A sized parameter as wide as its range reads, bit for bit, like a net. */
  lemma SizedReadsLikeNet(p: Param, dir: Dir, b: int, wid: nat)
    requires Usable(p) && p.sized && |p.value| == Width(p.range)
    ensures |BitSelects(p.range, p.value, dir, b, wid)| == wid
    ensures forall k | 0 <= k < wid ::
      BitSelects(p.range, p.value, dir, b, wid)[k] == ParamBit(p, IndexOf(p.range, dir, b, wid, k))
  {
    forall k | 0 <= k < wid
      ensures BitSelects(p.range, p.value, dir, b, wid)[k] == ParamBit(p, IndexOf(p.range, dir, b, wid, k))
    {
      BitIsFarBit(p, IndexOf(p.range, dir, b, wid, k));
    }
  }
}
