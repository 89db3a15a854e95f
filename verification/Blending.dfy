/** Blending the part selects that drive one nexus into a concatenation. */
module Blending {
  import opened Vectors
  import opened Netlists
  import opened NetlistSteps

  // ----- ordered parts and the pins they need -----

  /** Part selects in order: each starts where the one before ends or later, and the
      last ends within the target. */
  predicate Stacked(parts: seq<Node>, off: nat, width: nat) {
    if parts == [] then off <= width
    else parts[0].PartPV? && off <= parts[0].base && Stacked(parts[1..], parts[0].base + parts[0].width, width)
  }

  datatype Piece = Gap(n: nat) | Wire(inp: NexusId, n: nat)

  /** The pieces for one part: its gap, if there is one, and its input. */
  function PartPieces(p: Node, off: nat): seq<Piece>
    requires p.PartPV?
  {
    (if p.base > off then [Gap(p.base - off)] else []) + [Wire(p.inp, p.width)]
  }

  /** The pins of the concatenation, least significant first. */
  function Pieces(parts: seq<Node>, off: nat, width: nat): seq<Piece>
    requires Stacked(parts, off, width)
  {
    if parts == [] then (if off < width then [Gap(width - off)] else [])
    else PartPieces(parts[0], off) + Pieces(parts[1..], parts[0].base + parts[0].width, width)
  }

  function PieceWidth(pieces: seq<Piece>): nat {
    if pieces == [] then 0 else pieces[0].n + PieceWidth(pieces[1..])
  }

  lemma {:induction false} PieceWidthOfSum(a: seq<Piece>, b: seq<Piece>)
    ensures PieceWidth(a + b) == PieceWidth(a) + PieceWidth(b)
  {
    if a == [] { assert a + b == b; } else {
      assert (a + b)[1..] == a[1..] + b;
      PieceWidthOfSum(a[1..], b);
    }
  }

  /** The part widths and the gaps add up to the target width. */
  lemma {:induction false} PiecesCoverTarget(parts: seq<Node>, off: nat, width: nat)
    requires Stacked(parts, off, width)
    ensures off <= width && PieceWidth(Pieces(parts, off, width)) == width - off
  {
    if parts != [] {
      var p, rest := parts[0], Pieces(parts[1..], parts[0].base + parts[0].width, width);
      PiecesCoverTarget(parts[1..], p.base + p.width, width);
      var gap := if p.base > off then [Gap(p.base - off)] else [];
      PieceWidthOfSum(PartPieces(p, off), rest);
      PieceWidthOfSum(gap, [Wire(p.inp, p.width)]);
    }
  }

  predicate Disjoint(p: Node, q: Node)
    requires p.PartPV? && q.PartPV?
  {
    p.base + p.width <= q.base || q.base + q.width <= p.base
  }

  predicate Sorted(parts: seq<Node>)
    requires forall p | p in parts :: p.PartPV?
  {
    forall i, j | 0 <= i < j < |parts| :: parts[i].base <= parts[j].base
  }

  /** What the checks on the sorted list establish: adjacent parts do not overlap and
      the last one ends in range, exactly when all parts are pairwise disjoint and in range. */
  lemma {:induction false} ChecksMeanDisjoint(parts: seq<Node>, width: nat)
    requires forall p | p in parts :: p.PartPV? && p.width >= 1
    requires Sorted(parts)
    ensures (forall i | 0 < i < |parts| :: parts[i - 1].base + parts[i - 1].width <= parts[i].base)
       <==> forall i, j | 0 <= i < j < |parts| :: Disjoint(parts[i], parts[j])
    ensures (forall i | 0 < i < |parts| :: parts[i - 1].base + parts[i - 1].width <= parts[i].base)
      && (parts != [] ==> parts[|parts| - 1].base + parts[|parts| - 1].width <= width)
      ==> forall p | p in parts :: p.base + p.width <= width
  {
    if forall i | 0 < i < |parts| :: parts[i - 1].base + parts[i - 1].width <= parts[i].base {
      forall i, j | 0 <= i < j < |parts| ensures Disjoint(parts[i], parts[j]) {
        assert parts[i].base + parts[i].width <= parts[i + 1].base <= parts[j].base;
      }
      forall p | p in parts && parts[|parts| - 1].base + parts[|parts| - 1].width <= width
        ensures p.base + p.width <= width
      {
        var i :| 0 <= i < |parts| && p == parts[i];
        if i < |parts| - 1 { assert p.base + p.width <= parts[i + 1].base <= parts[|parts| - 1].base; }
      }
    }
    if forall i, j | 0 <= i < j < |parts| :: Disjoint(parts[i], parts[j]) {
      forall i | 0 < i < |parts| ensures parts[i - 1].base + parts[i - 1].width <= parts[i].base {
        assert Disjoint(parts[i - 1], parts[i]) && parts[i - 1] in parts && parts[i] in parts;
      }
    }
  }

  lemma {:induction false} ChecksMeanStacked(parts: seq<Node>, off: nat, width: nat)
    requires forall p | p in parts :: p.PartPV?
    requires forall i | 0 < i < |parts| :: parts[i - 1].base + parts[i - 1].width <= parts[i].base
    requires parts != [] ==> off <= parts[0].base && parts[|parts| - 1].base + parts[|parts| - 1].width <= width
    requires off <= width
    ensures Stacked(parts, off, width)
  {
    if parts != [] {
      var rest := parts[1..];
      if rest == [] {
        assert Stacked(rest, parts[0].base + parts[0].width, width);
      } else {
        assert parts[0].base + parts[0].width <= parts[1].base;
        forall i | 0 < i < |rest| ensures rest[i - 1].base + rest[i - 1].width <= rest[i].base {
          assert rest[i] == parts[i + 1] && rest[i - 1] == parts[i];
        }
        assert rest[|rest| - 1] == parts[|parts| - 1];
        BaseBelowTop(parts, width);
        ChecksMeanStacked(rest, parts[0].base + parts[0].width, width);
      }
    }
  }

  lemma {:induction false} BaseBelowTop(parts: seq<Node>, width: nat)
    requires forall p | p in parts :: p.PartPV?
    requires forall i | 0 < i < |parts| :: parts[i - 1].base + parts[i - 1].width <= parts[i].base
    requires parts != [] && parts[|parts| - 1].base + parts[|parts| - 1].width <= width
    ensures parts[0].base + parts[0].width <= width
  {
    if |parts| > 1 {
      var init := parts[..|parts| - 1];
      assert parts[|parts| - 2].base + parts[|parts| - 2].width <= parts[|parts| - 1].base;
      BaseBelowTop(init, width);
    }
  }

  // ----- the bits of the concatenation -----

  /** Bit `i` of the target: from the part that covers it, or the fill value. */
  function CoverBit(parts: seq<Node>, val: Valuation, fill: Bit, i: nat): Bit
    requires forall p | p in parts :: p.PartPV? && p.inp in val
  {
    if parts == [] then fill
    else if parts[0].base <= i < parts[0].base + |val[parts[0].inp]| then val[parts[0].inp][i - parts[0].base]
    else CoverBit(parts[1..], val, fill, i)
  }

  ghost predicate PartsOk(parts: seq<Node>, val: Valuation) {
    forall p | p in parts :: p.PartPV? && p.inp in val && |val[p.inp]| == p.width
  }

  lemma {:induction false} UncoveredBelow(parts: seq<Node>, val: Valuation, fill: Bit, off: nat, width: nat, i: nat)
    requires PartsOk(parts, val) && Stacked(parts, off, width) && i < off
    ensures CoverBit(parts, val, fill, i) == fill
  {
    if parts != [] { UncoveredBelow(parts[1..], val, fill, parts[0].base + parts[0].width, width, i); }
  }

  /** Resolving the original part selects gives the covering part's bit: the others
      drive z there. */
  lemma {:induction false} CoverIsResolution(parts: seq<Node>, val: Valuation, off: nat, width: nat, i: nat, b: Bit)
    requires PartsOk(parts, val) && Stacked(parts, off, width) && b != Vz
    ensures CoverBit(parts, val, Vz, i) == b
       <==> exists k :: 0 <= k < |parts| && Placed(val[parts[k].inp], parts[k].base, i) == b
  {
    if parts != [] {
      var p, rest := parts[0], parts[1..];
      CoverIsResolution(rest, val, p.base + p.width, width, i, b);
      if p.base <= i < p.base + p.width {
        UncoveredBelow(rest, val, Vz, p.base + p.width, width, i);
        assert Placed(val[p.inp], p.base, i) == val[p.inp][i - p.base];
      }
      if k :| 0 <= k < |rest| && Placed(val[rest[k].inp], rest[k].base, i) == b {
        assert parts[k + 1] == rest[k];
      }
      if k :| 0 <= k < |parts| && Placed(val[parts[k].inp], parts[k].base, i) == b {
        if k > 0 { assert rest[k - 1] == parts[k]; }
      }
    }
  }

  function PieceBits(pieces: seq<Piece>, val: Valuation, fill: Bit): Vec
    requires forall p | p in pieces :: p.Wire? ==> p.inp in val
  {
    if pieces == [] then []
    else (if pieces[0].Gap? then Fill(fill, pieces[0].n) else val[pieces[0].inp]) + PieceBits(pieces[1..], val, fill)
  }

  lemma {:induction false} PieceBitsOfSum(a: seq<Piece>, b: seq<Piece>, val: Valuation, fill: Bit)
    requires forall p | p in a :: p.Wire? ==> p.inp in val
    requires forall p | p in b :: p.Wire? ==> p.inp in val
    ensures PieceBits(a + b, val, fill) == PieceBits(a, val, fill) + PieceBits(b, val, fill)
  {
    if a == [] { assert a + b == b; } else {
      assert (a + b)[1..] == a[1..] + b;
      PieceBitsOfSum(a[1..], b, val, fill);
    }
  }

  lemma {:induction false} WiresOk(parts: seq<Node>, val: Valuation, off: nat, width: nat)
    requires PartsOk(parts, val) && Stacked(parts, off, width)
    ensures forall p | p in Pieces(parts, off, width) :: p.Wire? ==> p.inp in val && |val[p.inp]| == p.n
  {
    if parts != [] { WiresOk(parts[1..], val, parts[0].base + parts[0].width, width); }
  }

  lemma {:induction false} PieceBitsOfFront(front: seq<Piece>, rest: seq<Piece>, val: Valuation, fill: Bit)
    requires forall p | p in front + rest :: p.Wire? ==> p.inp in val
    ensures (forall p | p in front :: p.Wire? ==> p.inp in val) && (forall p | p in rest :: p.Wire? ==> p.inp in val)
    ensures PieceBits(front + rest, val, fill) == PieceBits(front, val, fill) + PieceBits(rest, val, fill)
  {
    assert forall p | p in front :: p in front + rest;
    assert forall p | p in rest :: p in front + rest;
    PieceBitsOfSum(front, rest, val, fill);
  }

  lemma PartBits(p: Node, off: nat, val: Valuation, fill: Bit)
    requires p.PartPV? && p.inp in val && off <= p.base
    ensures PieceBits(PartPieces(p, off), val, fill) == Fill(fill, p.base - off) + val[p.inp]
  {
    var wire := [Wire(p.inp, p.width)];
    assert PieceBits(wire, val, fill) == val[p.inp] + PieceBits([], val, fill);
    if p.base > off {
      var gap := [Gap(p.base - off)];
      assert (gap + wire)[1..] == wire;
    } else {
      assert [] + wire == wire;
    }
  }

  lemma PieceBitsWithPart(p: Node, off: nat, rest: seq<Piece>, val: Valuation, fill: Bit)
    requires p.PartPV? && p.inp in val && off <= p.base
    requires forall q | q in PartPieces(p, off) + rest :: q.Wire? ==> q.inp in val
    ensures forall q | q in rest :: q.Wire? ==> q.inp in val
    ensures PieceBits(PartPieces(p, off) + rest, val, fill)
         == Fill(fill, p.base - off) + val[p.inp] + PieceBits(rest, val, fill)
  {
    PieceBitsOfFront(PartPieces(p, off), rest, val, fill);
    PartBits(p, off, val, fill);
  }

  lemma PieceBitsStep(parts: seq<Node>, val: Valuation, fill: Bit, off: nat, width: nat)
    requires PartsOk(parts, val) && Stacked(parts, off, width) && parts != []
    requires forall p | p in Pieces(parts, off, width) :: p.Wire? ==> p.inp in val
    ensures var p := parts[0];
      var rest := Pieces(parts[1..], p.base + p.width, width);
      && (forall q | q in rest :: q.Wire? ==> q.inp in val)
      && PieceBits(Pieces(parts, off, width), val, fill)
         == Fill(fill, p.base - off) + val[p.inp] + PieceBits(rest, val, fill)
  {
    var p := parts[0];
    var rest := Pieces(parts[1..], p.base + p.width, width);
    assert Pieces(parts, off, width) == PartPieces(p, off) + rest;
    PieceBitsWithPart(p, off, rest, val, fill);
  }

  lemma ThreeParts(a: Vec, b: Vec, c: Vec, j: nat)
    requires j < |a| + |b| + |c|
    ensures (a + b + c)[j] == if j < |a| then a[j] else if j < |a| + |b| then b[j - |a|] else c[j - |a| - |b|]
  {
  }

  lemma {:induction false} PieceBitsLength(parts: seq<Node>, val: Valuation, fill: Bit, off: nat, width: nat)
    requires PartsOk(parts, val) && Stacked(parts, off, width)
    requires forall p | p in Pieces(parts, off, width) :: p.Wire? ==> p.inp in val
    ensures off <= width && |PieceBits(Pieces(parts, off, width), val, fill)| == width - off
  {
    if parts != [] {
      PieceBitsStep(parts, val, fill, off, width);
      PieceBitsLength(parts[1..], val, fill, parts[0].base + parts[0].width, width);
    }
  }

  /** Bit `i` of gap, part and rest, when the rest spells what it covers. */
  lemma PieceBitAt(parts: seq<Node>, val: Valuation, fill: Bit, off: nat, width: nat, tail: Vec, i: nat)
    requires PartsOk(parts, val) && Stacked(parts, off, width) && parts != [] && off <= i < width
    requires var top := parts[0].base + parts[0].width;
      |tail| == width - top && (i >= top ==> tail[i - top] == CoverBit(parts[1..], val, fill, i))
    ensures (Fill(fill, parts[0].base - off) + val[parts[0].inp] + tail)[i - off] == CoverBit(parts, val, fill, i)
  {
    var p, top := parts[0], parts[0].base + parts[0].width;
    ThreeParts(Fill(fill, p.base - off), val[p.inp], tail, i - off);
    if i < p.base { UncoveredBelow(parts[1..], val, fill, top, width, i); }
  }

  lemma TailLength(parts: seq<Node>, val: Valuation, fill: Bit, off: nat, width: nat)
    requires PartsOk(parts, val) && Stacked(parts, off, width) && parts != []
    requires var top := parts[0].base + parts[0].width;
      forall p | p in Pieces(parts[1..], top, width) :: p.Wire? ==> p.inp in val
    ensures var top := parts[0].base + parts[0].width;
      top <= width && |PieceBits(Pieces(parts[1..], top, width), val, fill)| == width - top
  {
    PieceBitsLength(parts[1..], val, fill, parts[0].base + parts[0].width, width);
  }

  /** The pins in order spell the covered target, bit by bit. */
  lemma {:induction false} PiecesSpellCover(parts: seq<Node>, val: Valuation, fill: Bit, off: nat, width: nat, i: nat)
    requires PartsOk(parts, val) && Stacked(parts, off, width) && off <= i < width
    requires forall p | p in Pieces(parts, off, width) :: p.Wire? ==> p.inp in val
    ensures |PieceBits(Pieces(parts, off, width), val, fill)| == width - off
    ensures PieceBits(Pieces(parts, off, width), val, fill)[i - off] == CoverBit(parts, val, fill, i)
  {
    PieceBitsLength(parts, val, fill, off, width);
    if parts != [] {
      var top := parts[0].base + parts[0].width;
      PieceBitsStep(parts, val, fill, off, width);
      var tail := PieceBits(Pieces(parts[1..], top, width), val, fill);
      TailLength(parts, val, fill, off, width);
      if i >= top { PiecesSpellCover(parts[1..], val, fill, top, width, i); }
      PieceBitAt(parts, val, fill, off, width, tail, i);
    }
  }
}
