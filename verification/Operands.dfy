/** The bit-field layouts the assembler packs instruction operands into. */
module Operands {
  import opened Binary

  /** `width` bits starting at bit `shift` of the payload. */
  datatype Field = Field(width: nat, shift: nat) {
    predicate Covers(i: nat) {
      shift <= i < shift + width
    }
  }

  type Layout = seq<Field>

  const HALVES: Layout := [Field(16, 0), Field(16, 16)]
  const BYTES_AND_HALF: Layout := [Field(8, 0), Field(8, 8), Field(16, 16)]
  const HALF_AND_BYTES: Layout := [Field(16, 0), Field(8, 16), Field(8, 24)]
  const BYTES: Layout := [Field(8, 0), Field(8, 8), Field(8, 16), Field(8, 24)]
  const BYTE_AND_KEY: Layout := [Field(8, 0), Field(16, 8)]
  /** What the four-operand 2-hop walk is written with: the first relation is masked to sixteen bits. */
  const TWO_HOP: Layout := [Field(8, 0), Field(16, 8), Field(16, 16)]

  ghost predicate Disjoint(layout: Layout) {
    forall j, k, i: nat :: 0 <= j < k < |layout| && layout[j].Covers(i) ==> !layout[k].Covers(i)
  }

  ghost predicate Fits(values: seq<int>, layout: Layout) {
    |values| == |layout| && forall j :: 0 <= j < |layout| ==> 0 <= values[j] < Pow2(layout[j].width)
  }

  function Place(value: int, f: Field): nat {
    ShiftLeft(LowBits(value, f.width), f.shift)
  }

  function Pack(values: seq<int>, layout: Layout): nat
    requires |values| == |layout|
  {
    if layout == [] then 0
    else
      var n := |layout| - 1;
      BitOr(Pack(values[..n], layout[..n]), Place(values[n], layout[n]))
  }

  /** `payload |= ((value & mask) << shift)`, operand by operand. */
  method PackOperands(values: seq<int>, layout: Layout) returns (payload: nat)
    requires |values| == |layout|
    ensures payload == Pack(values, layout)
  {
    payload := 0;
    for n := 0 to |layout|
      invariant payload == Pack(values[..n], layout[..n])
    {
      assert values[..n + 1][..n] == values[..n] && layout[..n + 1][..n] == layout[..n];
      payload := BitOr(payload, Place(values[n], layout[n]));
    }
    assert values[..|layout|] == values && layout[..|layout|] == layout;
  }

  function Extract(payload: nat, f: Field): nat {
    LowBits(ShiftRight(payload, f.shift), f.width)
  }

  function Unpack(payload: nat, layout: Layout): (values: seq<nat>)
    ensures |values| == |layout|
  {
    seq(|layout|, (j: nat) requires j < |layout| => Extract(payload, layout[j]))
  }

  // ---- Bits of packed payloads ----

  lemma {:induction false} BitOfPlace(value: int, f: Field, i: nat)
    ensures Bit(Place(value, f), i) <==> f.Covers(i) && Bit(value, i - f.shift)
  {
    BitOfShiftLeft(LowBits(value, f.width), f.shift, i);
    if i >= f.shift {
      BitOfLow(value, f.width, i - f.shift);
    }
  }

  lemma {:induction false} BitOfExtract(payload: nat, f: Field, i: nat)
    ensures Bit(Extract(payload, f), i) <==> i < f.width && Bit(payload, i + f.shift)
  {
    BitOfLow(ShiftRight(payload, f.shift), f.width, i);
    BitOfShiftRight(payload, f.shift, i);
  }

  /** Operand j sets bit i of the payload. */
  predicate Sets(values: seq<int>, layout: Layout, j: nat, i: nat)
    requires |values| == |layout|
  {
    j < |layout| && layout[j].Covers(i) && Bit(values[j], i - layout[j].shift)
  }

  lemma {:induction false} BitOfPack(values: seq<int>, layout: Layout, i: nat)
    requires |values| == |layout|
    ensures Bit(Pack(values, layout), i) <==> exists j: nat :: Sets(values, layout, j, i)
  {
    if layout == [] {
      BitOfZero(i);
    } else {
      var n := |layout| - 1;
      BitOfPack(values[..n], layout[..n], i);
      BitOfPlace(values[n], layout[n], i);
      BitOfOr(Pack(values[..n], layout[..n]), Place(values[n], layout[n]), i);
      forall j: nat | j < n ensures Sets(values, layout, j, i) == Sets(values[..n], layout[..n], j, i) {
      }
      assert Sets(values, layout, n, i) <==> Bit(Place(values[n], layout[n]), i);
    }
  }

  // ---- Round trips ----

  /** A field is known by the payload bits it covers. */
  lemma {:induction false} ExtractIs(payload: nat, f: Field, v: int)
    requires forall i: nat :: i < f.width ==> Bit(payload, i + f.shift) == Bit(v, i)
    ensures Extract(payload, f) == LowBits(v, f.width)
  {
    var low := LowBits(v, f.width);
    forall i: nat ensures Bit(Extract(payload, f), i) == Bit(low, i) {
      BitOfExtract(payload, f, i);
      BitOfLow(v, f.width, i);
    }
    SameBits(Extract(payload, f), low);
  }

  /** In a layout without overlaps every field reads back what was written, cut to its width. */
  lemma {:induction false} ExtractPacked(values: seq<int>, layout: Layout, j: nat)
    requires |values| == |layout| && j < |layout| && Disjoint(layout)
    ensures Extract(Pack(values, layout), layout[j]) == LowBits(values[j], layout[j].width)
  {
    var payload, f := Pack(values, layout), layout[j];
    forall i: nat | i < f.width ensures Bit(payload, i + f.shift) == Bit(values[j], i) {
      var at := i + f.shift;
      BitOfPack(values, layout, at);
      assert f.Covers(at) && (Sets(values, layout, j, at) <==> Bit(values[j], i));
      assert forall k: nat :: Sets(values, layout, k, at) ==> k == j;
    }
    ExtractIs(payload, f, values[j]);
  }

  /** Operands survive packing exactly when each fits its field. */
  lemma {:induction false} PackRoundTrip(values: seq<int>, layout: Layout)
    requires |values| == |layout| && Disjoint(layout)
    ensures Unpack(Pack(values, layout), layout) == values <==> Fits(values, layout)
  {
    var back := Unpack(Pack(values, layout), layout);
    forall j | 0 <= j < |layout| ensures back[j] == values[j] <==> 0 <= values[j] < Pow2(layout[j].width) {
      ExtractPacked(values, layout, j);
      LowBitsBound(values[j], layout[j].width);
    }
  }

  lemma {:induction false} Unpacked(values: seq<nat>, layout: Layout, payload: nat)
    requires Fits(values, layout) && Disjoint(layout) && payload == Pack(values, layout)
    ensures Unpack(payload, layout) == values
  {
    PackRoundTrip(values, layout);
  }

  /** An overlap is exactly what breaks the round trip for operands that do fit. */
  lemma {:induction false} DisjointIsNecessary(layout: Layout)
    ensures Disjoint(layout) <==>
            forall values: seq<int> :: Fits(values, layout) ==> Unpack(Pack(values, layout), layout) == values
  {
    if Disjoint(layout) {
      forall values: seq<int> | Fits(values, layout) ensures Unpack(Pack(values, layout), layout) == values {
        PackRoundTrip(values, layout);
      }
    } else {
      var j, k, i: nat :| 0 <= j < k < |layout| && layout[j].Covers(i) && layout[k].Covers(i);
      OverlapLosesOperand(layout, j, k, i);
    }
  }

  lemma {:induction false} OverlapLosesOperand(layout: Layout, j: nat, k: nat, i: nat)
    requires j < k < |layout| && layout[j].Covers(i) && layout[k].Covers(i)
    ensures exists values: seq<int> :: Fits(values, layout) && Unpack(Pack(values, layout), layout) != values
  {
    var s := i - layout[j].shift;
    var values := seq(|layout|, (m: nat) => if m == j then ShiftLeft(1, s) else 0);
    forall m | 0 <= m < |layout| ensures 0 <= values[m] < Pow2(layout[m].width) {
      PowPositive(layout[m].width);
      if m == j {
        OneBit(s, layout[j].width);
      }
    }
    BitOfShiftLeft(1, s, s);
    LeaksInto(values, layout, j, k, i);
    assert Unpack(Pack(values, layout), layout)[k] != values[k];
  }

  /** A bit operand j sets inside field k is read as part of operand k. */
  lemma {:induction false} LeaksInto(values: seq<int>, layout: Layout, j: nat, k: nat, i: nat)
    requires |values| == |layout| && k < |layout| && layout[k].Covers(i) && values[k] == 0
    requires Sets(values, layout, j, i)
    ensures Extract(Pack(values, layout), layout[k]) != 0
  {
    BitOfPack(values, layout, i);
    BitOfExtract(Pack(values, layout), layout[k], i - layout[k].shift);
    BitOfZero(i - layout[k].shift);
  }

  lemma {:induction false} OneBit(s: nat, w: nat)
    requires s < w
    ensures ShiftLeft(1, s) < Pow2(w)
  {
    if s > 0 {
      OneBit(s - 1, w - 1);
    } else {
      PowPositive(w - 1);
    }
  }

  lemma {:induction false} PowPositive(n: nat)
    ensures Pow2(n) >= 1
  {
    if n > 0 {
      PowPositive(n - 1);
    }
  }

  /** A payload whose fields end by bit n is below 2^n: masking it with 0xFFFFFFFF changes nothing. */
  lemma {:induction false} PackBound(values: seq<int>, layout: Layout, n: nat)
    requires |values| == |layout|
    requires forall j :: 0 <= j < |layout| ==> layout[j].shift + layout[j].width <= n
    ensures Pack(values, layout) < Pow2(n)
  {
    var p := Pack(values, layout);
    forall i: nat ensures Bit(LowBits(p, n), i) == Bit(p, i) {
      BitOfLow(p, n, i);
      BitOfPack(values, layout, i);
    }
    SameBits(LowBits(p, n), p);
    LowBitsBound(p, n);
  }

  lemma DocumentedLayouts()
    ensures Disjoint(HALVES) && Disjoint(BYTES_AND_HALF) && Disjoint(HALF_AND_BYTES) && Disjoint(BYTES)
    ensures Disjoint(BYTE_AND_KEY) && !Disjoint(TWO_HOP)
  {
    assert TWO_HOP[1].Covers(16) && TWO_HOP[2].Covers(16);
  }

  lemma {:induction false} OrSymmetric(x: nat, y: nat)
    ensures BitOr(x, y) == BitOr(y, x)
    decreases x + y
  {
    if x + y > 0 {
      OrSymmetric(x / 2, y / 2);
    }
  }

  // ---- Packed payloads as sums ----

  /** Or-ing above the bits in use is adding. */
  lemma {:induction false} OrIsSum(x: nat, y: nat, s: nat)
    requires x < Pow2(s)
    ensures BitOr(x, ShiftLeft(y, s)) == x + y * Pow2(s)
  {
    if s == 0 {
      OrZero(y);
      OrSymmetric(0, y);
    } else {
      OrIsSum(x / 2, y, s - 1);
      DoubledFactor(y, Pow2(s - 1));
      assert ShiftLeft(y, s) / 2 == ShiftLeft(y, s - 1);
    }
  }

  /** Fields in ascending order, each starting where the one before it ends or later. */
  predicate Stacked(layout: Layout) {
    forall j, k :: 0 <= j < k < |layout| ==> layout[j].shift + layout[j].width <= layout[k].shift
  }

  /** Each operand times the weight of its field's lowest bit. */
  ghost function Weighted(values: seq<nat>, layout: Layout): nat
    requires |values| == |layout|
  {
    if layout == [] then 0
    else
      var n := |layout| - 1;
      Weighted(values[..n], layout[..n]) + values[n] * Pow2(layout[n].shift)
  }

  /** Fitting operands of a layout in ascending order add up. */
  lemma {:induction false} PackIsSum(values: seq<nat>, layout: Layout)
    requires Fits(values, layout) && Stacked(layout)
    ensures Pack(values, layout) == Weighted(values, layout)
  {
    if layout != [] {
      var n := |layout| - 1;
      PackIsSum(values[..n], layout[..n]);
      PackBound(values[..n], layout[..n], layout[n].shift);
      LowBitsBound(values[n], layout[n].width);
      OrIsSum(Pack(values[..n], layout[..n]), values[n], layout[n].shift);
    }
  }

  lemma {:induction false} PackTwo(a: nat, b: nat, f: Field, g: Field)
    requires Fits([a, b], [f, g]) && f.shift == 0 && f.width <= g.shift
    ensures Pack([a, b], [f, g]) == a + b * Pow2(g.shift)
  {
    PackIsSum([a, b], [f, g]);
    assert [a, b][..1] == [a] && [f, g][..1] == [f] && [a][..0] == [] && [f][..0] == [];
    assert Weighted([a], [f]) == a * Pow2(0);
  }

  lemma {:induction false} PackOneMore(values: seq<nat>, layout: Layout, v: nat, f: Field)
    requires Fits(values + [v], layout + [f]) && Stacked(layout + [f]) && Fits(values, layout) && Stacked(layout)
    ensures Pack(values + [v], layout + [f]) == Pack(values, layout) + v * Pow2(f.shift)
  {
    PackIsSum(values + [v], layout + [f]);
    PackIsSum(values, layout);
    assert (values + [v])[..|values|] == values && (layout + [f])[..|layout|] == layout;
  }

  /** The documented two-operand layouts, as numbers. */
  lemma PairLayouts(a: nat, b: nat)
    requires b < 0x1_0000
    ensures a < 0x1_0000 ==> Pack([a, b], HALVES) == a + b * 0x1_0000
    ensures a < 0x100 ==> Pack([a, b], BYTE_AND_KEY) == a + b * 0x100
  {
    Pow2Values();
    if a < 0x1_0000 {
      PackTwo(a, b, Field(16, 0), Field(16, 16));
    }
    if a < 0x100 {
      PackTwo(a, b, Field(8, 0), Field(16, 8));
    }
  }

  lemma PackThree(a: nat, b: nat, c: nat, f: Field, g: Field, h: Field)
    requires Fits([a, b, c], [f, g, h]) && Stacked([f, g, h]) && f.shift == 0
    ensures Pack([a, b, c], [f, g, h]) == a + b * Pow2(g.shift) + c * Pow2(h.shift)
  {
    assert [a, b] + [c] == [a, b, c] && [f, g] + [h] == [f, g, h];
    FitsPrefix([a, b], [f, g], c, h);
    assert [f, g][0].shift + [f, g][0].width <= [f, g][1].shift;
    PackTwo(a, b, f, g);
    PackOneMore([a, b], [f, g], c, h);
  }

  lemma PackFour(a: nat, b: nat, c: nat, d: nat, f: Field, g: Field, h: Field, l: Field)
    requires Fits([a, b, c, d], [f, g, h, l]) && Stacked([f, g, h, l]) && f.shift == 0
    ensures Pack([a, b, c, d], [f, g, h, l]) == a + b * Pow2(g.shift) + c * Pow2(h.shift) + d * Pow2(l.shift)
  {
    assert [a, b, c] + [d] == [a, b, c, d] && [f, g, h] + [l] == [f, g, h, l];
    FitsPrefix([a, b, c], [f, g, h], d, l);
    PackThree(a, b, c, f, g, h);
    PackOneMore([a, b, c], [f, g, h], d, l);
  }

  lemma FitsPrefix(values: seq<nat>, layout: Layout, v: nat, f: Field)
    requires |values| == |layout| && Fits(values + [v], layout + [f]) && Stacked(layout + [f])
    ensures Fits(values, layout) && Stacked(layout)
  {
    forall j | 0 <= j < |layout| ensures 0 <= values[j] < Pow2(layout[j].width) {
      assert (values + [v])[j] == values[j] && (layout + [f])[j] == layout[j];
    }
    forall j, k | 0 <= j < k < |layout| ensures layout[j].shift + layout[j].width <= layout[k].shift {
      assert (layout + [f])[j] == layout[j] && (layout + [f])[k] == layout[k];
    }
  }

  /** The documented three- and four-operand layouts, as numbers. */
  lemma BytesThenHalf(a: nat, b: nat, c: nat)
    requires a < 0x100 && b < 0x100 && c < 0x1_0000
    ensures Pack([a, b, c], BYTES_AND_HALF) == a + b * 0x100 + c * 0x1_0000
  {
    Pow2Values();
    PackThree(a, b, c, Field(8, 0), Field(8, 8), Field(16, 16));
  }

  lemma HalfThenBytes(a: nat, b: nat, c: nat)
    requires a < 0x1_0000 && b < 0x100 && c < 0x100
    ensures Pack([a, b, c], HALF_AND_BYTES) == a + b * 0x1_0000 + c * 0x100_0000
  {
    Pow2Values();
    PackThree(a, b, c, Field(16, 0), Field(8, 16), Field(8, 24));
  }

  lemma FourBytes(a: nat, b: nat, c: nat, d: nat)
    requires a < 0x100 && b < 0x100 && c < 0x100 && d < 0x100
    ensures Pack([a, b, c, d], BYTES) == a + b * 0x100 + c * 0x1_0000 + d * 0x100_0000
  {
    Pow2Values();
    PackFour(a, b, c, d, Field(8, 0), Field(8, 8), Field(8, 16), Field(8, 24));
  }

  // ---- The overlapping 2-hop form, read as 8/8/16 ----

  function TwoHopRead(src: int, rel1: int, rel2: int): (r: seq<nat>)
    ensures |r| == 3
  {
    Unpack(Pack([src, rel1, rel2], TWO_HOP), BYTES_AND_HALF)
  }

  lemma {:induction false} BitOfTwoHop(src: int, rel1: int, rel2: int, i: nat)
    ensures Bit(Pack([src, rel1, rel2], TWO_HOP), i) <==>
            (i < 8 && Bit(src, i)) || (8 <= i < 24 && Bit(rel1, i - 8)) || (16 <= i < 32 && Bit(rel2, i - 16))
  {
    var values := [src, rel1, rel2];
    BitOfPack(values, TWO_HOP, i);
    assert Sets(values, TWO_HOP, 0, i) <==> i < 8 && Bit(src, i);
    assert Sets(values, TWO_HOP, 1, i) <==> 8 <= i < 24 && Bit(rel1, i - 8);
    assert Sets(values, TWO_HOP, 2, i) <==> 16 <= i < 32 && Bit(rel2, i - 16);
    assert forall j: nat :: Sets(values, TWO_HOP, j, i) ==> j == 0 || j == 1 || j == 2;
  }

  lemma {:induction false} TwoHopSource(src: int, rel1: int, rel2: int)
    ensures Extract(Pack([src, rel1, rel2], TWO_HOP), Field(8, 0)) == LowBits(src, 8)
  {
    var p, f := Pack([src, rel1, rel2], TWO_HOP), Field(8, 0);
    forall i: nat | i < f.width ensures Bit(p, i + f.shift) == Bit(src, i) {
      BitOfTwoHop(src, rel1, rel2, i);
    }
    ExtractIs(p, f, src);
  }

  lemma {:induction false} TwoHopFirstRelation(src: int, rel1: int, rel2: int)
    ensures Extract(Pack([src, rel1, rel2], TWO_HOP), Field(8, 8)) == LowBits(rel1, 8)
  {
    var p, f := Pack([src, rel1, rel2], TWO_HOP), Field(8, 8);
    forall i: nat | i < f.width ensures Bit(p, i + f.shift) == Bit(rel1, i) {
      BitOfTwoHop(src, rel1, rel2, i + 8);
    }
    ExtractIs(p, f, rel1);
  }

  /** The high byte of the first relation ID is or-ed into the second relation ID. */
  lemma {:induction false} TwoHopOverlap(src: int, rel1: int, rel2: int)
    ensures TwoHopRead(src, rel1, rel2)
         == [LowBits(src, 8), LowBits(rel1, 8), BitOr(LowBits(rel2, 16), LowBits(ShiftRight(rel1, 8), 8))]
  {
    TwoHopSource(src, rel1, rel2);
    TwoHopFirstRelation(src, rel1, rel2);
    var p, high := Pack([src, rel1, rel2], TWO_HOP), LowBits(ShiftRight(rel1, 8), 8);
    var third, merged := Extract(p, Field(16, 16)), BitOr(LowBits(rel2, 16), high);
    forall i: nat ensures Bit(third, i) == Bit(merged, i) {
      BitOfExtract(p, Field(16, 16), i);
      BitOfTwoHop(src, rel1, rel2, i + 16);
      BitOfOr(LowBits(rel2, 16), high, i);
      BitOfLow(rel2, 16, i);
      BitOfLow(ShiftRight(rel1, 8), 8, i);
      BitOfShiftRight(rel1, 8, i);
    }
    SameBits(third, merged);
  }

  /** The second relation or-ed with a zero high byte reads back exactly when it fits. */
  lemma {:induction false} MergedFits(rel2: int, high: nat, merged: nat)
    requires merged == BitOr(LowBits(rel2, 16), high) && high < 0x100
    ensures merged < 0x1_0000
    ensures high == 0 ==> (merged == rel2 <==> 0 <= rel2 < 0x1_0000)
  {
    Pow2Values();
    LowBitsBound(rel2, 16);
    OrBound(LowBits(rel2, 16), high, 16);
    OrZero(LowBits(rel2, 16));
  }

  lemma {:induction false} ByteFits(v: int)
    ensures LowBits(v, 8) < 0x100 && (LowBits(v, 8) == v <==> 0 <= v < 0x100)
  {
    Pow2Values();
    LowBitsBound(v, 8);
  }

  lemma {:induction false} NoHighByte(v: nat)
    requires v < 0x100
    ensures LowBits(ShiftRight(v, 8), 8) == 0
  {
    Pow2Values();
    Splits(v, 8);
    LowBitsBound(v, 8);
    LowBitsBound(0, 8);
  }

  /** The 2-hop operands read back exactly when the first relation ID is below 256 and the others fit. */
  lemma TwoHopRoundTrip(src: int, rel1: int, rel2: int)
    ensures TwoHopRead(src, rel1, rel2) == [src, rel1, rel2] <==>
            0 <= src < 0x100 && 0 <= rel1 < 0x100 && 0 <= rel2 < 0x1_0000
  {
    var r, high := TwoHopRead(src, rel1, rel2), LowBits(ShiftRight(rel1, 8), 8);
    TwoHopOverlap(src, rel1, rel2);
    ByteFits(src);
    ByteFits(rel1);
    ByteFits(ShiftRight(rel1, 8));
    MergedFits(rel2, high, r[2]);
    if 0 <= rel1 < 0x100 {
      NoHighByte(rel1);
    }
    assert r == [src, rel1, rel2] <==> r[0] == src && r[1] == rel1 && r[2] == rel2;
  }

  lemma {:induction false} OrZero(x: nat)
    ensures BitOr(x, 0) == x
  {
    forall i: nat ensures Bit(BitOr(x, 0), i) == Bit(x, i) {
      BitOfOr(x, 0, i);
      BitOfZero(i);
    }
    SameBits(BitOr(x, 0), x);
  }

  lemma {:induction false} OrBound(x: nat, y: nat, n: nat)
    requires x < Pow2(n) && y < Pow2(n)
    ensures BitOr(x, y) < Pow2(n)
  {
    if n > 0 {
      OrBound(x / 2, y / 2, n - 1);
    }
  }
}
