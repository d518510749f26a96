/**
 * The nested loops of crc16 over unbounded integers, as the source writes them, against the shift
 * register of module Crc.
 */
module CrcBytes {
  import opened Binary
  import opened Crc
  import opened Bytes

  // ---- Words and bytes as cells, most significant bit first ----

  function Cells(v: nat, n: nat): (c: Bits)
    ensures |c| == n
  {
    seq(n, (i: nat) requires i < n => Bit(v, n - 1 - i))
  }

  function ByteBits(b: byte): (c: Bits)
    ensures |c| == 8
  {
    Cells(b as nat, 8)
  }

  lemma {:induction false} CellsXor(x: nat, y: nat, n: nat)
    ensures Cells(BitXor(x, y), n) == Xor(Cells(x, n), Cells(y, n))
  {
    forall i | 0 <= i < n ensures Cells(BitXor(x, y), n)[i] == (Cells(x, n)[i] != Cells(y, n)[i]) {
      BitOfXor(x, y, n - 1 - i);
    }
  }

  lemma {:induction false} CellsLow(v: nat, n: nat)
    ensures Cells(LowBits(v, n), n) == Cells(v, n)
  {
    forall i | 0 <= i < n ensures Cells(LowBits(v, n), n)[i] == Cells(v, n)[i] {
      BitOfLow(v, n, n - 1 - i);
    }
  }

  lemma {:induction false} BitDouble(v: nat, j: nat)
    ensures Bit(2 * v, j) <==> j > 0 && Bit(v, j - 1)
  {
    assert (2 * v) / 2 == v && (2 * v) % 2 == 0;
  }

  lemma CellsDouble(v: nat, n: nat)
    requires n > 0
    ensures Cells(2 * v, n) == Cells(v, n)[1..] + [false]
  {
    forall i | 0 <= i < n ensures Cells(2 * v, n)[i] == (Cells(v, n)[1..] + [false])[i] {
      BitDouble(v, n - 1 - i);
    }
  }

  /** `b << 8` puts the byte's bits in the top half. */
  lemma {:induction false} RaisedCells(b: byte)
    ensures Cells(ShiftLeft(b as nat, 8), 16) == ByteBits(b) + Zeros(8)
  {
    forall i | 0 <= i < 16 ensures Cells(ShiftLeft(b as nat, 8), 16)[i] == (ByteBits(b) + Zeros(8))[i] {
      BitOfShiftLeft(b as nat, 8, 15 - i);
    }
  }

  lemma {:induction false} SameCells(x: nat, y: nat, n: nat)
    requires x < Pow2(n) && y < Pow2(n)
    requires Cells(x, n) == Cells(y, n)
    ensures x == y
  {
    forall i: nat | i < n ensures Bit(x, i) == Bit(y, i) {
      assert Cells(x, n)[n - 1 - i] == Cells(y, n)[n - 1 - i];
    }
    SameLowBits(x, y, n);
  }

  lemma {:induction false} HighByteBit(v: nat, i: nat)
    ensures Bit(v / 256, i) == Bit(v, i + 8)
  {
    var high := ShiftRight(v, 8);
    Pow2Values();
    Splits(v, 8);
    LowBitsBound(v, 8);
    assert high == v / 256;
    BitOfShiftRight(v, 8, i);
  }

  lemma TapsCells()
    ensures Cells(0x1021, 16) == TAPS
  {
    assert Bit(0x1021, 0) && !Bit(0x1021, 1) && !Bit(0x1021, 2) && !Bit(0x1021, 3);
    assert !Bit(0x1021, 4) && Bit(0x1021, 5) && !Bit(0x1021, 6) && !Bit(0x1021, 7);
    forall i: nat | i < 8 ensures Bit(0x1021, i + 8) == Bit(0x10, i) {
      HighByteBit(0x1021, i);
    }
    assert !Bit(0x10, 0) && !Bit(0x10, 1) && !Bit(0x10, 2) && !Bit(0x10, 3);
    assert Bit(0x10, 4) && !Bit(0x10, 5) && !Bit(0x10, 6) && !Bit(0x10, 7);
  }

  lemma OnesCells()
    ensures Cells(0xFFFF, 16) == ONES
  {
    Pow2Values();
    forall i: nat | i < 16 ensures Bit(0xFFFF, i) {
      AllOnes(0xFFFF, 16, i);
    }
  }

  // ---- The loops ----

  /** All bits of a byte string, byte by byte. */
  function MessageBits(data: seq<byte>): (c: Bits)
    ensures |c| == 8 * |data|
  {
    if data == [] then [] else MessageBits(data[..|data| - 1]) + ByteBits(data[|data| - 1])
  }

  /** One pass of the inner loop: `((crc << 1) ^ 0x1021) & 0xFFFF` or `(crc << 1) & 0xFFFF`. */
  function ShiftWord(crc: nat): nat {
    if Bit(crc, 15) then LowBits(BitXor(2 * crc, 0x1021), 16) else LowBits(2 * crc, 16)
  }

  lemma ShiftWordCells(crc: nat)
    ensures Cells(ShiftWord(crc), 16) == Feed(Cells(crc, 16), false)
    ensures ShiftWord(crc) < Pow2(16)
  {
    CellsDouble(crc, 16);
    CellsLow(2 * crc, 16);
    CellsXor(2 * crc, 0x1021, 16);
    CellsLow(BitXor(2 * crc, 0x1021), 16);
    TapsCells();
    LowBitsBound(2 * crc, 16);
    LowBitsBound(BitXor(2 * crc, 0x1021), 16);
  }

  lemma ShiftsNext(reg: Bits, n: nat)
    requires |reg| == 16
    ensures Shifts(reg, n + 1) == Feed(Shifts(reg, n), false)
  {
    assert Zeros(n + 1)[..n] == Zeros(n);
  }

  /** `crc ^= (b << 8)`, then eight conditional shifts: the same as feeding the byte's bits one by one. */
  method AbsorbByte(crc: nat, b: byte) returns (r: nat)
    ensures Cells(r, 16) == Run(Cells(crc, 16), ByteBits(b))
    ensures r < Pow2(16)
  {
    r := BitXor(crc, ShiftLeft(b as nat, 8));
    CellsXor(crc, ShiftLeft(b as nat, 8), 16);
    RaisedCells(b);
    ghost var start := Cells(r, 16);
    for j := 0 to 8
      invariant Cells(r, 16) == Shifts(start, j)
      invariant j > 0 ==> r < Pow2(16)
    {
      ShiftWordCells(r);
      ShiftsNext(start, j);
      r := ShiftWord(r);
    }
    RunIsShifts(Cells(crc, 16), ByteBits(b));
  }

  /** The checksum of a byte string. */
  method Crc16(data: seq<byte>) returns (crc: nat)
    ensures Cells(crc, 16) == Checksum(MessageBits(data))
    ensures crc < Pow2(16)
    ensures data == [] ==> crc == 0xFFFF
  {
    crc := 0xFFFF;
    OnesCells();
    Pow2Values();
    for i := 0 to |data|
      invariant Cells(crc, 16) == Checksum(MessageBits(data[..i]))
      invariant crc < Pow2(16)
      invariant i == 0 ==> crc == 0xFFFF
    {
      ChecksumNext(data, i);
      crc := AbsorbByte(crc, data[i]);
    }
    assert data[..|data|] == data;
  }

  lemma ChecksumNext(data: seq<byte>, i: nat)
    requires i < |data|
    ensures Checksum(MessageBits(data[..i + 1])) == Run(Checksum(MessageBits(data[..i])), ByteBits(data[i]))
  {
    assert data[..i + 1][..i] == data[..i];
    RunConcat(ONES, MessageBits(data[..i]), ByteBits(data[i]));
  }

  /** `v & 0xFF` and `v >> 8` of a 16-bit number. */
  function LowByte(v: nat): byte {
    LowBitsBound(v, 8);
    Pow2Values();
    LowBits(v, 8) as byte
  }

  function HighByte(v: nat): byte
    requires v < 0x1_0000
  {
    (v / 256) as byte
  }

  lemma {:induction false} MessageConcat(a: seq<byte>, b: seq<byte>)
    ensures MessageBits(a + b) == MessageBits(a) + MessageBits(b)
  {
    if b == [] {
      assert a + b == a;
    } else {
      var init := b[..|b| - 1];
      assert (a + b)[..|a + b| - 1] == a + init;
      MessageConcat(a, init);
    }
  }

  /** A 16-bit number is its high byte followed by its low byte. */
  lemma WordBytes(v: nat)
    requires v < 0x1_0000
    ensures ByteBits(HighByte(v)) + ByteBits(LowByte(v)) == Cells(v, 16)
  {
    forall i | 0 <= i < 16 ensures (ByteBits(HighByte(v)) + ByteBits(LowByte(v)))[i] == Cells(v, 16)[i] {
      if i < 8 {
        HighByteBit(v, 7 - i);
      } else {
        BitOfLow(v, 8, 15 - i);
      }
    }
  }

  /** With the checksum's high then low byte appended, the checksum is zero; no other two bytes do it. */
  lemma {:induction false} AppendedBytesGiveZero(data: seq<byte>, crc: nat, tail: nat)
    requires Cells(crc, 16) == Checksum(MessageBits(data))
    requires crc < 0x1_0000 && tail < 0x1_0000
    ensures Checksum(MessageBits(data + [HighByte(tail), LowByte(tail)])) == Zeros(16) <==> tail == crc
  {
    TwoByteMessage(data, HighByte(tail), LowByte(tail));
    WordBytes(tail);
    AppendedChecksumGivesZero(MessageBits(data), Cells(tail, 16));
    Pow2Values();
    if Cells(tail, 16) == Cells(crc, 16) {
      SameCells(tail, crc, 16);
    }
  }

  lemma {:induction false} TwoByteMessage(data: seq<byte>, a: byte, b: byte)
    ensures MessageBits(data + [a, b]) == MessageBits(data) + (ByteBits(a) + ByteBits(b))
  {
    MessageConcat(data, [a, b]);
    assert [a, b][..1] == [a] && [a][..0] == [];
    assert MessageBits([a]) == ByteBits(a);
  }

  lemma {:induction false} MessageAt(data: seq<byte>, i: nat, j: nat)
    requires i < |data| && j < 8
    ensures 8 * i + j < |MessageBits(data)|
    ensures MessageBits(data)[8 * i + j] == ByteBits(data[i])[j]
  {
    var n := |data| - 1;
    if i < n {
      MessageAt(data[..n], i, j);
    }
  }

  lemma BitDiffers(a: byte, b: byte) returns (j: nat)
    requires a != b
    ensures j < 8 && ByteBits(a)[j] != ByteBits(b)[j]
  {
    Pow2Values();
    if ByteBits(a) == ByteBits(b) {
      SameCells(a as nat, b as nat, 8);
    }
    j :| 0 <= j < 8 && ByteBits(a)[j] != ByteBits(b)[j];
  }

  /** A bit position of the message that differs lies in a byte that differs. */
  lemma {:induction false} DifferingBit(a: seq<byte>, b: seq<byte>, p: nat)
    requires |a| == |b| && p < 8 * |a|
    requires MessageBits(a)[p] != MessageBits(b)[p]
    ensures a[p / 8] != b[p / 8]
  {
    var q, r := p / 8, p % 8;
    assert p == 8 * q + r;
    MessageAt(a, q, r);
    MessageAt(b, q, r);
  }

  /** Any change to one byte or to two neighbouring bytes is detected. */
  lemma {:induction false} NeighbouringBytesDetected(a: seq<byte>, b: seq<byte>, i: nat)
    requires |a| == |b| && a != b
    requires forall j :: 0 <= j < |a| && a[j] != b[j] ==> i <= j <= i + 1
    ensures Checksum(MessageBits(a)) != Checksum(MessageBits(b))
  {
    var x, y := MessageBits(a), MessageBits(b);
    var w :| 0 <= w < |a| && a[w] != b[w];
    var d := BitDiffers(a[w], b[w]);
    MessageAt(a, w, d);
    MessageAt(b, w, d);
    assert x[8 * w + d] != y[8 * w + d];
    forall p | 0 <= p < |x| && x[p] != y[p] ensures 8 * i <= p < 8 * i + 16 {
      DifferingBit(a, b, p);
    }
    BurstDetected(x, y, 8 * i);
  }
}
