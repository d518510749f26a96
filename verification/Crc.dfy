/**
 * CRC-16 with generator x^16 + x^12 + x^5 + 1 (section 2 of ITU-T V.41), initial value 0xFFFF, no
 * reflection and no final xor. The byte loops run on 16-bit words; their meaning is given by a shift
 * register of sixteen cells, and that of the register by polynomials over GF(2).
 */
module Crc {

  /** Bits in transmission order: the most significant bit first. */
  type Bits = seq<bool>

  function Xor(a: Bits, b: Bits): (c: Bits)
    requires |a| == |b|
    ensures |c| == |a|
  {
    seq(|a|, (i: nat) requires i < |a| && |a| == |b| => a[i] != b[i])
  }

  function Zeros(n: nat): (z: Bits)
    ensures |z| == n
  {
    seq(n, _ => false)
  }

  // ---- The shift register ----

  /** x^12 + x^5 + 1, that is 0x1021. */
  const TAPS: Bits :=
    [false, false, false, true, false, false, false, false,
     false, false, true, false, false, false, false, true]

  const ONES: Bits :=
    [true, true, true, true, true, true, true, true, true, true, true, true, true, true, true, true]

  /** One clock of the register with one message bit. */
  function Feed(reg: Bits, bit: bool): (r: Bits)
    requires |reg| == 16
    ensures |r| == 16
  {
    var shifted := reg[1..] + [false];
    if reg[0] != bit then Xor(shifted, TAPS) else shifted
  }

  /** The register after a whole bit string. */
  function Run(reg: Bits, bits: Bits): (r: Bits)
    requires |reg| == 16
    ensures |r| == 16
  {
    if bits == [] then reg else Feed(Run(reg, bits[..|bits| - 1]), bits[|bits| - 1])
  }

  /** n clocks with zero bits. */
  function Shifts(reg: Bits, n: nat): (r: Bits)
    requires |reg| == 16
    ensures |r| == 16
  {
    Run(reg, Zeros(n))
  }

  lemma {:induction false} RunConcat(reg: Bits, a: Bits, b: Bits)
    requires |reg| == 16
    ensures Run(reg, a + b) == Run(Run(reg, a), b)
  {
    if b == [] {
      assert a + b == a;
    } else {
      var init, last := b[..|b| - 1], b[|b| - 1];
      RunConcat(reg, a, init);
      assert (a + b)[..|a + b| - 1] == a + init;
    }
  }

  lemma {:induction false} RunCons(reg: Bits, bit: bool, rest: Bits)
    requires |reg| == 16
    ensures Run(reg, [bit] + rest) == Run(Feed(reg, bit), rest)
  {
    RunConcat(reg, [bit], rest);
    assert Run(reg, [bit]) == Feed(Run(reg, []), bit);
  }

  // ---- Linearity ----

  lemma FeedLinear(x: Bits, y: Bits, a: bool, b: bool)
    requires |x| == |y| == 16
    ensures Feed(Xor(x, y), a != b) == Xor(Feed(x, a), Feed(y, b))
  {
  }

  /** The register is linear over GF(2), so the checksum is affine in the data. */
  lemma {:induction false} RunLinear(x: Bits, y: Bits, a: Bits, b: Bits)
    requires |x| == |y| == 16
    requires |a| == |b|
    ensures Run(Xor(x, y), Xor(a, b)) == Xor(Run(x, a), Run(y, b))
  {
    if a != [] {
      var n := |a| - 1;
      RunLinear(x, y, a[..n], b[..n]);
      assert Xor(a, b)[..n] == Xor(a[..n], b[..n]);
      FeedLinear(Run(x, a[..n]), Run(y, b[..n]), a[n], b[n]);
    }
  }

  lemma {:induction false} ZeroStaysZero(n: nat)
    ensures Run(Zeros(16), Zeros(n)) == Zeros(16)
  {
    if n > 0 {
      ZeroStaysZero(n - 1);
      assert Zeros(n)[..n - 1] == Zeros(n - 1);
    }
  }

  lemma XorSelf(a: Bits)
    ensures Xor(a, a) == Zeros(|a|)
  {
  }

  lemma XorZeroMeansEqual(a: Bits, b: Bits)
    requires |a| == |b|
    ensures Xor(a, b) == Zeros(|a|) <==> a == b
  {
    if Xor(a, b) == Zeros(|a|) {
      forall i | 0 <= i < |a| ensures a[i] == b[i] {
        assert Xor(a, b)[i] == Zeros(|a|)[i];
      }
    }
  }

  /** A shift loses nothing: the tap at x^0 keeps a trace of the bit shifted out. */
  lemma FeedNonzero(reg: Bits)
    requires |reg| == 16 && reg != Zeros(16)
    ensures Feed(reg, false) != Zeros(16)
  {
    if reg[0] {
      assert Feed(reg, false)[15];
    } else {
      var i :| 0 <= i < 16 && reg[i];
      assert Feed(reg, false)[i - 1];
    }
  }

  lemma {:induction false} ShiftsNonzero(reg: Bits, n: nat)
    requires |reg| == 16 && reg != Zeros(16)
    ensures Shifts(reg, n) != Zeros(16)
  {
    if n > 0 {
      ShiftsNonzero(reg, n - 1);
      FeedNonzero(Shifts(reg, n - 1));
      assert Zeros(n)[..n - 1] == Zeros(n - 1);
    }
  }

  /** Up to sixteen message bits may be xor-ed into the top of the register and clocked through. */
  lemma {:induction false} RunIsShifts(reg: Bits, e: Bits)
    requires |reg| == 16 && |e| <= 16
    ensures Run(reg, e) == Shifts(Xor(reg, e + Zeros(16 - |e|)), |e|)
    decreases |e|
  {
    if e == [] {
      assert Xor(reg, e + Zeros(16)) == reg;
    } else {
      var b, rest, pad := e[0], e[1..], e + Zeros(16 - |e|);
      assert e == [b] + rest;
      RunCons(reg, b, rest);
      RunIsShifts(Feed(reg, b), rest);
      FeedLinear(reg, pad, b, b);
      assert Feed(pad, b) == rest + Zeros(16 - |rest|);
      assert Zeros(|e|) == [false] + Zeros(|rest|);
      RunCons(Xor(reg, pad), false, Zeros(|rest|));
    }
  }

  // ---- Error detection ----

  /** The checksum register after a message, from the initial value 0xFFFF. */
  function Checksum(bits: Bits): (r: Bits)
    ensures |r| == 16
  {
    Run(ONES, bits)
  }

  /** The checksum is affine in the data: with a + b + c read as xor, it commutes with three terms. */
  lemma ChecksumAffine(a: Bits, b: Bits, c: Bits)
    requires |a| == |b| == |c|
    ensures Checksum(Xor(Xor(a, b), c)) == Xor(Xor(Checksum(a), Checksum(b)), Checksum(c))
  {
    RunLinear(ONES, ONES, a, b);
    RunLinear(Xor(ONES, ONES), ONES, Xor(a, b), c);
    assert Xor(Xor(ONES, ONES), ONES) == ONES;
  }

  /** a and b differ, and only inside the 16 bits from position i on. */
  ghost predicate DifferInBurst(a: Bits, b: Bits, i: nat) {
    && |a| == |b|
    && a != b
    && forall j :: 0 <= j < |a| && a[j] != b[j] ==> i <= j < i + 16
  }

  /** Every error confined to sixteen consecutive bits changes the checksum. */
  lemma BurstDetected(a: Bits, b: Bits, i: nat)
    requires DifferInBurst(a, b, i)
    ensures Checksum(a) != Checksum(b)
  {
    var d := Xor(a, b);
    XorZeroMeansEqual(a, b);
    var first := if i <= |a| then i else |a|;
    var last := if i + 16 <= |a| then i + 16 else |a|;
    var burst := d[first..last];
    assert d == Zeros(first) + burst + Zeros(|a| - last);
    assert burst != Zeros(|burst|);
    BurstSurvives(burst, first, |a| - last);
    RunLinear(ONES, ONES, a, b);
    XorSelf(ONES);
    if Checksum(a) == Checksum(b) {
      XorSelf(Checksum(a));
    }
  }

  /** A nonzero pattern of at most 16 bits, with any number of zeros around it, leaves a nonzero register. */
  lemma {:induction false} BurstSurvives(burst: Bits, before: nat, after: nat)
    requires |burst| <= 16 && burst != Zeros(|burst|)
    ensures Run(Zeros(16), Zeros(before) + burst + Zeros(after)) != Zeros(16)
  {
    RunConcat(Zeros(16), Zeros(before) + burst, Zeros(after));
    RunConcat(Zeros(16), Zeros(before), burst);
    ZeroStaysZero(before);
    BurstAlone(burst);
    ShiftsNonzero(Run(Zeros(16), burst), after);
  }

  lemma {:induction false} BurstAlone(burst: Bits)
    requires |burst| <= 16 && burst != Zeros(|burst|)
    ensures Run(Zeros(16), burst) != Zeros(16)
  {
    var padded := burst + Zeros(16 - |burst|);
    RunIsShifts(Zeros(16), burst);
    XorWithZeros(padded);
    PaddedNonzero(burst, 16 - |burst|);
    ShiftsNonzero(padded, |burst|);
  }

  lemma XorWithZeros(a: Bits)
    ensures Xor(Zeros(|a|), a) == a
  {
  }

  lemma PaddedNonzero(burst: Bits, n: nat)
    requires burst != Zeros(|burst|)
    ensures burst + Zeros(n) != Zeros(|burst| + n)
  {
    var j :| 0 <= j < |burst| && burst[j] != Zeros(|burst|)[j];
    assert (burst + Zeros(n))[j];
  }

  /** Appending the checksum, high bit first, leaves zero; no other sixteen bits do. */
  lemma AppendedChecksumGivesZero(bits: Bits, tail: Bits)
    requires |tail| == 16
    ensures Checksum(bits + tail) == Zeros(16) <==> tail == Checksum(bits)
  {
    var reg := Checksum(bits);
    RunConcat(ONES, bits, tail);
    RunIsShifts(reg, tail);
    assert tail + Zeros(0) == tail;
    XorZeroMeansEqual(reg, tail);
    if tail == reg {
      ZeroStaysZero(16);
    } else {
      ShiftsNonzero(Xor(reg, tail), 16);
    }
  }

  ghost function Parity(bits: Bits): bool {
    if bits == [] then false else Parity(bits[..|bits| - 1]) != bits[|bits| - 1]
  }

  lemma {:induction false} ParityCons(b: bool, bits: Bits)
    ensures Parity([b] + bits) == (b != Parity(bits))
  {
    if bits == [] {
      assert ([b] + bits)[..0] == [];
    } else {
      assert ([b] + bits)[..|bits|] == [b] + bits[..|bits| - 1];
      ParityCons(b, bits[..|bits| - 1]);
    }
  }

  lemma {:induction false} ParityXor(a: Bits, b: Bits)
    requires |a| == |b|
    ensures Parity(Xor(a, b)) == (Parity(a) != Parity(b))
  {
    if a != [] {
      var n := |a| - 1;
      assert Xor(a, b)[..n] == Xor(a[..n], b[..n]);
      ParityXor(a[..n], b[..n]);
    }
  }

  lemma {:induction false} ParityConcat(a: Bits, b: Bits)
    ensures Parity(a + b) == (Parity(a) != Parity(b))
  {
    if b == [] {
      assert a + b == a;
    } else {
      assert (a + b)[..|a + b| - 1] == a + b[..|b| - 1];
      ParityConcat(a, b[..|b| - 1]);
    }
  }

  lemma {:induction false} ParityZeros(n: nat)
    ensures !Parity(Zeros(n))
  {
    if n > 0 {
      assert Zeros(n)[..n - 1] == Zeros(n - 1);
      ParityZeros(n - 1);
    }
  }

  /** The generator has two terms besides x^16 and 1, the initial value sixteen. */
  lemma ParityOfConstants()
    ensures Parity(TAPS) && !Parity(ONES)
  {
    var low, high := [true] + Zeros(4), [true] + Zeros(6);
    assert TAPS == Zeros(3) + (high + (low + [true]));
    ParityZeros(3);
    ParityZeros(4);
    ParityZeros(6);
    ParityConcat(Zeros(3), high + (low + [true]));
    ParityConcat(high, low + [true]);
    ParityConcat(low, [true]);
    ParityCons(true, Zeros(4));
    ParityCons(true, Zeros(6));
    ParityCons(true, []);
    assert [true] + [] == [true];
    assert ONES == ONES[..8] + ONES[..8];
    ParityConcat(ONES[..8], ONES[..8]);
  }

  lemma {:induction false} ShiftParity(reg: Bits)
    requires reg != []
    ensures Parity(reg[1..] + [false]) == (Parity(reg) != reg[0])
  {
    assert reg == [reg[0]] + reg[1..];
    ParityCons(reg[0], reg[1..]);
    assert (reg[1..] + [false])[..|reg| - 1] == reg[1..];
  }

  lemma {:induction false} FeedParity(reg: Bits, bit: bool)
    requires |reg| == 16
    ensures Parity(Feed(reg, bit)) == (Parity(reg) != bit)
  {
    ShiftParity(reg);
    ParityXor(reg[1..] + [false], TAPS);
    ParityOfConstants();
  }

  lemma {:induction false} RunParity(reg: Bits, bits: Bits)
    requires |reg| == 16
    ensures Parity(Run(reg, bits)) == (Parity(reg) != Parity(bits))
  {
    if bits != [] {
      var n := |bits| - 1;
      RunParity(reg, bits[..n]);
      FeedParity(Run(reg, bits[..n]), bits[n]);
    }
  }

  /** The checksum has the parity of the data: the generator has an even number of terms. */
  lemma {:induction false} ChecksumParity(bits: Bits)
    ensures Parity(Checksum(bits)) == Parity(bits)
  {
    RunParity(ONES, bits);
    ParityOfConstants();
  }

  /** Any odd number of flipped bits across data and checksum is detected. */
  lemma OddFlipsDetected(sent: Bits, received: Bits, check: Bits)
    requires |received| == |sent| && |check| == 16
    requires Parity(Xor(sent, received)) != Parity(Xor(Checksum(sent), check))
    ensures Checksum(received) != check
  {
    ParityXor(sent, received);
    ParityXor(Checksum(sent), check);
    ChecksumParity(sent);
    ChecksumParity(received);
  }

  // ---- Polynomials over GF(2), as sets of exponents ----

  type Poly = set<nat>

  ghost function Add(p: Poly, q: Poly): Poly {
    (p - q) + (q - p)
  }

  /** x^n * p */
  ghost function TimesX(p: Poly, n: nat): Poly {
    set e | e in p :: e + n
  }

  const GENERATOR: Poly := {16, 12, 5, 0}

  /** q * GENERATOR, for a quotient given by its coefficients, highest first. */
  ghost function Multiple(q: Bits): Poly {
    if q == [] then {}
    else Add(TimesX(Multiple(q[..|q| - 1]), 1), if q[|q| - 1] then GENERATOR else {})
  }

  /** The coefficient of x^e in bits, highest coefficient first. */
  ghost predicate Coefficient(bits: Bits, e: nat) {
    e < |bits| && bits[|bits| - 1 - e]
  }

  ghost function PolyOf(bits: Bits): Poly {
    set e | 0 <= e < |bits| && Coefficient(bits, e)
  }

  /** 0xFFFF */
  const INITIAL: Poly := {15, 14, 13, 12, 11, 10, 9, 8, 7, 6, 5, 4, 3, 2, 1, 0}

  /** x^n * (x^15 + ... + 1) + x^16 * message: the message with the initial value 0xFFFF in front of it. */
  ghost function Dividend(bits: Bits): Poly {
    Add(TimesX(INITIAL, |bits|), TimesX(PolyOf(bits), 16))
  }

  lemma OnesPoly()
    ensures PolyOf(ONES) == INITIAL
  {
    forall e: nat ensures e in PolyOf(ONES) <==> e in INITIAL {
      assert Coefficient(ONES, e) <==> e < 16;
    }
  }

  /** r has degree below 16 and differs from p by a multiple of the generator. */
  ghost predicate IsRemainder(p: Poly, r: Poly) {
    && (forall e :: e in r ==> e < 16)
    && exists q :: p == Add(Multiple(q), r)
  }

  lemma TimesXMember(p: Poly, n: nat, e: nat)
    ensures e in TimesX(p, n) <==> e >= n && e - n in p
  {
    if e >= n && e - n in p {
      assert (e - n) + n == e;
    }
  }

  lemma TimesXAdd(p: Poly, q: Poly, n: nat)
    ensures TimesX(Add(p, q), n) == Add(TimesX(p, n), TimesX(q, n))
  {
    forall e: nat ensures e in TimesX(Add(p, q), n) <==> e in Add(TimesX(p, n), TimesX(q, n)) {
      TimesXMember(p, n, e);
      TimesXMember(q, n, e);
      TimesXMember(Add(p, q), n, e);
    }
  }

  lemma TimesXTwice(p: Poly, n: nat, m: nat)
    ensures TimesX(TimesX(p, n), m) == TimesX(p, n + m)
  {
    forall e: nat ensures e in TimesX(TimesX(p, n), m) <==> e in TimesX(p, n + m) {
      TimesXMember(TimesX(p, n), m, e);
      TimesXMember(p, n + m, e);
      if e >= m {
        TimesXMember(p, n, e - m);
      }
    }
  }

  ghost function Term(b: bool, p: Poly): Poly {
    if b then p else {}
  }

  lemma PolySnoc(bits: Bits, b: bool)
    ensures PolyOf(bits + [b]) == Add(TimesX(PolyOf(bits), 1), Term(b, {0}))
  {
    var all := bits + [b];
    forall e: nat ensures e in PolyOf(all) <==> e in Add(TimesX(PolyOf(bits), 1), Term(b, {0})) {
      TimesXMember(PolyOf(bits), 1, e);
      if e > 0 {
        assert Coefficient(all, e) <==> Coefficient(bits, e - 1);
      } else {
        assert Coefficient(all, 0) <==> b;
      }
    }
  }

  /** Clocking multiplies by x, adds the message bit at x^16, and reduces by the generator. */
  lemma FeedPoly(reg: Bits, bit: bool)
    requires |reg| == 16
    ensures PolyOf(Feed(reg, bit))
         == Add(Add(TimesX(PolyOf(reg), 1), Term(bit, {16})), Term(reg[0] != bit, GENERATOR))
  {
    var shifted := reg[1..] + [false];
    var next := Feed(reg, bit);
    forall e: nat
      ensures e in PolyOf(next) <==>
              e in Add(Add(TimesX(PolyOf(reg), 1), Term(bit, {16})), Term(reg[0] != bit, GENERATOR))
    {
      TimesXMember(PolyOf(reg), 1, e);
      if e < 16 {
        assert TAPS[15 - e] <==> e in {12, 5, 0};
        assert Coefficient(next, e) <==> (shifted[15 - e] != (reg[0] != bit && TAPS[15 - e]));
        assert shifted[15 - e] <==> e > 0 && Coefficient(reg, e - 1);
      } else if e == 16 {
        assert Coefficient(reg, 15) <==> reg[0];
      }
    }
  }

  lemma DividendSnoc(bits: Bits, b: bool)
    ensures Dividend(bits + [b]) == Add(TimesX(Dividend(bits), 1), Term(b, {16}))
  {
    var n := |bits|;
    PolySnoc(bits, b);
    TimesXAdd(TimesX(PolyOf(bits), 1), Term(b, {0}), 16);
    TimesXTwice(PolyOf(bits), 1, 16);
    TimesXTwice(PolyOf(bits), 16, 1);
    TimesXTwice(INITIAL, n, 1);
    TimesXAdd(TimesX(INITIAL, n), TimesX(PolyOf(bits), 16), 1);
    forall e: nat ensures e in TimesX(Term(b, {0}), 16) <==> e in Term(b, {16}) {
      TimesXMember(Term(b, {0}), 16, e);
    }
    assert TimesX(Term(b, {0}), 16) == Term(b, {16});
  }

  lemma ReduceStep(m: Poly, r: Poly, bit: Poly, g: Poly)
    ensures Add(TimesX(Add(m, r), 1), bit) == Add(Add(TimesX(m, 1), g), Add(Add(TimesX(r, 1), bit), g))
  {
    TimesXAdd(m, r, 1);
  }

  /** Long division: the register is the dividend less a multiple of the generator. */
  lemma {:induction false} Division(bits: Bits) returns (q: Bits)
    ensures Dividend(bits) == Add(Multiple(q), PolyOf(Checksum(bits)))
  {
    if bits == [] {
      q := [];
      OnesPoly();
      forall e: nat ensures e in Dividend([]) <==> e in INITIAL {
        TimesXMember(INITIAL, 0, e);
        TimesXMember(PolyOf([]), 16, e);
      }
    } else {
      var init, b := bits[..|bits| - 1], bits[|bits| - 1];
      var reg := Checksum(init);
      var before := Division(init);
      q := before + [reg[0] != b];
      assert q[..|q| - 1] == before;
      assert bits == init + [b];
      DividendSnoc(init, b);
      FeedPoly(reg, b);
      ReduceStep(Multiple(before), PolyOf(reg), Term(b, {16}), Term(reg[0] != b, GENERATOR));
    }
  }

  lemma {:induction false} MultipleXor(p: Bits, q: Bits)
    requires |p| == |q|
    ensures Multiple(Xor(p, q)) == Add(Multiple(p), Multiple(q))
  {
    if p != [] {
      var n := |p| - 1;
      MultipleXor(p[..n], q[..n]);
      assert Xor(p, q)[..n] == Xor(p[..n], q[..n]);
      TimesXAdd(Multiple(p[..n]), Multiple(q[..n]), 1);
    }
  }

  lemma {:induction false} MultiplePad(q: Bits, n: nat)
    ensures Multiple(Zeros(n) + q) == Multiple(q)
    decreases |q| + n
  {
    if q == [] {
      if n > 0 {
        assert (Zeros(n) + q)[..n - 1] == Zeros(n - 1) + q;
        MultiplePad(q, n - 1);
        assert TimesX({}, 1) == {};
      } else {
        assert Zeros(0) + q == q;
      }
    } else {
      var init := q[..|q| - 1];
      assert (Zeros(n) + q)[..|Zeros(n) + q| - 1] == Zeros(n) + init;
      MultiplePad(init, n);
    }
  }

  /** A nonzero multiple of the generator has degree at least 16. */
  lemma {:induction false} MultipleDegree(q: Bits)
    ensures Multiple(q) == {} || exists e :: e in Multiple(q) && e >= 16
  {
    if q != [] {
      var m := Multiple(q[..|q| - 1]);
      MultipleDegree(q[..|q| - 1]);
      if m == {} {
        assert TimesX(m, 1) == {};
        if q[|q| - 1] {
          assert 16 in Multiple(q);
        }
      } else {
        var e :| e in m && e >= 16;
        TimesXMember(m, 1, e + 1);
        assert e + 1 in Multiple(q);
      }
    }
  }

  lemma RemainderUnique(p: Poly, r: Poly, s: Poly)
    requires IsRemainder(p, r) && IsRemainder(p, s)
    ensures r == s
  {
    var qr :| p == Add(Multiple(qr), r);
    var qs :| p == Add(Multiple(qs), s);
    var a, b := Zeros(|qs|) + qr, Zeros(|qr|) + qs;
    MultiplePad(qr, |qs|);
    MultiplePad(qs, |qr|);
    MultipleXor(a, b);
    MultipleDegree(Xor(a, b));
    assert Add(r, s) == Multiple(Xor(a, b)) by {
      forall e: nat ensures e in Add(r, s) <==> e in Add(Multiple(qr), Multiple(qs)) {
        assert e in p <==> (e in Multiple(qr)) != (e in r);
        assert e in p <==> (e in Multiple(qs)) != (e in s);
      }
    }
    assert forall e :: e in Add(r, s) ==> e < 16;
    assert Add(r, s) == {};
    forall e ensures e in r <==> e in s {
      assert e !in Add(r, s);
    }
  }

  /** The checksum is the remainder of the initialised message modulo x^16 + x^12 + x^5 + 1. */
  lemma ChecksumIsRemainder(bits: Bits, r: Poly)
    ensures IsRemainder(Dividend(bits), r) <==> r == PolyOf(Checksum(bits))
  {
    var q := Division(bits);
    assert IsRemainder(Dividend(bits), PolyOf(Checksum(bits)));
    if IsRemainder(Dividend(bits), r) {
      RemainderUnique(Dividend(bits), r, PolyOf(Checksum(bits)));
    }
  }
}
