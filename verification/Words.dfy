/** 64-bit lane words: one bit per lane, as used by the multi-lane opcodes of section 6.11. */
module Words {
  import Binary

  /** The machine word of one node: an unsigned 64-bit integer. */
  datatype Word = Word(raw: bv64) {

    function Or(that: Word): Word {
      Word(raw | that.raw)
    }

    function And(that: Word): Word {
      Word(raw & that.raw)
    }

    /** `this & ~that` */
    function Minus(that: Word): Word {
      Word(raw & !that.raw)
    }

    /** Logical shift right by one. */
    function Half(): Word {
      Word(raw >> 1)
    }

    /** Logical shift left by one. */
    function Twice(): Word {
      Word(raw << 1)
    }

    /** Subtraction of one modulo 2^64. */
    function Decrement(): Word {
      Word(raw - 1)
    }

    predicate Low() {
      raw & 1 == 1
    }

    predicate IsZero() {
      raw == 0
    }

    /** Whether lane `b` is set, found by shifting right `b` times. */
    predicate Bit(b: nat)
      decreases b
    {
      if b == 0 then Low() else Half().Bit(b - 1)
    }

    /** The set of lanes whose bit is 1. */
    ghost function Lanes(): set<nat> {
      set b | 0 <= b < 64 && Bit(b)
    }
  }

  const Zero := Word(0)

  /** `1ULL << b`, by doubling `b` times. */
  function LaneBit(b: nat): Word {
    if b == 0 then Word(1) else LaneBit(b - 1).Twice()
  }

  /** The mask of the first k lanes, computed without a shift by 64. */
  function ActiveMask(k: int): Word {
    if k <= 0 then Zero
    else if k >= 64 then Word(0xFFFF_FFFF_FFFF_FFFF)
    else LaneBit(k).Decrement()
  }

  /** The bits of `w` all lie in the first `k` lanes: `(w & ~active_mask) == 0`. */
  predicate Within(w: Word, k: nat) {
    w.Minus(ActiveMask(k)).IsZero()
  }

  function PopCount(w: Word): nat
    decreases w.raw
  {
    if w.IsZero() then 0
    else
      HalfIsSmaller(w);
      (if w.Low() then 1 else 0) + PopCount(w.Half())
  }

  // ---- Bitwise operators, one halving at a time ----

  lemma HalfIsSmaller(w: Word)
    requires !w.IsZero()
    ensures w.Half().raw < w.raw
  {
  }

  lemma AndHalf(x: Word, y: Word)
    ensures x.And(y).Half() == x.Half().And(y.Half())
    ensures x.And(y).Low() <==> x.Low() && y.Low()
  {
  }

  lemma OrHalf(x: Word, y: Word)
    ensures x.Or(y).Half() == x.Half().Or(y.Half())
    ensures x.Or(y).Low() <==> x.Low() || y.Low()
  {
  }

  lemma MinusHalf(x: Word, y: Word)
    ensures x.Minus(y).Half() == x.Half().Minus(y.Half())
    ensures x.Minus(y).Low() <==> x.Low() && !y.Low()
  {
  }

  lemma {:induction false} BitAnd(x: Word, y: Word, b: nat)
    ensures x.And(y).Bit(b) <==> x.Bit(b) && y.Bit(b)
    decreases b
  {
    AndHalf(x, y);
    if b > 0 {
      BitAnd(x.Half(), y.Half(), b - 1);
    }
  }

  lemma {:induction false} BitOr(x: Word, y: Word, b: nat)
    ensures x.Or(y).Bit(b) <==> x.Bit(b) || y.Bit(b)
    decreases b
  {
    OrHalf(x, y);
    if b > 0 {
      BitOr(x.Half(), y.Half(), b - 1);
    }
  }

  lemma {:induction false} BitMinus(x: Word, y: Word, b: nat)
    ensures x.Minus(y).Bit(b) <==> x.Bit(b) && !y.Bit(b)
    decreases b
  {
    MinusHalf(x, y);
    if b > 0 {
      BitMinus(x.Half(), y.Half(), b - 1);
    }
  }

  lemma {:induction false} BitZero(b: nat)
    ensures !Zero.Bit(b)
    decreases b
  {
    assert Zero.Half() == Zero;
    if b > 0 {
      BitZero(b - 1);
    }
  }

  // ---- Single bits and active masks ----

  predicate Hot(w: Word) {
    !w.IsZero() && w.raw & (w.raw - 1) == 0
  }

  lemma TwiceHot(w: Word)
    requires Hot(w) && !w.Twice().IsZero()
    ensures Hot(w.Twice())
    ensures w.Twice().Half() == w && !w.Twice().Low()
    ensures w.Twice().Decrement().Half() == w.Decrement()
    ensures w.Twice().Decrement().Low()
  {
  }

  lemma LaneBitPlus3(b: nat, w: Word)
    requires LaneBit(b) == w
    ensures LaneBit(b + 3) == w.Twice().Twice().Twice()
  {
    assert LaneBit(b + 1) == w.Twice();
    assert LaneBit(b + 2) == w.Twice().Twice();
  }

  lemma LaneBitPlus9(b: nat, w: Word)
    requires LaneBit(b) == w
    ensures LaneBit(b + 9) == w.Twice().Twice().Twice().Twice().Twice().Twice().Twice().Twice().Twice()
  {
    LaneBitPlus3(b, w);
    LaneBitPlus3(b + 3, LaneBit(b + 3));
    LaneBitPlus3(b + 6, LaneBit(b + 6));
  }

  lemma LaneBitTop()
    ensures LaneBit(63) == Word(0x8000_0000_0000_0000)
  {
    LaneBitPlus9(0, Word(1));
    LaneBitPlus9(9, Word(0x200));
    LaneBitPlus9(18, Word(0x4_0000));
    LaneBitPlus9(27, Word(0x800_0000));
    LaneBitPlus9(36, Word(0x10_0000_0000));
    LaneBitPlus9(45, Word(0x2000_0000_0000));
    LaneBitPlus9(54, Word(0x40_0000_0000_0000));
  }

  lemma {:induction false} LaneBitNonzero(b: nat)
    requires b < 64
    ensures !LaneBit(b).IsZero()
    decreases 64 - b
  {
    if b == 63 {
      LaneBitTop();
    } else {
      LaneBitNonzero(b + 1);
    }
  }

  lemma {:induction false} LaneBitHot(b: nat)
    requires b < 64
    ensures Hot(LaneBit(b))
  {
    LaneBitNonzero(b);
    if b > 0 {
      LaneBitHot(b - 1);
      TwiceHot(LaneBit(b - 1));
    }
  }

  lemma LaneBitHalf(b: nat)
    requires 0 < b < 64
    ensures LaneBit(b).Half() == LaneBit(b - 1) && !LaneBit(b).Low()
    ensures LaneBit(b).Decrement().Half() == LaneBit(b - 1).Decrement()
    ensures LaneBit(b).Decrement().Low()
  {
    LaneBitHot(b - 1);
    LaneBitNonzero(b);
    TwiceHot(LaneBit(b - 1));
  }

  lemma {:induction false} BitLaneBit(b: nat, c: nat)
    requires b < 64
    ensures LaneBit(b).Bit(c) <==> b == c
    decreases c
  {
    if b == 0 {
      assert Word(1).Half() == Zero;
      if c > 0 {
        BitZero(c - 1);
      }
    } else {
      LaneBitHalf(b);
      if c > 0 {
        BitLaneBit(b - 1, c - 1);
      }
    }
  }

  lemma ActiveMaskHalf(k: nat)
    requires 0 < k <= 64
    ensures ActiveMask(k).Low()
    ensures ActiveMask(k).Half() == ActiveMask(k - 1)
  {
    if k == 64 {
      LaneBitTop();
    } else {
      LaneBitHalf(k);
    }
  }

  lemma {:induction false} BitActiveMask(k: nat, b: nat)
    requires k <= 64
    ensures ActiveMask(k).Bit(b) <==> b < k
    decreases b
  {
    if k == 0 {
      BitZero(b);
    } else {
      ActiveMaskHalf(k);
      if b > 0 {
        BitActiveMask(k - 1, b - 1);
      }
    }
  }

  /** The value of a word, read off its bits. */
  function Value(w: Word, n: nat): nat
    decreases n
  {
    if n == 0 then 0 else (if w.Low() then 1 else 0) + 2 * Value(w.Half(), n - 1)
  }

  lemma {:induction false} ZeroValue(n: nat)
    ensures Value(Zero, n) == 0
  {
    assert Zero.Half() == Zero;
    if n > 0 {
      ZeroValue(n - 1);
    }
  }

  /** active_mask(k) is 2^min(k,64) - 1 even where `1 << k` would be undefined. */
  lemma {:induction false} ActiveMaskValue(k: nat, n: nat)
    requires k <= n
    requires n <= 64
    ensures Value(ActiveMask(k), n) == Binary.Pow2(k) - 1
    decreases n
  {
    if k == 0 {
      ZeroValue(n);
    } else {
      ActiveMaskHalf(k);
      ActiveMaskValue(k - 1, n - 1);
    }
  }

  /** All three cases of the definition: 2^min(k,64) - 1, and 0 for k <= 0. */
  lemma {:induction false} ActiveMaskOfAny(k: int)
    ensures Value(ActiveMask(k), 64) == Binary.Pow2(if k <= 0 then 0 else if k >= 64 then 64 else k) - 1
  {
    var lanes := if k <= 0 then 0 else if k >= 64 then 64 else k;
    assert ActiveMask(k) == ActiveMask(lanes);
    ActiveMaskValue(lanes, 64);
  }

  /** The number's bits are the word's lanes. */
  lemma {:induction false} BitOfValue(w: Word, n: nat, b: nat)
    ensures Binary.Bit(Value(w, n), b) <==> b < n && w.Bit(b)
    decreases n
  {
    if n == 0 {
      Binary.BitOfZero(b);
    } else {
      var v := Value(w.Half(), n - 1);
      assert Value(w, n) / 2 == v && Value(w, n) % 2 == (if w.Low() then 1 else 0);
      if b > 0 {
        BitOfValue(w.Half(), n - 1, b - 1);
      }
    }
  }

  /** The word of the low `width` bits of a number. */
  function WordOf(n: nat, width: nat): Word {
    if width == 0 then Zero
    else if Binary.Bit(n, width - 1) then WordOf(n, width - 1).Or(LaneBit(width - 1))
    else WordOf(n, width - 1)
  }

  lemma {:induction false} BitOfWordOf(n: nat, width: nat, b: nat)
    requires width <= 64
    ensures WordOf(n, width).Bit(b) <==> b < width && Binary.Bit(n, b)
  {
    if width == 0 {
      BitZero(b);
    } else {
      BitOfWordOf(n, width - 1, b);
      BitOr(WordOf(n, width - 1), LaneBit(width - 1), b);
      BitLaneBit(width - 1, b);
    }
  }

  // ---- Words as sets of lanes ----

  lemma WithinHalf(w: Word, k: nat)
    requires 0 < k <= 64
    requires Within(w, k)
    ensures Within(w.Half(), k - 1)
  {
    ActiveMaskHalf(k);
    MinusHalf(w, ActiveMask(k));
    assert Zero.Half() == Zero;
  }

  lemma WithinAll(w: Word)
    ensures Within(w, 64)
  {
  }

  lemma WithinNone(w: Word)
    requires Within(w, 0)
    ensures w == Zero
  {
  }

  /** A nonzero word has a set bit. */
  lemma {:induction false} SomeBit(w: Word, k: nat) returns (b: nat)
    requires k <= 64
    requires Within(w, k)
    requires !w.IsZero()
    ensures b < k
    ensures w.Bit(b)
    decreases k
  {
    if k == 0 {
      WithinNone(w);
      assert false;
    } else if w.Low() {
      b := 0;
    } else {
      WithinHalf(w, k);
      NonzeroHalf(w);
      b := SomeBit(w.Half(), k - 1);
      b := b + 1;
    }
  }

  lemma NonzeroHalf(w: Word)
    requires !w.IsZero() && !w.Low()
    ensures !w.Half().IsZero()
  {
  }

  lemma {:induction false} NoBitBeyond(w: Word, k: nat, b: nat)
    requires k <= b
    requires k <= 64
    requires Within(w, k)
    ensures !w.Bit(b)
    decreases k
  {
    if k == 0 {
      WithinNone(w);
      BitZero(b);
    } else {
      WithinHalf(w, k);
      NoBitBeyond(w.Half(), k - 1, b - 1);
    }
  }

  lemma {:induction false} BitIsLane(w: Word, b: nat)
    ensures b in w.Lanes() <==> w.Bit(b)
  {
    WithinAll(w);
    if b >= 64 {
      NoBitBeyond(w, 64, b);
    }
  }

  /** Words with the same bits are equal. */
  lemma SameBits(x: Word, y: Word)
    requires x.Lanes() == y.Lanes()
    ensures x == y
  {
    if x != y {
      DifferSomewhere(x, y);
      var d := if x.Minus(y).IsZero() then y.Minus(x) else x.Minus(y);
      WithinAll(d);
      var b := SomeBit(d, 64);
      BitMinus(x, y, b);
      BitMinus(y, x, b);
      BitIsLane(x, b);
      BitIsLane(y, b);
    }
  }

  lemma DifferSomewhere(x: Word, y: Word)
    requires x != y
    ensures !x.Minus(y).IsZero() || !y.Minus(x).IsZero()
  {
  }

  lemma ZeroLanes(w: Word)
    ensures w.IsZero() <==> w.Lanes() == {}
  {
    if w.IsZero() {
      assert w == Zero;
      forall b: nat ensures !w.Bit(b) {
        BitZero(b);
      }
    } else {
      WithinAll(w);
      var b := SomeBit(w, 64);
      assert b in w.Lanes();
    }
  }

  lemma OrLanes(x: Word, y: Word)
    ensures x.Or(y).Lanes() == x.Lanes() + y.Lanes()
  {
    forall b: nat ensures x.Or(y).Bit(b) <==> x.Bit(b) || y.Bit(b) {
      BitOr(x, y, b);
    }
  }

  lemma AndLanes(x: Word, y: Word)
    ensures x.And(y).Lanes() == x.Lanes() * y.Lanes()
  {
    forall b: nat ensures x.And(y).Bit(b) <==> x.Bit(b) && y.Bit(b) {
      BitAnd(x, y, b);
    }
  }

  lemma MinusLanes(x: Word, y: Word)
    ensures x.Minus(y).Lanes() == x.Lanes() - y.Lanes()
  {
    forall b: nat ensures x.Minus(y).Bit(b) <==> x.Bit(b) && !y.Bit(b) {
      BitMinus(x, y, b);
    }
  }

  lemma {:induction false} LaneBitLanes(b: nat)
    requires b < 64
    ensures LaneBit(b).Lanes() == {b}
  {
    forall c: nat ensures LaneBit(b).Bit(c) <==> b == c {
      BitLaneBit(b, c);
    }
  }

  /** The lanes 0, ..., k - 1. */
  ghost function FirstLanes(k: nat): (s: set<nat>)
    ensures forall b :: b in s <==> 0 <= b < k
    ensures |s| == k
  {
    if k == 0 then {} else FirstLanes(k - 1) + {k - 1}
  }

  lemma {:induction false} ActiveMaskLanes(k: nat)
    requires k <= 64
    ensures ActiveMask(k).Lanes() == FirstLanes(k)
  {
    forall b: nat ensures ActiveMask(k).Bit(b) <==> b < k {
      BitActiveMask(k, b);
    }
  }

  /** `(w & ~active_mask(k)) == 0` says exactly that w sets no lane from k up. */
  lemma {:induction false} WithinLanes(w: Word, k: nat)
    requires k <= 64
    ensures Within(w, k) <==> w.Lanes() <= FirstLanes(k)
  {
    MinusLanes(w, ActiveMask(k));
    ActiveMaskLanes(k);
    ZeroLanes(w.Minus(ActiveMask(k)));
    assert w.Lanes() <= FirstLanes(k) <==> w.Lanes() - FirstLanes(k) == {};
  }

  // ---- Population count ----

  ghost function Shifted(s: set<nat>): set<nat> {
    set b | b in s :: b + 1
  }

  lemma {:induction false} ShiftedSize(s: set<nat>)
    ensures |Shifted(s)| == |s|
  {
    if s != {} {
      var b :| b in s;
      assert s == (s - {b}) + {b};
      assert Shifted(s) == Shifted(s - {b}) + {b + 1};
      ShiftedSize(s - {b});
    }
  }

  /** The population count of a word is the number of lanes it sets. */
  lemma {:induction false} PopCountIsSize(w: Word)
    ensures PopCount(w) == |w.Lanes()|
    decreases w.raw
  {
    ZeroLanes(w);
    if !w.IsZero() {
      HalfIsSmaller(w);
      PopCountIsSize(w.Half());
      LanesHalf(w);
      ShiftedSize(w.Half().Lanes());
      assert 0 !in Shifted(w.Half().Lanes());
    }
  }

  lemma LanesHalf(w: Word)
    ensures w.Lanes() == Shifted(w.Half().Lanes()) + (if w.Low() then {0} else {})
  {
    forall b: nat ensures b in w.Lanes() <==> w.Bit(b) {
      BitIsLane(w, b);
    }
    forall b: nat ensures b in w.Half().Lanes() <==> w.Half().Bit(b) {
      BitIsLane(w.Half(), b);
    }
    forall b: nat | b in w.Lanes() && b > 0 ensures b in Shifted(w.Half().Lanes()) {
      assert w.Half().Bit(b - 1);
      assert b - 1 in w.Half().Lanes();
    }
  }

  // ---- Numbers as sets of lanes ----

  /** The lanes below 64 named by the bits of a register's integer. */
  ghost function NumberLanes(n: nat): set<nat> {
    set b | 0 <= b < 64 && Binary.Bit(n, b)
  }

  lemma {:induction false} WordOfLanes(n: nat)
    ensures WordOf(n, 64).Lanes() == NumberLanes(n)
  {
    forall b: nat ensures b in WordOf(n, 64).Lanes() <==> b in NumberLanes(n) {
      BitOfWordOf(n, 64, b);
    }
  }

  lemma {:induction false} BitOfNumber(w: Word, b: nat)
    ensures Binary.Bit(Value(w, 64), b) <==> w.Bit(b)
  {
    BitOfValue(w, 64, b);
    BitIsLane(w, b);
  }

  lemma {:induction false} ValueIsZero(w: Word)
    ensures Value(w, 64) == 0 <==> w.IsZero()
  {
    ZeroLanes(w);
    if w.IsZero() {
      ZeroValue(64);
    } else {
      var b :| b in w.Lanes();
      BitOfValue(w, 64, b);
      Binary.BitOfZero(b);
    }
  }
}
