/** Little-endian integers in byte strings. */
module Bytes {

  /** A byte as a number below 256. */
  newtype byte = x: int | 0 <= x < 256

  ghost function Pow256(n: nat): nat {
    if n == 0 then 1 else 256 * Pow256(n - 1)
  }

  /** Byte i of v, the least significant being byte 0. */
  function ByteAt(v: nat, i: nat): byte
    decreases i
  {
    if i == 0 then (v % 256) as byte else ByteAt(v / 256, i - 1)
  }

  /** The n low bytes of v, least significant first. */
  function Le(v: nat, n: nat): (s: seq<byte>)
    ensures |s| == n
  {
    seq(n, (i: nat) => ByteAt(v, i))
  }

  /** The number a byte string stands for, least significant byte first. */
  function FromLe(s: seq<byte>): nat {
    if s == [] then 0 else s[0] as nat + 256 * FromLe(s[1..])
  }

  lemma QuotientTwice(v: nat, p: nat)
    requires p > 0
    ensures v / 256 / p == v / (256 * p)
  {
    var a, r := v / 256, v % 256;
    var q, t := a / p, a % p;
    assert v == 256 * (p * q + t) + r == (256 * p) * q + (256 * t + r) by {
      assert a == p * q + t && v == 256 * a + r;
      assert 256 * (p * q) == (256 * p) * q;
    }
    DivModUnique(v, 256 * p, q, 256 * t + r);
  }

  /** Byte i is the i-th digit to base 256, so the least significant comes first. */
  lemma {:induction false} LeDigits(v: nat, n: nat, i: nat)
    requires i < n
    ensures Pow256(i) > 0 && Le(v, n)[i] as nat == v / Pow256(i) % 256
  {
    if i > 0 {
      LeDigits(v / 256, n - 1, i - 1);
      QuotientTwice(v, Pow256(i - 1));
    }
  }

  /** Reading back gives the value modulo 256^n, hence the value itself exactly when it fits. */
  lemma {:induction false} FromLeLe(v: nat, n: nat)
    ensures FromLe(Le(v, n)) < Pow256(n)
    ensures FromLe(Le(v, n)) == v <==> v < Pow256(n)
  {
    if n > 0 {
      FromLeLe(v / 256, n - 1);
      assert Le(v, n)[1..] == Le(v / 256, n - 1);
    }
  }

  lemma Pow256Values()
    ensures Pow256(1) == 0x100 && Pow256(2) == 0x1_0000 && Pow256(4) == 0x1_0000_0000
    ensures Pow256(8) == 0x1_0000_0000_0000_0000
  {
    assert Pow256(2) == 256 * Pow256(1);
    assert Pow256(3) == 256 * Pow256(2);
    assert Pow256(4) == 256 * Pow256(3);
    assert Pow256(5) == 256 * Pow256(4);
    assert Pow256(6) == 256 * Pow256(5);
    assert Pow256(7) == 256 * Pow256(6);
  }

  /** The bytes of data from `at` on, n of them. */
  function Slice(data: seq<byte>, at: nat, n: nat): (s: seq<byte>)
    requires at + n <= |data|
    ensures |s| == n
  {
    data[at..at + n]
  }

  lemma SliceSlice(data: seq<byte>, a: nat, m: nat, b: nat, n: nat)
    requires a + m <= |data| && b + n <= m
    ensures Slice(Slice(data, a, m), b, n) == Slice(data, a + b, n)
  {
    forall i | 0 <= i < n ensures Slice(Slice(data, a, m), b, n)[i] == Slice(data, a + b, n)[i] {
      assert Slice(data, a, m)[b + i] == data[a + (b + i)];
    }
  }

  lemma SliceLeft(x: seq<byte>, y: seq<byte>, at: nat, n: nat)
    requires at + n <= |x|
    ensures Slice(x + y, at, n) == Slice(x, at, n)
  {
  }

  lemma SliceRight(x: seq<byte>, y: seq<byte>, at: nat, n: nat)
    requires |x| <= at && at + n <= |x| + |y|
    ensures Slice(x + y, at, n) == Slice(y, at - |x|, n)
  {
  }

  /** The smallest multiple of align that is at least n. */
  function RoundUp(n: nat, align: nat): nat
    requires align > 0
  {
    if n % align == 0 then n else n + (align - n % align)
  }

  lemma RoundUpIs(n: nat, align: nat)
    requires align > 0
    ensures RoundUp(n, align) % align == 0
    ensures n <= RoundUp(n, align) < n + align
  {
    var q, r := n / align, n % align;
    assert n == align * q + r;
    if r != 0 {
      assert RoundUp(n, align) == align * (q + 1) + 0 by {
        Distribute(align, q);
      }
      DivModUnique(RoundUp(n, align), align, q + 1, 0);
    }
  }

  lemma Distribute(d: int, q: int)
    ensures d * (q + 1) == d * q + d
  {
  }

  lemma MulAtLeast(d: nat, k: int)
    requires k >= 1
    ensures d * k >= d
  {
  }

  /** Quotient and remainder are determined by x == d * q + r. */
  lemma DivModUnique(x: nat, d: nat, q: int, r: nat)
    requires d > 0 && r < d
    requires x == d * q + r
    ensures x / d == q && x % d == r
  {
    var q', r' := x / d, x % d;
    assert x == d * q' + r';
    Difference(d, q, q', r, r');
    if q' > q {
      MulAtLeast(d, q' - q);
    } else if q > q' {
      MulAtLeast(d, q - q');
    }
  }

  lemma Difference(d: int, q: int, q': int, r: int, r': int)
    requires d * q + r == d * q' + r'
    ensures d * (q' - q) == r - r'
    ensures d * (q - q') == r' - r
  {
  }

  function ZeroBytes(n: nat): (z: seq<byte>)
    ensures |z| == n
  {
    seq(n, _ => 0)
  }

  /** buf followed by zero bytes up to the next multiple of align. */
  function Aligned(buf: seq<byte>, align: nat): (r: seq<byte>)
    requires align > 0
    ensures |r| == RoundUp(|buf|, align)
  {
    buf + ZeroBytes(RoundUp(|buf|, align) - |buf|)
  }
}
