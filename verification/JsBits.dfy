/**
 * JavaScript's bitwise operators on 32-bit integers, as arithmetic on the
 * unsigned value of the bit pattern, and bit strings to say what they compute.
 */
module JsBits {
  function Pow2(n: nat): (r: nat)
    ensures r > 0
  {
    if n == 0 then 1 else 2 * Pow2(n - 1)
  }

  const TWO_32: nat := 0x1_0000_0000

  type Word = w: int | 0 <= w < TWO_32

  function BitAnd(a: nat, b: nat): (r: nat)
    ensures r <= a && r <= b
  {
    if a == 0 || b == 0 then 0
    else 2 * BitAnd(a / 2, b / 2) + if a % 2 == 1 && b % 2 == 1 then 1 else 0
  }

  function BitOr(a: nat, b: nat): (r: nat)
    ensures r <= a + b
  {
    if a == 0 then b else if b == 0 then a
    else 2 * BitOr(a / 2, b / 2) + if a % 2 == 1 || b % 2 == 1 then 1 else 0
  }

  function BitXor(a: nat, b: nat): (r: nat)
    ensures r <= a + b
  {
    if a == 0 then b else if b == 0 then a
    else 2 * BitXor(a / 2, b / 2) + (a % 2 + b % 2) % 2
  }

  /** `x << k`: the pattern moves left and wraps at 32 bits. */
  function Shl(x: Word, k: nat): Word {
    (x * Pow2(k)) % TWO_32
  }

  /** `x >>> k`, a quotient by a power of two */
  function Ushr(x: nat, k: nat): (q: nat)
    ensures q <= x
  {
    DivMod(x, Pow2(k));
    x / Pow2(k)
  }

  lemma DivMod(x: nat, m: nat)
    requires m > 0
    ensures x == (x / m) * m + x % m && 0 <= x % m < m
    ensures 0 <= x / m <= x
  {
    MulGrows(x / m, m);
  }

  lemma MulAssoc(a: int, b: int, c: int)
    ensures (a * b) * c == a * (b * c)
  {
  }

  lemma MulSum(a: int, b: int, c: int)
    ensures (a + b) * c == a * c + b * c
  {
  }

  lemma MulGrows(q: nat, m: int)
    requires m > 0
    ensures q <= q * m
  {
    assert q * (m - 1) >= 0;
  }

  lemma NonZeroMul(d: int, m: int)
    requires m > 0 && d != 0
    ensures d * m >= m || d * m <= -m
  {
    if d > 0 {
      assert (d - 1) * m >= 0;
    } else {
      assert (-d - 1) * m >= 0;
    }
  }

  lemma {:induction false} Pow2Add(a: nat, b: nat)
    ensures Pow2(a + b) == Pow2(a) * Pow2(b)
  {
    if a > 0 {
      Pow2Add(a - 1, b);
    }
  }

  lemma {:induction false} XorSelfInverse(a: nat, k: nat)
    ensures BitXor(BitXor(a, k), k) == a
  {
    hide BitXor;
    if a == 0 {
      XorZero(k);
      XorSame(k);
    } else {
      XorSelfInverse(a / 2, k / 2);
      XorHalves(BitXor(a, k), k);
      XorHalves(a, k);
    }
  }

  lemma XorZero(k: nat)
    ensures BitXor(0, k) == k
  {
  }

  lemma XorHalves(a: nat, k: nat)
    ensures BitXor(a, k) / 2 == BitXor(a / 2, k / 2)
    ensures BitXor(a, k) % 2 == (a % 2 + k % 2) % 2
  {
  }

  lemma {:induction false} XorSame(k: nat)
    ensures BitXor(k, k) == 0
  {
    if k != 0 {
      XorSame(k / 2);
    }
  }

  lemma {:induction false} XorBound(a: nat, b: nat, n: nat)
    requires a < Pow2(n) && b < Pow2(n)
    ensures BitXor(a, b) < Pow2(n)
  {
    if a != 0 && b != 0 {
      XorBound(a / 2, b / 2, n - 1);
    }
  }

  lemma AndOdd(x: nat, m: nat)
    requires x > 0
    ensures BitAnd(x, 2 * m + 1) == 2 * BitAnd(x / 2, m) + x % 2
  {
    assert (2 * m + 1) / 2 == m && (2 * m + 1) % 2 == 1;
  }

  lemma AndZero(x: nat)
    ensures BitAnd(x, 0) == 0 == BitAnd(0, x)
  {
  }

  /** Masking with k low ones keeps the remainder. */
  lemma {:induction false} AndLowMask(x: nat, k: nat)
    ensures BitAnd(x, Pow2(k) - 1) == x % Pow2(k)
  {
    hide BitAnd, Pow2;
    if k > 0 && x > 0 {
      AndLowMask(x / 2, k - 1);
      Pow2Double(k);
      var p := Pow2(k - 1);
      HalfMod(x, p);
      AndOdd(x, p - 1);
    } else {
      Pow2Zero();
      AndZero(x);
      AndZero(Pow2(k) - 1);
      ModIs(0, Pow2(k), 0, 0);
    }
  }

  lemma HalfMod(x: nat, p: nat)
    requires p > 0
    ensures x % (2 * p) == 2 * ((x / 2) % p) + x % 2
  {
    var q, r := (x / 2) / p, (x / 2) % p;
    DivMod(x / 2, p);
    assert x == 2 * (q * p + r) + x % 2;
    assert x == q * (2 * p) + (2 * r + x % 2);
    ModIs(x, 2 * p, q, 2 * r + x % 2);
  }

  lemma ModIs(x: int, m: int, q: int, r: int)
    requires m > 0 && 0 <= r < m && x == q * m + r
    ensures x % m == r && x / m == q
  {
    var d := x / m - q;
    assert x == (x / m) * m + x % m;
    assert d * m == (x / m) * m - q * m;
    if d != 0 {
      NonZeroMul(d, m);
    }
  }

  lemma AndDouble(x: nat, m: nat)
    ensures BitAnd(x, 2 * m) == 2 * BitAnd(x / 2, m)
  {
    if x > 0 && m > 0 {
      assert (2 * m) / 2 == m && (2 * m) % 2 == 0;
    }
  }

  lemma Pow2Double(n: nat)
    requires n > 0
    ensures Pow2(n) == 2 * Pow2(n - 1)
  {
  }

  lemma Pow2Zero()
    ensures Pow2(0) == 1
  {
  }

  /** Masking with ones above position k drops the remainder. */
  lemma {:induction false} AndHighMask(x: nat, k: nat, n: nat)
    requires k <= n && x < Pow2(n)
    ensures Pow2(n) >= Pow2(k)
    ensures BitAnd(x, Pow2(n) - Pow2(k)) == x - x % Pow2(k)
  {
    hide BitAnd, Pow2;
    Pow2Grows(k, n);
    if k == 0 {
      Pow2Zero();
      AndLowMask(x, n);
      ModIs(x, Pow2(n), 0, x);
    } else {
      Pow2Double(k);
      Pow2Double(n);
      AndHighMask(x / 2, k - 1, n - 1);
      var m := Pow2(n - 1) - Pow2(k - 1);
      assert Pow2(n) - Pow2(k) == 2 * m;
      HalfMod(x, Pow2(k - 1));
      AndDouble(x, m);
    }
  }

  lemma {:induction false} Pow2Grows(k: nat, n: nat)
    requires k <= n
    ensures Pow2(k) <= Pow2(n)
  {
    if k < n {
      Pow2Grows(k, n - 1);
    }
  }

  /** Or-ing a value into bits that are all zero adds it. */
  lemma {:induction false} OrDisjoint(x: nat, y: nat, k: nat)
    requires x % Pow2(k) == 0 && y < Pow2(k)
    ensures BitOr(x, y) == x + y
  {
    if x != 0 && y != 0 {
      HalfMod(x, Pow2(k - 1));
      OrDisjoint(x / 2, y / 2, k - 1);
    }
  }

  // ---- Bit strings

  /** The n low bits of v, most significant first. */
  function Bits(v: nat, n: nat): (r: seq<nat>)
    ensures |r| == n
  {
    if n == 0 then [] else Bits(v / 2, n - 1) + [v % 2]
  }

  function Zeros(n: nat): seq<nat> { seq(n, _ => 0) }

  lemma {:induction false} BitsConcat(a: nat, n: nat, b: nat, m: nat)
    requires b < Pow2(m)
    ensures Bits(a * Pow2(m) + b, n + m) == Bits(a, n) + Bits(b, m)
  {
    if m > 0 {
      var p := Pow2(m - 1);
      assert a * (2 * p) == 2 * (a * p);
      assert (a * Pow2(m) + b) / 2 == a * p + b / 2;
      assert (a * Pow2(m) + b) % 2 == b % 2;
      BitsConcat(a, n, b / 2, m - 1);
      assert Bits(a, n) + (Bits(b / 2, m - 1) + [b % 2]) == (Bits(a, n) + Bits(b / 2, m - 1)) + [b % 2];
    } else {
      assert Bits(b, 0) == [];
    }
  }

  /** The low n bits depend only on the value modulo 2^n. */
  lemma {:induction false} BitsMod(v: nat, n: nat)
    ensures Bits(v, n) == Bits(v % Pow2(n), n)
  {
    if n > 0 {
      HalfMod(v, Pow2(n - 1));
      BitsMod(v / 2, n - 1);
      var w := v % Pow2(n);
      assert w / 2 == (v / 2) % Pow2(n - 1) && w % 2 == v % 2;
    }
  }

  lemma {:induction false} BitsSplit(v: nat, n: nat, m: nat)
    ensures Bits(v, n + m) == Bits(Ushr(v, m), n) + Bits(v, m)
  {
    var p := Pow2(m);
    DivMod(v, p);
    SplitAt(v, n, m, Ushr(v, m), v % p);
    BitsMod(v, m);
  }

  lemma SplitAt(v: nat, n: nat, m: nat, q: nat, r: nat)
    requires v == q * Pow2(m) + r && r < Pow2(m)
    ensures Bits(v, n + m) == Bits(q, n) + Bits(r, m)
  {
    BitsConcat(q, n, r, m);
  }

  lemma {:induction false} BitsInjective(a: nat, b: nat, n: nat)
    requires a < Pow2(n) && b < Pow2(n) && Bits(a, n) == Bits(b, n)
    ensures a == b
  {
    if n > 0 {
      assert Bits(a, n)[..n - 1] == Bits(a / 2, n - 1) && Bits(b, n)[..n - 1] == Bits(b / 2, n - 1);
      assert Bits(a, n)[n - 1] == a % 2 && Bits(b, n)[n - 1] == b % 2;
      BitsInjective(a / 2, b / 2, n - 1);
    }
  }

  lemma {:induction false} BitsOfZero(n: nat)
    ensures Bits(0, n) == Zeros(n)
  {
    if n > 0 {
      BitsOfZero(n - 1);
      assert Zeros(n) == Zeros(n - 1) + [0];
    }
  }

  /** Bit by bit: and, or and exclusive or of the bits in the same place. */
  lemma {:induction false} BitwiseExactly(a: nat, b: nat, n: nat)
    ensures forall i :: 0 <= i < n ==>
              var x, y := Bits(a, n)[i], Bits(b, n)[i];
              && (x == 0 || x == 1) && (y == 0 || y == 1)
              && Bits(BitAnd(a, b), n)[i] == (if x == 1 && y == 1 then 1 else 0)
              && Bits(BitOr(a, b), n)[i] == (if x == 1 || y == 1 then 1 else 0)
              && Bits(BitXor(a, b), n)[i] == (if x != y then 1 else 0)
  {
    hide BitAnd, BitOr, BitXor;
    if n > 0 {
      BitwiseExactly(a / 2, b / 2, n - 1);
      Halves(a, b);
    }
  }

  lemma Halves(a: nat, b: nat)
    ensures BitAnd(a, b) / 2 == BitAnd(a / 2, b / 2)
    ensures BitAnd(a, b) % 2 == if a % 2 == 1 && b % 2 == 1 then 1 else 0
    ensures BitOr(a, b) / 2 == BitOr(a / 2, b / 2)
    ensures BitOr(a, b) % 2 == if a % 2 == 1 || b % 2 == 1 then 1 else 0
    ensures BitXor(a, b) / 2 == BitXor(a / 2, b / 2) && BitXor(a, b) % 2 == (a % 2 + b % 2) % 2
  {
    hide BitAnd, BitOr, BitXor;
    AndHalves(a, b);
    OrHalves(a, b);
    XorHalves(a, b);
  }

  lemma AndHalves(a: nat, b: nat)
    ensures BitAnd(a, b) / 2 == BitAnd(a / 2, b / 2)
    ensures BitAnd(a, b) % 2 == if a % 2 == 1 && b % 2 == 1 then 1 else 0
  {
  }

  lemma OrHalves(a: nat, b: nat)
    ensures BitOr(a, b) / 2 == BitOr(a / 2, b / 2)
    ensures BitOr(a, b) % 2 == if a % 2 == 1 || b % 2 == 1 then 1 else 0
  {
  }

  /** Shifting left by k places drops k bits of the thirty-two and brings in zeros. */
  lemma ShlExactly(x: Word, k: nat)
    requires k <= 32
    ensures Bits(Shl(x, k), 32) == Bits(x, 32)[k..] + Zeros(k)
  {
    TwoTo32();
    BitsMod(x * Pow2(k), 32);
    BitsConcat(x, 32 - k, 0, k);
    BitsOfZero(k);
    BitsSplitAt(x, k);
  }

  lemma TwoTo32()
    ensures Pow2(32) == TWO_32
  {
    assert Pow2(8) == 256;
    Pow2Add(8, 8);
    Pow2Add(16, 16);
  }

  lemma BitsSplitAt(x: nat, k: nat)
    requires k <= 32
    ensures Bits(x, 32 - k) == Bits(x, 32)[k..]
  {
    BitsSplit(x, k, 32 - k);
  }
}
