/** Machine-word arithmetic that the containers rely on: unsigned wrap-around
    of 32- and 64-bit words, powers of two, and bitwise AND / NOT written out on
    natural numbers. */
module Bits {

  /** 2^32, the modulus of `uint32_t` arithmetic. */
  const WORD32: nat := 0x1_0000_0000
  /** 2^64, the modulus of `size_t` arithmetic on the targets the code is written for. */
  const WORD64: nat := 0x1_0000_0000_0000_0000

  type u32 = x: int | 0 <= x < 0x1_0000_0000
  type u64 = x: int | 0 <= x < 0x1_0000_0000_0000_0000

  /** `a + b` on `uint32_t`. */
  function Add32(a: u32, b: u32): (r: u32)
    ensures a + b < WORD32 ==> r == a + b
    ensures a + b >= WORD32 ==> r == a + b - WORD32
  {
    (a + b) % WORD32
  }

  /** `a - b` on `uint32_t`: the difference modulo 2^32. */
  function Sub32(a: u32, b: u32): (r: u32)
    ensures a >= b ==> r == a - b
    ensures a < b ==> r == WORD32 + a - b
  {
    (a - b) % WORD32
  }

  /** `a + b` on `size_t`. */
  function Add64(a: u64, b: u64): (r: u64)
    ensures a + b < WORD64 ==> r == a + b
    ensures a + b >= WORD64 ==> r == a + b - WORD64
  {
    (a + b) % WORD64
  }

  /** `a - b` on `size_t`. */
  function Sub64(a: u64, b: u64): (r: u64)
    ensures a >= b ==> r == a - b
    ensures a < b ==> r == WORD64 + a - b
  {
    (a - b) % WORD64
  }

  /** `~a` on `size_t`: every one of the 64 bits flipped. */
  function BitNot64(a: u64): (r: u64)
    ensures r + a == WORD64 - 1
  {
    WORD64 - 1 - a
  }

  function Pow2(k: nat): (r: nat)
    ensures r >= 1
  {
    if k == 0 then 1 else 2 * Pow2(k - 1)
  }

  /** `a & b`: bit i of the result is set iff bit i is set in both operands. */
  function BitAnd(a: nat, b: nat): nat
  {
    if a == 0 || b == 0 then 0
    else 2 * BitAnd(a / 2, b / 2) + (if a % 2 == 1 && b % 2 == 1 then 1 else 0)
  }

  /** n is 2^k for some k. */
  ghost predicate IsPow2(n: nat)
  {
    exists k: nat :: Pow2(k) == n
  }

  lemma Pow2Of32()
    ensures Pow2(32) == WORD32
  {
    assert Pow2(1) == 2;
    Pow2Add(1, 1);
    Pow2Add(2, 2);
    Pow2Add(4, 4);
    Pow2Add(8, 8);
    Pow2Add(16, 16);
  }

  lemma Pow2Of64()
    ensures Pow2(64) == WORD64
  {
    Pow2Add(32, 32);
    Pow2Of32();
    assert WORD32 * WORD32 == WORD64;
  }

  lemma {:induction false} Pow2Add(a: nat, b: nat)
    ensures Pow2(a + b) == Pow2(a) * Pow2(b)
  {
    if a > 0 {
      Pow2Add(a - 1, b);
      assert Pow2(a + b) == 2 * Pow2(a - 1 + b);
    }
  }

  lemma {:induction false} Pow2Monotone(j: nat, k: nat)
    requires j < k
    ensures Pow2(j) < Pow2(k)
  {
    if j < k - 1 {
      Pow2Monotone(j, k - 1);
    }
  }

  lemma {:induction false} MulGap(d: int, a: int, b: int)
    requires d > 0 && a > b
    ensures d * a - d * b >= d
    decreases a - b
  {
    if a - 1 > b {
      MulGap(d, a - 1, b);
      assert d * a == d * (a - 1) + d;
    } else {
      assert d * a == d * b + d;
    }
  }

  /** x % d is the unique m in [0, d) with x == d * t + m. */
  lemma ModUnique(x: int, d: int, t: int, m: int)
    requires d > 0 && 0 <= m < d && x == d * t + m
    ensures x % d == m && x / d == t
  {
    var q, r := x / d, x % d;
    assert x == d * q + r;
    if t > q {
      MulGap(d, t, q);
    } else if t < q {
      MulGap(d, q, t);
    }
  }

  lemma ModHalf(x: nat, p: nat)
    requires p > 0
    ensures x % (2 * p) == 2 * ((x / 2) % p) + x % 2
  {
    var q := x / 2;
    assert q == p * (q / p) + q % p;
    assert x == (2 * p) * (q / p) + (2 * (q % p) + x % 2);
    ModUnique(x, 2 * p, q / p, 2 * (q % p) + x % 2);
  }

  /** Reducing modulo a multiple d * m of d and then modulo d is reducing modulo d. */
  lemma ModOfMultipleMod(x: int, d: int, m: int)
    requires d > 0 && m > 0
    ensures (x % (d * m)) % d == x % d
  {
    var r := x % (d * m);
    var q := x / (d * m);
    assert x == (d * m) * q + r;
    assert r == d * (r / d) + r % d;
    assert x == d * (m * q + r / d) + r % d;
    ModUnique(x, d, m * q + r / d, r % d);
  }

  lemma {:induction false} BitAndSelf(a: nat)
    ensures BitAnd(a, a) == a
  {
    if a != 0 {
      BitAndSelf(a / 2);
    }
  }

  lemma {:induction false} BitAndBounded(a: nat, b: nat)
    ensures BitAnd(a, b) <= a && BitAnd(a, b) <= b
  {
    if a != 0 && b != 0 {
      BitAndBounded(a / 2, b / 2);
    }
  }

  /** Masking with 2^k - 1 keeps the low k bits: `x & (2^k - 1) == x % 2^k`. */
  lemma {:induction false} MaskIsMod(x: nat, k: nat)
    ensures BitAnd(x, Pow2(k) - 1) == x % Pow2(k)
    decreases k
  {
    if k > 0 && x != 0 {
      var j: nat := k - 1;
      MaskIsMod(x / 2, j);
      MaskInduct(x, j, k);
    }
  }

  lemma MaskInduct(x: nat, j: nat, k: nat)
    requires k == j + 1 && BitAnd(x / 2, Pow2(j) - 1) == (x / 2) % Pow2(j)
    ensures BitAnd(x, Pow2(k) - 1) == x % Pow2(k)
  {
    Pow2Succ(j);
    var p := Pow2(j);
    BitAndOdd(x, Pow2(k) - 1, p - 1);
    MaskStep(x, p, Pow2(k), BitAnd(x, Pow2(k) - 1), BitAnd(x / 2, p - 1));
  }

  lemma Pow2Succ(j: nat)
    ensures Pow2(j + 1) == 2 * Pow2(j)
  {
  }

  /** The arithmetic of one step of `MaskIsMod`, with the bit operations
      already replaced by their values. */
  lemma MaskStep(x: nat, p: nat, pp: nat, a: int, ah: int)
    requires p > 0 && pp == 2 * p && a == 2 * ah + x % 2 && ah == (x / 2) % p
    ensures a == x % pp
  {
    ModHalf(x, p);
  }

  /** One bit of an AND with an odd mask `2h + 1`: the low bit of x survives. */
  lemma BitAndOdd(x: nat, m: nat, h: nat)
    requires m == 2 * h + 1
    ensures BitAnd(x, m) == 2 * BitAnd(x / 2, h) + x % 2
  {
    ModUnique(m, 2, h, 1);
  }

  /** One bit of an AND with an even mask `2h`: the low bit is cleared. */
  lemma BitAndEven(y: nat, b: nat, h: nat)
    requires b == 2 * h
    ensures BitAnd(y, b) == 2 * BitAnd(y / 2, h)
  {
    ModUnique(b, 2, h, 0);
  }

  /** The arithmetic of one step of `ClearLowBits`, with the bit operations
      already replaced by their values. */
  lemma ClearStep(y: nat, h: nat, hh: nat, a: int, ah: int)
    requires h > 0 && hh == 2 * h && a == 2 * ah && ah == y / 2 - (y / 2) % h
    ensures a == y - y % hh
  {
    ModHalf(y, h);
  }

  lemma HalfBelow(y: nat, h: nat)
    requires y < 2 * h
    ensures y / 2 < h
  {
  }

  lemma ClearLowBitsEdge(y: nat, k: nat, w: nat)
    requires (k == 0 || k == w) && y < Pow2(w)
    ensures BitAnd(y, Pow2(w) - Pow2(k)) == y - y % Pow2(k)
  {
    ModUnique(y, Pow2(w), 0, y);
    if k == 0 {
      MaskIsMod(y, w);
    }
  }

  /** Clearing the low k bits of a w-bit number: `y & (2^w - 2^k) == y - y % 2^k`. */
  lemma {:induction false} ClearLowBits(y: nat, k: nat, w: nat)
    requires k <= w && y < Pow2(w) && Pow2(k) <= Pow2(w)
    ensures BitAnd(y, Pow2(w) - Pow2(k)) == y - y % Pow2(k)
    decreases k
  {
    if k == 0 || k == w {
      ClearLowBitsEdge(y, k, w);
    } else {
      var j: nat, v: nat := k - 1, w - 1;
      Pow2Monotone(j, v);
      Pow2Succ(v);
      HalfBelow(y, Pow2(v));
      ClearLowBits(y / 2, j, v);
      ClearInduct(y, j, k, v, w);
    }
  }

  lemma ClearInduct(y: nat, j: nat, k: nat, v: nat, w: nat)
    requires k == j + 1 && w == v + 1 && Pow2(j) < Pow2(v)
    requires BitAnd(y / 2, Pow2(v) - Pow2(j)) == y / 2 - (y / 2) % Pow2(j)
    ensures BitAnd(y, Pow2(w) - Pow2(k)) == y - y % Pow2(k)
  {
    Pow2Succ(j);
    Pow2Succ(v);
    var hw, hk := Pow2(v), Pow2(j);
    BitAndEven(y, Pow2(w) - Pow2(k), hw - hk);
    ClearStep(y, hk, Pow2(k), BitAnd(y, Pow2(w) - Pow2(k)), BitAnd(y / 2, hw - hk));
  }

  /** The bit test `n != 0 && (n & (n - 1)) == 0` recognises exactly the powers of two. */
  lemma PowerOfTwoBitTest(n: nat)
    ensures (n != 0 && BitAnd(n, n - 1) == 0) <==> IsPow2(n)
  {
    if n != 0 && BitAnd(n, n - 1) == 0 {
      BitTestImpliesPow2(n);
    }
    if IsPow2(n) {
      Pow2PassesBitTest(n);
    }
  }

  lemma {:induction false} BitTestImpliesPow2(n: nat)
    requires n != 0 && BitAnd(n, n - 1) == 0
    ensures IsPow2(n)
    decreases n
  {
    if n == 1 {
      assert Pow2(0) == 1;
    } else if n % 2 == 1 {
      BitAndEven(n, n - 1, n / 2);
      BitAndSelf(n / 2);
      assert false;
    } else {
      BitAndOdd(n, n - 1, n / 2 - 1);
      BitTestImpliesPow2(n / 2);
      var k: nat :| Pow2(k) == n / 2;
      Pow2Succ(k);
    }
  }

  lemma Pow2PassesBitTest(n: nat)
    requires IsPow2(n)
    ensures n != 0 && BitAnd(n, n - 1) == 0
  {
    var k: nat :| Pow2(k) == n;
    MaskIsMod(n, k);
    ModUnique(n, n, 1, 0);
  }

  /** A power of two that fits in a 32-bit word divides 2^32. */
  lemma Pow2BelowWordDividesWord(n: nat)
    requires IsPow2(n) && n < WORD32
    ensures WORD32 % n == 0
    ensures exists k: nat :: k < 32 && Pow2(k) == n
  {
    var k: nat :| Pow2(k) == n;
    Pow2Of32();
    if k >= 32 {
      if k > 32 { Pow2Monotone(32, k); }
      assert false;
    }
    Pow2Add(k, 32 - k);
    var m := Pow2(32 - k);
    assert WORD32 == n * m;
    ModUnique(WORD32, n, m, 0);
  }

  /** Positions t + i and t + j that are less than n apart have different
      residues modulo n. */
  lemma DistinctResidues(t: int, i: int, j: int, n: nat)
    requires 0 <= i < j < i + n
    ensures (t + i) % n != (t + j) % n
  {
    var a, r := (t + i) / n, (t + i) % n;
    var d := j - i;
    if r + d < n {
      ModUnique(t + j, n, a, r + d);
    } else {
      ModUnique(t + j, n, a + 1, r + d - n);
    }
  }

  /** Because n divides 2^32, wrapping a counter at 2^32 does not change its slot modulo n. */
  lemma WrapKeepsResidue(x: int, n: nat)
    requires IsPow2(n) && n < WORD32
    ensures (x % WORD32) % n == x % n
  {
    Pow2BelowWordDividesWord(n);
    var m := WORD32 / n;
    assert WORD32 == n * m;
    ModOfMultipleMod(x, n, m);
  }
}
