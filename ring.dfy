// Index arithmetic of the circular record array.
//
// The C code computes a physical slot as `idx & (cardinality - 1)` on a
// 32-bit `int`, where `idx` may be negative (e.g. `first_index - 1`).
// The rest of the model writes that as Dafny's Euclidean `idx % cardinality`;
// this module proves the two agree whenever the cardinality is a power of two.
module Ring {

  /** 2 to the power k. */
  function Pow2(k: nat): (r: nat)
    ensures r >= 1
  {
    if k == 0 then 1 else 2 * Pow2(k - 1)
  }

  /** c is a power of two. */
  predicate IsPow2(c: nat)
    decreases c
  {
    c == 1 || (c >= 2 && c % 2 == 0 && IsPow2(c / 2))
  }

  /** Bitwise AND of two non-negative integers, bit by bit from the lowest. */
  function BitAnd(x: nat, y: nat): nat
    decreases x
  {
    if x == 0 || y == 0 then 0
    else 2 * BitAnd(x / 2, y / 2) + (if x % 2 == 1 && y % 2 == 1 then 1 else 0)
  }

  const Two32: nat := 0x1_0000_0000

  /** The bit pattern of a 32-bit two's-complement `int`, read as unsigned. */
  function Int32Bits(x: int): (r: nat)
    requires -0x8000_0000 <= x < 0x8000_0000
    ensures r < Two32
  {
    if x >= 0 then x else x + Two32
  }

  /** The C expression `x & (c - 1)` on a 32-bit `int`. */
  function Mask(x: int, c: nat): nat
    requires -0x8000_0000 <= x < 0x8000_0000
    requires c >= 1
  {
    BitAnd(Int32Bits(x), c - 1)
  }

  lemma MulAtLeast(a: int, c: nat)
    requires c > 0 && a >= 1
    ensures a * c >= c
  {
  }

  /** The Euclidean quotient and remainder are unique. */
  lemma ModOfDecomposition(x: int, c: nat, t: int, r: int)
    requires c > 0 && 0 <= r < c && x == t * c + r
    ensures x % c == r && x / c == t
  {
    var q, m := x / c, x % c;
    assert x == q * c + m;
    assert (t - q) * c == m - r;
    if t > q {
      MulAtLeast(t - q, c);
      assert false;
    } else if q > t {
      assert (q - t) * c == r - m;
      MulAtLeast(q - t, c);
      assert false;
    }
  }

  lemma {:induction false} Pow2Divides(c: nat, m: nat)
    requires IsPow2(c) && IsPow2(m) && c <= m
    ensures m % c == 0
    decreases c
  {
    if c == 1 {
    } else {
      assert m != 1;
      Pow2Divides(c / 2, m / 2);
      var t := (m / 2) / (c / 2);
      assert m / 2 == t * (c / 2);
      ModOfDecomposition(m, c, t, 0);
    }
  }

  lemma {:induction false} Pow2IsPow2(k: nat)
    ensures IsPow2(Pow2(k))
  {
    if k > 0 {
      Pow2IsPow2(k - 1);
      assert Pow2(k) / 2 == Pow2(k - 1);
    }
  }

  lemma Two32IsPow2()
    ensures IsPow2(Two32)
  {
    Pow2IsPow2(32);
    assert Pow2(1) == 2;
    assert Pow2(2) == 4;
    assert Pow2(3) == 8;
    assert Pow2(4) == 16;
    assert Pow2(5) == 32;
    assert Pow2(6) == 64;
    assert Pow2(7) == 128;
    assert Pow2(8) == 256;
    assert Pow2(9) == 512;
    assert Pow2(10) == 1024;
    assert Pow2(11) == 2048;
    assert Pow2(12) == 4096;
    assert Pow2(13) == 8192;
    assert Pow2(14) == 16384;
    assert Pow2(15) == 32768;
    assert Pow2(16) == 65536;
    assert Pow2(17) == 131072;
    assert Pow2(18) == 262144;
    assert Pow2(19) == 524288;
    assert Pow2(20) == 1048576;
    assert Pow2(21) == 2097152;
    assert Pow2(22) == 4194304;
    assert Pow2(23) == 8388608;
    assert Pow2(24) == 16777216;
    assert Pow2(25) == 33554432;
    assert Pow2(26) == 67108864;
    assert Pow2(27) == 134217728;
    assert Pow2(28) == 268435456;
    assert Pow2(29) == 536870912;
    assert Pow2(30) == 1073741824;
    assert Pow2(31) == 2147483648;
    assert Pow2(32) == 4294967296;
  }

  lemma HalfStep(x: nat, c: nat, h: nat)
    requires c == 2 * h && h >= 1
    ensures x == (x / 2 / h) * c + (2 * ((x / 2) % h) + x % 2)
    ensures 0 <= 2 * ((x / 2) % h) + x % 2 < c
  {
    var q := x / 2;
    assert x == 2 * q + x % 2;
    assert q == (q / h) * h + q % h;
  }

  /** Masking the low bits of a non-negative number is reduction modulo c. */
  lemma {:induction false} AndIsMod(x: nat, c: nat)
    requires IsPow2(c)
    ensures BitAnd(x, c - 1) == x % c
    decreases c
  {
    if c == 1 {
    } else if x == 0 {
    } else {
      var h := c / 2;
      assert (c - 1) / 2 == h - 1 && (c - 1) % 2 == 1;
      var low := BitAnd(x / 2, h - 1);
      assert BitAnd(x, c - 1) == 2 * low + x % 2;
      if h == 1 {
        assert low == 0;
      } else {
        AndIsMod(x / 2, h);
      }
      assert low == (x / 2) % h;
      HalfStep(x, c, h);
      ModOfDecomposition(x, c, x / 2 / h, 2 * low + x % 2);
    }
  }

  /** Adding a multiple of c does not change the remainder modulo c. */
  lemma AddMultiple(x: int, c: nat, m: int, t: int)
    requires c > 0 && m == t * c
    ensures (x + m) % c == x % c
  {
    var q, r := x / c, x % c;
    assert x == q * c + r;
    assert x + m == (q + t) * c + r;
    ModOfDecomposition(x + m, c, q + t, r);
  }

  lemma Two32Multiple(c: nat)
    requires IsPow2(c) && c <= Two32
    ensures Two32 == (Two32 / c) * c
  {
    Two32IsPow2();
    Pow2Divides(c, Two32);
  }

  /**
   * `x & (c - 1)` on a 32-bit int equals the Euclidean remainder `x % c`,
   * for negative x as well, when c is a power of two that divides 2^32.
   */
  lemma MaskIsMod(x: int, c: nat)
    requires -0x8000_0000 <= x < 0x8000_0000
    requires IsPow2(c) && c <= Two32
    ensures Mask(x, c) == x % c
    ensures Mask(x, c) < c
  {
    var u := Int32Bits(x);
    AndIsMod(u, c);
    if x < 0 {
      Two32Multiple(c);
      AddMultiple(x, c, Two32, Two32 / c);
    }
  }

  lemma SmallMod(x: int, c: nat)
    requires 0 <= x < c
    ensures x % c == x
  {
    ModOfDecomposition(x, c, 0, x);
  }

  lemma MinusOneMod(c: nat)
    requires c > 0
    ensures (-1) % c == c - 1
  {
    ModOfDecomposition(-1, c, -1, c - 1);
  }
}
