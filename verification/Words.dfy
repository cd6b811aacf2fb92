// 32-bit words, shifts and powers of two.
module Words {
  const W32: nat := 0x1_0000_0000

  // Truncation of an exact result to the 32-bit size_t of the target.
  function U32(x: int): (r: nat)
    ensures r < W32
  {
    x % W32
  }

  function Pow2(e: nat): (r: nat)
    ensures r >= 1
  {
    if e == 0 then 1 else 2 * Pow2(e - 1)
  }

  // x << n, before truncation
  function Shl(x: nat, n: nat): nat {
    if n == 0 then x else 2 * Shl(x, n - 1)
  }

  // x >> n
  function Shr(x: nat, n: nat): nat {
    if n == 0 then x else Shr(x / 2, n - 1)
  }

  // x & p for a power of two p
  function AndBit(x: nat, p: nat): nat
    requires p > 0
  {
    x / p % 2 * p
  }

  lemma {:induction false} ShlAdd(x: nat, a: nat, b: nat)
    ensures Shl(Shl(x, a), b) == Shl(x, a + b)
  {
    if b > 0 {
      ShlAdd(x, a, b - 1);
    }
  }

  lemma {:induction false} ShlPow2(a: nat, n: nat)
    ensures Shl(Pow2(a), n) == Pow2(a + n)
  {
    if n > 0 {
      ShlPow2(a, n - 1);
    }
  }

  lemma {:induction false} Pow2Mono(a: nat, b: nat)
    requires a <= b
    ensures Pow2(a) <= Pow2(b) && (a < b ==> 2 * Pow2(a) <= Pow2(b))
  {
    if a < b {
      Pow2Mono(a, b - 1);
    }
  }

  lemma ShlValues(x: nat)
    ensures Shl(x, 2) == 4 * x && Shl(x, 4) == 16 * x && Shl(x, 7) == 128 * x && Shl(x, 8) == 256 * x
  {
    assert Shl(x, 1) == 2 * x;
    assert Shl(x, 3) == 2 * Shl(x, 2);
    assert Shl(x, 5) == 2 * Shl(x, 4);
    assert Shl(x, 6) == 2 * Shl(x, 5);
  }

  lemma Pow2Values()
    ensures Pow2(0) == 1 && Pow2(7) == 128 && Pow2(8) == 256
    ensures Pow2(14) == 16384 && Pow2(15) == 32768 && Pow2(16) == 65536
    ensures Pow2(22) == 0x40_0000 && Pow2(23) == 0x80_0000 && Pow2(31) == 0x8000_0000 && Pow2(32) == W32
  {
  }

  lemma SmallU32(x: nat)
    requires x < W32
    ensures U32(x) == x
  {
  }

  // x is up to one round of 32 bits away.
  lemma Wraps(x: int)
    requires 0 <= x + W32 < 3 * W32
    ensures U32(x) == if x < 0 then x + W32 else if x < W32 then x else x - W32
  {
  }

  lemma Mod4(v: int, q: int, r: int)
    requires v == 4 * q + r && 0 <= r < 4
    ensures v % 4 == r
  {
  }

  lemma Mod2(v: int, q: int, r: int)
    requires v == 2 * q + r && 0 <= r < 2
    ensures v % 2 == r
  {
  }
}
