// The bin of a large chunk size, and the branch-free code that finds it.
module BinIndex {
  import opened Words

  // floor(log2(x))
  function Log2(x: nat): (k: nat)
    requires x > 0
    ensures Pow2(k) <= x < 2 * Pow2(k)
  {
    if x == 1 then 0 else 1 + Log2(x / 2)
  }

  lemma Log2Unique(x: nat, k: nat)
    requires 0 < x && Pow2(k) <= x < 2 * Pow2(k)
    ensures Log2(x) == k
  {
    if Log2(x) <= k { Pow2Mono(Log2(x), k); } else { Pow2Mono(k, Log2(x)); }
  }

  lemma {:induction false} Log2Shl(x: nat, n: nat)
    requires x > 0
    ensures Shl(x, n) > 0 && Log2(Shl(x, n)) == Log2(x) + n
  {
    if n > 0 {
      Log2Shl(x, n - 1);
      assert Shl(x, n) / 2 == Shl(x, n - 1);
    }
  }

  // Two bins for each power of two from 2^8 on; the last bin is open-ended.
  function TreeBin(s: nat): nat {
    if s < 256 then 0
    else if s >= 0x100_0000 then 31
    else
      var k := Log2(s / 256);
      if s < 3 * Pow2(k + 7) then 2 * k else 2 * k + 1
  }

  // minsize_for_tree_index
  function MinSize(i: nat): nat {
    Pow2(i / 2 + 8) + if i % 2 == 1 then Pow2(i / 2 + 7) else 0
  }

  lemma MinSizes(k: nat)
    ensures MinSize(2 * k) == 2 * Pow2(k + 7)
    ensures MinSize(2 * k + 1) == 3 * Pow2(k + 7)
    ensures MinSize(2 * k + 2) == 4 * Pow2(k + 7)
  {
    assert (2 * k) / 2 == k && (2 * k + 1) / 2 == k && (2 * k + 2) / 2 == k + 1;
    assert Pow2(k + 8) == 2 * Pow2(k + 7) && Pow2(k + 9) == 2 * Pow2(k + 8);
  }

  lemma SizeVersusPow2(s: nat, k: nat)
    requires 256 <= s && k == Log2(s / 256)
    ensures 2 * Pow2(k + 7) <= s < 4 * Pow2(k + 7)
  {
    ShlPow2(k, 7);
    ShlValues(Pow2(k));
  }

  lemma TreeBinHalf(s: nat, k: nat)
    requires 256 <= s < 0x100_0000 && k == Log2(s / 256)
    ensures k <= 15
    ensures TreeBin(s) == if s < 3 * Pow2(k + 7) then 2 * k else 2 * k + 1
  {
    if k > 15 {
      Pow2Mono(16, k);
      Pow2Values();
    }
  }

  // Every size lies in the range its bin stands for.
  lemma TreeBinRange(s: nat)
    requires 256 <= s
    ensures TreeBin(s) < 32 && MinSize(TreeBin(s)) <= s
    ensures TreeBin(s) < 31 ==> s < MinSize(TreeBin(s) + 1)
  {
    if s < 0x100_0000 {
      var k := Log2(s / 256);
      SizeVersusPow2(s, k);
      TreeBinHalf(s, k);
      MinSizes(k);
    } else {
      MinSizes(15);
      Pow2Values();
    }
  }

  lemma {:induction false} MinSizeMono(i: nat, j: nat)
    requires i < j
    ensures MinSize(i) < MinSize(j)
    decreases j - i
  {
    MinSizes(i / 2);
    if i + 1 < j {
      MinSizeMono(i + 1, j);
    }
  }

  lemma {:induction false} ShrTop(s: nat, n: nat)
    requires 2 * Pow2(n) <= s < 4 * Pow2(n)
    ensures Shr(s, n) == if s < 3 * Pow2(n) then 2 else 3
  {
    if n > 0 {
      ShrTop(s / 2, n - 1);
    }
  }

  // ((y - t) >> 16) & b is b exactly when the subtraction borrows.
  lemma Borrow(y: nat, t: nat, b: nat)
    requires y < 65536 && t <= 65536 && (b == 8 || b == 4 || b == 2)
    ensures AndBit(U32(y - t) / 65536, b) == if y < t then b else 0
  {
    if y < t {
      assert U32(y - t) == W32 + y - t;
      assert U32(y - t) / 65536 == 65535;
    } else {
      assert U32(y - t) / 65536 == 0;
    }
  }

  // One normalisation step of the branch-free index: shift y left by b while it is below t.
  method Normalise(x: nat, n: nat, y: nat, t: nat, b: nat) returns (n': nat, y': nat)
    requires 0 < y < 65536 && y == Shl(x, n)
    requires (t == 0x100 && b == 8) || (t == 0x1000 && b == 4) || (t == 0x4000 && b == 2)
    requires b == 8 || (b == 4 && y >= 0x100) || (b == 2 && y >= 0x1000)
    ensures n' == n || n' == n + b
    ensures y' == Shl(x, n') && t <= y' < 65536
  {
    var k := AndBit(U32(y - t) / 65536, b);
    Borrow(y, t, b);
    ShlAdd(x, n, k);
    ShlValues(y);
    n' := n + k;
    y' := U32(Shl(y, k));
  }

  // The top bit of y, shifted up from x by n places
  lemma NormalisedLog(x: nat, n: nat, y: nat)
    requires 0 < x && y == Shl(x, n) && 0x4000 <= y < 0x1_0000
    ensures Log2(x) + n == if y >= 32768 then 15 else 14
  {
    Pow2Values();
    Log2Unique(y, if y >= 32768 then 15 else 14);
    Log2Shl(x, n);
  }

  // compute_tree_index, the version without inline assembly
  method ComputeTreeIndex(s: nat) returns (i: nat)
    requires s < W32
    ensures i == TreeBin(s)
  {
    var x := s / 256;
    if x == 0 { return 0; }
    if x > 0xFFFF { return 31; }
    var n, y := Normalise(x, 0, x, 0x100, 8);
    n, y := Normalise(x, n, y, 0x1000, 4);
    n, y := Normalise(x, n, y, 0x4000, 2);
    NormalisedLog(x, n, y);
    var k: nat := 14 - n + y / 32768;
    assert k == Log2(x);
    i := SecondBit(s, k);
  }

  method SecondBit(s: nat, k: nat) returns (i: nat)
    requires 256 <= s < 0x100_0000 && k == Log2(s / 256)
    ensures i == TreeBin(s)
  {
    SizeVersusPow2(s, k);
    ShrTop(s, k + 7);
    TreeBinHalf(s, k);
    i := k * 2 + Shr(s, k + 7) % 2;
  }
}
