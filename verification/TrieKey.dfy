// The shifted key that steers a descent, and the range of sizes a tree bin covers.
module TrieKey {
  import opened Words
  import opened BinIndex
  import opened Trie

  // The sizes of bin i are the 2^BinBits(i) sizes from BinLow(i) on; the last bin is keyed on all bits.
  function BinLow(i: nat): nat {
    if i == 31 then 0 else MinSize(i)
  }

  function BinBits(i: nat): nat {
    if i == 31 then 32 else i / 2 + 7
  }

  // leftshift_for_tree_index
  function LeftShift(i: nat): nat
    requires i < 32
  {
    if i == 31 then 0 else 31 - (i / 2 + 8 - 2)
  }

  lemma BinShape(i: nat)
    requires i < 31
    ensures var h := Pow2(BinBits(i));
            (MinSize(i) == 2 * h || MinSize(i) == 3 * h) && MinSize(i + 1) == MinSize(i) + h
  {
    var k := i / 2;
    MinSizes(k);
    ShapeAt(k);
    if i % 2 == 0 { assert i == 2 * k; } else { assert i == 2 * k + 1; }
  }

  lemma ShapeAt(k: nat)
    requires 2 * k + 1 < 32
    ensures 2 * k < 31 ==> BinBits(2 * k) == k + 7
    ensures 2 * k + 1 < 31 ==> BinBits(2 * k + 1) == k + 7
    ensures 4 * Pow2(k + 7) == 2 * Pow2(k + 7) + Pow2(k + 7) + Pow2(k + 7)
  {
    assert (2 * k) / 2 == k && (2 * k + 1) / 2 == k;
  }

  lemma RangeCovers(s: int, i: nat)
    requires i < 32 && MinSize(i) <= s < W32 && (i < 31 ==> s < MinSize(i + 1))
    ensures BinLow(i) <= s < BinLow(i) + Pow2(BinBits(i))
  {
    if i == 31 { Pow2Values(); } else { BinShape(i); }
  }

  lemma BinCovers(s: int)
    requires 256 <= s < W32
    ensures TreeBin(s) < 32
    ensures BinLow(TreeBin(s)) <= s < BinLow(TreeBin(s)) + Pow2(BinBits(TreeBin(s)))
  {
    TreeBinRange(s);
    RangeCovers(s, TreeBin(s));
  }

  lemma {:induction false} ShlSum(a: nat, b: nat, n: nat)
    ensures Shl(a + b, n) == Shl(a, n) + Shl(b, n)
  {
    if n > 0 {
      ShlSum(a, b, n - 1);
    }
  }

  lemma {:induction false} ShlOrder(a: nat, b: nat, n: nat)
    ensures a <= b <==> Shl(a, n) <= Shl(b, n)
  {
    if n > 0 {
      ShlOrder(a, b, n - 1);
    }
  }

  // The key of s at a node over (lo, e): the undecided low bits of s, moved to the top of the word
  ghost predicate IsKey(k: nat, s: int, lo: nat, e: nat) {
    e <= 32 && lo <= s < lo + Pow2(e) && k == Shl(s - lo, 32 - e)
  }

  lemma KeyFits(k: nat, s: int, lo: nat, e: nat)
    requires IsKey(k, s, lo, e)
    ensures k < W32
  {
    ShlOrder(Pow2(e), s - lo, 32 - e);
    ShlPow2(e, 32 - e);
    Pow2Values();
  }

  // The bits that all sizes of a bin share leave the word.
  lemma SharedBits(i: nat)
    requires i < 31
    ensures var x := Shl(BinLow(i), 32 - BinBits(i)); x == 2 * W32 || x == 3 * W32
  {
    var n, h := 32 - BinBits(i), Pow2(BinBits(i));
    TopShift(BinBits(i));
    BinShape(i);
    ShlMultiples(h, n);
  }

  lemma TopShift(e: nat)
    requires e <= 32
    ensures Shl(Pow2(e), 32 - e) == W32
  {
    ShlPow2(e, 32 - e);
    Pow2Values();
  }

  lemma ShlMultiples(h: nat, n: nat)
    ensures Shl(2 * h, n) == 2 * Shl(h, n) && Shl(3 * h, n) == 3 * Shl(h, n)
  {
    ShlSum(h, h, n);
    ShlSum(2 * h, h, n);
  }

  lemma RoundsOff(x: nat)
    ensures U32(x + 2 * W32) == U32(x) && (x >= 2 * W32 ==> U32(x) == U32(x - 2 * W32))
  {
    assert U32(x + W32) == U32(x) && U32(x + 2 * W32) == U32(x + W32);
  }

  lemma FirstKeyAt(s: int, i: nat)
    requires i < 31 && BinLow(i) <= s < BinLow(i) + Pow2(BinBits(i))
    ensures LeftShift(i) == 32 - BinBits(i)
    ensures IsKey(U32(Shl(s, LeftShift(i))), s, BinLow(i), BinBits(i))
  {
    var lo, n := BinLow(i), 32 - BinBits(i);
    SharedBits(i);
    ShlSum(lo, s - lo, n);
    KeyFits(Shl(s - lo, n), s, lo, BinBits(i));
    assert Shl(s, n) == Shl(lo, n) + Shl(s - lo, n);
    Wraps(Shl(s, n) - 2 * W32);
    RoundsOff(Shl(s, n));
  }

  // The first key is the size shifted left by leftshift_for_tree_index.
  lemma FirstKey(s: int)
    requires 256 <= s < W32
    ensures TreeBin(s) < 32
    ensures IsKey(U32(Shl(s, LeftShift(TreeBin(s)))), s, BinLow(TreeBin(s)), BinBits(TreeBin(s)))
  {
    BinCovers(s);
    if TreeBin(s) < 31 { FirstKeyAt(s, TreeBin(s)); }
  }

  lemma KeyTop(k: nat, s: int, lo: nat, e: nat)
    requires IsKey(k, s, lo, e) && e > 0
    ensures Shl(Pow2(e - 1), 32 - e) == 0x8000_0000
    ensures k >= 0x8000_0000 <==> GoRight(s, lo, e)
  {
    ShlPow2(e - 1, 32 - e);
    Pow2Values();
    ShlOrder(Pow2(e - 1), s - lo, 32 - e);
  }

  // One step of the descent: the top bit of the key decides, the rest is the key of the child.
  lemma KeyStep(k: nat, s: int, lo: nat, e: nat)
    requires IsKey(k, s, lo, e) && e > 0
    ensures k < W32 && (k >= 0x8000_0000 <==> GoRight(s, lo, e))
    ensures IsKey(U32(2 * k), s, if GoRight(s, lo, e) then lo + Pow2(e - 1) else lo, e - 1)
  {
    KeyFits(k, s, lo, e);
    KeyTop(k, s, lo, e);
    if GoRight(s, lo, e) {
      var half := Pow2(e - 1);
      ShlSum(half, s - lo - half, 32 - e);
      assert k == 0x8000_0000 + Shl(s - lo - half, 32 - e);
    }
  }
}
