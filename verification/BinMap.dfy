// The 32-bit bin maps and the bit tricks over them. An index is a nat below 32; shift amounts are
// bit-vectors, so that every fact about the tricks is one about bit-vectors only.
module BinMap {
  type binmap = bv32

  // A bin index as a shift amount, binary digit by binary digit, and back.
  function ToBv(i: nat): (b: bv32)
    requires i < 32
    ensures (i < 2 ==> b < 2) && (i < 4 ==> b < 4) && (i < 8 ==> b < 8) && (i < 16 ==> b < 16) && b < 32
  {
    if i == 0 then 0 else (ToBv(i / 2) << 1) | (if i % 2 == 1 then 1 else 0)
  }

  function Weight(b: bv32, d: bv32, n: nat): nat {
    if b & d != 0 then n else 0
  }

  function ToNat(b: bv32): (i: nat)
    requires b < 32
    ensures i < 32
  {
    Weight(b, 16, 16) + Weight(b, 8, 8) + Weight(b, 4, 4) + Weight(b, 2, 2) + Weight(b, 1, 1)
  }

  lemma Double(b: bv32, d: bv32)
    requires b < 16 && d < 2
    ensures (b << 1) | d < 32 && ToNat((b << 1) | d) == 2 * ToNat(b) + if d == 1 then 1 else 0
  {
  }

  lemma {:induction false} ToNatToBv(i: nat)
    requires i < 32
    ensures ToNat(ToBv(i)) == i
  {
    if i > 0 {
      ToNatToBv(i / 2);
      Double(ToBv(i / 2), if i % 2 == 1 then 1 else 0);
    }
  }

  lemma ToNatOrder(b: bv32, c: bv32)
    requires b < 32 && c < 32
    ensures b < c <==> ToNat(b) < ToNat(c)
  {
  }

  lemma ToBvToNat(b: bv32)
    requires b < 32
    ensures ToBv(ToNat(b)) == b
  {
    ToNatToBv(ToNat(b));
    ToNatOrder(b, ToBv(ToNat(b)));
    ToNatOrder(ToBv(ToNat(b)), b);
  }

  lemma ToBvOrder(i: nat, j: nat)
    requires i < 32 && j < 32
    ensures ToBv(i) < ToBv(j) <==> i < j
    ensures ToBv(i) == ToBv(j) <==> i == j
  {
    ToNatToBv(i);
    ToNatToBv(j);
    ToNatOrder(ToBv(i), ToBv(j));
    ToNatOrder(ToBv(j), ToBv(i));
  }

  predicate BitAt(m: binmap, b: bv32)
    requires b < 32
  {
    (m >> b) & 1 == 1
  }

  // Bin i has its bit set.
  predicate Marked(m: binmap, i: nat)
    requires i < 32
  {
    BitAt(m, ToBv(i))
  }

  function BitOf(b: bv32): binmap
    requires b < 32
  {
    1 << b
  }

  function SetBit(m: binmap, b: bv32): binmap
    requires b < 32
  {
    m | BitOf(b)
  }

  function ClearBit(m: binmap, b: bv32): binmap
    requires b < 32
  {
    m & !BitOf(b)
  }

  lemma SetBitAt(m: binmap, b: bv32, c: bv32)
    requires b < 32 && c < 32
    ensures BitAt(SetBit(m, b), c) <==> c == b || BitAt(m, c)
  {
  }

  lemma ClearBitAt(m: binmap, b: bv32, c: bv32)
    requires b < 32 && c < 32
    ensures BitAt(ClearBit(m, b), c) <==> c != b && BitAt(m, c)
  {
  }

  // mark_smallmap and mark_treemap
  method Mark(m: binmap, i: nat) returns (m': binmap)
    requires i < 32
    ensures forall j | 0 <= j < 32 :: Marked(m', j) <==> j == i || Marked(m, j)
  {
    var b := ToBv(i);
    m' := SetBit(m, b);
    forall j | 0 <= j < 32
      ensures Marked(m', j) <==> j == i || Marked(m, j)
    {
      ToBvOrder(i, j);
      SetBitAt(m, b, ToBv(j));
    }
  }

  // clear_smallmap and clear_treemap
  method Clear(m: binmap, i: nat) returns (m': binmap)
    requires i < 32
    ensures forall j | 0 <= j < 32 :: Marked(m', j) <==> j != i && Marked(m, j)
  {
    var b := ToBv(i);
    m' := ClearBit(m, b);
    forall j | 0 <= j < 32
      ensures Marked(m', j) <==> j != i && Marked(m, j)
    {
      ToBvOrder(i, j);
      ClearBitAt(m, b, ToBv(j));
    }
  }

  // smallmap_is_marked and treemap_is_marked
  method IsMarked(m: binmap, i: nat) returns (r: bool)
    requires i < 32
    ensures r == Marked(m, i)
  {
    var b := ToBv(i);
    TestAt(m, b);
    r := m & BitOf(b) != 0;
  }

  lemma TestAt(m: binmap, b: bv32)
    requires b < 32
    ensures BitAt(m, b) <==> m & BitOf(b) != 0
  {
  }

  function LeastBit(x: binmap): binmap {
    x & -x
  }

  function LeftBits(x: binmap): binmap {
    (x << 1) | -(x << 1)
  }

  function Bit2Idx(x: binmap): bv32 {
    var y := x - 1;
    var k := (y >> 12) & 16;
    var n := k;
    var y := y >> k;
    var k := (y >> 5) & 8;
    var n := n + k;
    var y := y >> k;
    var k := (y >> 2) & 4;
    var n := n + k;
    var y := y >> k;
    var k := (y >> 1) & 2;
    var n := n + k;
    var y := y >> k;
    var k := y & 1;
    var n := n + k;
    var y := y >> k;
    n + y
  }

  lemma LeastBitAt(m: binmap)
    requires m != 0
    ensures Bit2Idx(LeastBit(m)) < 32 && BitAt(m, Bit2Idx(LeastBit(m)))
  {
  }

  lemma NoneBelow(m: binmap, c: bv32)
    requires m != 0 && c < Bit2Idx(LeastBit(m)) < 32
    ensures !BitAt(m, c)
  {
  }

  function LeftMarks(m: binmap, b: bv32): binmap
    requires b < 32
  {
    LeftBits(BitOf(b)) & m
  }

  lemma LeftMarksAt(m: binmap, b: bv32, c: bv32)
    requires b < 32 && c < 32
    ensures BitAt(LeftMarks(m, b), c) <==> b < c && BitAt(m, c)
  {
  }

  ghost predicate IsLeast(m: binmap, i: nat) {
    i < 32 && Marked(m, i) && forall j | 0 <= j < i :: !Marked(m, j)
  }

  // compute_bit2idx(least_bit(m)): the first marked bin
  method FirstMarked(m: binmap) returns (i: nat)
    requires m != 0
    ensures IsLeast(m, i)
  {
    var b := Bit2Idx(LeastBit(m));
    LeastBitAt(m);
    i := ToNat(b);
    ToBvToNat(b);
    forall j | 0 <= j < i
      ensures !Marked(m, j)
    {
      ToBvOrder(j, i);
      NoneBelow(m, ToBv(j));
    }
  }

  // left_bits(idx2bit(i)) & m keeps exactly the marks above i.
  method LeftOf(m: binmap, i: nat) returns (r: binmap)
    requires i < 32
    ensures forall j | 0 <= j < 32 :: Marked(r, j) <==> i < j && Marked(m, j)
  {
    var b := ToBv(i);
    r := LeftMarks(m, b);
    forall j | 0 <= j < 32
      ensures Marked(r, j) <==> i < j && Marked(m, j)
    {
      ToBvOrder(i, j);
      var c := ToBv(j);
      LeftMarksAt(m, b, c);
      assert Marked(r, j) == BitAt(r, c);
    }
  }

  lemma ZeroAt(b: bv32)
    requires b < 32
    ensures !BitAt(0, b)
  {
  }

  // A map is zero exactly when no bin is marked.
  lemma ZeroMap(m: binmap)
    ensures m == 0 <==> forall i | 0 <= i < 32 :: !Marked(m, i)
  {
    if m != 0 {
      LeastBitAt(m);
      ToBvToNat(Bit2Idx(LeastBit(m)));
      assert Marked(m, ToNat(Bit2Idx(LeastBit(m))));
    } else {
      forall i | 0 <= i < 32
        ensures !Marked(m, i)
      {
        ZeroAt(ToBv(i));
      }
    }
  }

  /* ---- the bits of the small map from an index on, as dlmalloc inspects them ---- */

  lemma ToBvNext(i: nat)
    requires i < 31
    ensures ToBv(i + 1) == ToBv(i) + 1
  {
    ToNatToBv(i);
    ToNatToBv(i + 1);
    ToBvOrder(i, 31);
    ToNatNext(ToBv(i));
    ToBvToNat(ToBv(i) + 1);
  }

  lemma ToNatNext(b: bv32)
    requires b < 31
    ensures ToNat(b + 1) == ToNat(b) + 1
  {
  }

  lemma LowTwo(m: binmap, b: bv32)
    requires b < 32
    ensures (m >> b) & 3 != 0 <==> BitAt(m, b) || (b < 31 && BitAt(m, b + 1))
    ensures !(m >> b) & 1 == 1 <==> !BitAt(m, b)
  {
  }

  // (smallbits << idx) & left_bits(idx2bit(idx)), where smallbits is smallmap >> idx
  function UpperMarks(m: binmap, b: bv32): binmap
    requires b < 32
  {
    ((m >> b) << b) & LeftBits(BitOf(b))
  }

  lemma UpperMarksAt(m: binmap, b: bv32, c: bv32)
    requires b < 32 && c < 32
    ensures BitAt(UpperMarks(m, b), c) <==> b < c && BitAt(m, c)
  {
    DownAndUp(m, b, c);
    LeftMarksAt((m >> b) << b, b, c);
    assert UpperMarks(m, b) == LeftMarks((m >> b) << b, b);
  }

  lemma DownAndUp(m: binmap, b: bv32, c: bv32)
    requires b < 32 && c < 32
    ensures BitAt((m >> b) << b, c) <==> b <= c && BitAt(m, c)
  {
  }

  // smallbits, the map shifted down by an index
  function SmallBits(m: binmap, b: bv32): binmap
    requires b < 32
  {
    m >> b
  }

  lemma NoBitsFrom(m: binmap, b: bv32, c: bv32)
    requires b <= c < 32 && SmallBits(m, b) == 0
    ensures !BitAt(m, c)
  {
  }

  lemma SomeUpper(m: binmap, b: bv32)
    requires b < 32 && SmallBits(m, b) != 0 && !BitAt(m, b)
    ensures UpperMarks(m, b) != 0
  {
  }

  lemma FitBits(m: binmap, i: nat)
    requires i < 32
    ensures (m >> ToBv(i)) & 3 != 0 <==> Marked(m, i) || (i < 31 && Marked(m, i + 1))
    ensures !(m >> ToBv(i)) & 1 == 1 <==> !Marked(m, i)
  {
    LowTwo(m, ToBv(i));
    LastBv();
    ToBvOrder(i, 31);
    if i < 31 { ToBvNext(i); }
  }

  lemma LastBv()
    ensures ToBv(31) == 31
  {
    assert ToBv(1) == 1 && ToBv(3) == 3 && ToBv(7) == 7 && ToBv(15) == 15;
  }

  // smallbits & 3, and the bin that gives a fit without remainder: bin i, or the next one
  method RemainderlessFit(m: binmap, i: nat) returns (fit: bool, j: nat)
    requires i < 32
    ensures fit <==> Marked(m, i) || (i < 31 && Marked(m, i + 1))
    ensures fit ==> j < 32 && Marked(m, j) && (j == i || (j == i + 1 && !Marked(m, i)))
  {
    var b := ToBv(i);
    FitBits(m, i);
    var smallbits := m >> b;
    fit := smallbits & 3 != 0;
    j := i + if !smallbits & 1 == 1 then 1 else 0;
  }

  method UpperOf(m: binmap, i: nat) returns (r: binmap)
    requires i < 32
    ensures forall j | 0 <= j < 32 :: Marked(r, j) <==> i < j && Marked(m, j)
    ensures r == UpperMarks(m, ToBv(i))
  {
    var b := ToBv(i);
    r := UpperMarks(m, b);
    forall j | 0 <= j < 32
      ensures Marked(r, j) <==> i < j && Marked(m, j)
    {
      ToBvOrder(i, j);
      var c := ToBv(j);
      UpperMarksAt(m, b, c);
      assert Marked(r, j) == BitAt(r, c);
    }
  }

  lemma NoneFrom(m: binmap, i: nat)
    requires i < 32 && SmallBits(m, ToBv(i)) == 0
    ensures forall k | i <= k < 32 :: !Marked(m, k)
  {
    forall k | i <= k < 32
      ensures !Marked(m, k)
    {
      ToBvOrder(k, i);
      NoBitsFrom(m, ToBv(i), ToBv(k));
    }
  }

  // The next marked bin above i, given that bin i is not marked
  method NextMarked(m: binmap, i: nat) returns (found: bool, j: nat)
    requires i < 32 && !Marked(m, i)
    ensures found ==> i < j < 32 && Marked(m, j) && forall k | i <= k < j :: !Marked(m, k)
    ensures !found ==> forall k | i <= k < 32 :: !Marked(m, k)
  {
    var b := ToBv(i);
    var smallbits := SmallBits(m, b);
    found := smallbits != 0;
    j := 0;
    if found {
      SomeUpper(m, b);
      var leftbits := UpperOf(m, i);
      j := FirstMarked(leftbits);
      forall k | i < k < j ensures !Marked(m, k) { assert !Marked(leftbits, k); }
    } else {
      NoneFrom(m, i);
    }
  }
}
