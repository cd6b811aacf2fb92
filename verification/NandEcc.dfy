// The line-parity code that guards each 512-byte block of a NAND page, and its correction in place.
module NandEcc {
  import opened Words
  import opened XorWords

  const BLOCK_BITS: nat := 0x1000
  const ALL_ONES: nat := 0xFFFF_FFFF

  const ECC_OK: int := 0
  const ECC_CORRECTED: int := 1
  const ECC_UNCORRECTABLE: int := -1

  // A block as its bits: bit b of byte j is at 8 * j + b.
  type Block = s: seq<bool> | |s| == BLOCK_BITS witness seq(BLOCK_BITS, i => false)

  // A half of a code word is stored low byte first, then the high nibble.
  function Half(h: nat): nat {
    Join(Low(h, 8), Shr(h, 8), 8)
  }

  // What a bit at position p contributes to the code: p in the odd half, its complement in the even half
  function Line(p: nat): nat
    requires p < BLOCK_BITS
  {
    Join(Half(0xfff - p), Half(p), 16)
  }

  // The code of the first n bits; c is the code of an empty block.
  ghost function Parity(c: nat, d: Block, n: nat): nat
    requires n <= BLOCK_BITS
  {
    if n == 0 then c else if d[n - 1] then Xor(Parity(c, d, n - 1), Line(n - 1)) else Parity(c, d, n - 1)
  }

  // What the controller computes for a block
  ghost function Code(c: nat, d: Block): nat {
    Parity(c, d, BLOCK_BITS)
  }

  function Flip(d: Block, p: nat): Block
    requires p < BLOCK_BITS
  {
    d[p := !d[p]]
  }

  // One more bit, which is another one than the bit flipped, or that one
  lemma FlipStep(a: nat, x: nat, y: nat, b: bool)
    ensures (if b then Xor(Xor(a, x), y) else Xor(a, x)) == Xor(if b then Xor(a, y) else a, x)
    ensures (if b then a else Xor(a, y)) == Xor(if b then Xor(a, y) else a, y)
  {
    XorSwap(a, x, y);
    XorCancel(a, y);
  }

  lemma {:induction false} FlipParity(c: nat, d: Block, p: nat, n: nat)
    requires p < BLOCK_BITS && n <= BLOCK_BITS
    ensures Parity(c, Flip(d, p), n) == if p < n then Xor(Parity(c, d, n), Line(p)) else Parity(c, d, n)
  {
    if n > 0 {
      FlipParity(c, d, p, n - 1);
      FlipStep(Parity(c, d, n - 1), Line(p), Line(n - 1), d[n - 1]);
    }
  }

  // The line-parity equation: a flipped bit of the block adds its line to the code.
  lemma FlipCode(c: nat, d: Block, p: nat)
    requires p < BLOCK_BITS
    ensures Code(c, Flip(d, p)) == Xor(Code(c, d), Line(p))
  {
    FlipParity(c, d, p, BLOCK_BITS);
  }

  // (syndrome >> 24) | ((syndrome >> 8) & 0xf00)
  function Even(s: nat): nat {
    Join(Low(Shr(s, 16), 4), Shr(s, 24), 8)
  }

  // ((syndrome << 8) & 0xf00) | ((syndrome >> 8) & 0x0ff)
  function Odd(s: nat): (r: nat)
    ensures r < BLOCK_BITS
  {
    LowBound(s, 4);
    Pow2Values();
    JoinBound(Low(s, 4), Low(Shr(s, 8), 8), 8, 4);
    assert Pow2(4) == 16 && Pow2(12) == 0x1000;
    Join(Low(s, 4), Low(Shr(s, 8), 8), 8)
  }

  function Fold(s: nat): nat {
    Xor(Even(s), Odd(s))
  }

  lemma EvenLinear(a: nat, b: nat)
    ensures Even(Xor(a, b)) == Xor(Even(a), Even(b))
  {
    XorShr(a, b, 16);
    XorLow(Shr(a, 16), Shr(b, 16), 4);
    XorShr(a, b, 24);
    XorJoin(Low(Shr(a, 16), 4), Shr(a, 24), Low(Shr(b, 16), 4), Shr(b, 24), 8);
  }

  lemma OddLinear(a: nat, b: nat)
    ensures Odd(Xor(a, b)) == Xor(Odd(a), Odd(b))
  {
    XorLow(a, b, 4);
    XorShr(a, b, 8);
    XorLow(Shr(a, 8), Shr(b, 8), 8);
    XorJoin(Low(a, 4), Low(Shr(a, 8), 8), Low(b, 4), Low(Shr(b, 8), 8), 8);
  }

  lemma FoldLinear(a: nat, b: nat)
    ensures Fold(Xor(a, b)) == Xor(Fold(a), Fold(b))
  {
    EvenLinear(a, b);
    OddLinear(a, b);
    XorPairs(Even(a), Even(b), Odd(a), Odd(b));
  }

  lemma Sizes()
    ensures Pow2(4) == 16 && Pow2(8) == 256 && Pow2(11) == 2048 && Pow2(12) == 0x1000 && Pow2(16) == 0x1_0000
    ensures Pow2(32) == W32
  {
    Pow2Values();
  }

  // Reading back the parts of a half
  lemma HalfParts(h: nat)
    requires h < BLOCK_BITS
    ensures Low(Half(h), 4) == Shr(h, 8) && Shr(Half(h), 8) == Low(h, 8) && Half(h) < Pow2(16)
    ensures Join(Shr(h, 8), Low(h, 8), 8) == h
  {
    Sizes();
    ShrBound(h, 8, 4);
    LowJoin(Low(h, 8), Shr(h, 8), 8, 4);
    LowAll(Shr(h, 8), 4);
    ShrJoin(Low(h, 8), Shr(h, 8), 8, 8);
    LowBound(h, 8);
    JoinBound(Low(h, 8), Shr(h, 8), 8, 8);
    JoinLow(Shr(h, 8), h, 8);
    JoinCut(h, 8);
  }

  // A line gives its position back, and the complement from its other half.
  lemma OddLine(p: nat, e: nat)
    requires p < BLOCK_BITS
    ensures Odd(Join(Half(e), Half(p), 16)) == p
  {
    HalfParts(p);
    LowJoin(Half(e), Half(p), 16, 4);
    ShrJoin(Half(e), Half(p), 16, 8);
    LowJoin(Half(e), Low(p, 8), 8, 8);
    LowLow(p, 8);
  }

  lemma EvenLine(e: nat, h: nat)
    requires e < BLOCK_BITS
    ensures Even(Join(Half(e), h, 16)) == e
  {
    var s := Join(Half(e), h, 16);
    HalfParts(e);
    ShrJoin(Half(e), h, 16, 16);
    ShrShr(s, 16, 8);
  }

  lemma LineParts(p: nat)
    requires p < BLOCK_BITS
    ensures Odd(Line(p)) == p && Even(Line(p)) == 0xfff - p
  {
    OddLine(p, 0xfff - p);
    EvenLine(0xfff - p, Half(p));
  }

  lemma FoldLine(p: nat)
    requires p < BLOCK_BITS
    ensures Fold(Line(p)) == 0xfff
  {
    LineParts(p);
    Sizes();
    XorOnes(0xfff - p, p, 12);
  }

  // Bits of the code word that belong to neither half
  predicate Unused(k: nat) {
    4 <= k < 8 || 20 <= k < 24
  }

  // A single bit of the code word is in one of the halves, or in none.
  lemma BitParts(k: nat)
    requires k < 32
    ensures Odd(Pow2(k)) == if k < 4 then Pow2(k + 8) else if 8 <= k < 16 then Pow2(k - 8) else 0
    ensures Even(Pow2(k)) == if 16 <= k < 20 then Pow2(k - 8) else if 24 <= k then Pow2(k - 24) else 0
  {
    LowPow2(k, 4);
    ShrPow2(k, 8);
    if k >= 8 { LowPow2(k - 8, 8); } else { LowZero(8); }
    ShrPow2(k, 16);
    if k >= 16 { LowPow2(k - 16, 4); } else { LowZero(4); }
    ShrPow2(k, 24);
    JoinBit(k, 0, 8);
    JoinBit(k - 16, 0, 8);
    ZeroJoin(if 8 <= k < 16 then Pow2(k - 8) else 0, 8);
    ZeroJoin(if 24 <= k then Pow2(k - 24) else 0, 8);
    LowZero(8);
    if 8 <= k < 16 { LowPow2(k - 8, 8); }
    if 24 <= k { LowPow2(k - 24, 8); }
  }

  lemma JoinBit(k: int, y: nat, n: nat)
    requires y == 0
    ensures k >= 0 ==> Join(Pow2(k), y, n) == Pow2(k + n)
  {
    if k >= 0 {
      JoinZero(Pow2(k), n);
      ShlPow2(k, n);
    }
  }

  // What a single bit adds to the comparison of the halves
  function Trace(k: nat): nat
    requires k < 32
  {
    if k < 4 then Pow2(k + 8) else if Unused(k) then 0 else if k < 20 then Pow2(k - 8) else Pow2(k - 24)
  }

  lemma TraceRange(k: nat)
    requires k < 32
    ensures Trace(k) <= 2048 && (Trace(k) == 1 || Trace(k) % 2 == 0) && (Trace(k) == 0 <==> Unused(k))
  {
    if !Unused(k) {
      var e: nat := if k < 4 then k + 8 else if k < 20 then k - 8 else k - 24;
      Pow2Mono(e, 11);
      Sizes();
    }
  }

  lemma FoldBit(k: nat)
    requires k < 32
    ensures Fold(Pow2(k)) == Trace(k) && (Odd(Pow2(k)) == 0 || Even(Pow2(k)) == 0)
  {
    BitParts(k);
    XorZero(Odd(Pow2(k)));
    XorZero(Even(Pow2(k)));
  }

  // Two bits never look like a line.
  lemma TwoTraces(j: nat, k: nat)
    requires j < 32 && k < 32
    ensures Trace(j) + Trace(k) != 0xfff && Xor(Trace(j), Trace(k)) != 0xfff
  {
    TraceRange(j);
    TraceRange(k);
    Sizes();
    XorOnes(Trace(j), Trace(k), 12);
  }

  /* ---- nand_correct ---- */

  datatype Verdict = Good | Fixed | Lost

  // ((syndrome - 1) & syndrome) == 0
  predicate SingleBit(s: nat)
    requires s > 0
  {
    And(s - 1, s) == 0
  }

  lemma BitIsSingle(k: nat)
    ensures SingleBit(Pow2(k))
  {
    Pow2OneBit(k);
  }

  // A syndrome is a single bit only if its halves look so.
  lemma NotSingle(s: nat)
    requires 0 < s < W32
    requires forall k | 0 <= k < 32 :: Fold(s) != Trace(k) || (Odd(s) != 0 && Even(s) != 0)
    ensures !SingleBit(s)
  {
    if SingleBit(s) {
      var k := OneBit(s);
      if k >= 32 {
        Pow2Mono(32, k);
        Sizes();
      } else {
        FoldBit(k);
      }
    }
  }

  // What is done about a block with a given syndrome
  function VerdictOf(s: nat): Verdict {
    if s == 0 then Good else if SingleBit(s) then Fixed else if Fold(s) != 0xfff then Lost else Fixed
  }

  function RepairOf(d: Block, s: nat): Block {
    if s != 0 && !SingleBit(s) && Fold(s) == 0xfff then Flip(d, Odd(s)) else d
  }

  // The code that was stored, and the code of what was read; an unformatted block is left alone.
  function BlockVerdict(read: nat, computed: nat): Verdict {
    if read == ALL_ONES then Good else VerdictOf(Xor(read, computed))
  }

  function BlockAfter(d: Block, read: nat, computed: nat): Block {
    if read == ALL_ONES then d else RepairOf(d, Xor(read, computed))
  }

  // Errors that a block and its stored code may suffer
  datatype Damage =
    | None
    | DataBit(p: nat)
    | CodeBit(k: nat)
    | TwoDataBits(p: nat, q: nat)
    | TwoCodeBits(j: nat, k: nat)
    | DataAndCodeBit(p: nat, k: nat)

  predicate Possible(e: Damage) {
    match e
    case None => true
    case DataBit(p) => p < BLOCK_BITS
    case CodeBit(k) => k < 32
    case TwoDataBits(p, q) => p < BLOCK_BITS && q < BLOCK_BITS && p != q
    case TwoCodeBits(j, k) => j < 32 && k < 32 && j != k
    case DataAndCodeBit(p, k) => p < BLOCK_BITS && k < 32
  }

  function DataRead(d: Block, e: Damage): Block
    requires Possible(e)
  {
    match e
    case DataBit(p) => Flip(d, p)
    case TwoDataBits(p, q) => Flip(Flip(d, p), q)
    case DataAndCodeBit(p, _) => Flip(d, p)
    case _ => d
  }

  function CodeRead(w: nat, e: Damage): nat
    requires Possible(e)
  {
    match e
    case CodeBit(k) => Xor(w, Pow2(k))
    case TwoCodeBits(j, k) => Xor(Xor(w, Pow2(j)), Pow2(k))
    case DataAndCodeBit(_, k) => Xor(w, Pow2(k))
    case _ => w
  }

  // The syndrome tells the damage, whatever the data.
  function Syndrome(e: Damage): nat
    requires Possible(e)
  {
    match e
    case None => 0
    case DataBit(p) => Line(p)
    case CodeBit(k) => Pow2(k)
    case TwoDataBits(p, q) => Xor(Line(p), Line(q))
    case TwoCodeBits(j, k) => Xor(Pow2(j), Pow2(k))
    case DataAndCodeBit(p, k) => Xor(Line(p), Pow2(k))
  }

  lemma SyndromeOf(c: nat, d: Block, e: Damage)
    requires Possible(e)
    ensures Xor(CodeRead(Code(c, d), e), Code(c, DataRead(d, e))) == Syndrome(e)
  {
    var w := Code(c, d);
    XorSelf(w);
    match e
    case None =>
    case DataBit(p) =>
      FlipCode(c, d, p);
      XorCancel(w, Line(p));
    case CodeBit(k) =>
      XorSwap(w, Pow2(k), w);
      XorZero(Pow2(k));
    case TwoDataBits(p, q) =>
      FlipCode(c, d, p);
      FlipCode(c, Flip(d, p), q);
      XorAssoc(w, Line(p), Line(q));
      XorCancel(w, Xor(Line(p), Line(q)));
    case TwoCodeBits(j, k) =>
      XorAssoc(w, Pow2(j), Pow2(k));
      XorSwap(w, Xor(Pow2(j), Pow2(k)), w);
      XorZero(Xor(Pow2(j), Pow2(k)));
    case DataAndCodeBit(p, k) =>
      FlipCode(c, d, p);
      XorPairs(w, Pow2(k), w, Line(p));
      XorZero(Xor(Pow2(k), Line(p)));
      XorComm(Pow2(k), Line(p));
  }

  lemma LineBound(p: nat)
    requires p < BLOCK_BITS
    ensures 0 < Line(p) < W32
  {
    Sizes();
    HalfParts(0xfff - p);
    JoinBound(Half(0xfff - p), Half(p), 16, 16);
    FoldLine(p);
    if Line(p) == 0 { FoldZero(); }
  }

  lemma FoldZero()
    ensures Fold(0) == 0 && Odd(0) == 0 && Even(0) == 0
  {
    LowZero(4);
    ShrZero(8);
    LowZero(8);
    ShrZero(16);
    ShrZero(24);
    ZeroJoin(0, 8);
    XorZero(0);
  }

  lemma BitBound(k: nat)
    requires k < 32
    ensures 0 < Pow2(k) < W32
  {
    Pow2Mono(k, 32);
    Sizes();
  }

  // One flipped data bit: the syndrome is its line, and that is no single bit.
  lemma OneData(p: nat)
    requires p < BLOCK_BITS
    ensures 0 < Line(p) && !SingleBit(Line(p)) && Fold(Line(p)) == 0xfff && Odd(Line(p)) == p
  {
    LineBound(p);
    FoldLine(p);
    LineParts(p);
    forall k | 0 <= k < 32 ensures Fold(Line(p)) != Trace(k) { TraceRange(k); }
    NotSingle(Line(p));
  }

  // Two flipped data bits: both halves of the syndrome are the difference of the positions.
  lemma TwoDataParts(p: nat, q: nat)
    requires p < BLOCK_BITS && q < BLOCK_BITS && p != q
    ensures var s := Xor(Line(p), Line(q)); Odd(s) != 0 && Even(s) != 0
  {
    TwoDataOdd(p, q);
    TwoDataEven(p, q);
  }

  lemma TwoDataOdd(p: nat, q: nat)
    requires p < BLOCK_BITS && q < BLOCK_BITS && p != q
    ensures Odd(Xor(Line(p), Line(q))) != 0
  {
    LineParts(p);
    LineParts(q);
    OddLinear(Line(p), Line(q));
    XorIsZero(p, q);
  }

  lemma TwoDataEven(p: nat, q: nat)
    requires p < BLOCK_BITS && q < BLOCK_BITS && p != q
    ensures Even(Xor(Line(p), Line(q))) != 0
  {
    LineParts(p);
    LineParts(q);
    EvenDiffers(Line(p), Line(q));
  }

  lemma EvenDiffers(a: nat, b: nat)
    requires Even(a) != Even(b)
    ensures Even(Xor(a, b)) != 0
  {
    EvenLinear(a, b);
    XorIsZero(Even(a), Even(b));
  }

  lemma TwoDataFold(p: nat, q: nat)
    requires p < BLOCK_BITS && q < BLOCK_BITS
    ensures Fold(Xor(Line(p), Line(q))) == 0
  {
    FoldLine(p);
    FoldLine(q);
    FoldLinear(Line(p), Line(q));
    XorSelf(0xfff);
  }

  lemma TwoData(p: nat, q: nat)
    requires p < BLOCK_BITS && q < BLOCK_BITS && p != q
    ensures var s := Xor(Line(p), Line(q)); 0 < s && !SingleBit(s) && Fold(s) != 0xfff
  {
    var s := Xor(Line(p), Line(q));
    TwoDataParts(p, q);
    TwoDataFold(p, q);
    FoldZero();
    LineBound(p);
    LineBound(q);
    Sizes();
    XorBound(Line(p), Line(q), 32);
    NotSingle(s);
  }

  // Two bits are not one.
  lemma {:induction false} NotOneBit(j: nat, k: nat, m: nat)
    requires j != k
    ensures Xor(Pow2(j), Pow2(k)) != Pow2(m)
  {
    var a: nat := if j == 0 then 0 else Pow2(j - 1);
    var b: nat := if k == 0 then 0 else Pow2(k - 1);
    XorDoubles(a, b, if j == 0 then 1 else 0, if k == 0 then 1 else 0);
    if j > 0 && k > 0 {
      if m > 0 { NotOneBit(j - 1, k - 1, m - 1); }
    } else {
      XorZero(a);
      XorZero(b);
    }
  }

  lemma TwoCode(j: nat, k: nat)
    requires j < 32 && k < 32 && j != k
    ensures var s := Xor(Pow2(j), Pow2(k)); 0 < s && !SingleBit(s) && Fold(s) != 0xfff
  {
    var s := Xor(Pow2(j), Pow2(k));
    DistinctBits(j, k);
    FoldBit(j);
    FoldBit(k);
    FoldLinear(Pow2(j), Pow2(k));
    TwoTraces(j, k);
    if SingleBit(s) {
      var m := OneBit(s);
      NotOneBit(j, k, m);
    }
  }

  lemma DistinctBits(j: nat, k: nat)
    requires j != k
    ensures Xor(Pow2(j), Pow2(k)) > 0
  {
    XorIsZero(Pow2(j), Pow2(k));
    if j < k { Pow2Mono(j, k); } else { Pow2Mono(k, j); }
  }

  // All ones, but for what a single bit adds
  lemma OnesAndTrace(k: nat)
    requires k < 32
    ensures Xor(0xfff, Trace(k)) == 0xfff <==> Unused(k)
    ensures Xor(0xfff, Trace(k)) != 0 && forall m | 0 <= m < 32 :: Xor(0xfff, Trace(k)) != Trace(m)
  {
    var t := Trace(k);
    TraceRange(k);
    XorCancel(0xfff, t);
    XorZero(0xfff);
    XorSelf(0xfff);
    XorComm(0xfff, t);
    XorCancel(t, 0xfff);
    XorIsZero(0xfff, t);
    forall m | 0 <= m < 32
      ensures Xor(0xfff, t) != Trace(m)
    {
      TwoTraces(k, m);
    }
  }

  lemma FoldMixed(p: nat, k: nat)
    requires p < BLOCK_BITS && k < 32
    ensures Fold(Xor(Line(p), Pow2(k))) == Xor(0xfff, Trace(k))
  {
    FoldLine(p);
    FoldBit(k);
    FoldLinear(Line(p), Pow2(k));
  }

  lemma OddMixed(p: nat, k: nat)
    requires p < BLOCK_BITS && k < 32 && Unused(k)
    ensures Odd(Xor(Line(p), Pow2(k))) == p
  {
    LineParts(p);
    OddLinear(Line(p), Pow2(k));
    BitParts(k);
    XorZero(p);
  }

  lemma MixedNotSingle(p: nat, k: nat)
    requires p < BLOCK_BITS && k < 32
    ensures var s := Xor(Line(p), Pow2(k)); 0 < s && !SingleBit(s)
  {
    FoldMixed(p, k);
    OnesAndTrace(k);
    FoldZero();
    MixedBound(p, k);
    NotSingle(Xor(Line(p), Pow2(k)));
  }

  // A data bit and a bit of the code: a bit of the code that is in neither half does no harm, any
  // other makes the halves disagree.
  lemma DataAndCode(p: nat, k: nat)
    requires p < BLOCK_BITS && k < 32
    ensures var s := Xor(Line(p), Pow2(k));
            0 < s && !SingleBit(s) && (Fold(s) == 0xfff <==> Unused(k)) && (Unused(k) ==> Odd(s) == p)
  {
    MixedNotSingle(p, k);
    FoldMixed(p, k);
    OnesAndTrace(k);
    if Unused(k) { OddMixed(p, k); }
  }

  lemma MixedBound(p: nat, k: nat)
    requires p < BLOCK_BITS && k < 32
    ensures Xor(Line(p), Pow2(k)) < W32
  {
    LineBound(p);
    BitBound(k);
    Sizes();
    XorBound(Line(p), Pow2(k), 32);
  }

  // What nand_correct makes of the damage: one error is repaired, two are reported and left alone,
  // but for a code bit in neither half, which is as good as no error.
  ghost function Expected(d: Block, e: Damage): (Verdict, Block)
    requires Possible(e)
  {
    match e
    case None => (Good, d)
    case DataBit(_) => (Fixed, d)
    case CodeBit(_) => (Fixed, d)
    case TwoDataBits(_, _) => (Lost, DataRead(d, e))
    case TwoCodeBits(_, _) => (Lost, d)
    case DataAndCodeBit(_, k) => if Unused(k) then (Fixed, d) else (Lost, DataRead(d, e))
  }

  lemma DecidedBySyndrome(d: Block, e: Damage)
    requires Possible(e)
    ensures (VerdictOf(Syndrome(e)), RepairOf(DataRead(d, e), Syndrome(e))) == Expected(d, e)
  {
    match e
    case None =>
    case DataBit(p) => OneData(p); FlipTwice(d, p);
    case CodeBit(k) => BitBound(k); BitIsSingle(k);
    case TwoDataBits(p, q) => TwoData(p, q);
    case TwoCodeBits(j, k) => TwoCode(j, k);
    case DataAndCodeBit(p, k) => DataAndCode(p, k); FlipTwice(d, p);
  }

  lemma FlipTwice(d: Block, p: nat)
    requires p < BLOCK_BITS
    ensures Flip(Flip(d, p), p) == d
  {
  }

  // Single errors are corrected and double errors detected.
  lemma CorrectsAndDetects(c: nat, d: Block, e: Damage)
    requires Possible(e) && CodeRead(Code(c, d), e) != ALL_ONES
    ensures var read, computed := CodeRead(Code(c, d), e), Code(c, DataRead(d, e));
            (BlockVerdict(read, computed), BlockAfter(DataRead(d, e), read, computed)) == Expected(d, e)
  {
    SyndromeOf(c, d, e);
    DecidedBySyndrome(d, e);
  }

  /* ---- a page of four blocks ---- */

  const READ: nat := 12
  const COMPUTED: nat := 16

  function BlockAt(page: seq<bool>, i: nat): (b: Block)
    requires |page| == 4 * BLOCK_BITS && i < 4
  {
    page[i * BLOCK_BITS..(i + 1) * BLOCK_BITS]
  }

  function PageVerdict(ecc: seq<nat>, n: nat): Verdict
    requires n <= 4 && |ecc| == 20
  {
    if n == 0 then Good
    else
      var v := BlockVerdict(ecc[READ + n - 1], ecc[COMPUTED + n - 1]);
      if v == Lost || PageVerdict(ecc, n - 1) == Lost then Lost
      else if v == Fixed || PageVerdict(ecc, n - 1) == Fixed then Fixed
      else Good
  }

  function ResultOf(v: Verdict): int {
    match v
    case Good => ECC_OK
    case Fixed => ECC_CORRECTED
    case Lost => ECC_UNCORRECTABLE
  }

  // One round of nand_correct, for the block at dp
  method CorrectBlock(data: array<bool>, dp: nat, ghost i: nat, read: nat, computed: nat) returns (v: Verdict)
    requires data.Length == 4 * BLOCK_BITS && i < 4 && dp == i * BLOCK_BITS
    modifies data
    ensures v == BlockVerdict(read, computed)
    ensures BlockAt(data[..], i) == BlockAfter(BlockAt(old(data[..]), i), read, computed)
    ensures forall j | 0 <= j < 4 && j != i :: BlockAt(data[..], j) == BlockAt(old(data[..]), j)
  {
    v := Good;
    var syndrome := Xor(read, computed);
    if read != ALL_ONES && syndrome != 0 {
      if And(syndrome - 1, syndrome) == 0 {
        v := Fixed;
      } else {
        var even, odd := Even(syndrome), Odd(syndrome);
        if Xor(even, odd) != 0xfff {
          v := Lost;
        } else {
          ghost var before := data[..];
          var bit := dp + 8 * (odd / 8) + odd % 8;
          data[bit] := !data[bit];
          FlippedBlock(before, data[..], i, odd);
          v := Fixed;
        }
      }
    }
  }

  // nand_correct. data holds the bits of the page; of the words in ecc, those from 0x30 on were
  // stored with the page and those from 0x40 on were computed while reading it.
  method NandCorrect(data: array<bool>, ecc: array<nat>) returns (r: int)
    requires data.Length == 4 * BLOCK_BITS && ecc.Length == 20
    modifies data
    ensures forall i | 0 <= i < 4 :: Repaired(old(data[..]), data[..], ecc[..], i)
    ensures r == ResultOf(PageVerdict(ecc[..], 4))
  {
    var dp := 0;
    var uncorrectable, corrected := 0, 0;
    ghost var words, page := ecc[..], data[..];
    for i := 0 to 4
      invariant dp == i * BLOCK_BITS
      invariant 0 <= uncorrectable && 0 <= corrected
      invariant PageVerdict(words, i) == if uncorrectable > 0 then Lost else if corrected > 0 then Fixed else Good
      invariant RepairedUpTo(page, data[..], words, i)
    {
      ghost var before := data[..];
      var v := CorrectBlock(data, dp, i, ecc[READ + i], ecc[COMPUTED + i]);
      NextRepaired(page, before, data[..], words, i);
      if v == Fixed { corrected := corrected + 1; }
      if v == Lost { uncorrectable := uncorrectable + 1; }
      dp := dp + BLOCK_BITS;
    }
    r := if uncorrectable > 0 then ECC_UNCORRECTABLE else if corrected > 0 then ECC_CORRECTED else ECC_OK;
  }

  // Block i after nand_correct
  ghost predicate Repaired(page: seq<bool>, page': seq<bool>, ecc: seq<nat>, i: nat)
    requires |page| == |page'| == 4 * BLOCK_BITS && |ecc| == 20 && i < 4
  {
    BlockAt(page', i) == BlockAfter(BlockAt(page, i), ecc[READ + i], ecc[COMPUTED + i])
  }

  ghost predicate RepairedUpTo(page: seq<bool>, page': seq<bool>, ecc: seq<nat>, n: nat)
    requires |page| == |page'| == 4 * BLOCK_BITS && |ecc| == 20 && n <= 4
  {
    && (forall i | 0 <= i < n :: Repaired(page, page', ecc, i))
    && (forall i | n <= i < 4 :: BlockAt(page', i) == BlockAt(page, i))
  }

  lemma NextRepaired(page: seq<bool>, before: seq<bool>, after: seq<bool>, ecc: seq<nat>, i: nat)
    requires |page| == |before| == |after| == 4 * BLOCK_BITS && |ecc| == 20 && i < 4
    requires RepairedUpTo(page, before, ecc, i) && Repaired(before, after, ecc, i)
    requires forall j | 0 <= j < 4 && j != i :: BlockAt(after, j) == BlockAt(before, j)
    ensures RepairedUpTo(page, after, ecc, i + 1)
  {
    forall j | 0 <= j < i ensures Repaired(page, after, ecc, j) { assert Repaired(page, before, ecc, j); }
    assert BlockAt(before, i) == BlockAt(page, i);
    forall j | i + 1 <= j < 4 ensures BlockAt(after, j) == BlockAt(page, j) {
      assert BlockAt(before, j) == BlockAt(page, j); }
  }

  lemma FlippedBlock(page: seq<bool>, page': seq<bool>, i: nat, p: nat)
    requires |page| == 4 * BLOCK_BITS && i < 4 && p < BLOCK_BITS
    requires var bit := i * BLOCK_BITS + p; page' == page[bit := !page[bit]]
    ensures BlockAt(page', i) == Flip(BlockAt(page, i), p)
    ensures forall j | 0 <= j < 4 && j != i :: BlockAt(page', j) == BlockAt(page, j)
  {
  }

  // Block i was written as in good, with its code, and has suffered e since.
  ghost predicate Suffered(c: nat, good: seq<bool>, bad: seq<bool>, ecc: seq<nat>, i: nat, e: Damage)
    requires |good| == |bad| == 4 * BLOCK_BITS && |ecc| == 20 && i < 4 && Possible(e)
  {
    && BlockAt(bad, i) == DataRead(BlockAt(good, i), e)
    && ecc[READ + i] == CodeRead(Code(c, BlockAt(good, i)), e) != ALL_ONES
    && ecc[COMPUTED + i] == Code(c, BlockAt(bad, i))
  }

  predicate OneError(e: Damage) {
    Possible(e) && (e.None? || e.DataBit? || e.CodeBit?)
  }

  lemma BlockRestored(c: nat, good: seq<bool>, bad: seq<bool>, after: seq<bool>, ecc: seq<nat>, i: nat, e: Damage)
    requires |good| == |bad| == |after| == 4 * BLOCK_BITS && |ecc| == 20 && i < 4 && OneError(e)
    requires Suffered(c, good, bad, ecc, i, e) && Repaired(bad, after, ecc, i)
    ensures BlockAt(after, i) == BlockAt(good, i)
    ensures BlockVerdict(ecc[READ + i], ecc[COMPUTED + i]) == if e.None? then Good else Fixed
  {
    CorrectsAndDetects(c, BlockAt(good, i), e);
  }

  // A page with at most one error in each block is restored, and the result tells whether there was
  // an error.
  lemma PageRestored(c: nat, good: seq<bool>, bad: seq<bool>, after: seq<bool>, ecc: seq<nat>, damage: seq<Damage>)
    requires |good| == |bad| == |after| == 4 * BLOCK_BITS && |ecc| == 20 && |damage| == 4
    requires forall i | 0 <= i < 4 ::
               OneError(damage[i]) && Suffered(c, good, bad, ecc, i, damage[i]) && Repaired(bad, after, ecc, i)
    ensures after == good
    ensures PageVerdict(ecc, 4) == if forall i | 0 <= i < 4 :: damage[i].None? then Good else Fixed
  {
    forall i | 0 <= i < 4
      ensures BlockAt(after, i) == BlockAt(good, i)
      ensures BlockVerdict(ecc[READ + i], ecc[COMPUTED + i]) == if damage[i].None? then Good else Fixed
    {
      BlockRestored(c, good, bad, after, ecc, i, damage[i]);
    }
    PageOfBlocks(after);
    PageOfBlocks(good);
    VerdictRun(ecc, damage, 4);
  }

  lemma {:induction false} VerdictRun(ecc: seq<nat>, damage: seq<Damage>, n: nat)
    requires |ecc| == 20 && |damage| == 4 && n <= 4
    requires forall i | 0 <= i < 4 ::
               BlockVerdict(ecc[READ + i], ecc[COMPUTED + i]) == if damage[i].None? then Good else Fixed
    ensures PageVerdict(ecc, n) == if forall i | 0 <= i < n :: damage[i].None? then Good else Fixed
  {
    if n > 0 {
      VerdictRun(ecc, damage, n - 1);
      assert BlockVerdict(ecc[READ + (n - 1)], ecc[COMPUTED + (n - 1)]) == if damage[n - 1].None? then Good else Fixed;
    }
  }

  lemma PageOfBlocks(page: seq<bool>)
    requires |page| == 4 * BLOCK_BITS
    ensures page == BlockAt(page, 0) + BlockAt(page, 1) + BlockAt(page, 2) + BlockAt(page, 3)
  {
  }
}
