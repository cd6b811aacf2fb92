// Bitwise operations on words as natural numbers, and their algebra.
module XorWords {
  import opened Words

  function Xor(a: nat, b: nat): nat {
    if a == 0 && b == 0 then 0 else 2 * Xor(a / 2, b / 2) + if a % 2 != b % 2 then 1 else 0
  }

  function And(a: nat, b: nat): nat {
    if a == 0 || b == 0 then 0 else 2 * And(a / 2, b / 2) + if a % 2 == 1 && b % 2 == 1 then 1 else 0
  }

  lemma XorParts(a: nat, b: nat)
    ensures Xor(a, b) / 2 == Xor(a / 2, b / 2)
    ensures Xor(a, b) % 2 == if a % 2 != b % 2 then 1 else 0
  {
  }

  // A word is its last bit and the rest.
  lemma SameParts(x: nat, y: nat)
    requires x / 2 == y / 2 && x % 2 == y % 2
    ensures x == y
  {
  }

  lemma {:induction false} XorComm(a: nat, b: nat)
    ensures Xor(a, b) == Xor(b, a)
  {
    if a != 0 || b != 0 { XorComm(a / 2, b / 2); }
  }

  lemma {:induction false} XorAssoc(a: nat, b: nat, c: nat)
    ensures Xor(Xor(a, b), c) == Xor(a, Xor(b, c))
    decreases a + b + c
  {
    if a != 0 || b != 0 || c != 0 {
      XorAssoc(a / 2, b / 2, c / 2);
      XorParts(a, b);
      XorParts(b, c);
      XorParts(Xor(a, b), c);
      XorParts(a, Xor(b, c));
      SameParts(Xor(Xor(a, b), c), Xor(a, Xor(b, c)));
    }
  }

  lemma {:induction false} XorZero(a: nat)
    ensures Xor(a, 0) == a && Xor(0, a) == a
  {
    if a != 0 { XorZero(a / 2); }
  }

  lemma {:induction false} XorSelf(a: nat)
    ensures Xor(a, a) == 0
  {
    if a != 0 { XorSelf(a / 2); }
  }

  lemma {:induction false} XorIsZero(a: nat, b: nat)
    ensures Xor(a, b) == 0 <==> a == b
  {
    if a != 0 || b != 0 {
      XorIsZero(a / 2, b / 2);
      if a / 2 == b / 2 && a % 2 == b % 2 { SameParts(a, b); }
    }
  }

  lemma XorSwap(a: nat, b: nat, c: nat)
    ensures Xor(Xor(a, b), c) == Xor(Xor(a, c), b)
  {
    XorAssoc(a, b, c);
    XorComm(b, c);
    XorAssoc(a, c, b);
  }

  lemma XorCancel(a: nat, c: nat)
    ensures Xor(Xor(a, c), c) == a && Xor(a, Xor(a, c)) == c
  {
    XorAssoc(a, c, c);
    XorSelf(c);
    XorZero(a);
    XorAssoc(a, a, c);
    XorSelf(a);
    XorZero(c);
  }

  // (a ^ b) ^ (c ^ d) == (a ^ c) ^ (b ^ d)
  lemma XorPairs(a: nat, b: nat, c: nat, d: nat)
    ensures Xor(Xor(a, b), Xor(c, d)) == Xor(Xor(a, c), Xor(b, d))
  {
    XorAssoc(Xor(a, b), c, d);
    XorSwap(a, b, c);
    XorAssoc(Xor(a, c), b, d);
  }

  // Shifting and cutting commute with exclusive or.
  lemma {:induction false} XorShr(a: nat, b: nat, k: nat)
    ensures Shr(Xor(a, b), k) == Xor(Shr(a, k), Shr(b, k))
  {
    if k > 0 {
      XorParts(a, b);
      XorShr(a / 2, b / 2, k - 1);
    }
  }

  lemma XorDoubles(x: nat, u: nat, a: nat, b: nat)
    requires a < 2 && b < 2
    ensures Xor(2 * x + a, 2 * u + b) == 2 * Xor(x, u) + if a != b then 1 else 0
  {
    if 2 * x + a == 0 && 2 * u + b == 0 {
      XorZero(0);
    } else {
      assert (2 * x + a) / 2 == x && (2 * u + b) / 2 == u;
    }
  }

  lemma {:induction false} XorShl(a: nat, b: nat, k: nat)
    ensures Shl(Xor(a, b), k) == Xor(Shl(a, k), Shl(b, k))
  {
    if k > 0 {
      XorShl(a, b, k - 1);
      XorDoubles(Shl(a, k - 1), Shl(b, k - 1), 0, 0);
    }
  }

  // The last k bits
  function Low(a: nat, k: nat): nat {
    if k == 0 then 0 else 2 * Low(a / 2, k - 1) + a % 2
  }

  lemma {:induction false} XorLow(a: nat, b: nat, k: nat)
    ensures Low(Xor(a, b), k) == Xor(Low(a, k), Low(b, k))
  {
    if k > 0 {
      XorParts(a, b);
      XorLow(a / 2, b / 2, k - 1);
      XorDoubles(Low(a / 2, k - 1), Low(b / 2, k - 1), a % 2, b % 2);
    }
  }

  // x << k | y for y of k bits
  function Join(x: nat, y: nat, k: nat): nat {
    if k == 0 then x else 2 * Join(x, y / 2, k - 1) + y % 2
  }

  lemma {:induction false} XorJoin(x: nat, y: nat, u: nat, v: nat, k: nat)
    ensures Join(Xor(x, u), Xor(y, v), k) == Xor(Join(x, y, k), Join(u, v, k))
  {
    if k > 0 {
      XorParts(y, v);
      XorJoin(x, y / 2, u, v / 2, k - 1);
      XorDoubles(Join(x, y / 2, k - 1), Join(u, v / 2, k - 1), y % 2, v % 2);
    }
  }

  lemma {:induction false} XorBound(a: nat, b: nat, k: nat)
    requires a < Pow2(k) && b < Pow2(k)
    ensures Xor(a, b) < Pow2(k)
  {
    if k > 0 { XorBound(a / 2, b / 2, k - 1); } else { XorZero(0); }
  }

  // Two words are complements of each other, bit by bit, exactly when they add up to all ones.
  lemma {:induction false} XorOnes(a: nat, b: nat, k: nat)
    requires a < Pow2(k) && b < Pow2(k)
    ensures Xor(a, b) == Pow2(k) - 1 <==> a + b == Pow2(k) - 1
  {
    if k > 0 {
      XorOnes(a / 2, b / 2, k - 1);
      XorParts(a, b);
      if a + b == Pow2(k) - 1 { assert a / 2 + b / 2 == Pow2(k - 1) - 1; }
    } else {
      XorZero(0);
    }
  }

  // ((s - 1) & s) == 0 holds exactly of the powers of two.
  lemma {:induction false} OneBit(s: nat) returns (k: nat)
    requires s > 0
    ensures And(s - 1, s) == 0 ==> s == Pow2(k)
  {
    if s == 1 {
      k := 0;
    } else if s % 2 == 0 {
      k := OneBit(s / 2);
      assert (s - 1) / 2 == s / 2 - 1;
      k := k + 1;
    } else {
      AndSelf(s / 2);
      k := 0;
    }
  }

  lemma {:induction false} Pow2OneBit(k: nat)
    ensures And(Pow2(k) - 1, Pow2(k)) == 0
  {
    if k > 0 {
      Pow2OneBit(k - 1);
      assert (Pow2(k) - 1) / 2 == Pow2(k - 1) - 1;
    }
  }

  lemma {:induction false} AndSelf(a: nat)
    ensures And(a, a) == a
  {
    if a > 0 { AndSelf(a / 2); }
  }

  /* ---- cutting and joining ---- */

  lemma {:induction false} ShrJoin(x: nat, y: nat, k: nat, j: nat)
    requires j <= k
    ensures Shr(Join(x, y, k), j) == Join(x, Shr(y, j), k - j)
  {
    if j > 0 { ShrJoin(x, y / 2, k - 1, j - 1); }
  }

  lemma {:induction false} LowJoin(x: nat, y: nat, k: nat, j: nat)
    requires j <= k
    ensures Low(Join(x, y, k), j) == Low(y, j)
  {
    if j > 0 { LowJoin(x, y / 2, k - 1, j - 1); }
  }

  lemma {:induction false} JoinCut(a: nat, k: nat)
    ensures Join(Shr(a, k), a, k) == a
  {
    if k > 0 { JoinCut(a / 2, k - 1); }
  }

  lemma {:induction false} JoinLow(x: nat, y: nat, k: nat)
    ensures Join(x, Low(y, k), k) == Join(x, y, k)
  {
    if k > 0 { JoinLow(x, y / 2, k - 1); }
  }

  lemma {:induction false} ShrShr(a: nat, i: nat, j: nat)
    ensures Shr(Shr(a, i), j) == Shr(a, i + j)
  {
    if i > 0 { ShrShr(a / 2, i - 1, j); }
  }

  lemma {:induction false} LowLow(a: nat, k: nat)
    ensures Low(Low(a, k), k) == Low(a, k)
  {
    if k > 0 { LowLow(a / 2, k - 1); }
  }

  lemma {:induction false} LowAll(a: nat, k: nat)
    requires a < Pow2(k)
    ensures Low(a, k) == a
  {
    if k > 0 { LowAll(a / 2, k - 1); }
  }

  lemma {:induction false} LowBound(a: nat, k: nat)
    ensures Low(a, k) < Pow2(k)
  {
    if k > 0 { LowBound(a / 2, k - 1); }
  }

  lemma {:induction false} JoinBound(x: nat, y: nat, k: nat, j: nat)
    requires x < Pow2(j)
    ensures Join(x, y, k) < Pow2(j + k)
  {
    if k > 0 { JoinBound(x, y / 2, k - 1, j); }
  }

  lemma {:induction false} ShrBound(a: nat, k: nat, j: nat)
    requires a < Pow2(k + j)
    ensures Shr(a, k) < Pow2(j)
  {
    if k > 0 { ShrBound(a / 2, k - 1, j); }
  }

  /* ---- single bits ---- */

  lemma {:induction false} ShrPow2(k: nat, j: nat)
    ensures Shr(Pow2(k), j) == if j <= k then Pow2(k - j) else 0
    decreases j
  {
    if j > 0 {
      if k > 0 { ShrPow2(k - 1, j - 1); } else { ShrZero(j - 1); }
    }
  }

  lemma {:induction false} ShrZero(j: nat)
    ensures Shr(0, j) == 0
  {
    if j > 0 { ShrZero(j - 1); }
  }

  lemma {:induction false} LowPow2(k: nat, j: nat)
    ensures Low(Pow2(k), j) == if k < j then Pow2(k) else 0
    decreases j
  {
    if j > 0 {
      if k > 0 { LowPow2(k - 1, j - 1); } else { LowZero(j - 1); }
    }
  }

  lemma {:induction false} LowZero(j: nat)
    ensures Low(0, j) == 0
  {
    if j > 0 { LowZero(j - 1); }
  }

  lemma {:induction false} JoinZero(x: nat, k: nat)
    ensures Join(x, 0, k) == Shl(x, k)
  {
    if k > 0 { JoinZero(x, k - 1); }
  }

  lemma {:induction false} ZeroJoin(y: nat, k: nat)
    ensures Join(0, y, k) == Low(y, k)
  {
    if k > 0 { ZeroJoin(y / 2, k - 1); }
  }
}
