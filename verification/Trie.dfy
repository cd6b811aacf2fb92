// The bitwise tries of free chunks keyed by chunk size, as values.
module Trie {
  import opened Words
  import opened Rings

  // A node holds the ring of chunks of one size; the ring's head is the chunk in the tree.
  datatype Tree = Nil | Node(ring: seq<int>, size: int, left: Tree, right: Tree)

  function Root(t: Tree): int {
    if t.Node? && t.ring != [] then t.ring[0] else 0
  }

  ghost function Addrs(t: Tree): set<int> {
    if t.Nil? then {} else Elems(t.ring) + Addrs(t.left) + Addrs(t.right)
  }

  ghost predicate HasSize(t: Tree, z: int) {
    t.Node? && (z == t.size || HasSize(t.left, z) || HasSize(t.right, z))
  }

  // Chunk a is stored under size z.
  ghost predicate Holds(t: Tree, a: int, z: int) {
    t.Node? && ((a in t.ring && z == t.size) || Holds(t.left, a, z) || Holds(t.right, a, z))
  }

  // Each chunk is stored once.
  ghost predicate Distinct(t: Tree) {
    t.Node? ==>
      && t.ring != [] && NoDup(t.ring)
      && Elems(t.ring) !! Addrs(t.left) && Elems(t.ring) !! Addrs(t.right) && Addrs(t.left) !! Addrs(t.right)
      && Distinct(t.left) && Distinct(t.right)
  }

  // t is a digital trie over the 2^e sizes from lo on: the left child holds the lower half of the
  // range and the right child the upper half; the node itself may hold any size of the range.
  ghost predicate TrieOk(t: Tree, lo: nat, e: nat)
    decreases t
  {
    t.Node? ==>
      && lo <= t.size < lo + Pow2(e)
      && !HasSize(t.left, t.size) && !HasSize(t.right, t.size)
      && (t.left.Node? || t.right.Node? ==> e > 0)
      && (e > 0 ==> TrieOk(t.left, lo, e - 1) && TrieOk(t.right, lo + Pow2(e - 1), e - 1))
  }

  lemma {:induction false} TrieRange(t: Tree, lo: nat, e: nat)
    requires TrieOk(t, lo, e)
    ensures forall z | HasSize(t, z) :: lo <= z < lo + Pow2(e)
    decreases t
  {
    if t.Node? && e > 0 {
      TrieRange(t.left, lo, e - 1);
      TrieRange(t.right, lo + Pow2(e - 1), e - 1);
    }
  }

  function Down(e: nat): nat {
    if e > 0 then e - 1 else 0
  }

  // Whether the search for s turns right at a node over (lo, e)
  predicate GoRight(s: int, lo: nat, e: nat) {
    s >= lo + Pow2(Down(e))
  }

  // insert_large_chunk on values
  ghost function Insert(t: Tree, x: int, s: int, lo: nat, e: nat): (t': Tree)
    ensures t'.Node?
    decreases t
  {
    if t.Nil? then Node([x], s, Nil, Nil)
    else if t.size == s then t.(ring := if t.ring == [] then [x] else RingInserted(t.ring, x))
    else if GoRight(s, lo, e) then t.(right := Insert(t.right, x, s, lo + Pow2(Down(e)), Down(e)))
    else t.(left := Insert(t.left, x, s, lo, Down(e)))
  }

  lemma {:induction false} InsertSizes(t: Tree, x: int, s: int, lo: nat, e: nat)
    ensures forall z :: HasSize(Insert(t, x, s, lo, e), z) <==> HasSize(t, z) || z == s
    decreases t
  {
    if t.Node? && t.size != s {
      if GoRight(s, lo, e) {
        InsertSizes(t.right, x, s, lo + Pow2(Down(e)), Down(e));
      } else {
        InsertSizes(t.left, x, s, lo, Down(e));
      }
    }
  }

  // A node stays a trie node when one of its parts is exchanged for a fitting one.
  lemma Refit(t: Tree, ring: seq<int>, left: Tree, right: Tree, lo: nat, e: nat)
    requires t.Node? && TrieOk(t, lo, e) && e > 0
    requires TrieOk(left, lo, e - 1) && TrieOk(right, lo + Pow2(e - 1), e - 1)
    requires !HasSize(left, t.size) && !HasSize(right, t.size)
    ensures TrieOk(Node(ring, t.size, left, right), lo, e)
  {
  }

  lemma Descend(t: Tree, s: int, lo: nat, e: nat)
    requires t.Node? && TrieOk(t, lo, e) && lo <= s < lo + Pow2(e) && t.size != s
    ensures e > 0
    ensures TrieOk(t.left, lo, e - 1) && TrieOk(t.right, lo + Pow2(e - 1), e - 1)
    ensures if GoRight(s, lo, e) then lo + Pow2(e - 1) <= s < lo + Pow2(e - 1) + Pow2(e - 1) else s < lo + Pow2(e - 1)
  {
  }

  lemma InsertRight(t: Tree, x: int, s: int, lo: nat, e: nat)
    requires t.Node? && TrieOk(t, lo, e) && t.size != s && e > 0 && GoRight(s, lo, e)
    requires TrieOk(Insert(t.right, x, s, lo + Pow2(e - 1), e - 1), lo + Pow2(e - 1), e - 1)
    ensures TrieOk(Insert(t, x, s, lo, e), lo, e)
  {
    InsertSizes(t.right, x, s, lo + Pow2(e - 1), e - 1);
    Refit(t, t.ring, t.left, Insert(t.right, x, s, lo + Pow2(e - 1), e - 1), lo, e);
  }

  lemma InsertLeft(t: Tree, x: int, s: int, lo: nat, e: nat)
    requires t.Node? && TrieOk(t, lo, e) && t.size != s && e > 0 && !GoRight(s, lo, e)
    requires TrieOk(Insert(t.left, x, s, lo, e - 1), lo, e - 1)
    ensures TrieOk(Insert(t, x, s, lo, e), lo, e)
  {
    InsertSizes(t.left, x, s, lo, e - 1);
    Refit(t, t.ring, Insert(t.left, x, s, lo, e - 1), t.right, lo, e);
  }

  // Insertion keeps the trie a trie.
  lemma {:induction false} InsertTrie(t: Tree, x: int, s: int, lo: nat, e: nat)
    requires TrieOk(t, lo, e) && lo <= s < lo + Pow2(e)
    ensures TrieOk(Insert(t, x, s, lo, e), lo, e)
    decreases t
  {
    if t.Node? && t.size != s {
      Descend(t, s, lo, e);
      if GoRight(s, lo, e) {
        InsertTrie(t.right, x, s, lo + Pow2(e - 1), e - 1);
        InsertRight(t, x, s, lo, e);
      } else {
        InsertTrie(t.left, x, s, lo, e - 1);
        InsertLeft(t, x, s, lo, e);
      }
    }
  }

  lemma {:induction false} InsertAddrs(t: Tree, x: int, s: int, lo: nat, e: nat)
    requires Distinct(t) && x !in Addrs(t)
    ensures Addrs(Insert(t, x, s, lo, e)) == Addrs(t) + {x}
    decreases t
  {
    if t.Nil? {
    } else if t.size == s {
      RingInsertedElems(t.ring, x);
    } else if GoRight(s, lo, e) {
      InsertAddrs(t.right, x, s, lo + Pow2(Down(e)), Down(e));
    } else {
      InsertAddrs(t.left, x, s, lo, Down(e));
    }
  }

  lemma {:induction false} InsertDistinct(t: Tree, x: int, s: int, lo: nat, e: nat)
    requires Distinct(t) && x !in Addrs(t)
    ensures Distinct(Insert(t, x, s, lo, e))
    decreases t
  {
    if t.Nil? {
    } else if t.size == s {
      RingInsertedElems(t.ring, x);
    } else if GoRight(s, lo, e) {
      InsertDistinct(t.right, x, s, lo + Pow2(Down(e)), Down(e));
      InsertAddrs(t.right, x, s, lo + Pow2(Down(e)), Down(e));
    } else {
      InsertDistinct(t.left, x, s, lo, Down(e));
      InsertAddrs(t.left, x, s, lo, Down(e));
    }
  }

  // Insertion adds the one chunk and no other.
  lemma {:induction false} InsertItems(t: Tree, x: int, s: int, lo: nat, e: nat)
    requires Distinct(t) && x !in Addrs(t)
    ensures forall a, z :: Holds(Insert(t, x, s, lo, e), a, z) <==> Holds(t, a, z) || (a == x && z == s)
    decreases t
  {
    if t.Nil? {
    } else if t.size == s {
      RingInsertedElems(t.ring, x);
      forall a ensures a in RingInserted(t.ring, x) <==> a in t.ring || a == x {
        assert a in Elems(RingInserted(t.ring, x)) <==> a in Elems(t.ring) + {x};
      }
    } else if GoRight(s, lo, e) {
      InsertItems(t.right, x, s, lo + Pow2(Down(e)), Down(e));
    } else {
      InsertItems(t.left, x, s, lo, Down(e));
    }
  }

  // The rightmost leaf, found by going right where possible and left otherwise
  ghost function RightLeaf(t: Tree): (r: Tree)
    requires t.Node?
    ensures r.Node? && r.left.Nil? && r.right.Nil?
  {
    if t.right.Node? then RightLeaf(t.right) else if t.left.Node? then RightLeaf(t.left) else t
  }

  ghost function CutRightLeaf(t: Tree): Tree
    requires t.Node?
  {
    if t.right.Node? then t.(right := CutRightLeaf(t.right))
    else if t.left.Node? then t.(left := CutRightLeaf(t.left))
    else Nil
  }

  lemma {:induction false} CutRightLeafSizes(t: Tree, lo: nat, e: nat)
    requires t.Node? && TrieOk(t, lo, e)
    ensures forall z :: HasSize(t, z) <==> HasSize(CutRightLeaf(t), z) || z == RightLeaf(t).size
    ensures !HasSize(CutRightLeaf(t), RightLeaf(t).size)
    decreases t
  {
    if t.right.Node? {
      CutRightLeafSizes(t.right, lo + Pow2(e - 1), e - 1);
      TrieRange(t.right, lo + Pow2(e - 1), e - 1);
      TrieRange(t.left, lo, e - 1);
    } else if t.left.Node? {
      CutRightLeafSizes(t.left, lo, e - 1);
    }
  }

  lemma {:induction false} CutRightLeafTrie(t: Tree, lo: nat, e: nat)
    requires t.Node? && TrieOk(t, lo, e)
    ensures TrieOk(CutRightLeaf(t), lo, e)
    decreases t
  {
    if t.right.Node? {
      CutRightLeafTrie(t.right, lo + Pow2(e - 1), e - 1);
      CutRightLeafSizes(t.right, lo + Pow2(e - 1), e - 1);
      Refit(t, t.ring, t.left, CutRightLeaf(t.right), lo, e);
    } else if t.left.Node? {
      CutRightLeafTrie(t.left, lo, e - 1);
      CutRightLeafSizes(t.left, lo, e - 1);
      Refit(t, t.ring, CutRightLeaf(t.left), t.right, lo, e);
    }
  }

  lemma {:induction false} CutRightLeafItems(t: Tree)
    requires t.Node? && Distinct(t)
    ensures Distinct(CutRightLeaf(t)) && RightLeaf(t).ring != [] && NoDup(RightLeaf(t).ring)
    ensures Addrs(t) == Addrs(CutRightLeaf(t)) + Elems(RightLeaf(t).ring)
    ensures Elems(RightLeaf(t).ring) !! Addrs(CutRightLeaf(t))
    ensures forall a, z :: Holds(t, a, z) <==>
              Holds(CutRightLeaf(t), a, z) || (a in RightLeaf(t).ring && z == RightLeaf(t).size)
    decreases t
  {
    if t.right.Node? {
      CutRightLeafItems(t.right);
    } else if t.left.Node? {
      CutRightLeafItems(t.left);
    }
  }

  // unlink_large_chunk on values: chunk x leaves the ring it is in; the last of a ring is
  // replaced by the rightmost leaf below it.
  ghost function RemoveHere(t: Tree, k: nat): Tree
    requires t.Node? && k < |t.ring|
  {
    if |t.ring| > 1 then t.(ring := RingRemoved(t.ring, k))
    else if t.right.Node? then Node(RightLeaf(t.right).ring, RightLeaf(t.right).size, t.left, CutRightLeaf(t.right))
    else if t.left.Node? then Node(RightLeaf(t.left).ring, RightLeaf(t.left).size, CutRightLeaf(t.left), t.right)
    else Nil
  }

  ghost function Position(s: seq<int>, x: int): (k: nat)
    requires x in s
    ensures k < |s| && s[k] == x
  {
    var k :| 0 <= k < |s| && s[k] == x;
    k
  }

  ghost function Remove(t: Tree, x: int): Tree {
    if t.Nil? then Nil
    else if x in t.ring then RemoveHere(t, Position(t.ring, x))
    else if x in Addrs(t.right) then t.(right := Remove(t.right, x))
    else t.(left := Remove(t.left, x))
  }

  lemma RemoveHereTrie(t: Tree, k: nat, lo: nat, e: nat)
    requires t.Node? && k < |t.ring| && TrieOk(t, lo, e)
    ensures TrieOk(RemoveHere(t, k), lo, e)
    ensures forall z | HasSize(RemoveHere(t, k), z) :: HasSize(t, z)
  {
    if |t.ring| > 1 {
      assert forall z :: HasSize(RemoveHere(t, k), z) <==> HasSize(t, z);
    } else if t.right.Node? {
      CutRightLeafTrie(t.right, lo + Pow2(e - 1), e - 1);
      CutRightLeafSizes(t.right, lo + Pow2(e - 1), e - 1);
      LeafAbove(t, lo, e);
    } else if t.left.Node? {
      CutRightLeafTrie(t.left, lo, e - 1);
      CutRightLeafSizes(t.left, lo, e - 1);
      TrieRange(t.left, lo, e - 1);
    }
  }

  // The leaf that is cut out on the right is in range, and no size on the left.
  lemma LeafAbove(t: Tree, lo: nat, e: nat)
    requires t.Node? && t.right.Node? && TrieOk(t, lo, e)
    ensures e > 0 && lo + Pow2(e - 1) <= RightLeaf(t.right).size < lo + Pow2(e)
    ensures !HasSize(t.left, RightLeaf(t.right).size)
  {
    CutRightLeafSizes(t.right, lo + Pow2(e - 1), e - 1);
    TrieRange(t.right, lo + Pow2(e - 1), e - 1);
    TrieRange(t.left, lo, e - 1);
    assert HasSize(t.right, RightLeaf(t.right).size);
  }

  lemma RemoveHereAddrs(t: Tree, k: nat)
    requires t.Node? && k < |t.ring| && Distinct(t)
    ensures Distinct(RemoveHere(t, k))
    ensures Addrs(RemoveHere(t, k)) == Addrs(t) - {t.ring[k]}
  {
    if |t.ring| > 1 {
      RingRemovedElems(t.ring, k);
    } else {
      assert Elems(t.ring) == {t.ring[0]};
      if t.right.Node? {
        ReplaceAddrs(t, t.left, t.right);
      } else if t.left.Node? {
        ReplaceAddrs(t, t.right, t.left);
      }
    }
  }

  // The leaf cut out of subtree v takes the place of the root above u and v.
  lemma ReplaceAddrs(t: Tree, u: Tree, v: Tree)
    requires t.Node? && Distinct(t) && v.Node? && ((u == t.left && v == t.right) || (u == t.right && v == t.left))
    ensures RightLeaf(v).ring != [] && NoDup(RightLeaf(v).ring) && Distinct(CutRightLeaf(v))
    ensures Addrs(CutRightLeaf(v)) !! Elems(RightLeaf(v).ring) && Addrs(CutRightLeaf(v)) !! Addrs(u)
    ensures Elems(RightLeaf(v).ring) !! Addrs(u)
    ensures Elems(RightLeaf(v).ring) + Addrs(CutRightLeaf(v)) + Addrs(u) == Addrs(t) - Elems(t.ring)
  {
    CutRightLeafItems(v);
  }

  lemma RemoveHereItems(t: Tree, k: nat)
    requires t.Node? && k < |t.ring| && Distinct(t)
    ensures forall a, z :: Holds(RemoveHere(t, k), a, z) <==> Holds(t, a, z) && a != t.ring[k]
  {
    HoldsAddrs(t.left);
    HoldsAddrs(t.right);
    if |t.ring| > 1 {
      RingRemovedElems(t.ring, k);
      forall a ensures a in RingRemoved(t.ring, k) <==> a in t.ring && a != t.ring[k] {
        assert a in Elems(RingRemoved(t.ring, k)) <==> a in Elems(t.ring) - {t.ring[k]};
      }
    } else if t.right.Node? {
      ReplaceItems(t, t.left, t.right);
    } else if t.left.Node? {
      ReplaceItems(t, t.right, t.left);
    }
  }

  lemma ReplaceItems(t: Tree, u: Tree, v: Tree)
    requires t.Node? && |t.ring| == 1 && Distinct(t) && v.Node?
    requires (u == t.left && v == t.right) || (u == t.right && v == t.left)
    ensures forall a, z ::
              (Holds(CutRightLeaf(v), a, z) || (a in RightLeaf(v).ring && z == RightLeaf(v).size) || Holds(u, a, z))
              <==> Holds(t, a, z) && a != t.ring[0]
  {
    CutRightLeafItems(v);
    HoldsAddrs(u);
    HoldsAddrs(v);
    forall a, z
      ensures Holds(v, a, z) || Holds(u, a, z) <==> Holds(t, a, z) && a != t.ring[0]
    {
      assert t.ring[0] in Elems(t.ring);
    }
  }

  lemma {:induction false} HoldsAddrs(t: Tree)
    ensures forall a, z | Holds(t, a, z) :: a in Addrs(t) && HasSize(t, z)
  {
    if t.Node? {
      HoldsAddrs(t.left);
      HoldsAddrs(t.right);
    }
  }

  lemma {:induction false} AddrsHold(t: Tree, a: int) returns (z: int)
    requires a in Addrs(t)
    ensures Holds(t, a, z)
  {
    if a in t.ring {
      z := t.size;
    } else if a in Addrs(t.left) {
      z := AddrsHold(t.left, a);
    } else {
      z := AddrsHold(t.right, a);
    }
  }

  // Removal keeps the trie a trie.
  lemma {:induction false} RemoveTrie(t: Tree, x: int, lo: nat, e: nat)
    requires TrieOk(t, lo, e) && x in Addrs(t)
    ensures TrieOk(Remove(t, x), lo, e)
    ensures forall z | HasSize(Remove(t, x), z) :: HasSize(t, z)
    decreases t
  {
    if x in t.ring {
      RemoveHereTrie(t, Position(t.ring, x), lo, e);
    } else if x in Addrs(t.right) {
      RemoveTrie(t.right, x, lo + Pow2(e - 1), e - 1);
    } else {
      RemoveTrie(t.left, x, lo, e - 1);
    }
  }

  // Removal takes the one chunk out and no other.
  lemma {:induction false} RemoveItems(t: Tree, x: int)
    requires Distinct(t) && x in Addrs(t)
    ensures Distinct(Remove(t, x))
    ensures Addrs(Remove(t, x)) == Addrs(t) - {x}
    ensures forall a, z :: Holds(Remove(t, x), a, z) <==> Holds(t, a, z) && a != x
  {
    HoldsAddrs(t.left);
    HoldsAddrs(t.right);
    if x in t.ring {
      RemoveHereAddrs(t, Position(t.ring, x));
      RemoveHereItems(t, Position(t.ring, x));
    } else if x in Addrs(t.right) {
      RemoveItems(t.right, x);
    } else {
      RemoveItems(t.left, x);
    }
  }
}
