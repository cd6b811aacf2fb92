module TreeBins {
  import opened Words
  import opened BinIndex
  import opened Rings
  import opened HeadWords
  import opened Trie
  import opened TrieLinks
  import opened TrieKey

  // chunksize
  function SizeAt(head: map<int, Head>, a: int): int {
    if a in head then head[a].size else 0
  }

  // Head words give the sizes of the stored chunks.
  ghost predicate SizesStored(head: map<int, Head>, t: Tree) {
    forall a, z | Holds(t, a, z) :: SizeAt(head, a) == z
  }

  lemma {:induction false} SubHolds(t: Tree, path: seq<bool>)
    requires IsPath(t, path)
    ensures forall a, z | Holds(SubAt(t, path), a, z) :: Holds(t, a, z)
    decreases path
  {
    if path != [] {
      SubHolds(Child(t, path[0]), path[1..]);
    }
  }

  lemma NodeSize(head: map<int, Head>, t: Tree, path: seq<bool>)
    requires SizesStored(head, t) && IsPath(t, path) && SubAt(t, path).Node? && SubAt(t, path).ring != []
    ensures SizeAt(head, SubAt(t, path).ring[0]) == SubAt(t, path).size
  {
    SubHolds(t, path);
    var u := SubAt(t, path);
    assert Holds(u, u.ring[0], u.size);
  }

  // The search for the place of (x, s) has come down path to c: what insertion does to the whole
  // tree t is what it does to the subtree u there.
  ghost predicate Descending(L: Links, root: int, t: Tree, i: nat, x: int, s: int,
                             c: int, path: seq<bool>, u: Tree, lo: nat, e: nat) {
    && IsPath(t, path) && u == SubAt(t, path) && c == PtrAt(L, root, path)
    && TrieOk(u, lo, e) && lo <= s < lo + Pow2(e)
    && Insert(t, x, s, BinLow(i), BinBits(i)) == Put(t, path, Insert(u, x, s, lo, e))
  }

  lemma InsertBelow(u: Tree, x: int, s: int, lo: nat, e: nat)
    requires u.Node? && u.size != s && e > 0
    ensures var b := GoRight(s, lo, e);
            Insert(u, x, s, lo, e) ==
              WithChild(u, b, Insert(Child(u, b), x, s, if b then lo + Pow2(e - 1) else lo, e - 1))
  {
  }

  lemma DescentStep(L: Links, root: int, t: Tree, i: nat, x: int, s: int,
                    c: int, path: seq<bool>, u: Tree, lo: nat, e: nat, b: bool, lo': nat)
    requires Descending(L, root, t, i, x, s, c, path, u, lo, e) && u.Node? && u.size != s && e > 0
    requires b == GoRight(s, lo, e) && lo' == if b then lo + Pow2(e - 1) else lo
    ensures Descending(L, root, t, i, x, s, ChildPtr(L, c, b), path + [b], Child(u, b), lo', e - 1)
  {
    Descend(u, s, lo, e);
    InsertBelow(u, x, s, lo, e);
    Extend(L, t, root, 0, path, b, Insert(Child(u, b), x, s, lo', e - 1));
  }

  lemma PtrNil(L: Links, t: Tree, root: int, par: int, path: seq<bool>)
    requires Rep(L, t, root, par) && Distinct(t) && IsPath(t, path)
    ensures PtrAt(L, root, path) == 0 <==> SubAt(t, path).Nil?
    ensures SubAt(t, path).Node? ==> SubAt(t, path).ring != [] && PtrAt(L, root, path) == SubAt(t, path).ring[0]
  {
    SubRep(L, t, root, par, path);
  }

  lemma TopBit(k: nat)
    requires k < W32
    ensures k / 0x8000_0000 % 2 == 1 <==> k >= 0x8000_0000
  {
  }

  // S << leftshift_for_tree_index(I)
  method KeyOf(s: int, i: nat) returns (k: nat)
    requires 256 <= s < W32 && i == TreeBin(s)
    ensures i < 32 && IsKey(k, s, BinLow(i), BinBits(i))
  {
    FirstKey(s);
    k := U32(Shl(s, LeftShift(i)));
  }

  // One bit of the key: which way to go, and the key for the next node
  method KeyBit(k: nat, ghost s: int, ghost lo: nat, ghost e: nat) returns (right: bool, k': nat)
    requires IsKey(k, s, lo, e) && e > 0
    ensures right == GoRight(s, lo, e)
    ensures IsKey(k', s, if right then lo + Pow2(e - 1) else lo, e - 1)
  {
    KeyStep(k, s, lo, e);
    TopBit(k);
    right := k / 0x8000_0000 % 2 == 1;
    k' := U32(2 * k);
  }

  // The descent of insert_large_chunk for size s: it stops at a chunk of size s, or at a chunk
  // without a child on the side where s belongs.
  method Descent(L: Links, head: map<int, Head>, root: int, s: int, i: nat, ghost par: int, ghost t: Tree, ghost x: int)
    returns (c: int, right: bool, ghost path: seq<bool>, ghost u: Tree, ghost lo: nat, ghost e: nat)
    requires 256 <= s < W32 && i == TreeBin(s)
    requires t.Node? && Rep(L, t, root, par) && TrieOk(t, BinLow(i), BinBits(i)) && Distinct(t) && SizesStored(head, t)
    ensures Descending(L, root, t, i, x, s, c, path, u, lo, e) && u.Node?
    ensures u.size == s <==> SizeAt(head, c) == s
    ensures u.size != s ==> Child(u, right).Nil? && (right <==> GoRight(s, lo, e))
  {
    c := root;
    right := false;
    var k := KeyOf(s, i);
    path, u, lo, e := [], t, BinLow(i), BinBits(i);
    PtrNil(L, t, root, par, []);
    NodeSize(head, t, []);
    while SizeAt(head, c) != s
      invariant Descending(L, root, t, i, x, s, c, path, u, lo, e) && u.Node? && IsKey(k, s, lo, e)
      invariant SizeAt(head, c) == u.size
      decreases u
    {
      assert e > 0 by { Descend(u, s, lo, e); }
      right, k := KeyBit(k, s, lo, e);
      ghost var lo' := if right then lo + Pow2(e - 1) else lo;
      DescentStep(L, root, t, i, x, s, c, path, u, lo, e, right, lo');
      var next := ChildPtr(L, c, right);
      PtrNil(L, t, root, par, path + [right]);
      if next == 0 { return; }
      c, path, u := next, path + [right], Child(u, right);
      lo, e := lo', e - 1;
      NodeSize(head, t, path);
    }
  }

  /* ---- unlink_large_chunk ---- */

  // A ring of one is told by a chunk that is its own neighbour.
  lemma OwnNeighbour(L: Links, ring: seq<int>, k: nat)
    requires k < |ring| && NoDup(ring) && RingOk(L.fd, L.bk, ring)
    ensures Rd(L.bk, ring[k]) == ring[k] <==> |ring| == 1
  {
    assert Rd(L.bk, ring[k]) == Before(ring, k);
  }

  // x leaves its ring; r is the neighbour that may take its place.
  method Bypass(L: Links, x: int, ghost ring: seq<int>, ghost k: nat) returns (M: Links, r: int)
    requires k < |ring| && ring[k] == x && 2 <= |ring| && NoDup(ring) && RingOk(L.fd, L.bk, ring)
    ensures RingOk(M.fd, M.bk, RingRemoved(ring, k)) && r == Before(ring, k)
    ensures forall a | a !in ring :: SameRing(L, M, a)
    ensures M == L.(fd := M.fd, bk := M.bk)
  {
    var f := Rd(L.fd, x);
    r := Rd(L.bk, x);
    assert r == Before(ring, k);
    M := L.(bk := L.bk[f := r]);
    M := M.(fd := M.fd[r := f]);
    RingRemove(L.fd, L.bk, ring, k, M.fd, M.bk);
  }

  lemma ChildNil(L: Links, t: Tree, root: int, par: int, path: seq<bool>)
    requires Rep(L, t, root, par) && Distinct(t) && IsPath(t, path) && SubAt(t, path).Node?
    ensures var c := PtrAt(L, root, path);
            (Rd(L.child0, c) == 0 <==> SubAt(t, path).left.Nil?)
            && (Rd(L.child1, c) == 0 <==> SubAt(t, path).right.Nil?)
  {
    SubRep(L, t, root, par, path);
  }

  // The walk to the rightmost leaf of v has come to u: the leaf of u is the leaf of v.
  ghost predicate Walking(L: Links, v: Tree, q: int, x: int, side: bool, path: seq<bool>, u: Tree, r: int, w: int,
                          b: bool) {
    && IsPath(v, path) && u == SubAt(v, path) && u.Node? && r == PtrAt(L, q, path)
    && w == ParAt(L, q, x, path) && b == (if path == [] then side else path[|path| - 1])
    && RightLeaf(v) == RightLeaf(u) && CutRightLeaf(v) == Put(v, path, CutRightLeaf(u))
  }

  lemma WalkStep(L: Links, v: Tree, q: int, x: int, side: bool, path: seq<bool>, u: Tree, r: int, w: int, b: bool,
                 right: bool)
    requires Walking(L, v, q, x, side, path, u, r, w, b)
    requires right == u.right.Node? && (right || u.left.Node?)
    ensures Walking(L, v, q, x, side, path + [right], Child(u, right), ChildPtr(L, r, right), r, right)
  {
    Extend(L, v, q, x, path, right, CutRightLeaf(Child(u, right)));
  }

  // The loop that walks to the rightmost leaf below q; w and b name the link that leads to it.
  method FindRightLeaf(L: Links, q: int, x: int, side: bool, ghost v: Tree)
    returns (r: int, w: int, b: bool, ghost path: seq<bool>)
    requires v.Node? && Rep(L, v, q, x) && Distinct(v)
    ensures ToRightLeaf(v, path) && r == PtrAt(L, q, path)
    ensures w == ParAt(L, q, x, path) && b == if path == [] then side else path[|path| - 1]
  {
    r, w, b, path := q, x, side, [];
    ghost var u := v;
    while Rd(L.child1, r) != 0 || Rd(L.child0, r) != 0
      invariant Walking(L, v, q, x, side, path, u, r, w, b)
      decreases u
    {
      ChildNil(L, v, q, x, path);
      var right := Rd(L.child1, r) != 0;
      WalkStep(L, v, q, x, side, path, u, r, w, b, right);
      w, b := r, right;
      r := ChildPtr(L, r, right);
      path, u := path + [right], Child(u, right);
    }
    ChildNil(L, v, q, x, path);
  }

  // What is left of node u once its head x is gone, before the new head is linked in: the parts of
  // t' below x's old links, and r, the head to be, without children.
  ghost predicate Detached(M: Links, t': Tree, x: int, r: int) {
    && r == Root(t')
    && (t'.Node? ==>
      && t'.ring != [] && r != 0 && RingOk(M.fd, M.bk, t'.ring) && MatesBare(M, t'.ring)
      && Rd(M.child0, r) == 0 && Rd(M.child1, r) == 0
      && Rep(M, t'.left, Rd(M.child0, x), x) && Rep(M, t'.right, Rd(M.child1, x), x))
  }

  lemma BypassHead(L: Links, M: Links, u: Tree, x: int, par: int, r: int)
    requires Rep(L, u, x, par) && u.Node? && Distinct(u) && 0 !in Addrs(u) && 2 <= |u.ring|
    requires RingOk(M.fd, M.bk, RingRemoved(u.ring, 0)) && r == Before(u.ring, 0)
    requires M == L.(fd := M.fd, bk := M.bk) && forall a | a !in u.ring :: SameRing(L, M, a)
    ensures Detached(M, RemoveHere(u, 0), x, r)
    ensures forall a | a !in Addrs(u) :: SameAt(L, M, a)
  {
    var t' := RemoveHere(u, 0);
    RingRemovedElems(u.ring, 0);
    assert r == t'.ring[0] && r in u.ring && r in Elems(u.ring);
    forall a | a in t'.ring && a != t'.ring[0]
      ensures Rd(M.parent, a) == 0 && Rd(M.child0, a) == 0 && Rd(M.child1, a) == 0
    {
      assert a in Elems(t'.ring);
    }
    forall a | a !in u.ring ensures SameAt(L, M, a) { assert SameRing(L, M, a); }
    RepFrame(L, M, u.left, Rd(L.child0, x), x);
    RepFrame(L, M, u.right, Rd(L.child1, x), x);
    forall a | a !in Addrs(u) ensures SameAt(L, M, a) { assert a !in Elems(u.ring); }
  }

  lemma BypassMate(L: Links, M: Links, u: Tree, p: int, par: int, k: nat)
    requires Rep(L, u, p, par) && u.Node? && Distinct(u) && 0 < k < |u.ring|
    requires RingOk(M.fd, M.bk, RingRemoved(u.ring, k))
    requires M == L.(fd := M.fd, bk := M.bk) && forall a | a !in u.ring :: SameRing(L, M, a)
    ensures Rep(M, RemoveHere(u, k), p, par)
    ensures forall a | a !in Addrs(u) :: SameAt(L, M, a)
  {
    var t' := RemoveHere(u, k);
    RingRemovedElems(u.ring, k);
    assert t'.ring[0] == p;
    forall a | a in t'.ring && a != p
      ensures Rd(M.parent, a) == 0 && Rd(M.child0, a) == 0 && Rd(M.child1, a) == 0
    {
      assert a in Elems(t'.ring);
      assert a in u.ring;
    }
    forall a | a !in u.ring ensures SameAt(L, M, a) { assert SameRing(L, M, a); }
    assert p in Elems(u.ring);
    RepFrame(L, M, u.left, Rd(L.child0, p), p);
    RepFrame(L, M, u.right, Rd(L.child1, p), p);
    forall a | a !in Addrs(u) ensures SameAt(L, M, a) { assert a !in Elems(u.ring); }
  }

  // The leaf cut from below x on side b
  lemma CutBelow(L: Links, M: Links, u: Tree, x: int, par: int, side: bool, path: seq<bool>, w: int, b: bool, r: int)
    requires Rep(L, u, x, par) && u.Node? && Distinct(u) && 0 !in Addrs(u) && |u.ring| == 1
    requires Child(u, side).Node? && (side || u.right.Nil?)
    requires var q := ChildPtr(L, x, side);
             ToRightLeaf(Child(u, side), path) && r == PtrAt(L, q, path) && w == ParAt(L, q, x, path) &&
             b == if path == [] then side else path[|path| - 1]
    requires SlotCleared(L, M, w, b)
    ensures Detached(M, RemoveHere(u, 0), x, r)
    ensures forall a | a !in Addrs(u) :: SameAt(L, M, a)
  {
    var q, v := ChildPtr(L, x, side), Child(u, side);
    assert x in Elems(u.ring);
    SubRep(L, v, q, x, path);
    CutLeafRep(L, M, v, q, x, side, path);
    CutLeafRing(L, M, v, q, x, path, w, b);
    var o := Child(u, !side);
    forall a | a in Addrs(o) ensures SameAt(L, M, a) { assert a !in Addrs(v); }
    RepFrame(L, M, o, ChildPtr(L, x, !side), x);
    assert RightLeaf(v).ring != [] && RightLeaf(v).ring[0] == r;
    assert r in Elems(RightLeaf(v).ring);
  }

  // First half of unlink_large_chunk for a chunk x that is alone in its ring: cut off its replacement.
  method CutReplacement(L: Links, x: int, ghost par: int, ghost u: Tree) returns (M: Links, r: int)
    requires Rep(L, u, x, par) && u.Node? && Distinct(u) && 0 !in Addrs(u) && |u.ring| == 1
    ensures Detached(M, RemoveHere(u, 0), x, r)
    ensures forall a | a !in Addrs(u) :: SameAt(L, M, a)
    ensures M.index == L.index
  {
    M := L;
    var side := true;
    r := Rd(L.child1, x);
    if r == 0 {
      side := false;
      r := Rd(L.child0, x);
    }
    if r != 0 {
      var w, b;
      ghost var path;
      r, w, b, path := FindRightLeaf(L, r, x, side, Child(u, side));
      M := if b then L.(child1 := L.child1[w := 0]) else L.(child0 := L.child0[w := 0]);
      CutBelow(L, M, u, x, par, side, path, w, b, r);
    }
  }

  method SetChild(M: Links, w: int, right: bool, v: int) returns (N: Links)
    ensures ChildPtr(N, w, right) == v && ChildPtr(N, w, !right) == ChildPtr(M, w, !right)
    ensures forall a | a != w :: SameAt(M, N, a)
    ensures N.fd == M.fd && N.bk == M.bk && N.parent == M.parent && N.index == M.index
  {
    if right {
      N := M.(child1 := M.child1[w := v]);
    } else {
      N := M.(child0 := M.child0[w := v]);
    }
  }

  // x's parent link to r instead of x
  method LinkFromParent(M: Links, x: int, xp: int, atRoot: bool, r: int) returns (N: Links)
    ensures forall a | a != xp :: SameAt(M, N, a)
    ensures SameRing(M, N, xp) && SameParent(M, N, xp)
    ensures atRoot ==> SameAt(M, N, xp)
    ensures !atRoot && Rd(M.child0, xp) == x ==> Rd(N.child0, xp) == r && SameRight(M, N, xp)
    ensures !atRoot && Rd(M.child0, xp) != x ==> Rd(N.child1, xp) == r && SameLeft(M, N, xp)
    ensures N.index == M.index
  {
    N := M;
    if !atRoot {
      N := SetChild(M, xp, Rd(M.child0, xp) != x, r);
    }
  }

  // Child c, if there is one, goes below r.
  method AdoptChild(M: Links, c: int, r: int, right: bool) returns (N: Links)
    requires ChildPtr(M, r, right) == 0 && c != r
    ensures ChildPtr(N, r, right) == c && ChildPtr(N, r, !right) == ChildPtr(M, r, !right)
    ensures SameParent(M, N, r) && N.fd == M.fd && N.bk == M.bk
    ensures c != 0 ==> Rd(N.parent, c) == r && SameLeft(M, N, c) && SameRight(M, N, c)
    ensures forall a | a != r && (c == 0 || a != c) :: SameAt(M, N, a)
    ensures N.index == M.index
  {
    N := M;
    if c != 0 {
      var N' := SetChild(M, r, right, c);
      N := N'.(parent := N'.parent[c := r]);
      assert SameAt(M, N', c);
      forall a | a != r && a != c ensures SameAt(M, N, a) { assert SameAt(M, N', a); }
    }
  }

  // r takes x's parent and children.
  method AdoptChildren(M: Links, x: int, xp: int, r: int) returns (N: Links)
    requires Rd(M.child0, r) == 0 && Rd(M.child1, r) == 0
    requires var c0, c1 := Rd(M.child0, x), Rd(M.child1, x);
             r != 0 && r != c0 && r != c1 && (c0 == 0 || c0 != c1) && r != x && c0 != x && c1 != x
    ensures TakenOver(M, N, r, Rd(M.child0, x), Rd(M.child1, x), xp)
    ensures forall a | a != r && (Rd(M.child0, x) == 0 || a != Rd(M.child0, x))
                       && (Rd(M.child1, x) == 0 || a != Rd(M.child1, x)) ::
              SameAt(M, N, a)
    ensures N.index == M.index
  {
    var N0 := M.(parent := M.parent[r := xp]);
    assert forall a | a != r :: SameAt(M, N0, a);
    assert SameAt(M, N0, x);
    ghost var c0, c1 := Rd(M.child0, x), Rd(M.child1, x);
    var N1 := AdoptChild(N0, Rd(N0.child0, x), r, false);
    assert SameAt(N0, N1, x);
    N := AdoptChild(N1, Rd(N1.child1, x), r, true);
    forall a | a != r && (c0 == 0 || a != c0) && (c1 == 0 || a != c1)
      ensures SameAt(M, N, a)
    {
      assert SameAt(M, N0, a) && SameAt(N0, N1, a) && SameAt(N1, N, a);
    }
    if c0 != 0 { assert SameAt(M, N0, c0) && SameAt(N1, N, c0); }
    if c1 != 0 { assert SameAt(M, N0, c1) && SameAt(N0, N1, c1); }
  }

  // Second half: r takes over the place of x below xp, x's children and its parent.
  method Relink(L: Links, x: int, xp: int, atRoot: bool, r: int, ghost t': Tree) returns (N: Links)
    requires Detached(L, t', x, r) && Distinct(t') && x !in Addrs(t') && 0 !in Addrs(t') && x != 0
    requires xp !in Addrs(t') && xp != x && xp != 0
    ensures Rep(N, t', r, xp)
    ensures forall a | a !in Addrs(t') && a != xp :: SameAt(L, N, a)
    ensures SameRing(L, N, xp) && SameParent(L, N, xp)
    ensures atRoot ==> SameAt(L, N, xp)
    ensures !atRoot && Rd(L.child0, xp) == x ==> Rd(N.child0, xp) == r && SameRight(L, N, xp)
    ensures !atRoot && Rd(L.child0, xp) != x ==> Rd(N.child1, xp) == r && SameLeft(L, N, xp)
    ensures N.index == L.index
  {
    var M := LinkFromParent(L, x, xp, atRoot, r);
    N := M;
    if r != 0 {
      ghost var c0, c1 := Rd(L.child0, x), Rd(L.child1, x);
      assert r in Elems(t'.ring);
      RootIn(L, t'.left, c0, x);
      RootIn(L, t'.right, c1, x);
      DetachedFrame(L, M, t', x, r, xp);
      N := AdoptChildren(M, x, xp, r);
      forall a | a !in Addrs(t') && a != xp ensures SameAt(L, N, a) { assert SameAt(L, M, a) && SameAt(M, N, a); }
      assert SameAt(M, N, xp);
      TakeOver(M, N, t'.ring, t'.size, t'.left, t'.right, x, c0, c1, xp);
    }
  }

  lemma DetachedFrame(L: Links, M: Links, t': Tree, x: int, r: int, xp: int)
    requires Detached(L, t', x, r) && xp !in Addrs(t') && xp != x
    requires forall a | a != xp :: SameAt(L, M, a)
    ensures Detached(M, t', x, r)
    ensures Rd(M.child0, x) == Rd(L.child0, x) && Rd(M.child1, x) == Rd(L.child1, x)
  {
    assert SameAt(L, M, x);
    if t'.Node? {
      forall a | a in t'.ring ensures SameAt(L, M, a) { assert a in Elems(t'.ring); }
      RingFrame(L.fd, L.bk, t'.ring, M.fd, M.bk);
      RepFrame(L, M, t'.left, Rd(L.child0, x), x);
      RepFrame(L, M, t'.right, Rd(L.child1, x), x);
      assert SameAt(L, M, r);
    }
  }

  // The path to the node whose ring holds x
  lemma {:induction false} PathTo(t: Tree, x: int) returns (path: seq<bool>)
    requires x in Addrs(t)
    ensures IsPath(t, path) && SubAt(t, path).Node? && x in SubAt(t, path).ring
    ensures Remove(t, x) == Put(t, path, RemoveHere(SubAt(t, path), Position(SubAt(t, path).ring, x)))
    decreases t
  {
    if x in t.ring {
      path := [];
    } else {
      var b := x in Addrs(t.right);
      var rest := PathTo(Child(t, b), x);
      path := [b] + rest;
      assert path[1..] == rest;
    }
  }

  // Memory changed within the subtree at a path and in the link to it.
  lemma WholeTree(L: Links, M: Links, t: Tree, root: int, slot: int, path: seq<bool>, t': Tree, r: int)
    requires Rep(L, t, root, slot) && Distinct(t) && IsPath(t, path) && SubAt(t, path).Node?
    requires slot !in Addrs(t) && slot != 0
    requires var w, x := ParAt(L, root, slot, path), PtrAt(L, root, path);
             Rep(M, t', r, w) &&
             (forall a | a !in Addrs(SubAt(t, path)) && a != w :: SameAt(L, M, a)) &&
             (path == [] ==> SameAt(L, M, w)) &&
             (path != [] ==>
               SameRing(L, M, w) && SameParent(L, M, w) &&
               (Rd(L.child0, w) == x ==> Rd(M.child0, w) == r && SameRight(L, M, w)) &&
               (Rd(L.child0, w) != x ==> Rd(M.child1, w) == r && SameLeft(L, M, w)))
    ensures Rep(M, Put(t, path, t'), if path == [] then r else root, slot)
    ensures forall a | a !in Addrs(t) :: SameAt(L, M, a)
  {
    SubRep(L, t, root, slot, path);
    if path != [] { ParentLink(L, t, root, slot, path); }
    PutRep(L, M, t, root, slot, path, t', r);
  }

  // The link from the parent leads to the child, and the other link elsewhere.
  lemma {:induction false} ParentLink(L: Links, t: Tree, p: int, par: int, path: seq<bool>)
    requires Rep(L, t, p, par) && Distinct(t) && path != [] && IsPath(t, path) && SubAt(t, path).Node?
    ensures var w, x := ParAt(L, p, par, path), PtrAt(L, p, path);
            ChildPtr(L, w, path[|path| - 1]) == x && ChildPtr(L, w, !path[|path| - 1]) != x
    decreases path
  {
    var c, cp := Child(t, path[0]), ChildPtr(L, p, path[0]);
    if |path| > 1 {
      assert path[1..][|path[1..]| - 1] == path[|path| - 1];
      ParentLink(L, c, cp, p, path[1..]);
    } else {
      assert path[1..] == [];
      RootIn(L, t.left, Rd(L.child0, p), p);
      RootIn(L, t.right, Rd(L.child1, p), p);
    }
  }

  // unlink_large_chunk on the links of one tree: x leaves, and root' is the new root.
  method Unlink(L: Links, root: int, x: int, ghost slot: int, ghost t: Tree) returns (N: Links, root': int)
    requires Rep(L, t, root, slot) && Distinct(t) && x in Addrs(t)
    requires slot !in Addrs(t) && slot != 0 && 0 !in Addrs(t)
    ensures Rep(N, Remove(t, x), root', slot)
    ensures forall a | a !in Addrs(t) :: SameAt(L, N, a)
    ensures N.index == L.index
  {
    ghost var path := PathTo(t, x);
    ghost var u := SubAt(t, path);
    ghost var k := Position(u.ring, x);
    ghost var w := ParAt(L, root, slot, path);
    SubRep(L, t, root, slot, path);
    assert 0 !in Addrs(u) && x in Elems(u.ring);
    OwnNeighbour(L, u.ring, k);
    RemoveHereAddrs(u, k);
    root' := root;
    var xp := Rd(L.parent, x);
    var r;
    if Rd(L.bk, x) != x {
      N, r := Bypass(L, x, u.ring, k);
      if xp == 0 {
        MateHasNoParent(L, u, PtrAt(L, root, path), w, k);
        BypassMate(L, N, u, PtrAt(L, root, path), w, k);
        UnlinkMate(L, N, t, root, slot, path, k);
        return;
      }
      MateHasNoParent(L, u, PtrAt(L, root, path), w, k);
      BypassHead(L, N, u, x, w, r);
    } else {
      N, r := CutReplacement(L, x, w, u);
    }
    var M := N;
    var atRoot := x == root;
    N := Relink(M, x, xp, atRoot, r, RemoveHere(u, k));
    if atRoot { root' := r; }
    UnlinkHead(L, M, N, t, root, slot, path, r);
  }

  lemma MateHasNoParent(L: Links, u: Tree, p: int, par: int, k: nat)
    requires Rep(L, u, p, par) && u.Node? && Distinct(u) && k < |u.ring| && par != 0
    ensures if k == 0 then Rd(L.parent, u.ring[k]) == par else Rd(L.parent, u.ring[k]) == 0
  {
  }

  lemma UnlinkMate(L: Links, N: Links, t: Tree, root: int, slot: int, path: seq<bool>, k: nat)
    requires Rep(L, t, root, slot) && Distinct(t) && IsPath(t, path) && SubAt(t, path).Node?
    requires slot !in Addrs(t) && slot != 0 && 0 < k < |SubAt(t, path).ring|
    requires Rep(N, RemoveHere(SubAt(t, path), k), PtrAt(L, root, path), ParAt(L, root, slot, path))
    requires forall a | a !in Addrs(SubAt(t, path)) :: SameAt(L, N, a)
    ensures Rep(N, Put(t, path, RemoveHere(SubAt(t, path), k)), root, slot)
    ensures forall a | a !in Addrs(t) :: SameAt(L, N, a)
  {
    SubRep(L, t, root, slot, path);
    if path != [] { ParentLink(L, t, root, slot, path); }
    assert SameAt(L, N, ParAt(L, root, slot, path));
    PutRep(L, N, t, root, slot, path, RemoveHere(SubAt(t, path), k), PtrAt(L, root, path));
  }

  lemma UnlinkHead(L: Links, M: Links, N: Links, t: Tree, root: int, slot: int, path: seq<bool>, r: int)
    requires Rep(L, t, root, slot) && Distinct(t) && IsPath(t, path) && SubAt(t, path).Node?
    requires slot !in Addrs(t) && slot != 0 && SubAt(t, path).ring != []
    requires forall a | a !in Addrs(SubAt(t, path)) :: SameAt(L, M, a)
    requires var w, x, u := ParAt(L, root, slot, path), PtrAt(L, root, path), SubAt(t, path);
             Rep(N, RemoveHere(u, 0), r, w) &&
             (forall a | a !in Addrs(RemoveHere(u, 0)) && a != w :: SameAt(M, N, a)) &&
             SameRing(M, N, w) && SameParent(M, N, w) &&
             (x == root ==> SameAt(M, N, w)) &&
             (x != root && Rd(M.child0, w) == x ==> Rd(N.child0, w) == r && SameRight(M, N, w)) &&
             (x != root && Rd(M.child0, w) != x ==> Rd(N.child1, w) == r && SameLeft(M, N, w))
    ensures Rep(N, Put(t, path, RemoveHere(SubAt(t, path), 0)), if PtrAt(L, root, path) == root then r else root, slot)
    ensures forall a | a !in Addrs(t) :: SameAt(L, N, a)
  {
    var w, x, u := ParAt(L, root, slot, path), PtrAt(L, root, path), SubAt(t, path);
    SubRep(L, t, root, slot, path);
    RemoveHereAddrs(u, 0);
    forall a | a !in Addrs(u) && a != w ensures SameAt(L, N, a) { assert SameAt(L, M, a) && SameAt(M, N, a); }
    assert SameAt(L, M, w);
    if path != [] { NotRoot(L, t, root, slot, path); }
    WholeTree(L, N, t, root, slot, path, RemoveHere(u, 0), r);
  }

  lemma NotRoot(L: Links, t: Tree, root: int, slot: int, path: seq<bool>)
    requires Rep(L, t, root, slot) && Distinct(t) && path != [] && IsPath(t, path) && SubAt(t, path).Node?
    ensures PtrAt(L, root, path) != root
  {
    SubRep(L, Child(t, path[0]), ChildPtr(L, root, path[0]), root, path[1..]);
    assert root in Elems(t.ring);
    RootIn(L, SubAt(t, path), PtrAt(L, root, path), ParAt(L, root, slot, path));
  }

  /* ---- insert_large_chunk ---- */

  // x becomes the first chunk of an empty bin.
  method LinkFirst(L: Links, x: int, s: int, i: nat, slot: int) returns (N: Links)
    requires x != 0
    ensures Rep(N, Node([x], s, Nil, Nil), x, slot)
    ensures forall a | a != x :: SameAt(L, N, a) && Rd(N.index, a) == Rd(L.index, a)
    ensures Rd(N.index, x) == i
  {
    var M := L.(index := L.index[x := i], child0 := L.child0[x := 0], child1 := L.child1[x := 0]);
    N := SetSingle(M, x, slot);
    forall a | a != x ensures SameAt(L, N, a) { assert SameAt(M, N, a); }
  }

  // x joins a bin that is not empty.
  method LinkInto(L: Links, head: map<int, Head>, root: int, x: int, s: int, i: nat, ghost slot: int, ghost t: Tree)
    returns (N: Links)
    requires 256 <= s < W32 && i == TreeBin(s) && x != 0 && x !in Addrs(t)
    requires t.Node? && Rep(L, t, root, slot) && TrieOk(t, BinLow(i), BinBits(i)) && Distinct(t) && SizesStored(head, t)
    ensures Rep(N, Insert(t, x, s, BinLow(i), BinBits(i)), root, slot)
    ensures forall a | a !in Addrs(t) && a != x :: SameAt(L, N, a)
    ensures forall a | a != x :: Rd(N.index, a) == Rd(L.index, a)
    ensures Rd(N.index, x) == i
  {
    var M := L.(index := L.index[x := i], child0 := L.child0[x := 0], child1 := L.child1[x := 0]);
    assert forall a | a != x :: SameAt(L, M, a);
    RepFrame(L, M, t, root, slot);
    N := Place(M, head, root, x, s, i, slot, t);
    forall a | a !in Addrs(t) && a != x ensures SameAt(L, N, a) { assert SameAt(L, M, a) && SameAt(M, N, a); }
  }

  method Place(M: Links, head: map<int, Head>, root: int, x: int, s: int, i: nat, ghost slot: int, ghost t: Tree)
    returns (N: Links)
    requires 256 <= s < W32 && i == TreeBin(s) && x != 0 && x !in Addrs(t)
    requires Rd(M.child0, x) == 0 && Rd(M.child1, x) == 0
    requires t.Node? && Rep(M, t, root, slot) && TrieOk(t, BinLow(i), BinBits(i)) && Distinct(t) && SizesStored(head, t)
    ensures Rep(N, Insert(t, x, s, BinLow(i), BinBits(i)), root, slot)
    ensures forall a | a !in Addrs(t) && a != x :: SameAt(M, N, a)
    ensures N.index == M.index
  {
    var c, right;
    ghost var path, u, lo, e;
    c, right, path, u, lo, e := Descent(M, head, root, s, i, slot, t, x);
    ghost var w := ParAt(M, root, slot, path);
    SubRep(M, t, root, slot, path);
    RingNext(M, u, c, w);
    InsertHere(u, right, x, s, lo, e);
    if SizeAt(head, c) != s {
      N := HangBelow(M, c, right, x);
      AddLeaf(M, N, u, c, w, right, x, s);
    } else {
      N := JoinBehind(M, c, x);
      JoinRing(M, N, u, c, w, Rd(M.fd, c), x);
    }
    InsertPlace(M, N, t, root, slot, path, Insert(u, x, s, lo, e), x);
  }

  lemma RingNext(L: Links, u: Tree, c: int, w: int)
    requires Rep(L, u, c, w) && u.Node?
    ensures c in Addrs(u) && Rd(L.fd, c) in Addrs(u)
  {
    assert Rd(L.fd, c) == After(u.ring, 0);
    assert After(u.ring, 0) in Elems(u.ring) && c in Elems(u.ring);
  }

  // What insertion means at the node where the descent stops
  lemma InsertHere(u: Tree, right: bool, x: int, s: int, lo: nat, e: nat)
    requires u.Node? && u.ring != []
    requires u.size != s ==> Child(u, right).Nil? && (right <==> GoRight(s, lo, e))
    ensures Insert(u, x, s, lo, e) ==
              if u.size == s then u.(ring := RingInserted(u.ring, x)) else WithChild(u, right, Node([x], s, Nil, Nil))
  {
  }

  method HangBelow(M: Links, c: int, right: bool, x: int) returns (N: Links)
    requires c != x && Rd(M.child0, x) == 0 && Rd(M.child1, x) == 0
    ensures ChildLinked(M, N, c, right, x)
    ensures N.index == M.index
  {
    var N' := SetChild(M, c, right, x);
    N := SetSingle(N', x, c);
    assert SameAt(M, N', x) && SameAt(N', N, c);
    forall a | a != x && a != c ensures SameAt(M, N, a) { assert SameAt(M, N', a) && SameAt(N', N, a); }
  }

  method SetSingle(M: Links, x: int, par: int) returns (N: Links)
    ensures forall a | a != x :: SameAt(M, N, a)
    ensures Rd(N.fd, x) == x && Rd(N.bk, x) == x && Rd(N.parent, x) == par
    ensures N.child0 == M.child0 && N.child1 == M.child1 && N.index == M.index
  {
    N := M.(parent := M.parent[x := par], fd := M.fd[x := x], bk := M.bk[x := x]);
  }

  method JoinBehind(M: Links, c: int, x: int) returns (N: Links)
    requires c != x && Rd(M.fd, c) != x && Rd(M.child0, x) == 0 && Rd(M.child1, x) == 0
    ensures RingLinked(M, N, c, Rd(M.fd, c), x)
    ensures N.index == M.index
  {
    var f := Rd(M.fd, c);
    N := M.(fd := M.fd[c := x], bk := M.bk[f := x]);
    N := N.(fd := N.fd[x := f], bk := N.bk[x := c], parent := N.parent[x := 0]);
  }

  lemma InsertPlace(M: Links, N: Links, t: Tree, root: int, slot: int, path: seq<bool>, u': Tree, x: int)
    requires Rep(M, t, root, slot) && Distinct(t) && IsPath(t, path) && SubAt(t, path).Node? && x !in Addrs(t)
    requires Rep(N, u', PtrAt(M, root, path), ParAt(M, root, slot, path))
    requires forall a | a !in Addrs(SubAt(t, path)) && a != x :: SameAt(M, N, a)
    ensures Rep(N, Put(t, path, u'), root, slot)
  {
    SubRep(M, t, root, slot, path);
    if path != [] {
      ParentLink(M, t, root, slot, path);
      assert SameAt(M, N, ParAt(M, root, slot, path));
    }
    PutRep(M, N, t, root, slot, path, u', PtrAt(M, root, path));
  }
}
