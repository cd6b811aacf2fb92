// How a trie lies in memory: child, parent and ring links of its chunks.
module TrieLinks {
  import opened Rings
  import opened Trie

  // t is what hangs below pointer p, whose parent field holds par. Only the head of a ring has
  // parent and child links; its mates have none.
  ghost predicate Rep(L: Links, t: Tree, p: int, par: int) {
    if t.Nil? then p == 0
    else
      && t.ring != [] && p == t.ring[0] && p != 0
      && Rd(L.parent, p) == par
      && RingOk(L.fd, L.bk, t.ring)
      && (forall a | a in t.ring && a != p :: Rd(L.parent, a) == 0 && Rd(L.child0, a) == 0 && Rd(L.child1, a) == 0)
      && Rep(L, t.left, Rd(L.child0, p), p)
      && Rep(L, t.right, Rd(L.child1, p), p)
  }

  // The links of a into its ring, and into the tree
  ghost predicate SameRing(L: Links, M: Links, a: int) {
    Rd(L.fd, a) == Rd(M.fd, a) && Rd(L.bk, a) == Rd(M.bk, a)
  }

  ghost predicate SameLeft(L: Links, M: Links, a: int) {
    Rd(L.child0, a) == Rd(M.child0, a)
  }

  ghost predicate SameRight(L: Links, M: Links, a: int) {
    Rd(L.child1, a) == Rd(M.child1, a)
  }

  ghost predicate SameParent(L: Links, M: Links, a: int) {
    Rd(L.parent, a) == Rd(M.parent, a)
  }

  ghost predicate SameAt(L: Links, M: Links, a: int) {
    SameRing(L, M, a) && SameLeft(L, M, a) && SameRight(L, M, a) && SameParent(L, M, a)
  }

  lemma {:induction false} RepFrame(L: Links, M: Links, t: Tree, p: int, par: int)
    requires Rep(L, t, p, par)
    requires forall a | a in Addrs(t) :: SameAt(L, M, a)
    ensures Rep(M, t, p, par)
    decreases t
  {
    if t.Node? {
      forall a | a in t.ring ensures SameAt(L, M, a) { assert a in Addrs(t); }
      RingFrame(L.fd, L.bk, t.ring, M.fd, M.bk);
      assert p in t.ring;
      RepFrame(L, M, t.left, Rd(L.child0, p), p);
      RepFrame(L, M, t.right, Rd(L.child1, p), p);
    }
  }

  // The same tree under another parent
  lemma RepMoved(L: Links, M: Links, t: Tree, p: int, par: int, par': int)
    requires Rep(L, t, p, par) && Distinct(t)
    requires forall a | a in Addrs(t) && a != p :: SameAt(L, M, a)
    requires t.Node? ==> SameRing(L, M, p) && SameLeft(L, M, p) && SameRight(L, M, p) && Rd(M.parent, p) == par'
    ensures Rep(M, t, p, par')
  {
    if t.Node? {
      assert p in t.ring;
      forall a | a in t.ring && a != p ensures SameAt(L, M, a) { assert a in Elems(t.ring); }
      RingFrame(L.fd, L.bk, t.ring, M.fd, M.bk);
      forall a | a in Addrs(t.left) + Addrs(t.right) ensures SameAt(L, M, a) { assert p in Elems(t.ring); }
      RepFrame(L, M, t.left, Rd(L.child0, p), p);
      RepFrame(L, M, t.right, Rd(L.child1, p), p);
    }
  }

  // Exchanging one child of a node: memory may change inside that child and in p's link to it.
  lemma RepWithRight(L: Links, M: Links, t: Tree, p: int, par: int, right: Tree)
    requires t.Node? && Rep(L, t, p, par) && Distinct(t)
    requires forall a | a in Addrs(t) && a !in Addrs(t.right) && a != p :: SameAt(L, M, a)
    requires SameRing(L, M, p) && SameLeft(L, M, p) && SameParent(L, M, p)
    requires Rep(M, right, Rd(M.child1, p), p)
    ensures Rep(M, t.(right := right), p, par)
  {
    assert p in Elems(t.ring);
    forall a | a in t.ring && a != p ensures SameAt(L, M, a) { assert a in Elems(t.ring); }
    RingFrame(L.fd, L.bk, t.ring, M.fd, M.bk);
    RepFrame(L, M, t.left, Rd(L.child0, p), p);
  }

  lemma RepWithLeft(L: Links, M: Links, t: Tree, p: int, par: int, left: Tree)
    requires t.Node? && Rep(L, t, p, par) && Distinct(t)
    requires forall a | a in Addrs(t) && a !in Addrs(t.left) && a != p :: SameAt(L, M, a)
    requires SameRing(L, M, p) && SameRight(L, M, p) && SameParent(L, M, p)
    requires Rep(M, left, Rd(M.child0, p), p)
    ensures Rep(M, t.(left := left), p, par)
  {
    assert p in Elems(t.ring);
    forall a | a in t.ring && a != p ensures SameAt(L, M, a) { assert a in Elems(t.ring); }
    RingFrame(L.fd, L.bk, t.ring, M.fd, M.bk);
    RepFrame(L, M, t.right, Rd(L.child1, p), p);
  }

  /* ---- places in a tree: a path says left (false) or right (true) at each node ---- */

  ghost function Child(t: Tree, right: bool): Tree
    requires t.Node?
  {
    if right then t.right else t.left
  }

  ghost function WithChild(t: Tree, right: bool, c: Tree): Tree
    requires t.Node?
  {
    if right then t.(right := c) else t.(left := c)
  }

  function ChildPtr(L: Links, p: int, right: bool): int {
    Rd(if right then L.child1 else L.child0, p)
  }

  ghost predicate IsPath(t: Tree, path: seq<bool>) {
    path == [] || (t.Node? && IsPath(Child(t, path[0]), path[1..]))
  }

  ghost function SubAt(t: Tree, path: seq<bool>): Tree
    requires IsPath(t, path)
  {
    if path == [] then t else SubAt(Child(t, path[0]), path[1..])
  }

  // t with the subtree at path exchanged for u
  ghost function Put(t: Tree, path: seq<bool>, u: Tree): Tree
    requires IsPath(t, path)
  {
    if path == [] then u else WithChild(t, path[0], Put(Child(t, path[0]), path[1..], u))
  }

  function PtrAt(L: Links, p: int, path: seq<bool>): int
    decreases path
  {
    if path == [] then p else PtrAt(L, ChildPtr(L, p, path[0]), path[1..])
  }

  // The pointer one step up
  function ParAt(L: Links, p: int, par: int, path: seq<bool>): int
    decreases path
  {
    if path == [] then par else ParAt(L, ChildPtr(L, p, path[0]), p, path[1..])
  }

  lemma {:induction false} Extend(L: Links, t: Tree, p: int, par: int, path: seq<bool>, b: bool, c: Tree)
    requires IsPath(t, path) && SubAt(t, path).Node?
    ensures IsPath(t, path + [b])
    ensures SubAt(t, path + [b]) == Child(SubAt(t, path), b)
    ensures PtrAt(L, p, path + [b]) == ChildPtr(L, PtrAt(L, p, path), b)
    ensures ParAt(L, p, par, path + [b]) == PtrAt(L, p, path)
    ensures Put(t, path + [b], c) == Put(t, path, WithChild(SubAt(t, path), b, c))
    decreases path
  {
    if path != [] {
      assert (path + [b])[1..] == path[1..] + [b];
      Extend(L, Child(t, path[0]), ChildPtr(L, p, path[0]), p, path[1..], b, c);
    } else {
      assert (path + [b])[1..] == [];
      assert IsPath(Child(t, b), []);
      assert PtrAt(L, ChildPtr(L, p, b), []) == ChildPtr(L, p, b);
      assert ParAt(L, ChildPtr(L, p, b), p, []) == p;
    }
  }

  lemma RepWithChild(L: Links, M: Links, t: Tree, p: int, par: int, b: bool, c: Tree)
    requires t.Node? && Rep(L, t, p, par) && Distinct(t)
    requires forall a | a in Addrs(t) && a !in Addrs(Child(t, b)) && a != p :: SameAt(L, M, a)
    requires SameRing(L, M, p) && SameParent(L, M, p) && ChildPtr(M, p, !b) == ChildPtr(L, p, !b)
    requires Rep(M, c, ChildPtr(M, p, b), p)
    ensures Rep(M, WithChild(t, b, c), p, par)
  {
    if b { RepWithRight(L, M, t, p, par, c); } else { RepWithLeft(L, M, t, p, par, c); }
  }

  // What lies at a path, and where
  lemma {:induction false} SubRep(L: Links, t: Tree, p: int, par: int, path: seq<bool>)
    requires Rep(L, t, p, par) && IsPath(t, path) && Distinct(t)
    ensures Rep(L, SubAt(t, path), PtrAt(L, p, path), ParAt(L, p, par, path))
    ensures Distinct(SubAt(t, path)) && Addrs(SubAt(t, path)) <= Addrs(t)
    ensures path != [] ==> ParAt(L, p, par, path) in Addrs(t) && ParAt(L, p, par, path) !in Addrs(SubAt(t, path))
    decreases path
  {
    if path != [] {
      assert p in Elems(t.ring);
      SubRep(L, Child(t, path[0]), ChildPtr(L, p, path[0]), p, path[1..]);
    }
  }

  // From L to M, memory has changed only inside the subtree at path and in the one link to it,
  // which now holds q.
  ghost predicate OnlyBelow(L: Links, M: Links, t: Tree, p: int, par: int, path: seq<bool>, q: int)
    requires IsPath(t, path)
  {
    var w := ParAt(L, p, par, path);
    && (forall a | a in Addrs(t) && a !in Addrs(SubAt(t, path)) && a != w :: SameAt(L, M, a))
    && (path != [] ==>
      var b := path[|path| - 1];
      SameRing(L, M, w) && SameParent(L, M, w) && ChildPtr(M, w, b) == q && ChildPtr(M, w, !b) == ChildPtr(L, w, !b))
  }

  lemma OnlyBelowLast(L: Links, M: Links, t: Tree, p: int, par: int, path: seq<bool>, q: int)
    requires Rep(L, t, p, par) && |path| == 1 && IsPath(t, path) && OnlyBelow(L, M, t, p, par, path, q)
    ensures path[1..] == [] && SubAt(t, path) == Child(t, path[0]) && ParAt(L, p, par, path) == p
    ensures forall a | a in Addrs(t) && a !in Addrs(Child(t, path[0])) && a != p :: SameAt(L, M, a)
    ensures SameRing(L, M, p) && SameParent(L, M, p) && ChildPtr(M, p, !path[0]) == ChildPtr(L, p, !path[0])
    ensures ChildPtr(M, p, path[0]) == q
  {
    assert path[1..] == [];
    assert SubAt(t, path) == SubAt(Child(t, path[0]), []);
  }

  lemma OnlyBelowMore(L: Links, M: Links, t: Tree, p: int, par: int, path: seq<bool>, q: int)
    requires Rep(L, t, p, par) && Distinct(t) && |path| > 1 && IsPath(t, path) && OnlyBelow(L, M, t, p, par, path, q)
    ensures OnlyBelow(L, M, Child(t, path[0]), ChildPtr(L, p, path[0]), p, path[1..], q)
    ensures forall a | a in Addrs(t) && a !in Addrs(Child(t, path[0])) :: SameAt(L, M, a)
    ensures p in Addrs(t) && p !in Addrs(Child(t, path[0]))
  {
    assert p in Elems(t.ring);
    SubRep(L, Child(t, path[0]), ChildPtr(L, p, path[0]), p, path[1..]);
    assert path[1..][|path[1..]| - 1] == path[|path| - 1];
  }

  // Exchanging the subtree at a path
  lemma {:induction false} PutRep(L: Links, M: Links, t: Tree, p: int, par: int, path: seq<bool>, u: Tree, q: int)
    requires Rep(L, t, p, par) && Distinct(t) && IsPath(t, path)
    requires Rep(M, u, q, ParAt(L, p, par, path))
    requires OnlyBelow(L, M, t, p, par, path, q)
    ensures Rep(M, Put(t, path, u), if path == [] then q else p, par)
    decreases path
  {
    if |path| == 1 {
      OnlyBelowLast(L, M, t, p, par, path, q);
      RepWithChild(L, M, t, p, par, path[0], u);
      assert Put(t, path, u) == WithChild(t, path[0], Put(Child(t, path[0]), [], u));
    } else if |path| > 1 {
      OnlyBelowMore(L, M, t, p, par, path, q);
      PutRep(L, M, Child(t, path[0]), ChildPtr(L, p, path[0]), p, path[1..], u, q);
      assert SameAt(L, M, p);
      RepWithChild(L, M, t, p, par, path[0], Put(Child(t, path[0]), path[1..], u));
    }
  }

  /* ---- insertion ---- */

  // From L to M, x has been hung below node t as a new leaf.
  ghost predicate ChildLinked(L: Links, M: Links, t: int, right: bool, x: int) {
    && (forall a | a != x && a != t :: SameAt(L, M, a))
    && SameRing(L, M, t) && SameParent(L, M, t)
    && (if right then SameLeft(L, M, t) && Rd(M.child1, t) == x else SameRight(L, M, t) && Rd(M.child0, t) == x)
    && Rd(M.fd, x) == x && Rd(M.bk, x) == x
    && Rd(M.child0, x) == 0 && Rd(M.child1, x) == 0 && Rd(M.parent, x) == t
  }

  // From L to M, x has joined the ring headed by t, before f.
  ghost predicate RingLinked(L: Links, M: Links, t: int, f: int, x: int) {
    && f == Rd(L.fd, t)
    && M.fd == L.fd[t := x][x := f] && M.bk == L.bk[f := x][x := t]
    && (forall a | a != x && a != t && a != f :: SameAt(L, M, a))
    && SameLeft(L, M, t) && SameRight(L, M, t) && SameParent(L, M, t)
    && SameLeft(L, M, f) && SameRight(L, M, f) && SameParent(L, M, f)
    && Rd(M.child0, x) == 0 && Rd(M.child1, x) == 0 && Rd(M.parent, x) == 0
  }

  lemma LeafRep(L: Links, x: int, s: int, par: int)
    requires x != 0 && Rd(L.fd, x) == x && Rd(L.bk, x) == x
    requires Rd(L.child0, x) == 0 && Rd(L.child1, x) == 0 && Rd(L.parent, x) == par
    ensures Rep(L, Node([x], s, Nil, Nil), x, par)
  {
  }

  // A leaf hung below a node
  lemma AddLeaf(L: Links, M: Links, t: Tree, p: int, par: int, right: bool, x: int, s: int)
    requires Rep(L, t, p, par) && t.Node? && Distinct(t) && x !in Addrs(t) && x != 0
    requires Child(t, right).Nil? && ChildLinked(L, M, p, right, x)
    ensures Rep(M, WithChild(t, right, Node([x], s, Nil, Nil)), p, par)
  {
    LeafRep(M, x, s, p);
    if right {
      RepWithRight(L, M, t, p, par, Node([x], s, Nil, Nil));
    } else {
      RepWithLeft(L, M, t, p, par, Node([x], s, Nil, Nil));
    }
  }

  lemma JoinRing(L: Links, M: Links, t: Tree, p: int, par: int, f: int, x: int)
    requires Rep(L, t, p, par) && t.Node? && Distinct(t) && x !in Addrs(t) && x != 0
    requires RingLinked(L, M, p, f, x)
    ensures Rep(M, t.(ring := RingInserted(t.ring, x)), p, par)
  {
    JoinRingMates(L, M, t, p, par, f, x);
    assert f in Elems(t.ring) && p in Elems(t.ring);
    assert SameLeft(L, M, p) && SameRight(L, M, p) && SameParent(L, M, p);
    RepFrame(L, M, t.left, Rd(L.child0, p), p);
    RepFrame(L, M, t.right, Rd(L.child1, p), p);
  }

  lemma JoinRingMates(L: Links, M: Links, t: Tree, p: int, par: int, f: int, x: int)
    requires Rep(L, t, p, par) && t.Node? && Distinct(t) && x !in Addrs(t) && x != 0
    requires RingLinked(L, M, p, f, x)
    ensures f in t.ring
    ensures RingOk(M.fd, M.bk, RingInserted(t.ring, x))
    ensures forall a | a in RingInserted(t.ring, x) && a != p ::
              Rd(M.parent, a) == 0 && Rd(M.child0, a) == 0 && Rd(M.child1, a) == 0
  {
    RingInsert(L.fd, L.bk, t.ring, x, M.fd, M.bk);
    RingInsertedElems(t.ring, x);
    assert f == After(t.ring, 0);
    forall a | a in RingInserted(t.ring, x) && a != p
      ensures Rd(M.parent, a) == 0 && Rd(M.child0, a) == 0 && Rd(M.child1, a) == 0
    {
      assert a in Elems(RingInserted(t.ring, x));
      assert a in t.ring || a == x;
      if a != x && a != f { assert SameAt(L, M, a); }
    }
  }

  /* ---- removal ---- */

  // From L to M, the child link of w on side b has been cleared.
  ghost predicate SlotCleared(L: Links, M: Links, w: int, b: bool) {
    && (forall a | a != w :: SameAt(L, M, a))
    && SameRing(L, M, w) && SameParent(L, M, w)
    && ChildPtr(M, w, b) == 0 && ChildPtr(M, w, !b) == ChildPtr(L, w, !b)
  }

  // path leads to the rightmost leaf of v.
  ghost predicate ToRightLeaf(v: Tree, path: seq<bool>) {
    && v.Node? && IsPath(v, path)
    && SubAt(v, path) == RightLeaf(v) && CutRightLeaf(v) == Put(v, path, Nil)
  }

  // Cutting the rightmost leaf off the subtree v below x
  lemma CutLeafRep(L: Links, M: Links, v: Tree, q: int, x: int, side: bool, path: seq<bool>)
    requires Rep(L, v, q, x) && Distinct(v) && ToRightLeaf(v, path) && x !in Addrs(v)
    requires q == ChildPtr(L, x, side)
    requires SlotCleared(L, M, ParAt(L, q, x, path), if path == [] then side else path[|path| - 1])
    ensures Rep(M, CutRightLeaf(v), ChildPtr(M, x, side), x)
    ensures ChildPtr(M, x, !side) == ChildPtr(L, x, !side)
  {
    SubRep(L, v, q, x, path);
    if path != [] {
      var w := ParAt(L, q, x, path);
      assert SameAt(L, M, x);
      PutRep(L, M, v, q, x, path, Nil, 0);
    }
  }

  // The ring of the cut leaf: its links are as they were, and its head has no children.
  lemma CutLeafRing(L: Links, M: Links, v: Tree, q: int, x: int, path: seq<bool>, w: int, b: bool)
    requires Rep(L, v, q, x) && Distinct(v) && ToRightLeaf(v, path) && x !in Addrs(v)
    requires w == ParAt(L, q, x, path) && SlotCleared(L, M, w, b)
    ensures Rep(M, RightLeaf(v), PtrAt(L, q, path), w)
  {
    SubRep(L, v, q, x, path);
    RepFrame(L, M, RightLeaf(v), PtrAt(L, q, path), w);
  }

  // From M to N, r has taken over the children c0 and c1 and the parent xp; xp's own child links
  // may have changed too.
  ghost predicate TakenOver(M: Links, N: Links, r: int, c0: int, c1: int, xp: int) {
    && (forall a :: SameRing(M, N, a))
    && (forall a | a != r && a != xp && (c0 == 0 || a != c0) && (c1 == 0 || a != c1) :: SameAt(M, N, a))
    && Rd(N.parent, r) == xp && Rd(N.child0, r) == c0 && Rd(N.child1, r) == c1
    && (c0 != 0 ==> Rd(N.parent, c0) == r && SameLeft(M, N, c0) && SameRight(M, N, c0))
    && (c1 != 0 ==> Rd(N.parent, c1) == r && SameLeft(M, N, c1) && SameRight(M, N, c1))
  }

  ghost predicate MatesBare(L: Links, ring: seq<int>) {
    forall a | a in ring && a != ring[0] :: Rd(L.parent, a) == 0 && Rd(L.child0, a) == 0 && Rd(L.child1, a) == 0
  }

  lemma RootIn(L: Links, t: Tree, p: int, par: int)
    requires Rep(L, t, p, par)
    ensures p != 0 ==> t.Node? && p in Addrs(t)
  {
    if t.Node? { assert p in Elems(t.ring); }
  }

  lemma TakeOverChild(M: Links, N: Links, t: Tree, c: int, x: int, r: int, other: int, xp: int)
    requires Rep(M, t, c, x) && Distinct(t) && r !in Addrs(t) && xp !in Addrs(t) && (other == 0 || other !in Addrs(t))
    requires forall a | a != r && (c == 0 || a != c) && (other == 0 || a != other) && a != xp :: SameAt(M, N, a)
    requires c != 0 ==> SameRing(M, N, c) && Rd(N.parent, c) == r && SameLeft(M, N, c) && SameRight(M, N, c)
    ensures Rep(N, t, c, r)
  {
    if t.Node? {
      forall a | a in Addrs(t) && a != c ensures SameAt(M, N, a) { }
      RepMoved(M, N, t, c, x, r);
    }
  }

  lemma TakeOverRing(M: Links, N: Links, ring: seq<int>, c0: int, c1: int, xp: int)
    requires ring != [] && RingOk(M.fd, M.bk, ring) && MatesBare(M, ring)
    requires xp !in Elems(ring) && (c0 == 0 || c0 !in Elems(ring)) && (c1 == 0 || c1 !in Elems(ring))
    requires TakenOver(M, N, ring[0], c0, c1, xp)
    ensures RingOk(N.fd, N.bk, ring) && MatesBare(N, ring)
  {
    forall a | a in ring ensures SameRing(M, N, a) && (a != ring[0] ==> SameAt(M, N, a)) {
      assert a in Elems(ring);
    }
    RingFrame(M.fd, M.bk, ring, N.fd, N.bk);
    forall a | a in ring && a != ring[0]
      ensures Rd(N.parent, a) == 0 && Rd(N.child0, a) == 0 && Rd(N.child1, a) == 0
    {
      assert SameAt(M, N, a);
    }
  }

  lemma TakeOver(M: Links, N: Links, ring: seq<int>, z: int, left: Tree, right: Tree, x: int, c0: int, c1: int, xp: int)
    requires ring != [] && ring[0] != 0 && RingOk(M.fd, M.bk, ring) && MatesBare(M, ring)
    requires Rep(M, left, c0, x) && Rep(M, right, c1, x)
    requires Distinct(Node(ring, z, left, right))
    requires xp !in Elems(ring) && xp !in Addrs(left) && xp !in Addrs(right)
    requires TakenOver(M, N, ring[0], c0, c1, xp)
    ensures Rep(N, Node(ring, z, left, right), ring[0], xp)
  {
    var r := ring[0];
    assert r in Elems(ring);
    RootIn(M, left, c0, x);
    RootIn(M, right, c1, x);
    TakeOverRing(M, N, ring, c0, c1, xp);
    assert SameRing(M, N, c0) && SameRing(M, N, c1);
    TakeOverChild(M, N, left, c0, x, r, c1, xp);
    TakeOverChild(M, N, right, c1, x, r, c0, xp);
  }
}
