// The search for the best-fitting large chunk.
module BestFit {
  import opened Words
  import opened BinIndex
  import opened Rings
  import opened HeadWords
  import opened Trie
  import opened TrieLinks
  import opened TrieKey
  import opened TreeBins

  // Everything in w is at most z.
  ghost predicate Below(w: Tree, z: int) {
    w.Node? && forall y | HasSize(w, y) :: y <= z
  }

  // Sizes are those of large chunks and fit a word.
  ghost predicate LargeSizes(t: Tree) {
    forall z | HasSize(t, z) :: 256 <= z < W32
  }

  // (unsigned)(size - nb) < rsize finds the better chunk and never one that is too small.
  lemma WrappedLess(size: int, nb: int, rsize: int)
    requires 0 < size < W32 && 0 < nb < W32 && 0 <= rsize <= W32 - nb
    ensures U32(size - nb) < rsize <==> nb <= size && size - nb < rsize
    ensures nb <= size ==> U32(size - nb) == size - nb
  {
    if size < nb {
      assert U32(size - nb) == W32 + size - nb;
    }
  }

  // rsize = -nb
  lemma Negated(nb: int)
    requires 0 < nb < W32
    ensures U32(-nb) == W32 - nb
  {
  }

  // A subtree t with the pointer to it, the parent it names, and the range of sizes it may hold
  datatype Place = Place(t: Tree, ptr: int, par: int, lo: nat, e: nat)

  ghost predicate At(L: Links, head: map<int, Head>, w: Place) {
    && Rep(L, w.t, w.ptr, w.par) && Distinct(w.t) && SizesStored(head, w.t)
    && TrieOk(w.t, w.lo, w.e) && LargeSizes(w.t)
  }

  ghost function Step(L: Links, w: Place, right: bool): Place
    requires w.t.Node?
  {
    Place(Child(w.t, right), ChildPtr(L, w.ptr, right), w.ptr,
          if right then w.lo + Pow2(Down(w.e)) else w.lo, Down(w.e))
  }

  // All of w belongs to u.
  ghost predicate Part(w: Tree, u: Tree) {
    && (forall a, z | Holds(w, a, z) :: Holds(u, a, z))
    && (forall z | HasSize(w, z) :: HasSize(u, z))
  }

  lemma ChildPart(u: Tree, w: Tree, right: bool)
    requires Part(w, u) && w.Node?
    ensures Part(Child(w, right), u)
  {
    forall a, z | Holds(Child(w, right), a, z) ensures Holds(u, a, z) { assert Holds(w, a, z); }
    forall z | HasSize(Child(w, right), z) ensures HasSize(u, z) { assert HasSize(w, z); }
  }

  lemma StepAt(L: Links, head: map<int, Head>, w: Place, right: bool)
    requires At(L, head, w) && w.t.Node?
    ensures At(L, head, Step(L, w, right))
    ensures ChildPtr(L, w.ptr, right) == 0 <==> Child(w.t, right).Nil?
  {
    var c := Child(w.t, right);
    forall a, z | Holds(c, a, z) ensures SizeAt(head, a) == z { assert Holds(w.t, a, z); }
    forall z | HasSize(c, z) ensures 256 <= z < W32 { assert HasSize(w.t, z); }
    RootIn(L, c, ChildPtr(L, w.ptr, right), w.ptr);
  }

  lemma AtNode(L: Links, head: map<int, Head>, w: Place)
    requires At(L, head, w)
    ensures w.ptr == 0 <==> w.t.Nil?
    ensures w.t.Node? ==> SizeAt(head, w.ptr) == w.t.size && Holds(w.t, w.ptr, w.t.size) && 256 <= w.t.size < W32
  {
    if w.t.Node? {
      assert Holds(w.t, w.ptr, w.t.size);
      assert HasSize(w.t, w.t.size);
    }
  }

  lemma ChildrenApart(L: Links, head: map<int, Head>, w: Place)
    requires At(L, head, w) && w.t.Node? && w.t.right.Node?
    ensures Rd(L.child1, w.ptr) != Rd(L.child0, w.ptr)
  {
    RootIn(L, w.t.left, Rd(L.child0, w.ptr), w.ptr);
    RootIn(L, w.t.right, Rd(L.child1, w.ptr), w.ptr);
  }

  // One chunk compared with the best so far, in wrap-around arithmetic
  method Better(L: Links, head: map<int, Head>, t: int, nb: int, v: int, rsize: int, ghost w: Place, ghost u: Tree)
    returns (v': int, rsize': int)
    requires At(L, head, w) && w.t.Node? && t == w.ptr && 0 < nb < W32 && 0 <= rsize <= W32 - nb
    requires Part(w.t, u)
    ensures if nb <= w.t.size && w.t.size < rsize + nb then v' == t && rsize' == w.t.size - nb
                else v' == v && rsize' == rsize
    ensures t != 0 && ((v' == v && rsize' == rsize) || Holds(u, v', rsize' + nb))
    ensures (v != 0 ==> Holds(u, v, rsize + nb)) ==> (v' != 0 ==> Holds(u, v', rsize' + nb))
    ensures HasSize(u, w.t.size)
  {
    AtNode(L, head, w);
    assert HasSize(w.t, w.t.size);
    WrappedLess(w.t.size, nb, rsize);
    v', rsize' := v, rsize;
    var trem := U32(SizeAt(head, t) - nb);
    if trem < rsize {
      rsize' := trem;
      v' := t;
    }
  }

  /* ---- the leftmost path holds the smallest size ---- */

  // Of u, only subtree w is still to be searched; best + nb is the least size found so far.
  ghost predicate Searched(u: Tree, w: Tree, nb: int, best: int) {
    && Part(w, u)
    && (forall z | HasSize(u, z) && nb <= z :: best + nb <= z || HasSize(w, z) || Below(w, z))
  }

  // Sizes on the left are below sizes on the right.
  lemma LeftmostStep(w: Tree, lo: nat, e: nat)
    requires w.Node? && TrieOk(w, lo, e)
    ensures forall z | HasSize(w, z) ::
              z == w.size || HasSize(Child(w, w.left.Nil?), z) || Below(Child(w, w.left.Nil?), z)
  {
    if e > 0 {
      TrieRange(w.left, lo, e - 1);
      TrieRange(w.right, lo + Pow2(e - 1), e - 1);
    }
  }

  lemma SearchStep(u: Tree, w: Tree, c: Tree, nb: int, best: int, best': int)
    requires Searched(u, w, nb, best) && w.Node? && Part(c, u) && forall y | HasSize(c, y) :: HasSize(w, y)
    requires forall z | HasSize(w, z) :: z == w.size || HasSize(c, z) || Below(c, z)
    requires best' <= best && (best' + nb <= w.size || w.size < nb)
    requires best' == 0 || forall z | HasSize(u, z) :: nb <= z
    ensures Searched(u, c, nb, best')
  {
    forall z | HasSize(u, z) && nb <= z
      ensures best' + nb <= z || HasSize(c, z) || Below(c, z)
    {
      assert HasSize(w, w.size);
      assert HasSize(u, w.size);
      if best' != 0 { assert forall y | HasSize(u, y) :: nb <= y; }
      if !HasSize(w, z) && best + nb > z && c.Node? {
        assert Below(w, z);
        forall y | HasSize(c, y) ensures y <= z { assert HasSize(w, y); }
      }
    }
  }

  // The search stands at w in u, part by part.
  ghost predicate Leftward(L: Links, head: map<int, Head>, u: Tree, w: Place, nb: int, best: int) {
    forall k: nat {:trigger LeftwardPart(L, head, u, w, nb, best, k)} | k < 2 ::
      LeftwardPart(L, head, u, w, nb, best, k)
  }

  ghost predicate LeftwardPart(L: Links, head: map<int, Head>, u: Tree, w: Place, nb: int, best: int, k: nat) {
    if k == 0 then At(L, head, w) else Searched(u, w.t, nb, best)
  }

  lemma LeftwardParts(L: Links, head: map<int, Head>, u: Tree, w: Place, nb: int, best: int)
    requires Leftward(L, head, u, w, nb, best)
    ensures At(L, head, w) && Searched(u, w.t, nb, best)
  {
    assert LeftwardPart(L, head, u, w, nb, best, 0) && LeftwardPart(L, head, u, w, nb, best, 1);
  }

  // The loop down the leftmost path of u: it ends with the smallest size in u, unless (v, rsize)
  // was better already.
  method LeastOf(L: Links, head: map<int, Head>, c: int, nb: int, v: int, rsize: int, ghost u: Place)
    returns (v': int, rsize': int)
    requires 0 < nb < W32 && 0 <= rsize <= W32 - nb && (v == 0 ==> rsize == W32 - nb)
    requires At(L, head, u) && c == u.ptr
    requires rsize == 0 || forall z | HasSize(u.t, z) :: nb <= z
    ensures 0 <= rsize' <= rsize && (v' == 0 ==> rsize' == W32 - nb)
    ensures (v' == v && rsize' == rsize) || Holds(u.t, v', rsize' + nb)
    ensures forall z | HasSize(u.t, z) && nb <= z :: rsize' + nb <= z
  {
    v', rsize' := v, rsize;
    var t := c;
    ghost var w := u;
    AtNode(L, head, w);
    while t != 0
      invariant 0 <= rsize' <= rsize && (v' == 0 ==> rsize' == W32 - nb)
      invariant (v' == v && rsize' == rsize) || Holds(u.t, v', rsize' + nb)
      invariant t == w.ptr && (t == 0 <==> w.t.Nil?)
      invariant Leftward(L, head, u.t, w, nb, rsize')
      decreases w.t
    {
      t, v', rsize', w := GoLeft(L, head, t, nb, v', rsize', w, u.t);
    }
    LeftwardParts(L, head, u.t, w, nb, rsize');
  }

  // One turn of that loop
  method GoLeft(L: Links, head: map<int, Head>, t: int, nb: int, v: int, rsize: int, ghost w: Place, ghost u: Tree)
    returns (t': int, v': int, rsize': int, ghost w': Place)
    requires w.t.Node? && t == w.ptr && 0 < nb < W32 && 0 <= rsize <= W32 - nb
    requires Leftward(L, head, u, w, nb, rsize) && (rsize == 0 || forall z | HasSize(u, z) :: nb <= z)
    ensures Leftward(L, head, u, w', nb, rsize') && t' == w'.ptr && (t' == 0 <==> w'.t.Nil?)
    ensures 0 <= rsize' <= rsize && (v' == 0 ==> v == 0 && rsize' == rsize)
    ensures (v' == v && rsize' == rsize) || Holds(u, v', rsize' + nb)
    ensures w'.t == w.t.left || w'.t == w.t.right
  {
    LeftwardParts(L, head, u, w, nb, rsize);
    v', rsize' := Better(L, head, t, nb, v, rsize, w, u);
    LeftStep(L, head, u, w, nb, rsize, rsize');
    t' := if Rd(L.child0, t) != 0 then Rd(L.child0, t) else Rd(L.child1, t);
    w' := Step(L, w, w.t.left.Nil?);
  }

  // One step down the leftmost path
  lemma LeftStep(L: Links, head: map<int, Head>, u: Tree, w: Place, nb: int, best: int, best': int)
    requires At(L, head, w) && w.t.Node? && Searched(u, w.t, nb, best) && best' <= best
    requires best' + nb <= w.t.size || w.t.size < nb
    requires best' == 0 || forall z | HasSize(u, z) :: nb <= z
    ensures var w' := Step(L, w, w.t.left.Nil?);
            && At(L, head, w') && (w'.ptr == 0 <==> w'.t.Nil?) && Searched(u, w'.t, nb, best')
            && w'.ptr == if Rd(L.child0, w.ptr) != 0 then Rd(L.child0, w.ptr) else Rd(L.child1, w.ptr)
  {
    var right := w.t.left.Nil?;
    StepAt(L, head, w, false);
    StepAt(L, head, w, true);
    ChildPart(u, w.t, right);
    LeftmostStep(w.t, w.lo, w.e);
    SearchStep(u, w.t, Child(w.t, right), nb, best, best');
    AtNode(L, head, Step(L, w, right));
  }

  /* ---- the descent along the bits of nb ---- */

  // Of t, only u (whose range holds nb) and the untaken right subtree rt are still to be searched;
  // rt is the deepest one, so everything else untaken is larger than what is in rt.
  ghost predicate Unsearched(t: Tree, u: Tree, rt: Tree, nb: int, best: int) {
    && Part(u, t) && Part(rt, t)
    && (forall z | HasSize(t, z) && nb <= z :: best + nb <= z || HasSize(u, z) || HasSize(rt, z) || Below(rt, z))
  }

  lemma DescentSearch(t: Tree, u: Tree, rt: Tree, nb: int, best: int, best': int, lo: nat, e: nat)
    requires Unsearched(t, u, rt, nb, best) && u.Node? && TrieOk(u, lo, e) && e > 0 && lo <= nb < lo + Pow2(e)
    requires forall y | HasSize(rt, y) :: lo + Pow2(e) <= y
    requires best' <= best && (nb <= u.size ==> best' + nb <= u.size)
    ensures var b := GoRight(nb, lo, e);
            var rt' := if !b && u.right.Node? then u.right else rt;
            var lo' := if b then lo + Pow2(e - 1) else lo;
            Unsearched(t, Child(u, b), rt', nb, best') && forall y | HasSize(rt', y) :: lo' + Pow2(e - 1) <= y
  {
    var b := GoRight(nb, lo, e);
    var rt' := if !b && u.right.Node? then u.right else rt;
    TrieRange(u.left, lo, e - 1);
    TrieRange(u.right, lo + Pow2(e - 1), e - 1);
    ChildPart(t, u, true);
    ChildPart(t, u, false);
    forall z | HasSize(t, z) && nb <= z
      ensures best' + nb <= z || HasSize(Child(u, b), z) || HasSize(rt', z) || Below(rt', z)
    {
      if HasSize(u, z) {
        if z == u.size {
          assert best' + nb <= z;
        } else if HasSize(u.left, z) {
          assert !b;
        } else {
          assert HasSize(u.right, z);
          assert u.right.Node?;
        }
      } else if best + nb > z && rt' != rt {
        if !HasSize(rt, z) { assert HasSize(rt, rt.size) && rt.size <= z; }
        assert Below(rt', z);
      }
    }
  }

  // The search stands at u, with rest as the deepest untaken right subtree.
  ghost predicate Standing(L: Links, head: map<int, Head>, t: Tree, u: Place, rest: Place, nb: int, best: int) {
    && At(L, head, u) && At(L, head, rest) && u.lo <= nb < u.lo + Pow2(u.e)
    && (forall y | HasSize(rest.t, y) :: u.lo + Pow2(u.e) <= y)
    && Unsearched(t, u.t, rest.t, nb, best)
  }

  ghost function NextRest(L: Links, u: Place, rest: Place, right: bool): Place
    requires u.t.Node?
  {
    if !right && u.t.right.Node? then Step(L, u, true) else rest
  }

  lemma Turn(L: Links, head: map<int, Head>, t: Tree, u: Place, rest: Place, nb: int, best: int, best': int)
    requires Standing(L, head, t, u, rest, nb, best) && u.t.Node? && u.t.size != nb
    requires best' <= best && (nb <= u.t.size ==> best' + nb <= u.t.size)
    ensures u.e > 0
    ensures var b := GoRight(nb, u.lo, u.e);
            Standing(L, head, t, Step(L, u, b), NextRest(L, u, rest, b), nb, best')
    ensures Rd(L.child1, u.ptr) == 0 <==> u.t.right.Nil?
    ensures Rd(L.child0, u.ptr) == 0 <==> u.t.left.Nil?
    ensures u.t.right.Node? ==> Rd(L.child1, u.ptr) != Rd(L.child0, u.ptr)
  {
    Descend(u.t, nb, u.lo, u.e);
    DescentSearch(t, u.t, rest.t, nb, best, best', u.lo, u.e);
    StepAt(L, head, u, false);
    StepAt(L, head, u, true);
    if u.t.right.Node? { ChildrenApart(L, head, u); }
  }

  // One step of the descent; rst becomes the untaken right child when there is one.
  method TakeTurn(L: Links, head: map<int, Head>, c: int, k: nat, rst: int, nb: int,
                  ghost t: Tree, ghost u: Place, ghost rest: Place, ghost best: int, ghost best': int)
    returns (next: int, k': nat, rst': int, ghost u': Place, ghost rest': Place)
    requires Standing(L, head, t, u, rest, nb, best) && u.t.Node? && u.t.size != nb
    requires u.ptr == c && rest.ptr == rst && IsKey(k, nb, u.lo, u.e)
    requires best' <= best && (nb <= u.t.size ==> best' + nb <= u.t.size)
    ensures Standing(L, head, t, u', rest', nb, best')
    ensures u'.ptr == next && rest'.ptr == rst' && IsKey(k', nb, u'.lo, u'.e)
    ensures (next == 0 <==> u'.t.Nil?) && (u'.t == u.t.left || u'.t == u.t.right)
  {
    Turn(L, head, t, u, rest, nb, best, best');
    var right;
    right, k' := KeyBit(k, nb, u.lo, u.e);
    var rt := Rd(L.child1, c);
    next := ChildPtr(L, c, right);
    rst' := rst;
    if rt != 0 && rt != next { rst' := rt; }
    rest' := NextRest(L, u, rest, right);
    u' := Step(L, u, right);
  }

  // Where the descent ends: at an exact fit, or off the tree with rest still to be searched
  lemma Arrived(L: Links, head: map<int, Head>, t: Tree, u: Place, rest: Place, nb: int, best: int)
    requires Standing(L, head, t, u, rest, nb, best) && u.t.Nil? && 0 < nb
    ensures At(L, head, rest) && Part(rest.t, t)
    ensures forall z | HasSize(rest.t, z) :: nb <= z
    ensures forall z | HasSize(t, z) && nb <= z :: best + nb <= z || HasSize(rest.t, z) || Below(rest.t, z)
  {
  }

  // The first loop of tmalloc_large: c, the root of rest, is where the search goes on.
  method SearchBin(L: Links, head: map<int, Head>, root: int, nb: int, i: nat, ghost t: Place)
    returns (v: int, rsize: int, c: int, ghost rest: Place)
    requires 256 <= nb < W32 && i == TreeBin(nb)
    requires At(L, head, t) && t.t.Node? && t.lo == BinLow(i) && t.e == BinBits(i) && t.ptr == root
    ensures 0 <= rsize <= W32 - nb && (v == 0 ==> rsize == W32 - nb) && (v != 0 ==> Holds(t.t, v, rsize + nb))
    ensures At(L, head, rest) && c == rest.ptr && Part(rest.t, t.t)
    ensures rsize == 0 || forall z | HasSize(rest.t, z) :: nb <= z
    ensures forall z | HasSize(t.t, z) && nb <= z :: rsize + nb <= z || HasSize(rest.t, z) || Below(rest.t, z)
  {
    Negated(nb);
    v, rsize, c := 0, U32(-nb), root;
    var k := KeyOf(nb, i);
    var rst := 0;
    ghost var u := t;
    rest := Place(Nil, 0, 0, 0, 0);
    while c != 0
      invariant 0 < rsize <= W32 - nb && (v == 0 ==> rsize == W32 - nb) && (v != 0 ==> Holds(t.t, v, rsize + nb))
      invariant Standing(L, head, t.t, u, rest, nb, rsize)
      invariant u.ptr == c && (c == 0 <==> u.t.Nil?) && IsKey(k, nb, u.lo, u.e) && rest.ptr == rst
      decreases u.t
    {
      ghost var best := rsize;
      v, rsize := Better(L, head, c, nb, v, rsize, u, t.t);
      if rsize == 0 {
        rest := u;
        return;
      }
      c, k, rst, u, rest := TakeTurn(L, head, c, k, rst, nb, t.t, u, rest, best, rsize);
    }
    Arrived(L, head, t.t, u, rest, nb, rsize);
    c := rst;
  }
}
