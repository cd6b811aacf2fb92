// Choosing among all the trees: where the search of one tree stands with respect to the others.
module Fit {
  import opened Words
  import opened BinIndex
  import opened BinMap
  import opened Rings
  import opened HeadWords
  import opened Trie
  import opened TrieLinks
  import opened TrieKey
  import opened TreeBins
  import opened BestFit
  import opened Tiling
  import opened Bins

  // Among the free chunks outside excl, v is a smallest one of at least nb bytes.
  ghost predicate Least(cs: Chunks, excl: set<int>, v: int, nb: int) {
    && v in cs && Spare(cs, excl, v, cs[v].size) && nb <= cs[v].size
    && forall a | a in cs && Spare(cs, excl, a, cs[a].size) && nb <= cs[a].size :: cs[v].size <= cs[a].size
  }

  ghost predicate NoneFits(cs: Chunks, excl: set<int>, nb: int) {
    forall a | a in cs && Spare(cs, excl, a, cs[a].size) :: cs[a].size < nb
  }

  // A smaller bin holds smaller sizes.
  lemma BinOrder(y: int, z: int)
    requires 256 <= y && 256 <= z && TreeBin(y) < TreeBin(z)
    ensures y < z
  {
    TreeBinRange(y);
    TreeBinRange(z);
    if TreeBin(y) + 1 < TreeBin(z) { MinSizeMono(TreeBin(y) + 1, TreeBin(z)); }
  }

  ghost function PlaceOf(tb: seq<Tree>, treebins: seq<int>, i: nat): Place
    requires i < |tb| && i < |treebins|
  {
    Place(tb[i], treebins[i], TreeBinAt(i), BinLow(i), BinBits(i))
  }

  // Each tree holds the sizes of its bin.
  ghost predicate Sorted(tb: seq<Tree>) {
    |tb| == 32 &&
    forall i, z {:trigger HasSize(tb[i], z)} | 0 <= i < 32 && HasSize(tb[i], z) :: 256 <= z < W32 && TreeBin(z) == i
  }

  // Every tree is ready to be searched.
  ghost predicate Trees(L: Links, head: map<int, Head>, treemap: binmap, treebins: seq<int>, tb: seq<Tree>) {
    && |treebins| == 32 && Sorted(tb)
    && (forall i {:trigger tb[i]} | 0 <= i < 32 ::
          At(L, head, PlaceOf(tb, treebins, i)) && (Marked(treemap, i) <==> tb[i].Node?))
  }

  // (v, rsize) is the best found so far.
  ghost predicate Best(nb: int, v: int, rsize: int, rest: Tree) {
    && 0 <= rsize <= W32 - nb && (v == 0 ==> rsize == W32 - nb)
    && (rsize == 0 || forall z | HasSize(rest, z) :: nb <= z)
  }

  // What may be better in tree t is in rest only.
  ghost predicate Covered(t: Tree, nb: int, rsize: int, rest: Tree) {
    forall z | HasSize(t, z) && nb <= z :: rsize + nb <= z || HasSize(rest, z) || Below(rest, z)
  }

  ghost predicate AllCovered(tb: seq<Tree>, nb: int, rsize: int, rest: Tree) {
    forall j | 0 <= j < |tb| :: Covered(tb[j], nb, rsize, rest)
  }

  // A tree of smaller sizes than nb
  lemma LowerBin(tb: seq<Tree>, nb: int, rsize: int, rest: Tree, j: nat)
    requires Sorted(tb) && 256 <= nb && j < TreeBin(nb) <= 31
    ensures Covered(tb[j], nb, rsize, rest)
  {
    forall z | HasSize(tb[j], z) ensures z < nb { BinOrder(z, nb); }
  }

  // A tree of larger sizes than those still to be searched
  lemma UpperBin(tb: seq<Tree>, nb: int, rsize: int, rest: Tree, i: nat, j: nat)
    requires Sorted(tb) && i < j < 32 && Part(rest, tb[i])
    requires HasSize(tb[i], rsize + nb) || rest.Node?
    ensures Covered(tb[j], nb, rsize, rest)
  {
    forall z | HasSize(tb[j], z)
      ensures rsize + nb <= z || Below(rest, z)
    {
      if HasSize(tb[i], rsize + nb) {
        BinOrder(rsize + nb, z);
      } else {
        forall y | HasSize(rest, y) ensures y <= z {
          assert HasSize(tb[i], y);
          BinOrder(y, z);
        }
      }
    }
  }

  // The bin of nb has been searched with some success: the other bins need not be.
  lemma BinSuffices(tb: seq<Tree>, nb: int, rsize: int, rest: Tree)
    requires Sorted(tb) && 256 <= nb && TreeBin(nb) < 32
    requires Covered(tb[TreeBin(nb)], nb, rsize, rest) && Part(rest, tb[TreeBin(nb)])
    requires HasSize(tb[TreeBin(nb)], rsize + nb) || rest.Node?
    ensures AllCovered(tb, nb, rsize, rest)
  {
    forall j | 0 <= j < 32 && j != TreeBin(nb)
      ensures Covered(tb[j], nb, rsize, rest)
    {
      if j < TreeBin(nb) { LowerBin(tb, nb, rsize, rest, j); } else { UpperBin(tb, nb, rsize, rest, TreeBin(nb), j); }
    }
  }

  // The bin of nb has nothing: the next bin that is not empty has the least sizes.
  lemma NextBin(tb: seq<Tree>, nb: int, rsize: int, rest: Tree, treemap: binmap, left: binmap, i: nat)
    requires Sorted(tb) && 256 <= nb && TreeBin(nb) < 32
    requires Covered(tb[TreeBin(nb)], nb, rsize, Nil) && rsize + nb == W32
    requires forall j | 0 <= j < 32 :: Marked(treemap, j) <==> tb[j].Node?
    requires forall j | 0 <= j < 32 :: Marked(left, j) <==> TreeBin(nb) < j && Marked(treemap, j)
    requires if left == 0 then rest == Nil else IsLeast(left, i) && rest == tb[i]
    ensures AllCovered(tb, nb, rsize, rest)
    ensures forall z | HasSize(rest, z) :: nb <= z
  {
    ZeroMap(left);
    forall j | 0 <= j < 32
      ensures Covered(tb[j], nb, rsize, rest)
    {
      if j < TreeBin(nb) {
        LowerBin(tb, nb, rsize, rest, j);
      } else if left != 0 && i < j {
        UpperBin(tb, nb, rsize, rest, i, j);
      } else if j > TreeBin(nb) && (left == 0 || j < i) {
        assert !Marked(left, j);
      }
    }
    forall z | HasSize(rest, z) ensures nb <= z { BinOrder(nb, z); }
  }

  // What the last loop has found is the least of all.
  lemma Chosen(tb: seq<Tree>, nb: int, v: int, rsize: int, rest: Tree, rsize': int)
    requires Best(nb, v, rsize, rest) && AllCovered(tb, nb, rsize, rest) && 0 <= rsize' <= rsize
    requires forall z | HasSize(rest, z) && nb <= z :: rsize' + nb <= z
    ensures forall j, z | 0 <= j < |tb| && HasSize(tb[j], z) && nb <= z :: rsize' + nb <= z
  {
    forall j, z | 0 <= j < |tb| && HasSize(tb[j], z) && nb <= z
      ensures rsize' + nb <= z
    {
      assert Covered(tb[j], nb, rsize, rest);
      if rsize != 0 && Below(rest, z) { assert HasSize(rest, rest.size); }
    }
  }

  // In the trees, Least is about the sizes stored there.
  lemma LeastInTrees(cs: Chunks, excl: set<int>, sb: seq<seq<int>>, tb: seq<Tree>, nb: int, v: int, z: int, j: nat)
    requires Filed(cs, excl, sb, tb) && 256 <= nb <= z && j < 32 && Holds(tb[j], v, z)
    requires forall i, y | 0 <= i < 32 && HasSize(tb[i], y) && nb <= y :: z <= y
    ensures Least(cs, excl, v, nb) && cs[v].size == z
  {
    assert Spare(cs, excl, v, z);
    forall a | a in cs && Spare(cs, excl, a, cs[a].size) && nb <= cs[a].size
      ensures z <= cs[a].size
    {
      assert InBins(sb, tb, a, cs[a].size);
      HoldsAddrs(tb[TreeBin(cs[a].size)]);
    }
  }

  lemma NoneInTrees(cs: Chunks, excl: set<int>, sb: seq<seq<int>>, tb: seq<Tree>, nb: int)
    requires Filed(cs, excl, sb, tb) && 256 <= nb
    requires forall i, y | 0 <= i < 32 && HasSize(tb[i], y) && nb <= y :: W32 <= y
    ensures NoneFits(cs, excl, nb)
  {
    forall a | a in cs && Spare(cs, excl, a, cs[a].size)
      ensures cs[a].size < nb
    {
      assert InBins(sb, tb, a, cs[a].size);
      if nb <= cs[a].size { HoldsAddrs(tb[TreeBin(cs[a].size)]); }
    }
  }

  // The first step of tmalloc_large: search the bin that nb belongs to.
  method SearchOwnBin(L: Links, head: map<int, Head>, treemap: binmap, treebins: seq<int>, nb: int, idx: nat,
                      ghost tb: seq<Tree>)
    returns (v: int, rsize: int, t: int, ghost rest: Place)
    requires Trees(L, head, treemap, treebins, tb) && 256 <= nb < W32 && idx == TreeBin(nb) < 32
    ensures Best(nb, v, rsize, rest.t) && Covered(tb[idx], nb, rsize, rest.t) && Part(rest.t, tb[idx])
    ensures v != 0 ==> Holds(tb[idx], v, rsize + nb)
    ensures At(L, head, rest) && t == rest.ptr && (t == 0 <==> rest.t.Nil?)
  {
    Negated(nb);
    v, rsize := 0, U32(-nb);
    t := treebins[idx];
    rest := PlaceOf(tb, treebins, idx);
    AtNode(L, head, rest);
    if t != 0 {
      v, rsize, t, rest := SearchBin(L, head, t, nb, idx, rest);
      AtNode(L, head, rest);
    }
  }

  // The second step, if that bin has nothing: the next bin that is not empty, if there is one
  method BinAbove(L: Links, head: map<int, Head>, treemap: binmap, treebins: seq<int>, nb: int, idx: nat,
                  ghost tb: seq<Tree>, ghost none: Place)
    returns (t: int, ghost bin: nat, ghost rest: Place)
    requires Trees(L, head, treemap, treebins, tb) && 256 <= nb < W32 && idx == TreeBin(nb) < 32
    requires At(L, head, none) && none.ptr == 0 && none.t == Nil && Covered(tb[idx], nb, W32 - nb, Nil)
    ensures At(L, head, rest) && t == rest.ptr && bin < 32 && Part(rest.t, tb[bin])
    ensures AllCovered(tb, nb, W32 - nb, rest.t) && forall z | HasSize(rest.t, z) :: nb <= z
  {
    t, bin, rest := 0, idx, none;
    var leftbits := LeftOf(treemap, idx);
    if leftbits != 0 {
      var i := FirstMarked(leftbits);
      t, bin := treebins[i], i;
      rest := PlaceOf(tb, treebins, i);
    }
    NextBin(tb, nb, W32 - nb, rest.t, treemap, leftbits, bin);
  }

  // Both steps: where to look for the least size, and the best found before
  method FirstSteps(L: Links, head: map<int, Head>, treemap: binmap, treebins: seq<int>, nb: int, ghost tb: seq<Tree>)
    returns (v: int, rsize: int, t: int, ghost bin: nat, ghost rest: Place)
    requires Trees(L, head, treemap, treebins, tb) && 256 <= nb < W32
    ensures Best(nb, v, rsize, rest.t) && AllCovered(tb, nb, rsize, rest.t)
    ensures At(L, head, rest) && t == rest.ptr && bin < 32 && Part(rest.t, tb[bin])
    ensures v != 0 ==> Holds(tb[bin], v, rsize + nb)
  {
    var idx := ComputeTreeIndex(nb);
    TreeBinRange(nb);
    v, rsize, t, rest := SearchOwnBin(L, head, treemap, treebins, nb, idx, tb);
    bin := idx;
    if t == 0 && v == 0 {
      t, bin, rest := BinAbove(L, head, treemap, treebins, nb, idx, tb, rest);
    } else {
      HoldsAddrs(tb[idx]);
      BinSuffices(tb, nb, rsize, rest.t);
    }
  }

  // Which chunk tmalloc_large picks: the search of one bin, of the next bin, and down the leftmost path
  method FindLarge(L: Links, head: map<int, Head>, treemap: binmap, treebins: seq<int>, nb: int, ghost tb: seq<Tree>)
    returns (v: int, rsize: int, ghost bin: nat)
    requires Trees(L, head, treemap, treebins, tb) && 256 <= nb < W32
    ensures 0 <= rsize && (v == 0 ==> rsize == W32 - nb)
    ensures v != 0 ==> bin < 32 && Holds(tb[bin], v, rsize + nb)
    ensures forall j, z | 0 <= j < 32 && HasSize(tb[j], z) && nb <= z :: rsize + nb <= z
  {
    var t;
    ghost var rest;
    v, rsize, t, bin, rest := FirstSteps(L, head, treemap, treebins, nb, tb);
    ghost var v0, r0 := v, rsize;
    v, rsize := LeastOf(L, head, t, nb, v, rsize, rest);
    Chosen(tb, nb, v0, r0, rest.t, rsize);
  }

  // The smallest size of a tree is at its root or on the leftmost path below it.
  lemma LeastFromRoot(w: Place, nb: int, rsize: int)
    requires w.t.Node? && TrieOk(w.t, w.lo, w.e) && LargeSizes(w.t) && nb < 256
    requires rsize + nb <= w.t.size
    requires forall z | HasSize(Child(w.t, w.t.left.Nil?), z) && nb <= z :: rsize + nb <= z
    ensures forall z | HasSize(w.t, z) :: rsize + nb <= z
  {
    LeftmostStep(w.t, w.lo, w.e);
    var c := Child(w.t, w.t.left.Nil?);
    forall z | HasSize(w.t, z)
      ensures rsize + nb <= z
    {
      if z != w.t.size && !HasSize(c, z) {
        assert Below(c, z) && HasSize(c, c.size) && HasSize(w.t, c.size);
      } else {
        assert HasSize(w.t, z);
      }
    }
  }

  // The loop of tmalloc_small over one tree
  method LeastOfTree(L: Links, head: map<int, Head>, root: int, nb: int, ghost w: Place) returns (v: int, rsize: int)
    requires At(L, head, w) && w.t.Node? && root == w.ptr && 0 < nb < 256
    ensures 0 <= rsize && Holds(w.t, v, rsize + nb)
    ensures forall z | HasSize(w.t, z) :: rsize + nb <= z
  {
    AtNode(L, head, w);
    v, rsize := root, U32(SizeAt(head, root) - nb);
    WrappedLess(w.t.size, nb, 0);
    ghost var right := w.t.left.Nil?;
    StepAt(L, head, w, false);
    StepAt(L, head, w, true);
    ghost var u := Step(L, w, right);
    ChildPart(w.t, w.t, right);
    var t := if Rd(L.child0, root) != 0 then Rd(L.child0, root) else Rd(L.child1, root);
    v, rsize := LeastOf(L, head, t, nb, v, rsize, u);
    LeastFromRoot(w, nb, rsize);
  }

  // Which chunk tmalloc_small picks: the smallest of the first tree
  method FindSmallest(L: Links, head: map<int, Head>, treemap: binmap, treebins: seq<int>, nb: int, ghost tb: seq<Tree>)
    returns (v: int, rsize: int, ghost bin: nat)
    requires Trees(L, head, treemap, treebins, tb) && 0 < nb < 256 && treemap != 0
    ensures 0 <= rsize && bin < 32 && Holds(tb[bin], v, rsize + nb)
    ensures forall j, z | 0 <= j < 32 && HasSize(tb[j], z) :: rsize + nb <= z
  {
    var i := FirstMarked(treemap);
    bin := i;
    v, rsize := LeastOfTree(L, head, treebins[i], nb, PlaceOf(tb, treebins, i));
    FirstTreeLeast(tb, treemap, i, v, rsize + nb);
  }

  lemma FirstTreeLeast(tb: seq<Tree>, treemap: binmap, i: nat, v: int, y: int)
    requires Sorted(tb) && IsLeast(treemap, i) && forall j | 0 <= j < 32 :: Marked(treemap, j) <==> tb[j].Node?
    requires Holds(tb[i], v, y) && forall z | HasSize(tb[i], z) :: y <= z
    ensures forall j, z | 0 <= j < 32 && HasSize(tb[j], z) :: y <= z
  {
    HoldsAddrs(tb[i]);
    assert forall j | 0 <= j < i :: !Marked(treemap, j);
    forall j, z | 0 <= j < 32 && HasSize(tb[j], z)
      ensures y <= z
    {
      if i < j { BinOrder(y, z); }
    }
  }

  // A chunk that is least among those of 256 bytes or more is least among all that fit, if no
  // smaller one fits.
  lemma LeastAbove(cs: Chunks, excl: set<int>, v: int, nb: int)
    requires Least(cs, excl, v, 256) && nb < 256
    requires forall a | a in cs && Spare(cs, excl, a, cs[a].size) && nb <= cs[a].size :: 256 <= cs[a].size
    ensures Least(cs, excl, v, nb)
  {
  }

  // The chunk that tmalloc_small picks is the least of the large chunks.
  method SmallestChunk(L: Links, head: map<int, Head>, treemap: binmap, treebins: seq<int>, nb: int,
                       ghost tb: seq<Tree>, ghost sb: seq<seq<int>>, ghost cs: Chunks, ghost excl: set<int>)
    returns (v: int, rsize: int)
    requires Trees(L, head, treemap, treebins, tb) && Filed(cs, excl, sb, tb) && 0 < nb < 256 && treemap != 0
    ensures Least(cs, excl, v, 256) && 0 <= rsize && cs[v].size == nb + rsize
  {
    ghost var bin;
    v, rsize, bin := FindSmallest(L, head, treemap, treebins, nb, tb);
    HoldsAddrs(tb[bin]);
    LeastInTrees(cs, excl, sb, tb, 256, v, rsize + nb, bin);
  }

  // The chunk that tmalloc_large finds is the least that fits, and it finds one if there is one.
  method BestChunk(L: Links, head: map<int, Head>, treemap: binmap, treebins: seq<int>, nb: int,
                   ghost tb: seq<Tree>, ghost sb: seq<seq<int>>, ghost cs: Chunks, ghost excl: set<int>)
    returns (v: int, rsize: int)
    requires Trees(L, head, treemap, treebins, tb) && Filed(cs, excl, sb, tb) && 256 <= nb < W32
    ensures if v == 0 then NoneFits(cs, excl, nb) else Least(cs, excl, v, nb) && 0 <= rsize && cs[v].size == nb + rsize
  {
    ghost var bin;
    v, rsize, bin := FindLarge(L, head, treemap, treebins, nb, tb);
    if v != 0 {
      LeastInTrees(cs, excl, sb, tb, nb, v, rsize + nb, bin);
    } else {
      NoneInTrees(cs, excl, sb, tb, nb);
    }
  }
}
