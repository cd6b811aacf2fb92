// All bins together: which chunk is filed where.
module Bins {
  import opened Words
  import opened BinIndex
  import opened BinMap
  import opened Rings
  import opened Trie
  import opened TrieLinks
  import opened TrieKey
  import opened Tiling

  // malloc_state is static memory below the heap. A small-bin header is the fake chunk whose fd and
  // bk fields are the bin's two pointers; a tree bin is one pointer.
  const STATIC_END: int := 0x400

  function SmallBinAt(i: nat): int {
    0x100 + 8 * i
  }

  function TreeBinAt(i: nat): int {
    0x210 + 4 * i
  }

  // A small bin: the header and the chunks in it form a ring, unless the map says it is empty. The
  // links of an empty bin's header may be stale.
  ghost predicate SmallBinOk(L: Links, marked: bool, s: seq<int>, i: nat) {
    && (marked <==> s != [])
    && NoDup([SmallBinAt(i)] + s)
    && (s != [] ==> RingOk(L.fd, L.bk, [SmallBinAt(i)] + s))
  }

  ghost predicate TreeBinOk(L: Links, marked: bool, root: int, t: Tree, i: nat) {
    && (marked <==> t.Node?)
    && Rep(L, t, root, TreeBinAt(i))
    && TrieOk(t, BinLow(i), BinBits(i)) && Distinct(t)
    && (forall z | HasSize(t, z) :: 256 <= z < W32 && TreeBin(z) == i)
    && (forall a | a in Addrs(t) :: Rd(L.index, a) == i)
  }

  ghost predicate AllBins(L: Links, smallmap: binmap, treemap: binmap, treebins: seq<int>,
                          sb: seq<seq<int>>, tb: seq<Tree>) {
    && |treebins| == |sb| == |tb| == 32
    && (forall i {:trigger SmallBinOk(L, Marked(smallmap, i), sb[i], i)} | 0 <= i < 32 ::
          SmallBinOk(L, Marked(smallmap, i), sb[i], i))
    && (forall i {:trigger TreeBinOk(L, Marked(treemap, i), treebins[i], tb[i], i)} | 0 <= i < 32 ::
          TreeBinOk(L, Marked(treemap, i), treebins[i], tb[i], i))
  }

  ghost predicate Spare(cs: Chunks, excl: set<int>, a: int, z: int) {
    a in cs && cs[a] == Chunk(z, false) && a !in excl
  }

  ghost predicate InBins(sb: seq<seq<int>>, tb: seq<Tree>, a: int, z: int)
    requires |sb| == |tb| == 32
  {
    if z < 256 then 0 <= z && a in sb[z / 8] else z < W32 && TreeBin(z) < 32 && Holds(tb[TreeBin(z)], a, z)
  }

  // The bins hold exactly the free chunks other than those in excl, each under its size.
  ghost predicate Filed(cs: Chunks, excl: set<int>, sb: seq<seq<int>>, tb: seq<Tree>) {
    && |sb| == |tb| == 32
    && (forall a {:trigger Spare(cs, excl, a, cs[a].size)} | a in cs && Spare(cs, excl, a, cs[a].size) ::
          InBins(sb, tb, a, cs[a].size))
    && (forall i, a {:trigger a in sb[i]} | 0 <= i < 32 && a in sb[i] :: Spare(cs, excl, a, 8 * i))
    && (forall i, a, z {:trigger Holds(tb[i], a, z)} | 0 <= i < 32 && Holds(tb[i], a, z) :: Spare(cs, excl, a, z))
  }

  // The bins do not mind what happens to chunks that are not in them.
  lemma Refile(cs: Chunks, excl: set<int>, cs': Chunks, excl': set<int>, sb: seq<seq<int>>, tb: seq<Tree>)
    requires Filed(cs, excl, sb, tb)
    requires forall a, z :: Spare(cs, excl, a, z) <==> Spare(cs', excl', a, z)
    ensures Filed(cs', excl', sb, tb)
  {
    forall a | a in cs' && Spare(cs', excl', a, cs'[a].size)
      ensures InBins(sb, tb, a, cs'[a].size)
    {
      assert Spare(cs, excl, a, cs'[a].size);
    }
  }

  lemma SmallApart(cs: Chunks, excl: set<int>, sb: seq<seq<int>>, tb: seq<Tree>, i: nat, a: int)
    requires Filed(cs, excl, sb, tb) && i < 32 && a in sb[i]
    ensures a in cs && cs[a] == Chunk(8 * i, false) && a !in excl
    ensures forall j | 0 <= j < 32 && a in sb[j] :: j == i
  {
    assert Spare(cs, excl, a, 8 * i);
    forall j | 0 <= j < 32 && a in sb[j] ensures j == i { assert Spare(cs, excl, a, 8 * j); }
  }

  lemma TreeApart(cs: Chunks, excl: set<int>, sb: seq<seq<int>>, tb: seq<Tree>, i: nat, a: int)
    requires Filed(cs, excl, sb, tb) && i < 32 && a in Addrs(tb[i])
    requires forall z | HasSize(tb[i], z) :: 256 <= z < W32 && TreeBin(z) == i
    ensures a in cs && !cs[a].used && a !in excl && 256 <= cs[a].size < W32 && TreeBin(cs[a].size) == i
    ensures Holds(tb[i], a, cs[a].size)
  {
    var z := AddrsHold(tb[i], a);
    HoldsAddrs(tb[i]);
    assert Spare(cs, excl, a, z);
  }

  lemma OtherTree(cs: Chunks, excl: set<int>, L: Links, smallmap: binmap, treemap: binmap, treebins: seq<int>,
                  sb: seq<seq<int>>, tb: seq<Tree>, i: nat, j: nat, a: int)
    requires Filed(cs, excl, sb, tb) && AllBins(L, smallmap, treemap, treebins, sb, tb)
    requires i < 32 && j < 32 && i != j && a in Addrs(tb[i])
    ensures a !in Addrs(tb[j]) && a !in sb[j] && a !in sb[i]
  {
    assert TreeBinOk(L, Marked(treemap, i), treebins[i], tb[i], i);
    assert TreeBinOk(L, Marked(treemap, j), treebins[j], tb[j], j);
    TreeApart(cs, excl, sb, tb, i, a);
    if a in Addrs(tb[j]) { TreeApart(cs, excl, sb, tb, j, a); }
    if a in sb[j] { SmallApart(cs, excl, sb, tb, j, a); }
    if a in sb[i] { SmallApart(cs, excl, sb, tb, i, a); }
  }

  // A chunk on its own is in no bin.
  lemma NotBinned(cs: Chunks, excl: set<int>, L: Links, smallmap: binmap, treemap: binmap, treebins: seq<int>,
                  sb: seq<seq<int>>, tb: seq<Tree>, x: int, j: nat)
    requires Filed(cs, excl, sb, tb) && AllBins(L, smallmap, treemap, treebins, sb, tb)
    requires j < 32 && (x in excl || x !in cs)
    ensures x !in Addrs(tb[j]) && x !in sb[j]
  {
    assert TreeBinOk(L, Marked(treemap, j), treebins[j], tb[j], j);
    if x in Addrs(tb[j]) { TreeApart(cs, excl, sb, tb, j, x); }
    if x in sb[j] { SmallApart(cs, excl, sb, tb, j, x); }
  }

  ghost predicate AboveStatic(cs: Chunks) {
    forall a | a in cs :: STATIC_END <= a
  }

  ghost predicate BinsOk(L: Links, smallmap: binmap, treemap: binmap, treebins: seq<int>, sb: seq<seq<int>>,
                         tb: seq<Tree>,
                         cs: Chunks, excl: set<int>) {
    AllBins(L, smallmap, treemap, treebins, sb, tb) && Filed(cs, excl, sb, tb) && AboveStatic(cs)
  }

  lemma TreeBinFrame(L: Links, M: Links, marked: bool, root: int, t: Tree, i: nat)
    requires TreeBinOk(L, marked, root, t, i)
    requires forall a | a in Addrs(t) :: SameAt(L, M, a) && Rd(M.index, a) == Rd(L.index, a)
    ensures TreeBinOk(M, marked, root, t, i)
  {
    RepFrame(L, M, t, root, TreeBinAt(i));
  }

  lemma SmallBinFrame(L: Links, M: Links, marked: bool, s: seq<int>, i: nat)
    requires SmallBinOk(L, marked, s, i)
    requires SameRing(L, M, SmallBinAt(i)) && forall a | a in s :: SameRing(L, M, a)
    ensures SmallBinOk(M, marked, s, i)
  {
    if s != [] { RingFrame(L.fd, L.bk, [SmallBinAt(i)] + s, M.fd, M.bk); }
  }

  // From L to M, only tree i and chunk x have been touched.
  ghost predicate TouchedTree(L: Links, M: Links, t: Tree, x: int) {
    forall a | a !in Addrs(t) && a != x :: SameAt(L, M, a) && Rd(M.index, a) == Rd(L.index, a)
  }

  lemma TreeBinChanged(cs: Chunks, excl: set<int>, L: Links, M: Links, smallmap: binmap, treemap: binmap,
                       treemap': binmap,
                       treebins: seq<int>, sb: seq<seq<int>>, tb: seq<Tree>, i: nat, root': int, t': Tree, x: int)
    requires Filed(cs, excl, sb, tb) && AllBins(L, smallmap, treemap, treebins, sb, tb) && AboveStatic(cs)
    requires i < 32 && x >= STATIC_END && (x in excl || x !in cs || x in Addrs(tb[i])) && TouchedTree(L, M, tb[i], x)
    requires TreeBinOk(M, Marked(treemap', i), root', t', i)
    requires forall j | 0 <= j < 32 && j != i :: Marked(treemap', j) == Marked(treemap, j)
    ensures AllBins(M, smallmap, treemap', treebins[i := root'], sb, tb[i := t'])
  {
    forall j | 0 <= j < 32 && j != i
      ensures TreeBinOk(M, Marked(treemap', j), treebins[j], tb[j], j)
    {
      assert TreeBinOk(L, Marked(treemap, j), treebins[j], tb[j], j);
      forall a | a in Addrs(tb[j])
        ensures SameAt(L, M, a) && Rd(M.index, a) == Rd(L.index, a)
      {
        OtherTree(cs, excl, L, smallmap, treemap, treebins, sb, tb, j, i, a);
        if a == x && x !in Addrs(tb[i]) { NotBinned(cs, excl, L, smallmap, treemap, treebins, sb, tb, x, j); }
      }
      TreeBinFrame(L, M, Marked(treemap, j), treebins[j], tb[j], j);
    }
    forall j | 0 <= j < 32
      ensures SmallBinOk(M, Marked(smallmap, j), sb[j], j)
    {
      assert SmallBinOk(L, Marked(smallmap, j), sb[j], j);
      forall a | a in sb[j] || a == SmallBinAt(j)
        ensures SameRing(L, M, a)
      {
        SmallNotInTree(cs, excl, L, smallmap, treemap, treebins, sb, tb, i, j, a, x);
        assert SameAt(L, M, a);
      }
      SmallBinFrame(L, M, Marked(smallmap, j), sb[j], j);
    }
  }

  lemma SmallNotInTree(cs: Chunks, excl: set<int>, L: Links, smallmap: binmap, treemap: binmap, treebins: seq<int>,
                       sb: seq<seq<int>>, tb: seq<Tree>, i: nat, j: nat, a: int, x: int)
    requires Filed(cs, excl, sb, tb) && AllBins(L, smallmap, treemap, treebins, sb, tb) && AboveStatic(cs)
    requires i < 32 && j < 32 && (a in sb[j] || a == SmallBinAt(j))
    requires x >= STATIC_END && (x in excl || x !in cs || x in Addrs(tb[i]))
    ensures a !in Addrs(tb[i]) && a != x
  {
    assert TreeBinOk(L, Marked(treemap, i), treebins[i], tb[i], i);
    if a in Addrs(tb[i]) { TreeApart(cs, excl, sb, tb, i, a); }
    if a in sb[j] { SmallApart(cs, excl, sb, tb, j, a); }
  }

  lemma SmallBinChanged(cs: Chunks, excl: set<int>, L: Links, M: Links, smallmap: binmap, smallmap': binmap,
                        treemap: binmap,
                        treebins: seq<int>, sb: seq<seq<int>>, tb: seq<Tree>, i: nat, s': seq<int>, x: int)
    requires Filed(cs, excl, sb, tb) && AllBins(L, smallmap, treemap, treebins, sb, tb) && AboveStatic(cs)
    requires i < 32 && x >= STATIC_END && (x in excl || x !in cs || x in sb[i])
    requires M == L.(fd := M.fd, bk := M.bk)
    requires forall a | a !in sb[i] && a != x && a != SmallBinAt(i) :: SameRing(L, M, a)
    requires SmallBinOk(M, Marked(smallmap', i), s', i)
    requires forall j | 0 <= j < 32 && j != i :: Marked(smallmap', j) == Marked(smallmap, j)
    ensures AllBins(M, smallmap', treemap, treebins, sb[i := s'], tb)
  {
    forall j | 0 <= j < 32 && j != i
      ensures SmallBinOk(M, Marked(smallmap', j), sb[j], j)
    {
      assert SmallBinOk(L, Marked(smallmap, j), sb[j], j);
      forall a | a in sb[j]
        ensures SameRing(L, M, a)
      {
        SmallApart(cs, excl, sb, tb, j, a);
      }
      assert SmallBinAt(j) !in sb[i] by {
        if SmallBinAt(j) in sb[i] { SmallApart(cs, excl, sb, tb, i, SmallBinAt(j)); } }
      SmallBinFrame(L, M, Marked(smallmap, j), sb[j], j);
    }
    forall j | 0 <= j < 32
      ensures TreeBinOk(M, Marked(treemap, j), treebins[j], tb[j], j)
    {
      assert TreeBinOk(L, Marked(treemap, j), treebins[j], tb[j], j);
      forall a | a in Addrs(tb[j])
        ensures SameAt(L, M, a)
      {
        TreeNotInSmall(cs, excl, L, smallmap, treemap, treebins, sb, tb, i, j, a, x);
        assert SameRing(L, M, a);
      }
      TreeBinFrame(L, M, Marked(treemap, j), treebins[j], tb[j], j);
    }
  }

  lemma TreeNotInSmall(cs: Chunks, excl: set<int>, L: Links, smallmap: binmap, treemap: binmap, treebins: seq<int>,
                       sb: seq<seq<int>>, tb: seq<Tree>, i: nat, j: nat, a: int, x: int)
    requires Filed(cs, excl, sb, tb) && AllBins(L, smallmap, treemap, treebins, sb, tb) && AboveStatic(cs)
    requires i < 32 && j < 32 && a in Addrs(tb[j])
    requires x >= STATIC_END && (x in excl || x !in cs || x in sb[i])
    ensures a !in sb[i] && a != x && a != SmallBinAt(i)
  {
    assert TreeBinOk(L, Marked(treemap, j), treebins[j], tb[j], j);
    TreeApart(cs, excl, sb, tb, j, a);
    if a in sb[i] { SmallApart(cs, excl, sb, tb, i, a); }
  }

  /* ---- filing ---- */

  lemma FileSmall(cs: Chunks, excl: set<int>, sb: seq<seq<int>>, tb: seq<Tree>, i: nat, x: int, s': seq<int>)
    requires Filed(cs, excl, sb, tb) && i < 32 && x in excl && x in cs && cs[x] == Chunk(8 * i, false)
    requires forall a :: a in s' <==> a == x || a in sb[i]
    ensures Filed(cs, excl - {x}, sb[i := s'], tb)
  {
    forall a | a in cs && Spare(cs, excl - {x}, a, cs[a].size)
      ensures InBins(sb[i := s'], tb, a, cs[a].size)
    {
      if a != x { assert Spare(cs, excl, a, cs[a].size); }
    }
    forall j, a | 0 <= j < 32 && a in sb[i := s'][j]
      ensures Spare(cs, excl - {x}, a, 8 * j)
    {
      if a != x { assert Spare(cs, excl, a, 8 * j); }
    }
    forall j, a, z | 0 <= j < 32 && Holds(tb[j], a, z)
      ensures Spare(cs, excl - {x}, a, z)
    {
      assert Spare(cs, excl, a, z);
    }
  }

  lemma UnfileSmall(cs: Chunks, excl: set<int>, sb: seq<seq<int>>, tb: seq<Tree>, i: nat, x: int, s': seq<int>)
    requires Filed(cs, excl, sb, tb) && i < 32 && x in sb[i]
    requires forall a :: a in s' <==> a != x && a in sb[i]
    requires forall j, a, y | 0 <= j < 32 && Holds(tb[j], a, y) :: 256 <= y
    ensures Filed(cs, excl + {x}, sb[i := s'], tb)
  {
    SmallApart(cs, excl, sb, tb, i, x);
    forall a | a in cs && Spare(cs, excl + {x}, a, cs[a].size)
      ensures InBins(sb[i := s'], tb, a, cs[a].size)
    {
      assert Spare(cs, excl, a, cs[a].size);
    }
    forall j, a | 0 <= j < 32 && a in sb[i := s'][j]
      ensures Spare(cs, excl + {x}, a, 8 * j)
    {
      assert Spare(cs, excl, a, 8 * j);
    }
    forall j, a, z | 0 <= j < 32 && Holds(tb[j], a, z)
      ensures Spare(cs, excl + {x}, a, z)
    {
      assert Spare(cs, excl, a, z);
    }
  }

  lemma FileLarge(cs: Chunks, excl: set<int>, sb: seq<seq<int>>, tb: seq<Tree>, i: nat, x: int, z: int, t': Tree)
    requires Filed(cs, excl, sb, tb) && i < 32 && x in excl && x in cs && cs[x] == Chunk(z, false)
    requires 256 <= z < W32 && i == TreeBin(z)
    requires forall a, y :: Holds(t', a, y) <==> Holds(tb[i], a, y) || (a == x && y == z)
    ensures Filed(cs, excl - {x}, sb, tb[i := t'])
  {
    forall a | a in cs && Spare(cs, excl - {x}, a, cs[a].size)
      ensures InBins(sb, tb[i := t'], a, cs[a].size)
    {
      if a != x { assert Spare(cs, excl, a, cs[a].size); }
    }
    forall j, a | 0 <= j < 32 && a in sb[j]
      ensures Spare(cs, excl - {x}, a, 8 * j)
    {
      assert Spare(cs, excl, a, 8 * j);
    }
    var tb' := tb[i := t'];
    forall j, a, y | 0 <= j < 32 && Holds(tb'[j], a, y)
      ensures Spare(cs, excl - {x}, a, y)
    {
      if j == i && a == x && y == z {
      } else {
        assert Spare(cs, excl, a, y);
      }
    }
  }

  lemma UnfileLarge(cs: Chunks, excl: set<int>, sb: seq<seq<int>>, tb: seq<Tree>, i: nat, x: int, z: int, t': Tree)
    requires Filed(cs, excl, sb, tb) && i < 32 && Holds(tb[i], x, z) && 256 <= z < W32 && i == TreeBin(z)
    requires forall a, y :: Holds(t', a, y) <==> Holds(tb[i], a, y) && a != x
    requires forall j, a, y | 0 <= j < 32 && Holds(tb[j], a, y) :: 256 <= y < W32 && TreeBin(y) == j
    ensures Filed(cs, excl + {x}, sb, tb[i := t'])
  {
    assert Spare(cs, excl, x, z);
    forall a | a in cs && Spare(cs, excl + {x}, a, cs[a].size)
      ensures InBins(sb, tb[i := t'], a, cs[a].size)
    {
      assert Spare(cs, excl, a, cs[a].size);
    }
    forall j, a | 0 <= j < 32 && a in sb[j]
      ensures Spare(cs, excl + {x}, a, 8 * j)
    {
      assert Spare(cs, excl, a, 8 * j);
    }
    var tb' := tb[i := t'];
    forall j, a, y | 0 <= j < 32 && Holds(tb'[j], a, y)
      ensures Spare(cs, excl + {x}, a, y)
    {
      assert Holds(tb[j], a, y);
      assert Spare(cs, excl, a, y);
    }
  }

  /* ---- rings of the small bins ---- */

  lemma RingPushed(b: int, s: seq<int>, p: int)
    requires NoDup([b] + s) && p !in s && p != b
    ensures NoDup([b] + ([p] + s)) && RingInserted([b] + s, p) == [b] + ([p] + s)
  {
    RingInsertedElems([b] + s, p);
    assert RingInserted([b] + s, p) == [b] + ([p] + s);
  }

  lemma PushedOk(L: Links, M: Links, s: seq<int>, i: nat, p: int, f: int)
    requires SmallBinOk(L, s != [], s, i) && p !in s && p != SmallBinAt(i)
    requires f == if s == [] then SmallBinAt(i) else Rd(L.fd, SmallBinAt(i))
    requires M.fd == L.fd[SmallBinAt(i) := p][p := f] && M.bk == L.bk[f := p][p := SmallBinAt(i)]
    ensures SmallBinOk(M, true, [p] + s, i)
    ensures forall a | a !in s && a != p && a != SmallBinAt(i) :: SameRing(L, M, a)
  {
    var b := SmallBinAt(i);
    var r := [b] + s;
    RingPushed(b, s, p);
    if s != [] {
      assert f == After(r, 0) && f in r;
      RingInsert(L.fd, L.bk, r, p, M.fd, M.bk);
    }
  }

  lemma RingWithout(b: int, s: seq<int>, k: nat)
    requires k < |s|
    ensures RingRemoved([b] + s, k + 1) == [b] + (s[..k] + s[k + 1..])
  {
    var r := [b] + s;
    assert r[..k + 1] == [b] + s[..k];
    assert r[k + 2..] == s[k + 1..];
  }

  // p = s[k] leaves the bin: its neighbours are linked to each other, or it was the only one.
  lemma UnlinkedOk(L: Links, M: Links, s: seq<int>, i: nat, k: nat)
    requires SmallBinOk(L, true, s, i) && k < |s|
    requires var f, b := Rd(L.fd, s[k]), Rd(L.bk, s[k]);
             if f == b then M == L else M == L.(bk := L.bk[f := b], fd := L.fd[b := f])
    ensures SmallBinOk(M, Rd(L.fd, s[k]) != Rd(L.bk, s[k]), s[..k] + s[k + 1..], i)
    ensures forall a | a !in s && a != SmallBinAt(i) :: SameRing(L, M, a)
  {
    var r := [SmallBinAt(i)] + s;
    RingWithout(SmallBinAt(i), s, k);
    RingRemovedElems(r, k + 1);
    AloneInBin(L, s, i, k);
    if |s| > 1 {
      RingRemove(L.fd, L.bk, r, k + 1, M.fd, M.bk);
    }
  }

  lemma AloneInBin(L: Links, s: seq<int>, i: nat, k: nat)
    requires SmallBinOk(L, true, s, i) && k < |s|
    ensures Rd(L.fd, s[k]) == Rd(L.bk, s[k]) <==> |s| == 1
  {
    var r := [SmallBinAt(i)] + s;
    assert Rd(L.fd, r[k + 1]) == After(r, k + 1) && Rd(L.bk, r[k + 1]) == Before(r, k + 1);
    NeighboursEqual(r, k + 1);
  }

  lemma RemovedIn(b: int, s: seq<int>, k: nat)
    requires k < |s| && NoDup([b] + s)
    ensures forall a :: a in s[..k] + s[k + 1..] <==> a != s[k] && a in s
  {
    var r := [b] + s;
    assert forall j | 0 <= j < |s| :: s[j] == r[j + 1];
    forall a | a in s && a != s[k]
      ensures a in s[..k] + s[k + 1..]
    {
      var j :| 0 <= j < |s| && s[j] == a;
      if j < k { assert s[..k][j] == a; } else { assert s[k + 1..][j - k - 1] == a; }
    }
  }

  /* ---- trees ---- */

  // Trees hold large chunks, each in the tree for its size.
  lemma LargeInTrees(L: Links, smallmap: binmap, treemap: binmap, treebins: seq<int>, sb: seq<seq<int>>, tb: seq<Tree>)
    requires AllBins(L, smallmap, treemap, treebins, sb, tb)
    ensures forall j, a, y | 0 <= j < 32 && Holds(tb[j], a, y) :: 256 <= y < W32 && TreeBin(y) == j
  {
    forall j, a, y | 0 <= j < 32 && Holds(tb[j], a, y)
      ensures 256 <= y < W32 && TreeBin(y) == j
    {
      assert TreeBinOk(L, Marked(treemap, j), treebins[j], tb[j], j);
      HoldsAddrs(tb[j]);
    }
  }

  lemma InsertedOk(L: Links, M: Links, t: Tree, root: int, root': int, i: nat, x: int, s: int)
    requires TreeBinOk(L, t.Node?, root, t, i) && x !in Addrs(t)
    requires 256 <= s < W32 && i == TreeBin(s)
    requires Rep(M, Insert(t, x, s, BinLow(i), BinBits(i)), root', TreeBinAt(i))
    requires forall a | a != x :: Rd(M.index, a) == Rd(L.index, a)
    requires Rd(M.index, x) == i
    ensures TreeBinOk(M, true, root', Insert(t, x, s, BinLow(i), BinBits(i)), i)
  {
    BinCovers(s);
    InsertTrie(t, x, s, BinLow(i), BinBits(i));
    InsertSizes(t, x, s, BinLow(i), BinBits(i));
    InsertAddrs(t, x, s, BinLow(i), BinBits(i));
    InsertDistinct(t, x, s, BinLow(i), BinBits(i));
  }

  lemma RemovedOk(L: Links, M: Links, t: Tree, root: int, root': int, i: nat, x: int)
    requires TreeBinOk(L, t.Node?, root, t, i) && x in Addrs(t) && 0 !in Addrs(t)
    requires Rep(M, Remove(t, x), root', TreeBinAt(i)) && M.index == L.index
    ensures TreeBinOk(M, root' != 0, root', Remove(t, x), i)
    ensures root' == 0 ==> root == x
  {
    RemoveTrie(t, x, BinLow(i), BinBits(i));
    RemoveItems(t, x);
    if Remove(t, x).Nil? {
      assert root in Elems(t.ring);
      assert root !in Addrs(Remove(t, x));
    } else {
      assert Remove(t, x).ring[0] in Elems(Remove(t, x).ring);
    }
  }

  // All bins after insert_large_chunk has worked on bin i
  lemma LargeInserted(L: Links, M: Links, smallmap: binmap, treemap: binmap, treemap': binmap, treebins: seq<int>,
                      sb: seq<seq<int>>, tb: seq<Tree>, cs: Chunks, excl: set<int>, i: nat, root': int, x: int, s: int)
    requires BinsOk(L, smallmap, treemap, treebins, sb, tb, cs, excl)
    requires x in excl && x in cs && cs[x] == Chunk(s, false) && 256 <= s < W32 && i == TreeBin(s) < 32
    requires forall j | 0 <= j < 32 :: Marked(treemap', j) <==> j == i || Marked(treemap, j)
    requires TouchedTree(L, M, tb[i], x) && Rd(M.index, x) == i
    requires Rep(M, Insert(tb[i], x, s, BinLow(i), BinBits(i)), root', TreeBinAt(i))
    requires forall a | a != x :: Rd(M.index, a) == Rd(L.index, a)
    ensures BinsOk(M, smallmap, treemap', treebins[i := root'], sb, tb[i := Insert(tb[i], x, s, BinLow(i), BinBits(i))],
                   cs, excl - {x})
  {
    var t := tb[i];
    assert TreeBinOk(L, Marked(treemap, i), treebins[i], t, i);
    NotBinned(cs, excl, L, smallmap, treemap, treebins, sb, tb, x, i);
    var t' := Insert(t, x, s, BinLow(i), BinBits(i));
    InsertedOk(L, M, t, treebins[i], root', i, x, s);
    TreeBinChanged(cs, excl, L, M, smallmap, treemap, treemap', treebins, sb, tb, i, root', t', x);
    InsertItems(t, x, s, BinLow(i), BinBits(i));
    FileLarge(cs, excl, sb, tb, i, x, s, t');
  }

  // All bins after unlink_large_chunk has worked on bin i
  lemma LargeRemoved(L: Links, M: Links, smallmap: binmap, treemap: binmap, treemap': binmap, treebins: seq<int>,
                     sb: seq<seq<int>>, tb: seq<Tree>, cs: Chunks, excl: set<int>, i: nat, root': int, x: int, s: int)
    requires BinsOk(L, smallmap, treemap, treebins, sb, tb, cs, excl)
    requires x !in excl && x in cs && cs[x] == Chunk(s, false) && 256 <= s < W32 && i == TreeBin(s) < 32
    requires forall j | 0 <= j < 32 :: Marked(treemap', j) <==> (j != i || root' != 0) && Marked(treemap, j)
    requires TouchedTree(L, M, tb[i], x) && M.index == L.index
    requires Rep(M, Remove(tb[i], x), root', TreeBinAt(i)) && 0 !in Addrs(tb[i])
    ensures BinsOk(M, smallmap, treemap', treebins[i := root'], sb, tb[i := Remove(tb[i], x)], cs, excl + {x})
    ensures root' == 0 ==> treebins[i] == x
  {
    var t := tb[i];
    assert TreeBinOk(L, Marked(treemap, i), treebins[i], t, i);
    assert Spare(cs, excl, x, s);
    HoldsAddrs(t);
    RemovedOk(L, M, t, treebins[i], root', i, x);
    TreeBinChanged(cs, excl, L, M, smallmap, treemap, treemap', treebins, sb, tb, i, root', Remove(t, x), x);
    RemoveItems(t, x);
    LargeInTrees(L, smallmap, treemap, treebins, sb, tb);
    UnfileLarge(cs, excl, sb, tb, i, x, s, Remove(t, x));
  }

  /* ---- chunks outside the bins change ---- */

  // A chunk that is in no bin is given out.
  lemma GivenOut(L: Links, smallmap: binmap, treemap: binmap, treebins: seq<int>, sb: seq<seq<int>>, tb: seq<Tree>,
                 cs: Chunks, excl: set<int>, p: int, z: int)
    requires BinsOk(L, smallmap, treemap, treebins, sb, tb, cs, excl + {p}) && STATIC_END <= p
    ensures BinsOk(L, smallmap, treemap, treebins, sb, tb, cs[p := Chunk(z, true)], excl)
  {
    Refile(cs, excl + {p}, cs[p := Chunk(z, true)], excl, sb, tb);
  }

  // A new free chunk, still in no bin
  lemma NewFree(L: Links, smallmap: binmap, treemap: binmap, treebins: seq<int>, sb: seq<seq<int>>, tb: seq<Tree>,
                cs: Chunks, excl: set<int>, r: int, z: int)
    requires BinsOk(L, smallmap, treemap, treebins, sb, tb, cs, excl) && STATIC_END <= r && r !in cs
    ensures BinsOk(L, smallmap, treemap, treebins, sb, tb, cs[r := Chunk(z, false)], excl + {r})
  {
    Refile(cs, excl, cs[r := Chunk(z, false)], excl + {r}, sb, tb);
  }

  // Without chunks the bins are empty, and any links will do.
  lemma NoChunks(L: Links, smallmap: binmap, treemap: binmap, treebins: seq<int>, sb: seq<seq<int>>, tb: seq<Tree>,
                 cs: Chunks, excl: set<int>)
    requires BinsOk(L, smallmap, treemap, treebins, sb, tb, cs, excl)
    requires forall a | a in cs :: cs[a].used || a in excl
    ensures forall i | 0 <= i < 32 :: sb[i] == [] && tb[i] == Nil && !Marked(smallmap, i) &&
                                !Marked(treemap, i) && treebins[i] == 0
    ensures smallmap == 0 && treemap == 0
  {
    forall i | 0 <= i < 32
      ensures sb[i] == [] && tb[i] == Nil && !Marked(smallmap, i) && !Marked(treemap, i) && treebins[i] == 0
    {
      assert SmallBinOk(L, Marked(smallmap, i), sb[i], i);
      assert TreeBinOk(L, Marked(treemap, i), treebins[i], tb[i], i);
      if sb[i] != [] { SmallApart(cs, excl, sb, tb, i, sb[i][0]); }
      if tb[i].Node? { HoldsRoot(cs, excl, sb, tb, i); }
    }
    ZeroMap(smallmap);
    ZeroMap(treemap);
  }

  lemma HoldsRoot(cs: Chunks, excl: set<int>, sb: seq<seq<int>>, tb: seq<Tree>, i: nat)
    requires Filed(cs, excl, sb, tb) && i < 32 && tb[i].Node? && tb[i].ring != []
    ensures Spare(cs, excl, tb[i].ring[0], tb[i].size)
  {
    assert Holds(tb[i], tb[i].ring[0], tb[i].size);
  }

  lemma AnyLinks(L: Links, M: Links, smallmap: binmap, treemap: binmap, treebins: seq<int>, sb: seq<seq<int>>,
                 tb: seq<Tree>)
    requires BinsOk(L, smallmap, treemap, treebins, sb, tb, map[], {})
    ensures BinsOk(M, smallmap, treemap, treebins, sb, tb, map[], {})
  {
    NoChunks(L, smallmap, treemap, treebins, sb, tb, map[], {});
    forall i | 0 <= i < 32
      ensures SmallBinOk(M, Marked(smallmap, i), sb[i], i)
      ensures TreeBinOk(M, Marked(treemap, i), treebins[i], tb[i], i)
    {
      assert SmallBinOk(L, Marked(smallmap, i), sb[i], i);
      assert TreeBinOk(L, Marked(treemap, i), treebins[i], tb[i], i);
    }
  }
}
