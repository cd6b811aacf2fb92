// What freeing does to the chunks: a block in use and its free neighbours become one free chunk, or
// join top.
module Merging {
  import opened BinMap
  import opened Rings
  import opened HeadWords
  import opened Trie
  import opened Tiling
  import opened Bins
  import opened Heap
  import opened Policy

  ghost function Merged(cs: Chunks, q: int, e: int): Chunks {
    (map a | a in cs && !(q <= a < e) :: cs[a])[q := Chunk(e - q, false)]
  }

  ghost function Lower(cs: Chunks, q: int): Chunks {
    map a | a in cs && a < q :: cs[a]
  }

  // [q, e) is made of the block p, which is being freed, and of free chunks that are in no bin.
  ghost predicate Freeing(cs: Chunks, excl: set<int>, p: int, q: int, e: int) {
    && p in cs && cs[p].used && q in cs && q <= p < e && p !in excl
    && forall a | a in cs && q <= a < e :: a == p || (!cs[a].used && a in excl)
  }

  lemma MergedFrees(cs: Chunks, excl: set<int>, p: int, q: int, e: int)
    requires Freeing(cs, excl, p, q, e)
    ensures Frees(cs, Merged(cs, q, e), p)
    ensures BecomesOne(cs, Merged(cs, q, e), q, e, false)
  {
  }

  lemma LowerFrees(cs: Chunks, excl: set<int>, top: int, p: int, q: int)
    requires Freeing(cs, excl, p, q, top) && forall a | a in cs :: a < top
    ensures Frees(cs, Lower(cs, q), p)
    ensures JoinsTop(cs, Lower(cs, q), q)
  {
  }

  // Both agree on the blocks in use.
  ghost predicate SameBlocks(cs: Chunks, cs': Chunks) {
    forall a, z {:trigger Live(cs', a, z)} {:trigger Live(cs, a, z)} :: Live(cs', a, z) <==> Live(cs, a, z)
  }

  // Where chunks begin in both, they are the same.
  lemma SameChunk(cs: Chunks, cs': Chunks, base: int, top: int, top': int, a: int)
    requires Tiled(cs, base, top) && Coalesced(cs) && Tiled(cs', base, top') && Coalesced(cs') && SameBlocks(cs, cs')
    requires a in cs && (a in cs' || a == top')
    ensures a in cs' && cs'[a] == cs[a]
  {
    if cs[a].used {
      assert Live(cs, a, cs[a].size);
      assert Live(cs', a, cs[a].size);
    } else {
      var n := Next(cs, a);
      assert Live(cs, n, cs[n].size);
      assert Live(cs', n, cs[n].size);
      assert n < top';
      assert Live(cs', a, cs'[a].size) <==> Live(cs, a, cs'[a].size);
      if !cs'[a].used {
        var n' := Next(cs', a);
        assert Live(cs', n', cs'[n'].size);
        assert Live(cs, n', cs'[n'].size);
        assert n <= n' && n' <= n;
      }
    }
  }

  // Of chunks of which no two free ones are neighbours and none is next to top, the blocks in use tell the
  // others, and top.
  lemma BlocksTell(cs: Chunks, cs': Chunks, base: int, top: int, top': int)
    requires Tiled(cs, base, top) && Coalesced(cs) && Tiled(cs', base, top') && Coalesced(cs') && SameBlocks(cs, cs')
    ensures cs' == cs && top' == top
  {
    var a := base;
    while a != top && a != top'
      invariant (a in cs || a == top) && (a in cs' || a == top') && a <= top
      invariant forall b | b < a :: (b in cs <==> b in cs') && (b in cs ==> cs'[b] == cs[b])
      decreases top - a
    {
      SameChunk(cs, cs', base, top, top', a);
      assert Next(cs, a) == Next(cs', a);
      a := Next(cs, a);
    }
    if a != top { SameChunk(cs, cs', base, top, top', a); }
    if a != top' { SameChunk(cs', cs, base, top', top, a); }
  }

  // The chunk that contains dv
  lemma DvTells(v: View, v': View, v'': View, start: int)
    requires InOrder(v, start) && InOrder(v', start) && InOrder(v'', start) && v.top != 0 && v'.top != 0
    requires DvKept(v, v') && DvKept(v, v'') && v'.cs == v''.cs && v'.top == v''.top
    ensures v'.dv == v''.dv && v'.dvsize == v''.dvsize
  {
    if v'.dvsize != 0 { assert Next(v'.cs, v'.dv) <= v'.top; }
    if v''.dvsize != 0 { assert Next(v''.cs, v''.dv) <= v''.top; }
    if v.dvsize != 0 { assert v.dv < Next(v.cs, v.dv); }
  }

  // What freeing a block leaves is thereby determined: there is only one state in order that it can be.
  lemma FreedTells(v: View, start: int, p: int, v': View, v'': View)
    requires InOrder(v, start) && InOrder(v', start) && InOrder(v'', start) && p in v.cs && v.cs[p].used
    requires Freed(v, v', p) && Freed(v, v'', p)
    ensures v' == v''
  {
    assert SameBlocks(v'.cs, v''.cs) by {
      forall a, z
        ensures Live(v''.cs, a, z) <==> Live(v'.cs, a, z)
      {
        assert Live(v'.cs, a, z) <==> Live(v.cs, a, z) && a != p;
        assert Live(v''.cs, a, z) <==> Live(v.cs, a, z) && a != p;
      }
    }
    BlocksTell(v'.cs, v''.cs, start, v'.top, v''.top);
    DvTells(v, v', v'', start);
  }

  // The bins are not concerned, if what they do not hold is adapted.
  lemma MergedBins(L: Links, smallmap: binmap, treemap: binmap, treebins: seq<int>, sb: seq<seq<int>>, tb: seq<Tree>,
                   cs: Chunks, excl: set<int>, excl': set<int>, p: int, q: int, e: int)
    requires BinsOk(L, smallmap, treemap, treebins, sb, tb, cs, excl) && Freeing(cs, excl, p, q, e)
    requires q in excl' && forall a | a < q || e <= a :: a in excl' <==> a in excl
    ensures BinsOk(L, smallmap, treemap, treebins, sb, tb, Merged(cs, q, e), excl')
  {
    Refile(cs, excl, Merged(cs, q, e), excl', sb, tb);
  }

  lemma LowerBins(L: Links, smallmap: binmap, treemap: binmap, treebins: seq<int>, sb: seq<seq<int>>, tb: seq<Tree>,
                  cs: Chunks, excl: set<int>, excl': set<int>, top: int, p: int, q: int)
    requires BinsOk(L, smallmap, treemap, treebins, sb, tb, cs, excl) && Freeing(cs, excl, p, q, top)
    requires forall a | a in cs :: a < top
    requires forall a | a < q :: a in excl' <==> a in excl
    ensures BinsOk(L, smallmap, treemap, treebins, sb, tb, Lower(cs, q), excl')
  {
    Refile(cs, excl, Lower(cs, q), excl', sb, tb);
  }

  // The heap after [q, e) has become one free chunk, and the bins for what they hold now
  lemma MergeOk(head: map<int, Head>, foot: map<int, int>, cs: Chunks, base: int, top: int, topsize: int,
                excl: set<int>, p: int, q: int, e: int, head': map<int, Head>, foot': map<int, int>)
    requires HeapOk(head, foot, cs, base, top, topsize) && Freeing(cs, excl, p, q, e) && HeadAt(head, q).pinuse
    requires e in cs && cs[e].used && 16 <= e - q
    requires head' == head[e := HeadAt(head, e).(pinuse := false)][q := Head(e - q, true, false)]
    requires foot' == foot[e := e - q]
    ensures HeapOk(head', foot', Merged(cs, q, e), base, top, topsize)
  {
    HeapOpen(head, foot, cs, base, top, topsize);
    MergedFrees(cs, excl, p, q, e);
    FreeRun(head, foot, cs, base, top, topsize, q, e, head', foot', Merged(cs, q, e));
  }
}
