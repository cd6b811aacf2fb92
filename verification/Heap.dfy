// The heap as a whole: what head words, foot words and chunks have in common between two calls, and
// how the allocator's steps on them keep it.
module Heap {
  import opened Rings
  import opened HeadWords
  import opened Tiling

  const TOP_FOOT_SIZE: int := 40

  ghost predicate HeapIs(head: map<int, Head>, foot: map<int, int>, cs: Chunks, base: int, top: int, topsize: int) {
    && Tiled(cs, base, top) && Aligned(cs, base, top) && Coalesced(cs)
    && Tagged(head, foot, cs, base, top, topsize)
    && 0 < topsize && Multiple8(topsize)
    && HeadAt(head, top + topsize) == Head(TOP_FOOT_SIZE, false, false)
  }

  // The same, as a fact that is looked into only where HeapOpen is called
  ghost predicate HeapOk(head: map<int, Head>, foot: map<int, int>, cs: Chunks, base: int, top: int, topsize: int) {
    && 0 < base <= top && 0 < topsize && Multiple8(base) && Multiple8(top) && Multiple8(topsize)
    && forall k {:trigger HeapPart(k, head, foot, cs, base, top, topsize)} | k == 0 ::
      HeapPart(k, head, foot, cs, base, top, topsize)
  }

  ghost predicate HeapPart(k: nat, head: map<int, Head>, foot: map<int, int>, cs: Chunks, base: int, top: int,
                           topsize: int) {
    k == 0 ==> HeapIs(head, foot, cs, base, top, topsize)
  }

  lemma HeapOpen(head: map<int, Head>, foot: map<int, int>, cs: Chunks, base: int, top: int, topsize: int)
    requires HeapOk(head, foot, cs, base, top, topsize)
    ensures HeapIs(head, foot, cs, base, top, topsize)
  {
    assert HeapPart(0, head, foot, cs, base, top, topsize);
  }

  lemma Multiple8Sum(x: int, y: int)
    requires Multiple8(x) && Multiple8(y)
    ensures Multiple8(x + y) && Multiple8(x - y)
  {
  }

  // Where no chunk becomes free, and those in use stay, free chunks stay apart.
  lemma StillCoalesced(cs: Chunks, cs': Chunks)
    requires Coalesced(cs)
    requires forall a | a in cs' && !cs'[a].used :: a in cs && cs[a] == cs'[a]
    requires forall a | a in cs && cs[a].used :: a in cs' && cs'[a].used
    ensures Coalesced(cs')
  {
    forall a {:trigger Next(cs', a)} | a in cs' && !cs'[a].used
      ensures Next(cs', a) in cs' && cs'[Next(cs', a)].used
    {
      assert Next(cs', a) == Next(cs, a);
    }
  }

  // A free chunk, given out whole
  lemma TakeWhole(head: map<int, Head>, foot: map<int, int>, cs: Chunks, base: int, top: int, topsize: int,
                  p: int, head': map<int, Head>)
    requires HeapOk(head, foot, cs, base, top, topsize) && p in cs && !cs[p].used
    requires var e := Next(cs, p);
             e in cs && head' == head[p := Head(cs[p].size, true, true)][e := HeadAt(head, e).(pinuse := true)]
    ensures HeapOk(head', foot, cs[p := Chunk(cs[p].size, true)], base, top, topsize)
  {
    HeapOpen(head, foot, cs, base, top, topsize);
    var e, cs' := Next(cs, p), cs[p := Chunk(cs[p].size, true)];
    FollowsUsed(head, foot, cs, base, top, topsize, p);
    assert Next(cs, e) <= top;
    assert forall a | p < a < e :: a !in cs;
    OneChunk(cs, cs', base, top, p, e, true);
    OneChunkTags(head, foot, cs, base, top, topsize, p, e, true, head', foot, cs');
    StillCoalesced(cs, cs');
  }

  lemma SplitCoalesced(cs: Chunks, base: int, top: int, p: int, nb: int)
    requires Tiled(cs, base, top) && Coalesced(cs) && p in cs && !cs[p].used && 16 <= nb <= cs[p].size - 16
    ensures p + nb !in cs
    ensures Coalesced(cs[p := Chunk(nb, true)][p + nb := Chunk(cs[p].size - nb, false)])
  {
    var m := p + nb;
    var cs' := cs[p := Chunk(nb, true)][m := Chunk(cs[p].size - nb, false)];
    assert Next(cs, p) in cs;
    forall a {:trigger Next(cs', a)} | a in cs' && !cs'[a].used
      ensures Next(cs', a) in cs' && cs'[Next(cs', a)].used
    {
      if a != m { assert Next(cs', a) == Next(cs, a); }
    }
  }

  // A free chunk, of which the first part is given out
  lemma TakeFirst(head: map<int, Head>, foot: map<int, int>, cs: Chunks, base: int, top: int, topsize: int,
                  p: int, nb: int, head': map<int, Head>, foot': map<int, int>)
    requires HeapOk(head, foot, cs, base, top, topsize) && p in cs && !cs[p].used
    requires 16 <= nb <= cs[p].size - 16 && Multiple8(nb)
    requires head' == head[p := Head(nb, true, true)][p + nb := Head(cs[p].size - nb, true, false)]
    requires foot' == foot[Next(cs, p) := cs[p].size - nb]
    ensures HeapOk(head', foot', cs[p := Chunk(nb, true)][p + nb := Chunk(cs[p].size - nb, false)], base, top, topsize)
    ensures p + nb !in cs
  {
    HeapOpen(head, foot, cs, base, top, topsize);
    var e, m, rest := Next(cs, p), p + nb, cs[p].size - nb;
    var cs' := cs[p := Chunk(nb, true)][m := Chunk(rest, false)];
    FollowsUsed(head, foot, cs, base, top, topsize, p);
    SplitCoalesced(cs, base, top, p, nb);
    assert e in cs && Next(cs, e) <= top;
    TwoChunks(cs, cs', base, top, p, m, e, true, false);
    TwoChunksTags(head, foot, cs, base, top, topsize, p, m, e, true, false, head', foot', cs');
    Multiple8Sum(p, nb);
    Multiple8Sum(cs[p].size, nb);
  }

  // The bottom of top, given out
  lemma TakeTop(head: map<int, Head>, foot: map<int, int>, cs: Chunks, base: int, top: int, topsize: int,
                nb: int, head': map<int, Head>)
    requires HeapOk(head, foot, cs, base, top, topsize) && 16 <= nb < topsize && Multiple8(nb)
    requires head' == head[top + nb := Head(topsize - nb, true, false)][top := Head(nb, true, true)]
    ensures HeapOk(head', foot, cs[top := Chunk(nb, true)], base, top + nb, topsize - nb)
    ensures top !in cs
  {
    HeapOpen(head, foot, cs, base, top, topsize);
    var cs' := cs[top := Chunk(nb, true)];
    FollowsUsed(head, foot, cs, base, top, topsize, top);
    TopUp(cs, base, top, nb, true);
    TopUpTags(head, foot, cs, base, top, topsize, nb, topsize - nb, head');
    Multiple8Sum(top, nb);
    Multiple8Sum(topsize, nb);
    StillCoalesced(cs, cs');
  }

  // The stretch [q, e) between chunks in use becomes one free chunk.
  lemma FreeRun(head: map<int, Head>, foot: map<int, int>, cs: Chunks, base: int, top: int, topsize: int,
                q: int, e: int, head': map<int, Head>, foot': map<int, int>, cs': Chunks)
    requires HeapOk(head, foot, cs, base, top, topsize)
    requires q in cs && HeadAt(head, q).pinuse && q < e && e in cs && cs[e].used && 16 <= e - q
    requires BecomesOne(cs, cs', q, e, false)
    requires TagsOutside(head, foot, head', foot', q, e)
    requires HeadAt(head', q) == Head(e - q, true, false) && HeadAt(head', e) == HeadAt(head, e).(pinuse := false)
    requires Rd(foot', e) == e - q
    ensures HeapOk(head', foot', cs', base, top, topsize)
  {
    HeapOpen(head, foot, cs, base, top, topsize);
    OneChunk(cs, cs', base, top, q, e, false);
    OneChunkTags(head, foot, cs, base, top, topsize, q, e, false, head', foot', cs');
    assert Next(cs, e) <= top;
    Multiple8Sum(e, q);
    forall a {:trigger Next(cs', a)} | a in cs' && !cs'[a].used
      ensures Next(cs', a) in cs' && cs'[Next(cs', a)].used
    {
      if a != q {
        assert Next(cs', a) == Next(cs, a);
        if a < q { assert Next(cs, a) <= q; }
      }
    }
  }

  // The chunks from q on join top.
  lemma JoinTop(head: map<int, Head>, foot: map<int, int>, cs: Chunks, base: int, top: int, topsize: int,
                q: int, head': map<int, Head>, cs': Chunks)
    requires HeapOk(head, foot, cs, base, top, topsize)
    requires q in cs && HeadAt(head, q).pinuse && JoinsTop(cs, cs', q)
    requires head' == head[q := Head(top + topsize - q, true, false)]
    ensures HeapOk(head', foot, cs', base, q, top + topsize - q)
  {
    HeapOpen(head, foot, cs, base, top, topsize);
    assert Next(cs, q) <= top;
    TopDown(cs, cs', base, top, q);
    TopDownTags(head, foot, cs, base, top, topsize, q, top + topsize - q, head', cs');
    Multiple8Sum(top, topsize);
    Multiple8Sum(top + topsize, q);
    forall a {:trigger Next(cs', a)} | a in cs' && !cs'[a].used
      ensures Next(cs', a) in cs' && cs'[Next(cs', a)].used
    {
      assert Next(cs', a) == Next(cs, a);
      assert Next(cs, a) <= q;
    }
  }

  // The segment grows at its end.
  lemma GrowTop(head: map<int, Head>, foot: map<int, int>, cs: Chunks, base: int, top: int, topsize: int,
                more: int, head': map<int, Head>)
    requires HeapOk(head, foot, cs, base, top, topsize) && 0 <= more && Multiple8(more)
    requires var z := topsize + more;
             head' == head[top := Head(z, true, false)][top + z := Head(TOP_FOOT_SIZE, false, false)]
    ensures HeapOk(head', foot, cs, base, top, topsize + more)
  {
    HeapOpen(head, foot, cs, base, top, topsize);
    Multiple8Sum(topsize, more);
    FollowsUsed(head, foot, cs, base, top, topsize, top);
    forall a {:trigger Next(cs, a)} | a in cs
      ensures HeadAt(head', Next(cs, a)).pinuse == cs[a].used
    {
    }
  }

  // The first segment holds nothing but top.
  lemma NewHeap(head: map<int, Head>, foot: map<int, int>, base: int, topsize: int, head': map<int, Head>)
    requires 0 < base && Multiple8(base) && 0 < topsize && Multiple8(topsize)
    requires head' == head[base := Head(topsize, true, false)][base + topsize := Head(TOP_FOOT_SIZE, false, false)]
    ensures HeapOk(head', foot, map[], base, base, topsize)
  {
  }
}
