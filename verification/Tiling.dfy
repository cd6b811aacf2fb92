// Chunks that tile the heap segment, and the head and foot words that describe them.
module Tiling {
  import opened Rings
  import opened HeadWords

  datatype Chunk = Chunk(size: int, used: bool)
  type Chunks = map<int, Chunk>

  function Next(cs: Chunks, a: int): int
    requires a in cs
  {
    a + cs[a].size
  }

  // The chunks lie back to back from base up to top.
  ghost predicate Tiled(cs: Chunks, base: int, top: int) {
    && 0 < base <= top && (base in cs || base == top)
    && (forall a | a in cs :: base <= a < top && 16 <= cs[a].size)
    && (forall a {:trigger Next(cs, a)} | a in cs :: Next(cs, a) in cs || Next(cs, a) == top)
    && (forall a, b {:trigger Next(cs, a), b in cs} | a in cs && b in cs && a < b :: Next(cs, a) <= b)
    && (forall a {:trigger Next(cs, a)} | a in cs :: Next(cs, a) <= top)
  }

  predicate Multiple8(x: int) {
    x % 8 == 0
  }

  // Chunks begin and end on double words.
  ghost predicate Aligned(cs: Chunks, base: int, top: int) {
    && Multiple8(base) && Multiple8(top)
    && (forall a | a in cs :: Multiple8(a) && Multiple8(cs[a].size))
  }

  // Two free chunks are never neighbours, and none borders top.
  ghost predicate Coalesced(cs: Chunks) {
    forall a {:trigger Next(cs, a)} | a in cs && !cs[a].used :: Next(cs, a) in cs && cs[Next(cs, a)].used
  }

  // The chunk that ends where p begins
  ghost predicate Precedes(cs: Chunks, q: int, p: int) {
    q in cs && Next(cs, q) == p
  }

  lemma HasPredecessor(cs: Chunks, base: int, top: int, p: int) returns (q: int)
    requires Tiled(cs, base, top) && (p in cs || p == top) && p != base
    ensures Precedes(cs, q, p)
  {
    assert p in cs ==> Next(cs, p) <= top;
    q := base;
    while Next(cs, q) != p
      invariant q in cs && q < p
      decreases p - q
    {
      assert Next(cs, q) <= p;
      q := Next(cs, q);
    }
  }

  function HeadAt(head: map<int, Head>, a: int): Head {
    if a in head then head[a] else Head(0, false, false)
  }

  // Head words hold each chunk's size and state, and the state of the chunk before; the word before
  // the successor of a free chunk holds its size.
  ghost predicate Tagged(head: map<int, Head>, foot: map<int, int>, cs: Chunks, base: int, top: int, topsize: int) {
    && (forall a | a in cs :: HeadAt(head, a).size == cs[a].size && HeadAt(head, a).cinuse == cs[a].used)
    && (forall a {:trigger Next(cs, a)} | a in cs :: HeadAt(head, Next(cs, a)).pinuse == cs[a].used)
    && (forall a {:trigger Next(cs, a)} | a in cs && !cs[a].used :: Rd(foot, Next(cs, a)) == cs[a].size)
    && HeadAt(head, base).pinuse
    && HeadAt(head, top).size == topsize && !HeadAt(head, top).cinuse
  }

  // A chunk that is free, or the top, follows a chunk in use.
  lemma FollowsUsed(head: map<int, Head>, foot: map<int, int>, cs: Chunks, base: int, top: int, topsize: int, p: int)
    requires Tiled(cs, base, top) && Coalesced(cs) && Tagged(head, foot, cs, base, top, topsize)
    requires (p in cs && !cs[p].used) || p == top
    ensures HeadAt(head, p).pinuse
  {
    if p != base {
      var q := HasPredecessor(cs, base, top, p);
    }
  }

  // The foot word leads back to the free predecessor.
  lemma BackStep(head: map<int, Head>, foot: map<int, int>, cs: Chunks, base: int, top: int, topsize: int, p: int)
    requires Tiled(cs, base, top) && Tagged(head, foot, cs, base, top, topsize)
    requires p in cs && !HeadAt(head, p).pinuse
    ensures var q := p - Rd(foot, p); Precedes(cs, q, p) && !cs[q].used
  {
    var q := HasPredecessor(cs, base, top, p);
  }

  /* ---- re-tiling a stretch of chunks ---- */

  // [q, e) is a run of whole chunks.
  ghost predicate Run(cs: Chunks, top: int, q: int, e: int) {
    q in cs && q < e && (e in cs || e == top)
  }

  // cs and cs' have the same chunks outside [q, e).
  ghost predicate SameOutside(cs: Chunks, cs': Chunks, q: int, e: int) {
    forall a | a < q || e <= a :: (a in cs' <==> a in cs) && (a in cs ==> cs'[a] == cs[a])
  }

  ghost predicate BecomesOne(cs: Chunks, cs': Chunks, q: int, e: int, used: bool) {
    && SameOutside(cs, cs', q, e)
    && q in cs' && cs'[q] == Chunk(e - q, used)
    && (forall a | q < a < e :: a !in cs')
  }

  ghost predicate BecomesTwo(cs: Chunks, cs': Chunks, q: int, m: int, e: int, used: bool, used': bool) {
    && SameOutside(cs, cs', q, e)
    && q in cs' && cs'[q] == Chunk(m - q, used)
    && m in cs' && cs'[m] == Chunk(e - m, used')
    && (forall a | q < a < e && a != m :: a !in cs')
  }

  lemma OneChunk(cs: Chunks, cs': Chunks, base: int, top: int, q: int, e: int, used: bool)
    requires Tiled(cs, base, top) && Run(cs, top, q, e) && 16 <= e - q
    requires BecomesOne(cs, cs', q, e, used)
    ensures Tiled(cs', base, top)
  {
    assert e <= top by { if e in cs { assert Next(cs, e) <= top; } }
    forall a {:trigger Next(cs', a)} | a in cs'
      ensures Next(cs', a) <= top && (Next(cs', a) in cs' || Next(cs', a) == top)
      ensures forall b | b in cs' && a < b :: Next(cs', a) <= b
    {
      if a != q {
        assert a in cs && Next(cs', a) == Next(cs, a);
        if a < q { assert Next(cs, a) <= q; }
      }
    }
  }

  lemma TwoChunks(cs: Chunks, cs': Chunks, base: int, top: int, q: int, m: int, e: int, used: bool, used': bool)
    requires Tiled(cs, base, top) && Run(cs, top, q, e) && 16 <= m - q && 16 <= e - m
    requires BecomesTwo(cs, cs', q, m, e, used, used')
    ensures Tiled(cs', base, top)
  {
    assert e <= top by { if e in cs { assert Next(cs, e) <= top; } }
    forall a {:trigger Next(cs', a)} | a in cs'
      ensures Next(cs', a) <= top && (Next(cs', a) in cs' || Next(cs', a) == top)
      ensures forall b | b in cs' && a < b :: Next(cs', a) <= b
    {
      if a != q && a != m {
        assert a in cs && Next(cs', a) == Next(cs, a);
        if a < q { assert Next(cs, a) <= q; }
      }
    }
  }

  // The chunks from q on join top.
  ghost predicate JoinsTop(cs: Chunks, cs': Chunks, q: int) {
    (forall a | a < q :: (a in cs' <==> a in cs) && (a in cs ==> cs'[a] == cs[a])) && (forall a | q <= a :: a !in cs')
  }

  lemma TopDown(cs: Chunks, cs': Chunks, base: int, top: int, q: int)
    requires Tiled(cs, base, top) && q in cs && JoinsTop(cs, cs', q)
    ensures Tiled(cs', base, q)
  {
    assert Next(cs, q) <= top;
    forall a {:trigger Next(cs', a)} | a in cs'
      ensures Next(cs', a) <= q && (Next(cs', a) in cs' || Next(cs', a) == q)
      ensures forall b | b in cs' && a < b :: Next(cs', a) <= b
    {
      assert a in cs && Next(cs', a) == Next(cs, a);
      assert Next(cs, a) <= q;
    }
  }

  // A chunk is split off the bottom of top.
  lemma TopUp(cs: Chunks, base: int, top: int, size: int, used: bool)
    requires Tiled(cs, base, top) && 16 <= size
    ensures Tiled(cs[top := Chunk(size, used)], base, top + size)
    ensures top !in cs
  {
    var cs' := cs[top := Chunk(size, used)];
    forall a {:trigger Next(cs', a)} | a in cs'
      ensures Next(cs', a) <= top + size && (Next(cs', a) in cs' || Next(cs', a) == top + size)
      ensures forall b | b in cs' && a < b :: Next(cs', a) <= b
    {
      if a != top {
        assert a in cs && Next(cs', a) == Next(cs, a);
        assert Next(cs, a) <= top;
      }
    }
  }

  // Head and foot words are as before but for those of the stretch [q, e].
  ghost predicate TagsOutside(head: map<int, Head>, foot: map<int, int>, head': map<int, Head>, foot': map<int, int>,
                              q: int, e: int) {
    && (forall a | a < q || e < a :: HeadAt(head', a) == HeadAt(head, a))
    && (forall a | a <= q || e < a :: Rd(foot', a) == Rd(foot, a))
  }

  lemma OneChunkTags(head: map<int, Head>, foot: map<int, int>, cs: Chunks, base: int, top: int, topsize: int,
                     q: int, e: int, used: bool, head': map<int, Head>, foot': map<int, int>, cs': Chunks)
    requires Tiled(cs, base, top) && Tagged(head, foot, cs, base, top, topsize)
    requires Run(cs, top, q, e) && 16 <= e - q && BecomesOne(cs, cs', q, e, used)
    requires TagsOutside(head, foot, head', foot', q, e)
    requires HeadAt(head', q) == Head(e - q, HeadAt(head, q).pinuse, used)
    requires HeadAt(head', e) == HeadAt(head, e).(pinuse := used)
    requires !used ==> Rd(foot', e) == e - q
    ensures Tagged(head', foot', cs', base, top, topsize)
  {
    assert e <= top by { if e in cs { assert Next(cs, e) <= top; } }
    forall a {:trigger Next(cs', a)} | a in cs'
      ensures HeadAt(head', Next(cs', a)).pinuse == cs'[a].used
      ensures !cs'[a].used ==> Rd(foot', Next(cs', a)) == cs'[a].size
    {
      if a != q {
        assert a in cs && Next(cs', a) == Next(cs, a);
        if a < q { assert Next(cs, a) <= q; }
      }
    }
  }

  lemma TwoChunksTags(head: map<int, Head>, foot: map<int, int>, cs: Chunks, base: int, top: int, topsize: int,
                      q: int, m: int, e: int, used: bool, used': bool,
                      head': map<int, Head>, foot': map<int, int>, cs': Chunks)
    requires Tiled(cs, base, top) && Tagged(head, foot, cs, base, top, topsize)
    requires Run(cs, top, q, e) && 16 <= m - q && 16 <= e - m && BecomesTwo(cs, cs', q, m, e, used, used')
    requires TagsOutside(head, foot, head', foot', q, e)
    requires HeadAt(head', q) == Head(m - q, HeadAt(head, q).pinuse, used)
    requires HeadAt(head', m) == Head(e - m, used, used')
    requires HeadAt(head', e) == HeadAt(head, e).(pinuse := used')
    requires (!used ==> Rd(foot', m) == m - q) && (!used' ==> Rd(foot', e) == e - m)
    ensures Tagged(head', foot', cs', base, top, topsize)
  {
    assert e <= top by { if e in cs { assert Next(cs, e) <= top; } }
    forall a {:trigger Next(cs', a)} | a in cs'
      ensures HeadAt(head', Next(cs', a)).pinuse == cs'[a].used
      ensures !cs'[a].used ==> Rd(foot', Next(cs', a)) == cs'[a].size
    {
      if a != q && a != m {
        assert a in cs && Next(cs', a) == Next(cs, a);
        if a < q { assert Next(cs, a) <= q; }
      }
    }
  }

  lemma TopDownTags(head: map<int, Head>, foot: map<int, int>, cs: Chunks, base: int, top: int, topsize: int,
                    q: int, topsize': int, head': map<int, Head>, cs': Chunks)
    requires Tiled(cs, base, top) && Tagged(head, foot, cs, base, top, topsize)
    requires q in cs && JoinsTop(cs, cs', q)
    requires forall a | a < q :: HeadAt(head', a) == HeadAt(head, a)
    requires HeadAt(head', q) == Head(topsize', HeadAt(head, q).pinuse, false)
    ensures Tagged(head', foot, cs', base, q, topsize')
  {
    forall a {:trigger Next(cs', a)} | a in cs'
      ensures HeadAt(head', Next(cs', a)).pinuse == cs'[a].used
      ensures !cs'[a].used ==> Rd(foot, Next(cs', a)) == cs'[a].size
    {
      assert a in cs && Next(cs', a) == Next(cs, a);
      assert Next(cs, a) <= q;
    }
  }

  lemma TopUpTags(head: map<int, Head>, foot: map<int, int>, cs: Chunks, base: int, top: int, topsize: int,
                  size: int, topsize': int, head': map<int, Head>)
    requires Tiled(cs, base, top) && Tagged(head, foot, cs, base, top, topsize) && 16 <= size
    requires forall a | a < top :: HeadAt(head', a) == HeadAt(head, a)
    requires HeadAt(head', top) == Head(size, HeadAt(head, top).pinuse, true)
    requires HeadAt(head', top + size) == Head(topsize', true, false)
    ensures Tagged(head', foot, cs[top := Chunk(size, true)], base, top + size, topsize')
  {
    var cs' := cs[top := Chunk(size, true)];
    forall a {:trigger Next(cs', a)} | a in cs'
      ensures HeadAt(head', Next(cs', a)).pinuse == cs'[a].used
      ensures !cs'[a].used ==> Rd(foot, Next(cs', a)) == cs'[a].size
    {
      if a != top {
        assert a in cs && Next(cs', a) == Next(cs, a);
        assert Next(cs, a) <= top;
      }
    }
  }

  /* ---- what tiling gives ---- */

  // The bytes that a live block may use: from behind the head word to the next chunk's head word
  ghost predicate InPayload(cs: Chunks, a: int, x: int) {
    a in cs && cs[a].used && a + 8 <= x < Next(cs, a) + 4
  }

  // Live blocks do not overlap.
  lemma PayloadsDisjoint(cs: Chunks, base: int, top: int, a: int, b: int, x: int)
    requires Tiled(cs, base, top) && InPayload(cs, a, x) && InPayload(cs, b, x)
    ensures a == b
  {
    assert Next(cs, a) <= b || Next(cs, b) <= a || a == b;
  }

  lemma SomeUsed(cs: Chunks, base: int, top: int) returns (a: int)
    requires Tiled(cs, base, top) && Coalesced(cs) && base in cs
    ensures a in cs && cs[a].used
  {
    a := base;
    if !cs[a].used { a := Next(cs, a); }
  }

  // With every block freed nothing is left but top.
  lemma AllFree(cs: Chunks, base: int, top: int)
    requires Tiled(cs, base, top) && Coalesced(cs)
    requires forall a | a in cs :: !cs[a].used
    ensures cs == map[] && base == top
  {
    if base in cs {
      var a := SomeUsed(cs, base, top);
    } else {
      assert forall a :: a !in cs;
    }
  }
}
