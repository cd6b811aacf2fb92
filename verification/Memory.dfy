// One map per field stands for memory: the words in use do not overlap, what a client stores in its own
// blocks touches none of them, and what the allocator writes touches no block in use.
module Memory {
  import opened Words
  import opened BinIndex
  import opened BinMap
  import opened Rings
  import opened HeadWords
  import opened Trie
  import opened TrieLinks
  import opened Tiling
  import opened Bins
  import opened Heap
  import opened Policy

  datatype Field = Foot | HeadWord | Fd | Bk | Child0 | Child1 | Parent | Index

  // Offsets in struct malloc_chunk and struct malloc_tree_chunk
  function Offset(f: Field): int {
    match f
    case Foot => 0
    case HeadWord => 4
    case Fd => 8
    case Bk => 12
    case Child0 => 16
    case Child1 => 20
    case Parent => 24
    case Index => 28
  }

  // The allocator keeps information in field f of chunk c.
  ghost predicate Kept(cs: Chunks, base: int, top: int, f: Field, c: int) {
    match f
    case Foot => exists q {:trigger Next(cs, q)} :: q in cs && !cs[q].used && Next(cs, q) == c
    case HeadWord => c in cs || c == top
    case Fd => c in cs && !cs[c].used
    case Bk => c in cs && !cs[c].used
    case _ => c in cs && !cs[c].used && 256 <= cs[c].size
  }

  // A word that is kept lies in its chunk, or, for a foot word, at the end of the free chunk before.
  lemma KeptInside(cs: Chunks, base: int, top: int, f: Field, c: int) returns (d: int)
    requires Tiled(cs, base, top) && Aligned(cs, base, top) && Kept(cs, base, top, f, c)
    ensures d in cs || d == top
    ensures if f == Foot then d in cs && !cs[d].used && Next(cs, d) == c
            else d == c && (d in cs ==> c + Offset(f) < Next(cs, d))
    ensures f != HeadWord ==> d in cs && !cs[d].used
    ensures c % 8 == 0
  {
    if f == Foot {
      d :| d in cs && !cs[d].used && Next(cs, d) == c;
    } else {
      d := c;
    }
  }

  // No word serves two fields.
  lemma WordsApart(cs: Chunks, base: int, top: int, f: Field, c: int, g: Field, d: int)
    requires Tiled(cs, base, top) && Aligned(cs, base, top)
    requires Kept(cs, base, top, f, c) && Kept(cs, base, top, g, d) && c + Offset(f) == d + Offset(g)
    ensures f == g && c == d
  {
    var x := KeptInside(cs, base, top, f, c);
    var y := KeptInside(cs, base, top, g, d);
    assert x in cs ==> Next(cs, x) <= top;
    assert y in cs ==> Next(cs, y) <= top;
    if x in cs && y in cs && x != y {
      assert Next(cs, x) <= y || Next(cs, y) <= x;
    }
  }

  // No word that the allocator keeps belongs to a client.
  lemma ClientsApart(cs: Chunks, base: int, top: int, a: int, f: Field, c: int)
    requires Tiled(cs, base, top) && Aligned(cs, base, top) && Kept(cs, base, top, f, c) && a in cs && cs[a].used
    ensures !InPayload(cs, a, c + Offset(f))
  {
    var x := KeptInside(cs, base, top, f, c);
    assert Next(cs, a) <= top;
    if x in cs && x != a {
      assert Next(cs, x) <= a || Next(cs, a) <= x;
    }
  }

  // Memory, field by field
  datatype Image = Image(head: map<int, Head>, foot: map<int, int>, links: Links)

  // Whatever field is read from address x, it is the same.
  ghost predicate SameWord(m: Image, m': Image, x: int) {
    && HeadAt(m'.head, x - 4) == HeadAt(m.head, x - 4) && Rd(m'.foot, x) == Rd(m.foot, x)
    && Rd(m'.links.fd, x - 8) == Rd(m.links.fd, x - 8) && Rd(m'.links.bk, x - 12) == Rd(m.links.bk, x - 12)
    && Rd(m'.links.child0, x - 16) == Rd(m.links.child0, x - 16)
    && Rd(m'.links.child1, x - 20) == Rd(m.links.child1, x - 20)
    && Rd(m'.links.parent, x - 24) == Rd(m.links.parent, x - 24)
    && Rd(m'.links.index, x - 28) == Rd(m.links.index, x - 28)
  }

  /* ---- what clients store ---- */

  // A client has written to words of its block a, and nothing else has happened.
  ghost predicate Stored(cs: Chunks, a: int, m: Image, m': Image) {
    forall x {:trigger SameWord(m, m', x)} | !InPayload(cs, a, x) :: SameWord(m, m', x)
  }

  // The word w at address x, as every field reads it
  function WithWord(m: Image, x: int, w: int): Image {
    var L := m.links;
    Image(m.head[x - 4 := OfWord(w)], m.foot[x := w],
          Links(L.fd[x - 8 := w], L.bk[x - 12 := w], L.child0[x - 16 := w], L.child1[x - 20 := w],
                L.parent[x - 24 := w], L.index[x - 28 := w]))
  }

  lemma WordStored(cs: Chunks, a: int, x: int, w: int, m: Image)
    requires InPayload(cs, a, x)
    ensures Stored(cs, a, m, WithWord(m, x, w))
  {
  }

  lemma HeapSurvives(cs: Chunks, base: int, top: int, topsize: int, a: int, m: Image, m': Image)
    requires HeapOk(m.head, m.foot, cs, base, top, topsize) && a in cs && cs[a].used && Stored(cs, a, m, m')
    ensures HeapOk(m'.head, m'.foot, cs, base, top, topsize)
  {
    HeapOpen(m.head, m.foot, cs, base, top, topsize);
    assert Next(cs, a) <= top;
    forall c | c in cs || c == top
      ensures HeadAt(m'.head, c) == HeadAt(m.head, c)
    {
      ClientsApart(cs, base, top, a, HeadWord, c);
      assert SameWord(m, m', c + 4);
    }
    assert SameWord(m, m', top + topsize + 4);
    forall q {:trigger Next(cs, q)} | q in cs
      ensures HeadAt(m'.head, Next(cs, q)) == HeadAt(m.head, Next(cs, q))
      ensures !cs[q].used ==> Rd(m'.foot, Next(cs, q)) == Rd(m.foot, Next(cs, q))
    {
      if !cs[q].used {
        ClientsApart(cs, base, top, a, Foot, Next(cs, q));
        assert SameWord(m, m', Next(cs, q));
      }
    }
  }

  lemma FreeLinksSurvive(cs: Chunks, base: int, top: int, a: int, m: Image, m': Image, c: int)
    requires Tiled(cs, base, top) && Aligned(cs, base, top) && a in cs && cs[a].used
    requires Stored(cs, a, m, m') && c in cs && !cs[c].used
    ensures SameRing(m.links, m'.links, c)
    ensures 256 <= cs[c].size ==>
              SameAt(m.links, m'.links, c) && Rd(m'.links.index, c) == Rd(m.links.index, c)
  {
    ClientsApart(cs, base, top, a, Fd, c);
    ClientsApart(cs, base, top, a, Bk, c);
    assert SameWord(m, m', c + 8) && SameWord(m, m', c + 12);
    if 256 <= cs[c].size {
      ClientsApart(cs, base, top, a, Child0, c);
      ClientsApart(cs, base, top, a, Child1, c);
      ClientsApart(cs, base, top, a, Parent, c);
      ClientsApart(cs, base, top, a, Index, c);
      assert SameWord(m, m', c + 16) && SameWord(m, m', c + 20);
      assert SameWord(m, m', c + 24) && SameWord(m, m', c + 28);
    }
  }

  // The allocator's invariant withstands everything that clients store in their own blocks.
  lemma BinsSurvive(cs: Chunks, base: int, top: int, topsize: int, a: int, m: Image, m': Image,
                    smallmap: binmap, treemap: binmap, treebins: seq<int>, sb: seq<seq<int>>, tb: seq<Tree>,
                    excl: set<int>)
    requires HeapOk(m.head, m.foot, cs, base, top, topsize) && a in cs && cs[a].used && Stored(cs, a, m, m')
    requires BinsOk(m.links, smallmap, treemap, treebins, sb, tb, cs, excl)
    ensures BinsOk(m'.links, smallmap, treemap, treebins, sb, tb, cs, excl)
  {
    HeapOpen(m.head, m.foot, cs, base, top, topsize);
    forall i | 0 <= i < 32
      ensures SmallBinOk(m'.links, Marked(smallmap, i), sb[i], i)
    {
      assert SmallBinOk(m.links, Marked(smallmap, i), sb[i], i);
      forall c | c in sb[i] ensures SameRing(m.links, m'.links, c) {
        SmallApart(cs, excl, sb, tb, i, c);
        FreeLinksSurvive(cs, base, top, a, m, m', c);
      }
      assert SameWord(m, m', SmallBinAt(i) + 8) && SameWord(m, m', SmallBinAt(i) + 12);
      SmallBinFrame(m.links, m'.links, Marked(smallmap, i), sb[i], i);
    }
    forall i | 0 <= i < 32
      ensures TreeBinOk(m'.links, Marked(treemap, i), treebins[i], tb[i], i)
    {
      assert TreeBinOk(m.links, Marked(treemap, i), treebins[i], tb[i], i);
      forall c | c in Addrs(tb[i])
        ensures SameAt(m.links, m'.links, c) && Rd(m'.links.index, c) == Rd(m.links.index, c)
      {
        TreeApart(cs, excl, sb, tb, i, c);
        FreeLinksSurvive(cs, base, top, a, m, m', c);
      }
      TreeBinFrame(m.links, m'.links, Marked(treemap, i), treebins[i], tb[i], i);
    }
  }

  /* ---- what the allocator writes ---- */

  // Address x belongs to some block in use.
  ghost predicate Client(cs: Chunks, x: int) {
    exists a {:trigger InPayload(cs, a, x)} :: InPayload(cs, a, x)
  }

  // No word of a block in use has changed.
  ghost predicate Spares(cs: Chunks, m: Image, m': Image) {
    forall x {:trigger SameWord(m, m', x)} | Client(cs, x) :: SameWord(m, m', x)
  }

  lemma SparesOn(cs: Chunks, m: Image, m': Image, m'': Image)
    requires Spares(cs, m, m') && Spares(cs, m', m'')
    ensures Spares(cs, m, m'')
  {
    forall x | Client(cs, x)
      ensures SameWord(m, m'', x)
    {
      assert SameWord(m, m', x) && SameWord(m', m'', x);
    }
  }

  // Whatever is in use in cs is so in cs'.
  ghost predicate Grows(cs: Chunks, cs': Chunks) {
    forall a, z {:trigger Live(cs', a, z)} {:trigger Live(cs, a, z)} :: Live(cs, a, z) ==> Live(cs', a, z)
  }

  lemma StillClient(cs: Chunks, cs': Chunks, x: int)
    requires Grows(cs, cs') && Client(cs, x)
    ensures Client(cs', x)
  {
    var a :| InPayload(cs, a, x);
    assert Live(cs, a, cs[a].size);
    assert InPayload(cs', a, x);
  }

  lemma SparesFewer(cs: Chunks, cs': Chunks, m: Image, m': Image)
    requires Grows(cs, cs') && Spares(cs', m, m')
    ensures Spares(cs, m, m')
  {
    forall x | Client(cs, x)
      ensures SameWord(m, m', x)
    {
      StillClient(cs, cs', x);
    }
  }

  // No word that belongs to a block in use both in cs and in cs' has changed.
  ghost predicate SparesBoth(cs: Chunks, cs': Chunks, m: Image, m': Image) {
    forall x {:trigger SameWord(m, m', x)} | Client(cs, x) && Client(cs', x) :: SameWord(m, m', x)
  }

  // Head words are written where chunks begin or in top, and foot words where free chunks end.
  ghost predicate TagsWritten(cs: Chunks, base: int, top: int, m: Image, m': Image) {
    && m'.links == m.links
    && (forall c {:trigger HeadAt(m'.head, c)} | HeadAt(m'.head, c) != HeadAt(m.head, c) :: c in cs || top <= c)
    && (forall c {:trigger Rd(m'.foot, c)} | Rd(m'.foot, c) != Rd(m.foot, c) :: Kept(cs, base, top, Foot, c))
  }

  lemma TagsSpared(cs: Chunks, base: int, top: int, topsize: int, m: Image, m': Image)
    requires HeapOk(m'.head, m'.foot, cs, base, top, topsize) && TagsWritten(cs, base, top, m, m')
    ensures Spares(cs, m, m')
  {
    HeapOpen(m'.head, m'.foot, cs, base, top, topsize);
    forall x | Client(cs, x)
      ensures SameWord(m, m', x)
    {
      var a :| InPayload(cs, a, x);
      assert Next(cs, a) <= top;
      if HeadAt(m'.head, x - 4) != HeadAt(m.head, x - 4) { ClientsApart(cs, base, top, a, HeadWord, x - 4); }
      if Rd(m'.foot, x) != Rd(m.foot, x) { ClientsApart(cs, base, top, a, Foot, x); }
    }
  }

  // Links are written in free chunks and in the headers of small bins.
  ghost predicate LinksKept(cs: Chunks, L: Links, M: Links) {
    forall c {:trigger LinksAt(cs, L, M, c)} :: LinksAt(cs, L, M, c)
  }

  ghost predicate LinksAt(cs: Chunks, L: Links, M: Links, c: int) {
    && (!(c in cs && !cs[c].used) && STATIC_END <= c + 28 ==> SameRing(L, M, c))
    && (!(c in cs && !cs[c].used && 256 <= cs[c].size) ==>
          SameLeft(L, M, c) && SameRight(L, M, c) && SameParent(L, M, c) && Rd(M.index, c) == Rd(L.index, c))
  }

  lemma LinksSpared(cs: Chunks, base: int, top: int, topsize: int, m: Image, M: Links)
    requires HeapOk(m.head, m.foot, cs, base, top, topsize) && STATIC_END <= base && LinksKept(cs, m.links, M)
    ensures Spares(cs, m, m.(links := M))
  {
    HeapOpen(m.head, m.foot, cs, base, top, topsize);
    forall x | Client(cs, x)
      ensures SameWord(m, m.(links := M), x)
    {
      var a :| InPayload(cs, a, x);
      RingSpared(cs, base, top, a, x, m.links, M);
      TreeLinksSpared(cs, base, top, a, x, m.links, M);
    }
  }

  lemma RingSpared(cs: Chunks, base: int, top: int, a: int, x: int, L: Links, M: Links)
    requires Tiled(cs, base, top) && Aligned(cs, base, top) && STATIC_END <= base && LinksKept(cs, L, M)
    requires InPayload(cs, a, x)
    ensures Rd(M.fd, x - 8) == Rd(L.fd, x - 8) && Rd(M.bk, x - 12) == Rd(L.bk, x - 12)
  {
    assert LinksAt(cs, L, M, x - 8) && LinksAt(cs, L, M, x - 12);
    if Rd(M.fd, x - 8) != Rd(L.fd, x - 8) { ClientsApart(cs, base, top, a, Fd, x - 8); }
    if Rd(M.bk, x - 12) != Rd(L.bk, x - 12) { ClientsApart(cs, base, top, a, Bk, x - 12); }
  }

  lemma TreeLinksSpared(cs: Chunks, base: int, top: int, a: int, x: int, L: Links, M: Links)
    requires Tiled(cs, base, top) && Aligned(cs, base, top) && LinksKept(cs, L, M) && InPayload(cs, a, x)
    ensures Rd(M.child0, x - 16) == Rd(L.child0, x - 16) && Rd(M.child1, x - 20) == Rd(L.child1, x - 20)
    ensures Rd(M.parent, x - 24) == Rd(L.parent, x - 24) && Rd(M.index, x - 28) == Rd(L.index, x - 28)
  {
    assert LinksAt(cs, L, M, x - 16) && LinksAt(cs, L, M, x - 20);
    assert LinksAt(cs, L, M, x - 24) && LinksAt(cs, L, M, x - 28);
    if Rd(M.child0, x - 16) != Rd(L.child0, x - 16) { ClientsApart(cs, base, top, a, Child0, x - 16); }
    if Rd(M.child1, x - 20) != Rd(L.child1, x - 20) { ClientsApart(cs, base, top, a, Child1, x - 20); }
    if Rd(M.parent, x - 24) != Rd(L.parent, x - 24) { ClientsApart(cs, base, top, a, Parent, x - 24); }
    if Rd(M.index, x - 28) != Rd(L.index, x - 28) { ClientsApart(cs, base, top, a, Index, x - 28); }
  }

  // A small bin's ring and chunk p have been touched.
  lemma RingKept(cs: Chunks, excl: set<int>, sb: seq<seq<int>>, tb: seq<Tree>, i: nat, p: int, L: Links, M: Links)
    requires Filed(cs, excl, sb, tb) && i < 32 && p in cs && !cs[p].used
    requires forall a | a !in sb[i] && a != p && a != SmallBinAt(i) :: SameRing(L, M, a)
    requires M == L.(fd := M.fd, bk := M.bk)
    ensures LinksKept(cs, L, M)
  {
    forall c
      ensures LinksAt(cs, L, M, c)
    {
      if c in sb[i] { SmallApart(cs, excl, sb, tb, i, c); }
    }
  }

  // A tree and chunk x have been touched.
  lemma TreeKept(cs: Chunks, excl: set<int>, sb: seq<seq<int>>, tb: seq<Tree>, i: nat, x: int, L: Links, M: Links)
    requires Filed(cs, excl, sb, tb) && i < 32 && x in cs && !cs[x].used && 256 <= cs[x].size
    requires forall z | HasSize(tb[i], z) :: 256 <= z < W32 && TreeBin(z) == i
    requires TouchedTree(L, M, tb[i], x)
    ensures LinksKept(cs, L, M)
  {
    forall c
      ensures LinksAt(cs, L, M, c)
    {
      if c in Addrs(tb[i]) { TreeApart(cs, excl, sb, tb, i, c); }
    }
  }

  /* ---- words that are to stay ---- */

  // The words in watch belong to blocks in use, and are what they were.
  ghost predicate Guarded(cs: Chunks, watch: iset<int>, was: Image, m: Image) {
    forall x {:trigger GuardedAt(cs, watch, was, m, x)} :: GuardedAt(cs, watch, was, m, x)
  }

  ghost predicate GuardedAt(cs: Chunks, watch: iset<int>, was: Image, m: Image, x: int) {
    x in watch ==> Client(cs, x) && SameWord(was, m, x)
  }

  lemma GuardedOn(cs: Chunks, watch: iset<int>, was: Image, m: Image, m': Image)
    requires Guarded(cs, watch, was, m) && Spares(cs, m, m')
    ensures Guarded(cs, watch, was, m')
  {
    forall x
      ensures GuardedAt(cs, watch, was, m', x)
    {
      assert GuardedAt(cs, watch, was, m, x);
      if x in watch { assert SameWord(m, m', x); }
    }
  }

  lemma GuardedGrown(cs: Chunks, cs': Chunks, watch: iset<int>, was: Image, m: Image)
    requires Guarded(cs, watch, was, m) && Grows(cs, cs')
    ensures Guarded(cs', watch, was, m)
  {
    forall x
      ensures GuardedAt(cs', watch, was, m, x)
    {
      assert GuardedAt(cs, watch, was, m, x);
      if x in watch { StillClient(cs, cs', x); }
    }
  }

  // Block p, which is being freed, is not watched.
  ghost predicate Unwatched(cs: Chunks, watch: iset<int>, p: int) {
    forall x {:trigger InPayload(cs, p, x)} | x in watch :: !InPayload(cs, p, x)
  }

  lemma GuardedFreed(cs: Chunks, cs': Chunks, watch: iset<int>, was: Image, m: Image, p: int)
    requires Guarded(cs, watch, was, m) && Frees(cs, cs', p) && Unwatched(cs, watch, p)
    ensures Guarded(cs', watch, was, m)
  {
    forall x
      ensures GuardedAt(cs', watch, was, m, x)
    {
      assert GuardedAt(cs, watch, was, m, x);
      if x in watch {
        var a :| InPayload(cs, a, x);
        assert a != p && Live(cs, a, cs[a].size);
        assert InPayload(cs', a, x);
      }
    }
  }

  // All words of blocks in use, and all but those of block p
  ghost function Clients(cs: Chunks): iset<int> {
    iset x | Client(cs, x)
  }

  ghost function ClientsBut(cs: Chunks, p: int): iset<int> {
    iset x | Client(cs, x) && !InPayload(cs, p, x)
  }

  lemma AllGuarded(cs: Chunks, watch: iset<int>, m: Image)
    requires watch <= Clients(cs)
    ensures Guarded(cs, watch, m, m)
  {
  }

  lemma NoneGuarded(cs: Chunks, was: Image, m: Image)
    ensures Guarded(cs, iset{}, was, m)
  {
  }

  // Without blocks there is nothing to watch.
  lemma EmptyGuarded(watch: iset<int>, was: Image, m: Image, m': Image)
    requires Guarded(map[], watch, was, m)
    ensures Guarded(map[], watch, was, m')
  {
    forall x
      ensures GuardedAt(map[], watch, was, m', x)
    {
      assert GuardedAt(map[], watch, was, m, x);
    }
  }

  lemma GuardedSpares(cs: Chunks, cs': Chunks, watch: iset<int>, was: Image, m: Image)
    requires Guarded(cs', watch, was, m) && forall x | Client(cs, x) :: x in watch
    ensures Spares(cs, was, m)
  {
    forall x | Client(cs, x)
      ensures SameWord(was, m, x)
    {
      assert GuardedAt(cs', watch, was, m, x);
    }
  }

  lemma OthersWatched(cs: Chunks, cs': Chunks, base: int, top: int, p: int)
    requires Tiled(cs, base, top) && Frees(cs, cs', p)
    ensures forall x | Client(cs', x) :: x in ClientsBut(cs, p)
  {
    forall x | Client(cs', x)
      ensures x in ClientsBut(cs, p)
    {
      var a :| InPayload(cs', a, x);
      assert Live(cs', a, cs'[a].size);
      assert InPayload(cs, a, x);
      if InPayload(cs, p, x) { PayloadsDisjoint(cs, base, top, a, p, x); }
    }
  }
}
