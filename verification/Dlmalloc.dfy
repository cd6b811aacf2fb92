module Dlmalloc {
  import opened Words
  import opened BinIndex
  import opened BinMap
  import opened Rings
  import opened HeadWords
  import opened Trie
  import opened TrieLinks
  import opened TrieKey
  import opened TreeBins
  import opened BestFit
  import opened Tiling
  import opened Bins
  import opened Heap
  import opened Fit
  import opened Policy
  import opened Requests
  import opened Merging
  import opened Memory

  // The header of every small bin is a ring of its own.
  ghost predicate Ringed(L: Links) {
    forall i | 0 <= i < 32 :: Rd(L.fd, SmallBinAt(i)) == Rd(L.bk, SmallBinAt(i)) == SmallBinAt(i)
  }

  class MallocState {
    var head: map<int, Head>
    var foot: map<int, int>
    var links: Links
    var smallmap: binmap
    var treemap: binmap
    var treebins: seq<int>
    var dv: int
    var dvsize: int
    var top: int
    var topsize: int

    var brk: int
    var noncontiguous: bool
    const sbrkStart: int
    const sbrkEnd: int

    ghost var cs: Chunks
    ghost var base: int
    ghost var sb: seq<seq<int>>
    ghost var tb: seq<Tree>

    // The words that the present call is to leave alone, and what memory was before
    ghost var watched: iset<int>
    ghost var before: Image

    ghost function Contents(): Image
      reads `head, `foot, `links
    {
      Image(head, foot, links)
    }

    ghost predicate Quiet()
      reads `head, `foot, `links, `cs, `watched, `before
    {
      Guarded(cs, watched, before, Contents())
    }

    // The bins are in order and hold the free chunks but for those in excl.
    ghost predicate BinsValid(excl: set<int>)
      reads this
    {
      BinsOk(links, smallmap, treemap, treebins, sb, tb, cs, excl)
    }

    // The heap and its bins, while the chunks in excl are on their own.
    ghost predicate Sound(excl: set<int>)
      reads this
    {
      && HeapOk(head, foot, cs, base, top, topsize) && BinsValid(excl) && Quiet()
      && STATIC_END <= base && brk == top + topsize + TOP_FOOT_SIZE && brk <= sbrkEnd < W32
    }

    ghost function DvSet(): set<int>
      reads this
    {
      if dvsize == 0 then {} else {dv}
    }

    ghost predicate DvOk()
      reads this
    {
      if dvsize == 0 then dv == 0 else dv in cs && cs[dv] == Chunk(dvsize, false)
    }

    // The state between two calls, once there is a segment
    ghost predicate Ready()
      reads this
    {
      Sound(DvSet()) && DvOk()
    }

    // The state before the first segment
    ghost predicate Unused()
      reads this
    {
      top == 0 && topsize == 0 && dv == 0 && dvsize == 0 && cs == map[] && BinsValid({}) && Quiet()
    }

    ghost predicate Valid()
      reads this
    {
      STATIC_END <= sbrkStart <= sbrkEnd < W32 && Multiple8(sbrkStart)
        && (if top == 0 then Unused() && brk == sbrkStart else Ready() && base == sbrkStart)
    }

    ghost function Now(): View
      reads this
    {
      View(cs, dv, dvsize, top, topsize, brk, noncontiguous)
    }

    // Where only free chunks' links are written, the words to be left alone are.
    lemma StillQuiet(L: Links)
      requires HeapOk(head, foot, cs, base, top, topsize) && STATIC_END <= base && LinksKept(cs, L, links)
      requires Guarded(cs, watched, before, Image(head, foot, L))
      ensures Quiet()
    {
      LinksSpared(cs, base, top, topsize, Image(head, foot, L), links);
      GuardedOn(cs, watched, before, Image(head, foot, L), Contents());
    }

    // The same for head and foot words; c0 is what the chunks were.
    lemma QuietTags(c0: Chunks, m: Image)
      requires HeapOk(head, foot, cs, base, top, topsize) && TagsWritten(cs, base, top, m, Contents())
      requires Guarded(c0, watched, before, m) && Grows(c0, cs)
      ensures Quiet()
    {
      GuardedGrown(c0, cs, watched, before, m);
      TagsSpared(cs, base, top, topsize, m, Contents());
      GuardedOn(cs, watched, before, m, Contents());
    }

    // The same where block p is freed
    lemma QuietFree(c0: Chunks, m: Image, p: int)
      requires HeapOk(head, foot, cs, base, top, topsize) && TagsWritten(cs, base, top, m, Contents())
      requires Guarded(c0, watched, before, m) && Frees(c0, cs, p) && Unwatched(c0, watched, p)
      ensures Quiet()
    {
      GuardedFreed(c0, cs, watched, before, m, p);
      TagsSpared(cs, base, top, topsize, m, Contents());
      GuardedOn(cs, watched, before, m, Contents());
    }

    // Head words tell the sizes.
    ghost predicate SizesMatch()
      reads this
    {
      forall a | a in cs :: SizeAt(head, a) == cs[a].size
    }

    // insert_small_chunk
    method InsertSmallChunk(p: int, s: int, ghost rest: set<int>)
      requires BinsValid(rest + {p}) && p !in rest && p in cs && cs[p] == Chunk(s, false)
      requires 0 <= s < 256 && Multiple8(s)
      modifies `links, `smallmap, `sb
      ensures BinsValid(rest) && LinksKept(cs, old(links), links) && s / 8 < |old(sb)|
      ensures sb == old(sb)[s / 8 := [p] + old(sb)[s / 8]]
    {
      ghost var excl := rest + {p};
      assert excl - {p} == rest;
      var i := s / 8;
      assert SmallBinOk(links, Marked(smallmap, i), sb[i], i);
      NotBinned(cs, excl, links, smallmap, treemap, treebins, sb, tb, p, i);
      var b := SmallBinAt(i);
      var f := b;
      var marked := IsMarked(smallmap, i);
      var smallmap' := smallmap;
      if !marked {
        smallmap' := Mark(smallmap, i);
      } else {
        f := Rd(links.fd, b);
      }
      ghost var s' := [p] + sb[i];
      var links' := links.(fd := links.fd[b := p], bk := links.bk[f := p]);
      links' := links'.(fd := links'.fd[p := f], bk := links'.bk[p := b]);
      PushedOk(links, links', sb[i], i, p, f);
      SmallBinChanged(cs, excl, links, links', smallmap, smallmap', treemap, treebins, sb, tb, i, s', p);
      FileSmall(cs, excl, sb, tb, i, p, s');
      RingKept(cs, excl, sb, tb, i, p, links, links');
      assert BinsOk(links', smallmap', treemap, treebins, sb[i := s'], tb, cs, excl - {p});
      links, smallmap, sb := links', smallmap', sb[i := s'];
    }

    // The part that unlinking from a small bin has in every form: p goes, and its neighbours f and b
    // are linked, or the bin is marked empty.
    method Bridge(p: int, i: nat, f: int, b: int, ghost excl: set<int>, ghost k: nat)
      requires BinsValid(excl) && i < 32 && k < |sb[i]| && sb[i][k] == p
      requires f == Rd(links.fd, p) && b == Rd(links.bk, p)
      modifies `links, `smallmap, `sb
      ensures BinsValid(excl + {p}) && LinksKept(cs, old(links), links)
      ensures sb == old(sb)[i := old(sb)[i][..k] + old(sb)[i][k + 1..]]
    {
      ghost var s := sb[i];
      ghost var s' := s[..k] + s[k + 1..];
      assert SmallBinOk(links, Marked(smallmap, i), s, i);
      var smallmap', links' := smallmap, links;
      if f == b {
        smallmap' := Clear(smallmap, i);
      } else {
        links' := links.(bk := links.bk[f := b], fd := links.fd[b := f]);
      }
      assert p in s;
      UnlinkedOk(links, links', s, i, k);
      RemovedIn(SmallBinAt(i), s, k);
      SmallBinChanged(cs, excl, links, links', smallmap, smallmap', treemap, treebins, sb, tb, i, s', p);
      LargeInTrees(links, smallmap, treemap, treebins, sb, tb);
      UnfileSmall(cs, excl, sb, tb, i, p, s');
      SmallApart(cs, excl, sb, tb, i, p);
      RingKept(cs, excl, sb, tb, i, p, links, links');
      assert BinsOk(links', smallmap', treemap, treebins, sb[i := s'], tb, cs, excl + {p});
      links, smallmap, sb := links', smallmap', sb[i := s'];
    }

    // unlink_small_chunk
    method UnlinkSmallChunk(p: int, s: int, ghost excl: set<int>)
      requires BinsValid(excl) && p !in excl && p in cs && cs[p] == Chunk(s, false)
      requires 0 <= s < 256
      modifies `links, `smallmap, `sb
      ensures BinsValid(excl + {p}) && LinksKept(cs, old(links), links)
    {
      assert Spare(cs, excl, p, s);
      var f := Rd(links.fd, p);
      var b := Rd(links.bk, p);
      Bridge(p, s / 8, f, b, excl, Position(sb[s / 8], p));
    }

    // The first chunk of a small bin, and unlink_first_small_chunk
    method UnlinkFirstSmallChunk(i: nat, ghost excl: set<int>) returns (p: int)
      requires BinsValid(excl) && i < 32 && Marked(smallmap, i)
      modifies `links, `smallmap, `sb
      ensures BinsValid(excl + {p}) && LinksKept(cs, old(links), links)
      ensures p in cs && cs[p] == Chunk(8 * i, false) && p !in excl
      ensures i < |old(sb)| && old(sb)[i] != [] && p == old(sb)[i][0] && sb == old(sb)[i := old(sb)[i][1..]]
    {
      var b := SmallBinAt(i);
      assert SmallBinOk(links, Marked(smallmap, i), sb[i], i);
      ghost var ring := [b] + sb[i];
      assert sb[i][..0] + sb[i][1..] == sb[i][1..];
      assert Rd(links.fd, ring[0]) == After(ring, 0) && Rd(links.bk, ring[1]) == Before(ring, 1);
      p := Rd(links.fd, b);
      SmallApart(cs, excl, sb, tb, i, p);
      var f := Rd(links.fd, p);
      Bridge(p, i, f, b, excl, 0);
    }

    // insert_large_chunk
    method InsertLargeChunk(x: int, s: int, ghost rest: set<int>)
      requires BinsValid(rest + {x}) && SizesMatch() && x !in rest && x in cs && cs[x] == Chunk(s, false)
      requires 256 <= s < W32
      modifies `links, `treemap, `treebins, `tb
      ensures BinsValid(rest) && LinksKept(cs, old(links), links)
    {
      ghost var t';
      links, treemap, treebins, t' := WithLarge(x, s, rest);
      tb := tb[TreeBin(s) := t'];
    }

    method WithLarge(x: int, s: int, ghost rest: set<int>)
      returns (links': Links, treemap': binmap, treebins': seq<int>, ghost t': Tree)
      requires BinsValid(rest + {x}) && SizesMatch() && x !in rest && x in cs && cs[x] == Chunk(s, false)
      requires 256 <= s < W32
      ensures TreeBin(s) < 32 && LinksKept(cs, links, links')
      ensures BinsOk(links', smallmap, treemap', treebins', sb, tb[TreeBin(s) := t'], cs, rest)
    {
      ghost var excl := rest + {x};
      var i := ComputeTreeIndex(s);
      BinCovers(s);
      TreeStored(excl, i);
      NotBinned(cs, excl, links, smallmap, treemap, treebins, sb, tb, x, i);
      var root;
      links', treemap', root := LinkLarge(links, head, treemap, treebins[i], x, s, i, tb[i]);
      LargeInserted(links, links', smallmap, treemap, treemap', treebins, sb, tb, cs, excl, i, root, x, s);
      ApartAgain(rest, x);
      TreeKept(cs, excl, sb, tb, i, x, links, links');
      treebins', t' := treebins[i := root], Insert(tb[i], x, s, BinLow(i), BinBits(i));
    }

    lemma ApartAgain(rest: set<int>, x: int)
      requires x !in rest
      ensures rest + {x} - {x} == rest
    {
    }

    // The chunks of a tree lie above the static memory, and their head words tell their sizes.
    lemma TreeStored(excl: set<int>, i: nat)
      requires BinsValid(excl) && SizesMatch() && i < 32
      ensures TreeBinOk(links, Marked(treemap, i), treebins[i], tb[i], i) && SizesStored(head, tb[i])
      ensures forall a | a in Addrs(tb[i]) :: STATIC_END <= a
    {
      assert TreeBinOk(links, Marked(treemap, i), treebins[i], tb[i], i);
      forall a, z | Holds(tb[i], a, z)
        ensures SizeAt(head, a) == z
      {
        assert Spare(cs, excl, a, z);
      }
      forall a | a in Addrs(tb[i])
        ensures STATIC_END <= a
      {
        TreeApart(cs, excl, sb, tb, i, a);
      }
    }

    lemma InItsTree(excl: set<int>, x: int, s: int)
      requires BinsValid(excl) && x !in excl && x in cs && cs[x] == Chunk(s, false) && 256 <= s < W32
      ensures TreeBin(s) < 32 && x in Addrs(tb[TreeBin(s)]) && Rd(links.index, x) == TreeBin(s)
      ensures Marked(treemap, TreeBin(s))
    {
      BinCovers(s);
      var i := TreeBin(s);
      assert TreeBinOk(links, Marked(treemap, i), treebins[i], tb[i], i);
      assert Spare(cs, excl, x, s);
      HoldsAddrs(tb[i]);
    }

    // unlink_large_chunk
    method UnlinkLargeChunk(x: int, ghost s: int, ghost excl: set<int>)
      requires BinsValid(excl) && SizesMatch() && x !in excl && x in cs && cs[x] == Chunk(s, false)
      requires 256 <= s < W32
      modifies `links, `treemap, `treebins, `tb
      ensures BinsValid(excl + {x}) && LinksKept(cs, old(links), links)
    {
      ghost var t';
      links, treemap, treebins, t' := WithoutLarge(x, s, excl);
      tb := tb[TreeBin(s) := t'];
    }

    method WithoutLarge(x: int, ghost s: int, ghost excl: set<int>)
      returns (links': Links, treemap': binmap, treebins': seq<int>, ghost t': Tree)
      requires BinsValid(excl) && SizesMatch() && x !in excl && x in cs && cs[x] == Chunk(s, false)
      requires 256 <= s < W32
      ensures TreeBin(s) < 32 && LinksKept(cs, links, links')
      ensures BinsOk(links', smallmap, treemap', treebins', sb, tb[TreeBin(s) := t'], cs, excl + {x})
    {
      TreeBinRange(s);
      TreeStored(excl, TreeBin(s));
      InItsTree(excl, x, s);
      var i := Rd(links.index, x);
      var root;
      links', treemap', root := UnlinkLarge(links, treemap, treebins[i], x, i, tb[i]);
      LargeRemoved(links, links', smallmap, treemap, treemap', treebins, sb, tb, cs, excl, i, root, x, s);
      TreeKept(cs, excl, sb, tb, i, x, links, links');
      treebins', t' := treebins[i := root], Remove(tb[i], x);
    }

    // insert_chunk
    method InsertChunk(p: int, s: int, ghost rest: set<int>)
      requires Sound(rest + {p}) && p !in rest && p in cs && cs[p] == Chunk(s, false)
      modifies `links, `smallmap, `treemap, `treebins, `sb, `tb
      ensures Sound(rest)
    {
      ghost var L := links;
      SizesKnown(p);
      if s < 256 {
        InsertSmallChunk(p, s, rest);
      } else {
        InsertLargeChunk(p, s, rest);
      }
      StillQuiet(L);
    }

    // unlink_chunk
    method UnlinkChunk(p: int, s: int, ghost excl: set<int>)
      requires Sound(excl) && p !in excl && p in cs && cs[p] == Chunk(s, false)
      modifies `links, `smallmap, `treemap, `treebins, `sb, `tb
      ensures Sound(excl + {p})
    {
      ghost var L := links;
      SizesKnown(p);
      if s < 256 {
        UnlinkSmallChunk(p, s, excl);
      } else {
        UnlinkLargeChunk(p, s, excl);
      }
      StillQuiet(L);
    }

    lemma SizesKnown(p: int)
      requires HeapOk(head, foot, cs, base, top, topsize) && 0 < base && top < W32
      ensures SizesMatch()
      ensures p in cs ==> 16 <= cs[p].size < W32 && Multiple8(cs[p].size)
    {
      HeapOpen(head, foot, cs, base, top, topsize);
      assert p in cs ==> Next(cs, p) <= top;
    }

    // Behind a free chunk comes one in use, which says so in its head word.
    lemma FreeNext(a: int)
      requires HeapOk(head, foot, cs, base, top, topsize) && a in cs && !cs[a].used
      ensures var e := Next(cs, a); e in cs && cs[e].used && !HeadAt(head, e).pinuse && a + 16 <= e < top
      ensures HeadAt(head, a).size == cs[a].size && forall b | b in cs && a < b :: Next(cs, a) <= b
    {
      HeapOpen(head, foot, cs, base, top, topsize);
    }

    lemma TopLast()
      requires HeapOk(head, foot, cs, base, top, topsize)
      ensures forall a | a in cs :: a < top
    {
      HeapOpen(head, foot, cs, base, top, topsize);
    }

    // set_inuse_and_pinuse on a free chunk that is in no bin
    method SetInuseAndPinuse(p: int, s: int, ghost rest: set<int>)
      requires Sound(rest + {p}) && p in cs && cs[p] == Chunk(s, false)
      modifies `head, `cs
      ensures Sound(rest) && cs == old(cs)[p := Chunk(s, true)]
    {
      FreeNext(p);
      ghost var h, m, c0, cs' := head, Contents(), cs, cs[p := Chunk(s, true)];
      head := head[p := Head(s, true, true)];
      head := head[p + s := HeadAt(head, p + s).(pinuse := true)];
      TakeWhole(h, foot, cs, base, top, topsize, p, head);
      GivenOut(links, smallmap, treemap, treebins, sb, tb, cs, rest, p, s);
      cs := cs';
      QuietTags(c0, m);
    }

    // A free chunk that is in no bin is split: the first part is in use, the rest is free.
    method Split(p: int, nb: int, rsize: int, ghost rest: set<int>) returns (r: int)
      requires Sound(rest + {p}) && p in cs && cs[p] == Chunk(nb + rsize, false)
      requires 16 <= nb && 16 <= rsize && Multiple8(nb)
      modifies `head, `foot, `cs
      ensures Sound(rest + {r}) && r == p + nb && r !in old(cs)
      ensures cs == old(cs)[p := Chunk(nb, true)][r := Chunk(rsize, false)]
    {
      r := p + nb;
      ghost var h, f, m, c0 := head, foot, Contents(), cs;
      ghost var cs' := cs[p := Chunk(nb, true)][r := Chunk(rsize, false)];
      head := head[p := Head(nb, true, true)];
      head, foot := head[r := Head(rsize, true, false)], foot[r + rsize := rsize];
      TakeFirst(h, f, cs, base, top, topsize, p, nb, head, foot);
      GivenOut(links, smallmap, treemap, treebins, sb, tb, cs, rest, p, nb);
      NewFree(links, smallmap, treemap, treebins, sb, tb, cs[p := Chunk(nb, true)], rest, r, rsize);
      cs := cs';
      assert Next(cs, r) == r + rsize;
      QuietTags(c0, m);
    }

    // The first nb bytes of top are given out.
    method SplitTop(nb: int, ghost excl: set<int>) returns (p: int)
      requires Sound(excl) && 16 <= nb < topsize && Multiple8(nb)
      modifies `head, `top, `topsize, `cs
      ensures Sound(excl) && p == old(top) && p !in old(cs) && cs == old(cs)[p := Chunk(nb, true)]
      ensures top == p + nb && topsize == old(topsize) - nb
    {
      TopSplit(Contents(), cs, base, top, topsize, nb, watched, before);
      Refile(cs, excl, cs[top := Chunk(nb, true)], excl, sb, tb);
      topsize := topsize - nb;
      p := top;
      top := p + nb;
      head := head[top := Head(topsize, true, false)];
      head := head[p := Head(nb, true, true)];
      cs := cs[p := Chunk(nb, true)];
    }

    // replace_dv: the remainder p of a split becomes dv; the old one goes to its small bin.
    method ReplaceDv(p: int, s: int)
      requires Sound(DvSet() + {p}) && DvOk() && dvsize < 256 && p != dv && p in cs && cs[p] == Chunk(s, false)
      modifies `links, `smallmap, `sb, `dv, `dvsize
      ensures Ready() && dv == p && dvsize == s != 0
    {
      SizesKnown(p);
      if dvsize != 0 {
        ghost var L := links;
        SizesKnown(dv);
        assert DvSet() + {p} == {p} + {dv};
        InsertSmallChunk(dv, dvsize, {p});
        StillQuiet(L);
      } else {
        assert DvSet() + {p} == {p};
      }
      dvsize, dv := s, p;
    }

    /* ---- taking a chunk ---- */

    lemma TreesReady(excl: set<int>)
      requires BinsValid(excl) && SizesMatch()
      ensures Trees(links, head, treemap, treebins, tb)
    {
      forall i | 0 <= i < 32
        ensures At(links, head, PlaceOf(tb, treebins, i)) && (Marked(treemap, i) <==> tb[i].Node?)
        ensures forall z {:trigger HasSize(tb[i], z)} | HasSize(tb[i], z) :: 256 <= z < W32 && TreeBin(z) == i
      {
        TreeStored(excl, i);
      }
    }

    // Chunk v, just unlinked from its bin, is given out whole.
    method UseWhole(v: int, nb: int, size: int)
      requires Sound(DvSet() + {v}) && DvOk() && v !in DvSet() && v in cs && cs[v] == Chunk(size, false)
      requires nb <= size < nb + 16
      modifies `head, `cs
      ensures Ready() && Gives(old(cs), cs, v, nb)
    {
      WholeGives(cs, v, nb);
      SetInuseAndPinuse(v, size, DvSet());
    }

    // Chunk v, just unlinked, is given out in part; r is the rest, still in no bin.
    method UsePart(v: int, nb: int, rsize: int) returns (r: int)
      requires Sound(DvSet() + {v}) && DvOk() && v !in DvSet() && v in cs && cs[v] == Chunk(nb + rsize, false)
      requires 16 <= nb && 16 <= rsize && Multiple8(nb)
      modifies `head, `foot, `cs
      ensures Gives(old(cs), cs, v, nb) && r == v + nb
      ensures Sound(DvSet() + {r}) && DvOk() && r !in old(cs) && r in cs && cs[r] == Chunk(rsize, false)
    {
      r := Split(v, nb, rsize, DvSet());
      SplitGives(old(cs), v, nb, rsize);
    }

    // Chunk v is given out, whole if the rest is too small for a chunk. The rest goes back to the bins.
    method UseLarge(v: int, nb: int, rsize: int)
      requires Sound(DvSet() + {v}) && DvOk() && v !in DvSet() && v in cs && cs[v] == Chunk(nb + rsize, false)
      requires 16 <= nb && 0 <= rsize && Multiple8(nb)
      modifies `head, `foot, `links, `smallmap, `treemap, `treebins, `cs, `sb, `tb
      ensures Ready() && Gives(old(cs), cs, v, nb)
    {
      if rsize < 16 {
        UseWhole(v, nb, rsize + nb);
      } else {
        var r := UsePart(v, nb, rsize);
        InsertChunk(r, rsize, DvSet());
      }
    }

    // The first half of tmalloc_large: the chunk to use, or 0 if dv fits at least as well or nothing fits
    method PickLarge(nb: int) returns (v: int, rsize: int)
      requires Ready() && 256 <= nb < W32
      ensures v != 0 ==>
                && v in cs && cs[v] == Chunk(nb + rsize, false) && v !in DvSet() && 0 <= rsize
                && Least(cs, {}, v, nb) && !(nb <= dvsize <= cs[v].size)
      ensures v == 0 ==> forall a | a in cs && Spare(cs, DvSet(), a, cs[a].size) && nb <= cs[a].size ::
                           nb <= dvsize <= cs[a].size
    {
      SizesKnown(dv);
      TreesReady(DvSet());
      v, rsize := BestChunk(links, head, treemap, treebins, nb, tb, sb, cs, DvSet());
      if v != 0 {
        SizesKnown(v);
        DvBetter(nb, rsize);
        if rsize < U32(dvsize - nb) {
          LeastBeatsDv(cs, dv, dvsize, v, nb);
        } else {
          v := 0;
        }
      }
    }

    // The chunk to use leaves its tree.
    method DetachLarge(p: int, ghost s: int)
      requires Ready() && p !in DvSet() && p in cs && cs[p] == Chunk(s, false) && 256 <= s
      modifies `links, `treemap, `treebins, `tb
      ensures Sound(DvSet() + {p}) && DvOk()
    {
      SizesKnown(p);
      ghost var L := links;
      UnlinkLargeChunk(p, s, DvSet());
      StillQuiet(L);
    }

    // tmalloc_large
    method TmallocLarge(nb: int) returns (p: int)
      requires Ready() && 256 <= nb < W32 && Multiple8(nb)
      modifies `head, `foot, `links, `smallmap, `treemap, `treebins, `cs, `sb, `tb
      ensures Ready()
      ensures p != 0 ==> Gives(old(cs), cs, p, nb) && Least(old(cs), {}, p, nb) && !(nb <= dvsize <= old(cs)[p].size)
      ensures p == 0 ==>
                cs == old(cs) && (forall a | a in cs && Spare(cs, DvSet(), a, cs[a].size) && nb <= cs[a].size ::
                                    nb <= dvsize <= cs[a].size)
    {
      var rsize;
      p, rsize := PickLarge(nb);
      if p != 0 {
        DetachLarge(p, rsize + nb);
        UseLarge(p, nb, rsize);
        assert Gives(old(cs), cs, p, nb) && Least(old(cs), {}, p, nb);
      }
    }

    // rsize < (size_t)(dvsize - nb) unless dv fits at least as well
    lemma DvBetter(nb: int, rsize: int)
      requires 0 <= dvsize < W32 && 0 < nb < W32 && 0 <= rsize < W32 - nb
      ensures rsize < U32(dvsize - nb) <==> !(nb <= dvsize <= rsize + nb)
    {
      if dvsize < nb { assert U32(dvsize - nb) == W32 + dvsize - nb; }
    }

    // The first half of tmalloc_small: the chunk to use
    method PickSmallest(nb: int) returns (v: int, rsize: int)
      requires Ready() && treemap != 0 && 16 <= nb < 256
      requires forall a | a in cs && Spare(cs, DvSet(), a, cs[a].size) && nb <= cs[a].size :: 256 <= cs[a].size
      ensures v in cs && cs[v] == Chunk(nb + rsize, false) && v !in DvSet() && 0 <= rsize && 256 <= nb + rsize
      ensures Least(cs, DvSet(), v, nb)
    {
      SizesKnown(dv);
      TreesReady(DvSet());
      v, rsize := SmallestChunk(links, head, treemap, treebins, nb, tb, sb, cs, DvSet());
      LeastAbove(cs, DvSet(), v, nb);
    }

    // tmalloc_small
    method TmallocSmall(nb: int) returns (p: int)
      requires Ready() && treemap != 0 && 16 <= nb < 256 && Multiple8(nb) && dvsize < nb
      requires forall a | a in cs && Spare(cs, DvSet(), a, cs[a].size) && nb <= cs[a].size :: 256 <= cs[a].size
      modifies `head, `foot, `links, `smallmap, `treemap, `treebins, `dv, `dvsize, `cs, `sb, `tb
      ensures Ready() && Gives(old(cs), cs, p, nb) && Least(old(cs), old(DvSet()), p, nb)
      ensures (dv, dvsize) == DvAfter(old(Now()), true, nb, p)
    {
      var rsize;
      p, rsize := PickSmallest(nb);
      DetachLarge(p, rsize + nb);
      UseSmall(p, nb, rsize);
    }

    // Chunk v, just unlinked, is split for a small request, and the rest becomes dv.
    method UseSplit(v: int, nb: int, rsize: int)
      requires Sound(DvSet() + {v}) && DvOk() && v !in DvSet() && v in cs && cs[v] == Chunk(nb + rsize, false)
      requires 16 <= nb && 16 <= rsize && Multiple8(nb) && dvsize < 256
      modifies `head, `foot, `links, `smallmap, `dv, `dvsize, `cs, `sb
      ensures Ready() && Gives(old(cs), cs, v, nb) && dv == v + nb && dvsize == rsize
    {
      var r := UsePart(v, nb, rsize);
      ReplaceDv(r, rsize);
    }

    // Chunk v is given out for a small request; what is left of it becomes dv.
    method UseSmall(v: int, nb: int, rsize: int)
      requires Sound(DvSet() + {v}) && DvOk() && v !in DvSet() && v in cs && cs[v] == Chunk(nb + rsize, false)
      requires 16 <= nb && 0 <= rsize && Multiple8(nb) && dvsize < 256
      modifies `head, `foot, `links, `smallmap, `dv, `dvsize, `cs, `sb
      ensures Ready() && Gives(old(cs), cs, v, nb)
      ensures (dv, dvsize) == if rsize < 16 then (old(dv), old(dvsize)) else (v + nb, rsize)
    {
      if rsize < 16 {
        UseWhole(v, nb, rsize + nb);
      } else {
        UseSplit(v, nb, rsize);
      }
    }

    /* ---- small requests ---- */

    // A chunk of a small bin tells by its size that the bin is marked.
    lemma InSmallBin(excl: set<int>, a: int)
      requires Sound(excl) && a in cs && Spare(cs, excl, a, cs[a].size) && cs[a].size < 256
      ensures cs[a].size / 8 < 32 && cs[a].size == 8 * (cs[a].size / 8) && Marked(smallmap, cs[a].size / 8)
    {
      SizesKnown(a);
      var i := cs[a].size / 8;
      assert SmallBinOk(links, Marked(smallmap, i), sb[i], i);
    }

    // The first marked bin from index i on holds the least chunks.
    lemma SmallLeast(excl: set<int>, i: nat, j: nat)
      requires Sound(excl) && i <= j < 32 && forall k | i <= k < j :: !Marked(smallmap, k)
      ensures forall p | p in cs && Spare(cs, excl, p, 8 * j) :: Least(cs, excl, p, 8 * i)
    {
      forall a | a in cs && Spare(cs, excl, a, cs[a].size) && 8 * i <= cs[a].size
        ensures 8 * j <= cs[a].size
      {
        if cs[a].size < 256 { InSmallBin(excl, a); }
      }
    }

    lemma NoExactSmall(excl: set<int>, i: nat)
      requires Sound(excl) && i < 32 && !Marked(smallmap, i) && (i < 31 ==> !Marked(smallmap, i + 1))
      ensures !ExactSmall(cs, excl, 8 * i)
    {
      forall a, z | Spare(cs, excl, a, z) && 8 * i <= z <= 8 * i + 8 && z < 256
        ensures false
      {
        InSmallBin(excl, a);
      }
    }

    lemma NoSmallFrom(excl: set<int>, i: nat)
      requires Sound(excl) && i < 32 && forall k | i <= k < 32 :: !Marked(smallmap, k)
      ensures forall a | a in cs && Spare(cs, excl, a, cs[a].size) && 8 * i <= cs[a].size :: 256 <= cs[a].size
    {
      forall a | a in cs && Spare(cs, excl, a, cs[a].size) && 8 * i <= cs[a].size
        ensures 256 <= cs[a].size
      {
        if cs[a].size < 256 { InSmallBin(excl, a); }
      }
    }

    // The first chunk of small bin j, given out whole
    method TakeExact(i: nat, j: nat) returns (p: int)
      requires Ready() && 2 <= i < 32 && j < 32 && Marked(smallmap, j)
      requires (j == i || (j == i + 1 && !Marked(smallmap, i)))
      modifies `head, `links, `smallmap, `cs, `sb
      ensures Ready() && Gives(old(cs), cs, p, 8 * i)
      ensures ExactSmall(old(cs), old(DvSet()), 8 * i) && Least(old(cs), old(DvSet()), p, 8 * i)
      ensures (dv, dvsize) == DvAfter(old(Now()), true, 8 * i, p)
    {
      ghost var excl, L := DvSet(), links;
      SmallLeast(excl, i, j);
      p := UnlinkFirstSmallChunk(j, excl);
      StillQuiet(L);
      assert Spare(cs, excl, p, 8 * j);
      SetInuseAndPinuse(p, 8 * j, excl);
      WholeGives(old(cs), p, 8 * i);
    }

    // The first chunk of small bin j, split; the rest becomes dv. With 4-byte sizes there always is a rest.
    method TakeSplit(i: nat, j: nat) returns (p: int)
      requires Ready() && 2 <= i && i + 2 <= j < 32 && Marked(smallmap, j) && dvsize < 256
      requires forall k | i <= k < j :: !Marked(smallmap, k)
      modifies `head, `foot, `links, `smallmap, `dv, `dvsize, `cs, `sb
      ensures Ready() && Gives(old(cs), cs, p, 8 * i) && Least(old(cs), old(DvSet()), p, 8 * i)
      ensures (dv, dvsize) == DvAfter(old(Now()), true, 8 * i, p)
    {
      ghost var excl, L := DvSet(), links;
      SmallLeast(excl, i, j);
      p := UnlinkFirstSmallChunk(j, excl);
      StillQuiet(L);
      assert Spare(cs, excl, p, 8 * j);
      UseSplit(p, 8 * i, 8 * j - 8 * i);
    }

    // The part of dlmalloc for small requests: 0 if only dv, top or the system can help
    method MallocSmall(nb: int) returns (p: int)
      requires Valid() && 16 <= nb < 256 && Multiple8(nb)
      modifies `head, `foot, `links, `smallmap, `treemap, `treebins, `dv, `dvsize, `cs, `sb, `tb
      ensures Valid()
      ensures p != 0 ==> Gives(old(cs), cs, p, nb) && Least(old(cs), old(DvSet()), p, nb)
      ensures p != 0 ==> ExactSmall(old(cs), old(DvSet()), nb) || old(dvsize) < nb
      ensures p != 0 ==> (dv, dvsize) == DvAfter(old(Now()), true, nb, p)
      ensures p == 0 ==> cs == old(cs) && dv == old(dv) && dvsize == old(dvsize) && !ExactSmall(cs, DvSet(), nb)
      ensures p == 0 && dvsize < nb ==> NoneFits(cs, DvSet(), nb)
    {
      p := 0;
      var idx := nb / 8;
      assert nb == 8 * idx;
      if top == 0 { NoBins(); }
      var fit, j := RemainderlessFit(smallmap, idx);
      if fit {
        p := TakeExact(idx, j);
      } else {
        if top != 0 { NoExactSmall(DvSet(), idx); }
        if nb > dvsize {
          p := MallocInexact(nb, idx);
        }
      }
    }

    method MallocInexact(nb: int, idx: nat) returns (p: int)
      requires Valid() && 16 <= nb < 256 && Multiple8(nb) && nb == 8 * idx && dvsize < nb
      requires !Marked(smallmap, idx) && (idx < 31 ==> !Marked(smallmap, idx + 1))
      modifies `head, `foot, `links, `smallmap, `treemap, `treebins, `dv, `dvsize, `cs, `sb, `tb
      ensures Valid()
      ensures p != 0 ==> Gives(old(cs), cs, p, nb) && Least(old(cs), old(DvSet()), p, nb)
      ensures p != 0 ==> (dv, dvsize) == DvAfter(old(Now()), true, nb, p)
      ensures p == 0 ==> cs == old(cs) && dv == old(dv) && dvsize == old(dvsize) && NoneFits(cs, DvSet(), nb)
    {
      p := 0;
      if top == 0 { NoBins(); }
      var found, i := NextMarked(smallmap, idx);
      if found {
        p := TakeSplit(idx, i);
      } else {
        if top != 0 { NoSmallFrom(DvSet(), idx); }
        if treemap != 0 {
          p := TmallocSmall(nb);
        } else if top != 0 {
          NoTrees(DvSet());
        }
      }
    }

    lemma NoBins()
      requires Unused()
      ensures smallmap == 0 && treemap == 0 && forall i | 0 <= i < 32 :: !Marked(smallmap, i)
    {
      NoChunks(links, smallmap, treemap, treebins, sb, tb, cs, {});
    }

    lemma NoTrees(excl: set<int>)
      requires Sound(excl) && treemap == 0
      ensures forall a | a in cs && Spare(cs, excl, a, cs[a].size) :: cs[a].size < 256
    {
      ZeroMap(treemap);
      forall a | a in cs && Spare(cs, excl, a, cs[a].size)
        ensures cs[a].size < 256
      {
        SizesKnown(a);
        if 256 <= cs[a].size {
          InItsTree(excl, a, cs[a].size);
        }
      }
    }

    /* ---- dv, top and the system ---- */

    // dv is used, and split if the rest is large enough for a chunk.
    method TakeDv(nb: int) returns (p: int)
      requires Ready() && 16 <= nb <= dvsize && Multiple8(nb)
      modifies `head, `foot, `dv, `dvsize, `cs
      ensures Ready() && Gives(old(cs), cs, p, nb) && p == old(dv)
      ensures (dv, dvsize) == DvAfter(old(Now()), false, nb, p)
    {
      var rsize := dvsize - nb;
      p := dv;
      if rsize >= 16 {
        assert DvSet() == {} + {p};
        var r := Split(p, nb, rsize, {});
        dv := r;
        dvsize := rsize;
        assert DvSet() == {} + {r};
        SplitGives(old(cs), p, nb, rsize);
      } else {
        var dvs := dvsize;
        dvsize := 0;
        dv := 0;
        assert {} + {p} == {p};
        SetInuseAndPinuse(p, dvs, {});
        WholeGives(old(cs), p, nb);
      }
    }

    // sbrk for a caller who never shrinks the heap; 0 means that the region is used up.
    method Sbrk(incr: int) returns (r: int)
      requires 0 <= incr && 0 < brk
      modifies `brk
      ensures r == if old(brk) + incr > sbrkEnd then 0 else old(brk)
      ensures brk == if r == 0 then old(brk) else old(brk) + incr
    {
      if brk + incr > sbrkEnd { return 0; }
      r := brk;
      brk := brk + incr;
    }

    // How much sys_alloc asks for when it extends the segment, or begins one
    method ContiguousSize(nb: int) returns (asize: nat)
      requires 0 < brk < W32 && Multiple8(brk) && (top != 0 ==> 0 < topsize <= nb && Multiple8(topsize))
      requires (Multiple8(nb) && 16 <= nb <= W32 - 56) || nb == W32 - 1
      ensures Multiple8(asize) && asize == NextSize(top, topsize, nb)
    {
      if top == 0 {
        asize := FreshSize(nb);
        if !Multiple8(brk) { asize := U32(asize + (Align(brk) - brk)); }
      } else {
        asize := Align(U32(nb - topsize + 40 + 1));
        if nb != W32 - 1 { MoreEnough(nb, topsize); }
      }
    }

    // The part of sys_alloc that gets memory from the system: contiguously, or, when that is ruled
    // out by the sign of the request or has failed before, without counting on it.
    method Acquire(nb: int) returns (tbase: int, tsize: int, exhausted: bool)
      requires 0 < brk < W32 && Multiple8(brk) && (top != 0 ==> 0 < topsize <= nb && Multiple8(topsize))
      requires (Multiple8(nb) && 16 <= nb <= W32 - 56) || nb == W32 - 1
      modifies `brk, `noncontiguous
      ensures exhausted <==> Beyond(Asked(top, topsize, old(noncontiguous), nb), old(brk), sbrkEnd)
      ensures !exhausted ==> (tbase == MFAIL <==> Asked(top, topsize, old(noncontiguous), nb) >= HALF_MAX)
      ensures exhausted || tbase == MFAIL ==> brk == old(brk)
      ensures noncontiguous == (old(noncontiguous) || NextSize(top, topsize, nb) >= HALF_MAX)
      ensures !exhausted && tbase != MFAIL ==>
                && tbase == old(brk) && brk == tbase + tsize && brk <= sbrkEnd
                && tsize == Asked(top, topsize, old(noncontiguous), nb) && 0 <= tsize && Multiple8(tsize)
                && (top == 0 ==> tsize == FreshSize(nb))
                && (nb != W32 - 1 ==> nb + TOP_FOOT_SIZE < (if top == 0 then 0 else topsize + TOP_FOOT_SIZE) + tsize)
    {
      tbase, tsize, exhausted := MFAIL, 0, false;
      FreshEnough(nb);
      if !noncontiguous {
        var asize := ContiguousSize(nb);
        if asize < HALF_MAX {
          var br := Sbrk(asize);
          if br == 0 { return MFAIL, 0, true; }
          tbase, tsize := br, asize;
        } else {
          noncontiguous := true;
        }
      }
      if tbase == MFAIL {
        tbase, tsize, exhausted := AcquireAnywhere(nb);
      }
    }

    method AcquireAnywhere(nb: int) returns (tbase: int, tsize: int, exhausted: bool)
      requires 0 < brk < W32 && Multiple8(brk) && ((Multiple8(nb) && 16 <= nb <= W32 - 56) || nb == W32 - 1)
      modifies `brk
      ensures exhausted <==> Beyond(FreshSize(nb), old(brk), sbrkEnd)
      ensures !exhausted ==> (tbase == MFAIL <==> FreshSize(nb) >= HALF_MAX)
      ensures exhausted || tbase == MFAIL ==> brk == old(brk)
      ensures !exhausted && tbase != MFAIL ==>
                tbase == old(brk) && brk == tbase + tsize && brk <= sbrkEnd && tsize == FreshSize(nb)
    {
      tbase, tsize, exhausted := MFAIL, 0, false;
      var asize := FreshSize(nb);
      FreshEnough(nb);
      if asize < HALF_MAX {
        var br := Sbrk(asize);
        if br == 0 { return MFAIL, 0, true; }
        var end := brk;
        if br < end {
          var ssize := end - br;
          if ssize > U32(nb + 40) {
            tbase, tsize := br, ssize;
          }
        }
      }
    }

    // init_bins
    method InitBins()
      modifies `links
      ensures Ringed(links)
    {
      for i := 0 to 32
        invariant forall j | 0 <= j < i :: Rd(links.fd, SmallBinAt(j)) == Rd(links.bk, SmallBinAt(j)) == SmallBinAt(j)
      {
        var b := SmallBinAt(i);
        links := links.(fd := links.fd[b := b], bk := links.bk[b := b]);
      }
    }

    // init_top
    method InitTop(p: int, psize: int)
      requires Multiple8(p)
      modifies `head, `top, `topsize
      ensures top == p && topsize == psize
      ensures head == old(head)[p := Head(psize, true, false)][p + psize := Head(TOP_FOOT_SIZE, false, false)]
    {
      var offset := if Multiple8(p + 8) then 0 else 8 - (p + 8) % 8;
      Multiple8Sum(p, 8);
      top, topsize := p + offset, psize - offset;
      head := head[top := Head(topsize, true, false)];
      head := head[top + topsize := Head(TOP_FOOT_SIZE, false, false)];
    }

    // The break has just gone up from tbase; that memory follows the segment, or there is none yet.
    ghost predicate NewMemory(tbase: int, tsize: int)
      reads this
    {
      && Multiple8(tbase) && 0 <= tsize && Multiple8(tsize) && STATIC_END <= tbase
      && brk == tbase + tsize <= sbrkEnd < W32
      && if top == 0 then Unused() && 48 <= tsize
         else HeapOk(head, foot, cs, base, top, topsize) && BinsValid(DvSet()) && DvOk() && STATIC_END <= base
              && tbase == top + topsize + TOP_FOOT_SIZE && Quiet()
    }

    // The part of sys_alloc that puts new memory to use: it becomes the first segment, or is appended.
    method AddMemory(tbase: int, tsize: int)
      requires NewMemory(tbase, tsize)
      modifies `head, `links, `top, `topsize, `base
      ensures Ready() && topsize == (if old(top) == 0 then -TOP_FOOT_SIZE else old(topsize)) + tsize
      ensures top == (if old(top) == 0 then tbase else old(top)) && base == if old(top) == 0 then tbase else old(base)
      ensures if old(top) == 0 then Ringed(links) else links == old(links)
    {
      ghost var h, L, m := head, links, Contents();
      if top == 0 {
        base := tbase;
        InitBins();
        AnyLinks(L, links, smallmap, treemap, treebins, sb, tb);
        Multiple8Sum(tsize, TOP_FOOT_SIZE);
        InitTop(tbase, tsize - TOP_FOOT_SIZE);
        NewHeap(h, foot, base, topsize, head);
        EmptyGuarded(watched, before, m, Contents());
      } else {
        GrowTop(h, foot, cs, base, top, topsize, tsize, head[top := Head(topsize + tsize, true, false)]
          [top + (topsize + tsize) := Head(TOP_FOOT_SIZE, false, false)]);
        InitTop(top, topsize + tsize);
        QuietTags(cs, m);
      }
    }

    // A block from the bottom of top, if top is large enough
    method FromTop(nb: int) returns (p: int)
      requires Ready() && (nb < topsize ==> 16 <= nb && Multiple8(nb))
      modifies `head, `top, `topsize, `cs
      ensures Ready()
      ensures if nb < old(topsize)
              then p == old(top) != 0 && p !in old(cs) && Gives(old(cs), cs, p, nb)
                   && top == p + nb && topsize == old(topsize) - nb
              else p == 0 && cs == old(cs) && top == old(top) && topsize == old(topsize)
    {
      p := 0;
      if nb < topsize {
        p := SplitTop(nb, DvSet());
        TopGives(old(cs), p, nb);
      }
    }

    // The same, and that the memory lies where it can be put to use
    method Obtain(nb: int) returns (tbase: int, tsize: int, exhausted: bool)
      requires Valid() && topsize <= nb && ((Multiple8(nb) && 16 <= nb <= W32 - 56) || nb == W32 - 1)
      modifies `brk, `noncontiguous
      ensures exhausted <==> Beyond(old(AskedOf(Now(), nb)), old(brk), sbrkEnd)
      ensures noncontiguous == (old(noncontiguous) || NextSize(top, topsize, nb) >= HALF_MAX)
      ensures exhausted || tbase == MFAIL <==> Denied(old(AskedOf(Now(), nb)), old(brk), sbrkEnd)
      ensures if exhausted || tbase == MFAIL then Valid() && brk == old(brk)
              else tbase == old(brk) && brk == tbase + tsize && tsize == old(AskedOf(Now(), nb))
                   && NewMemory(tbase, tsize)
                   && (nb != MFAIL ==>
                         nb + TOP_FOOT_SIZE < (if top == 0 then 0 else topsize + TOP_FOOT_SIZE) + tsize)
    {
      tbase, tsize, exhausted := Acquire(nb);
    }

    // The part of sys_alloc that comes once there is new memory: the block is taken from top.
    method FromSystem(nb: int, tbase: int, tsize: int) returns (p: int)
      requires NewMemory(tbase, tsize) && ((Multiple8(nb) && 16 <= nb) || nb == MFAIL)
      requires nb != MFAIL ==> nb + TOP_FOOT_SIZE < (if top == 0 then 0 else topsize + TOP_FOOT_SIZE) + tsize
      modifies `head, `links, `top, `topsize, `cs, `base
      ensures Ready() && top != 0 && base == if old(top) == 0 then tbase else old(base)
      ensures var t := if old(top) == 0 then tbase else old(top);
              var z := tsize + if old(top) == 0 then -TOP_FOOT_SIZE else old(topsize);
              if nb == MFAIL then p == 0 && cs == old(cs) && top == t && topsize == z
              else p == t != 0 && p !in old(cs) && Gives(old(cs), cs, p, nb) && top == p + nb && topsize == z - nb
    {
      AddMemory(tbase, tsize);
      p := FromTop(nb);
    }

    // What sys_alloc does, as to each part of the state
    method Supply(nb: int) returns (p: int, exhausted: bool)
      requires Valid() && topsize <= nb && ((Multiple8(nb) && 16 <= nb <= W32 - 56) || nb == W32 - 1)
      modifies `head, `links, `top, `topsize, `brk, `noncontiguous, `cs, `base
      ensures Valid() && noncontiguous == (old(noncontiguous) || NextSize(old(top), old(topsize), nb) >= HALF_MAX)
      ensures exhausted <==> Beyond(old(AskedOf(Now(), nb)), old(brk), sbrkEnd)
      ensures brk == if Denied(old(AskedOf(Now(), nb)), old(brk), sbrkEnd) then old(brk)
                     else old(brk + AskedOf(Now(), nb))
      ensures TopGiven(old(Now()), sbrkEnd, nb, p, cs, top, topsize)
    {
      p := 0;
      var tbase, tsize;
      tbase, tsize, exhausted := Obtain(nb);
      if !exhausted && tbase != MFAIL {
        p := FromSystem(nb, tbase, tsize);
      }
    }

    // sys_alloc
    method SysAlloc(nb: int) returns (p: int, exhausted: bool)
      requires Valid() && dvsize < nb && topsize <= nb && ((Multiple8(nb) && 16 <= nb <= W32 - 56) || nb == W32 - 1)
      modifies `head, `links, `top, `topsize, `brk, `noncontiguous, `cs, `base
      ensures Valid()
      ensures exhausted <==> Beyond(old(AskedOf(Now(), nb)), old(brk), sbrkEnd)
      ensures p == 0 <==> nb == MFAIL || Denied(old(AskedOf(Now(), nb)), old(brk), sbrkEnd)
      ensures p != 0 ==> p == TopAt(old(Now())) && p !in old(cs) && Gives(old(cs), cs, p, nb)
      ensures var w := Asking(old(Now()), sbrkEnd, nb); Now() == if p == 0 then w else Giving(w, false, nb, p)
    {
      ghost var v := Now();
      p, exhausted := Supply(nb);
      Supplied(v, sbrkEnd, nb, p, Now());
    }

    /* ---- dlmalloc ---- */

    // In the end: dv, top, or the system
    method FromDvOrTop(nb: int) returns (p: int, exhausted: bool)
      requires Valid() && ((Multiple8(nb) && 16 <= nb <= W32 - 56) || nb == W32 - 1)
      modifies `head, `foot, `links, `smallmap, `treemap, `treebins, `dv, `dvsize, `top, `topsize,
               `brk, `noncontiguous, `cs, `base, `sb, `tb
      ensures Valid() && FromRest(old(Now()), sbrkEnd, nb, p, exhausted, Now())
    {
      exhausted := false;
      if top != 0 { SizesKnown(dv); }
      if nb <= dvsize {
        p := TakeDv(nb);
      } else if nb < topsize {
        p := FromTop(nb);
      } else {
        p, exhausted := SysAlloc(nb);
      }
    }

    // Small requests
    method DlmallocSmall(nb: int) returns (p: int, exhausted: bool)
      requires Valid() && 16 <= nb < 256 && Multiple8(nb)
      modifies `head, `foot, `links, `smallmap, `treemap, `treebins, `dv, `dvsize, `top, `topsize,
               `brk, `noncontiguous, `cs, `base, `sb, `tb
      ensures Valid() && Allotted(old(Now()), sbrkEnd, true, nb, p, exhausted, Now())
    {
      ghost var v := Now();
      exhausted := false;
      p := MallocSmall(nb);
      if p == 0 {
        SystemNeeded(v, nb);
        p, exhausted := FromDvOrTop(nb);
        AllottedFromRest(v, sbrkEnd, true, nb, p, exhausted, Now());
      } else {
        AllottedFromBins(v, sbrkEnd, true, nb, p, Now());
      }
    }

    // No chunk in a tree beats dv: dv is the best there is, or nothing fits.
    lemma DvOrNothing(nb: int)
      requires Valid() && 256 <= nb
      requires treemap == 0 || forall a | a in cs && Spare(cs, DvSet(), a, cs[a].size) && nb <= cs[a].size ::
                                 nb <= dvsize <= cs[a].size
      ensures if nb <= dvsize then Least(cs, {}, dv, nb) && dv in cs && cs[dv].size == dvsize else NoneFits(cs, {}, nb)
    {
      if top != 0 && treemap == 0 { NoTrees(DvSet()); }
      if nb <= dvsize { DvIsLeast(cs, dv, dvsize, nb); } else { NoneAtAll(cs, dv, dvsize, nb); }
    }

    // A chunk from the trees, if it is better than dv
    method FromTrees(nb: int) returns (p: int)
      requires Valid() && 256 <= nb <= W32 - 56 && Multiple8(nb)
      modifies `head, `foot, `links, `smallmap, `treemap, `treebins, `cs, `sb, `tb
      ensures Valid()
      ensures p != 0 ==> Gives(old(cs), cs, p, nb) && Least(old(cs), {}, p, nb) && !(nb <= dvsize <= old(cs)[p].size)
      ensures p == 0 ==> cs == old(cs) && (NeedsSystem(Now(), nb) <==> dvsize < nb && topsize <= nb)
      ensures p == 0 ==> if nb <= dvsize then Least(cs, {}, dv, nb) && cs[dv].size == dvsize else NoneFits(cs, {}, nb)
    {
      p := 0;
      if treemap != 0 {
        if top == 0 { NoBins(); }
        p := TmallocLarge(nb);
      }
      if p == 0 {
        DvOrNothing(nb);
        if nb <= dvsize { LeastFits(cs, {}, dv, nb); }
      }
    }

    // Large requests
    method DlmallocLarge(nb: int) returns (p: int, exhausted: bool)
      requires Valid() && 256 <= nb <= W32 - 56 && Multiple8(nb)
      modifies `head, `foot, `links, `smallmap, `treemap, `treebins, `dv, `dvsize, `top, `topsize,
               `brk, `noncontiguous, `cs, `base, `sb, `tb
      ensures Valid() && Allotted(old(Now()), sbrkEnd, false, nb, p, exhausted, Now())
    {
      ghost var v := Now();
      exhausted := false;
      p := FromTrees(nb);
      if p == 0 {
        p, exhausted := FromDvOrTop(nb);
        AllottedFromRest(v, sbrkEnd, false, nb, p, exhausted, Now());
      } else {
        AllottedFromBins(v, sbrkEnd, false, nb, p, Now());
      }
    }

    // The chunk for a request. Requests beyond MAX_REQUEST are made to fail in sys_alloc.
    method DlmallocChunk(bytes: int) returns (p: int, exhausted: bool)
      requires Valid() && 0 <= bytes < W32
      modifies `head, `foot, `links, `smallmap, `treemap, `treebins, `dv, `dvsize, `top, `topsize,
               `brk, `noncontiguous, `cs, `base, `sb, `tb
      ensures Valid() && ServedBy(old(Now()), sbrkEnd, bytes, p, Now())
      ensures exhausted <==> Exhausts(old(Now()), sbrkEnd, Wanted(bytes))
    {
      AllBelow();
      if bytes <= MAX_SMALL_REQUEST {
        p, exhausted := DlmallocSmall(if bytes < 11 then 16 else PadRequest(bytes));
      } else if bytes >= MAX_REQUEST {
        p, exhausted := FromDvOrTop(MFAIL);
      } else {
        p, exhausted := DlmallocLarge(PadRequest(bytes));
      }
    }

    // The pointer to the block in that chunk
    method DlmallocBlock(bytes: int) returns (mem: int, exhausted: bool)
      requires Valid() && 0 <= bytes < W32
      modifies `head, `foot, `links, `smallmap, `treemap, `treebins, `dv, `dvsize, `top, `topsize,
               `brk, `noncontiguous, `cs, `base, `sb, `tb
      ensures Valid() && Answers(old(Now()), sbrkEnd, bytes, mem, Now())
      ensures exhausted <==> Exhausts(old(Now()), sbrkEnd, Wanted(bytes))
    {
      var p;
      p, exhausted := DlmallocChunk(bytes);
      mem := 0;
      if p != 0 {
        BlockOk(p);
        mem := p + 8;
        assert mem - 8 == p;
      }
    }

    // dlmalloc
    method Dlmalloc(bytes: int) returns (mem: int, exhausted: bool)
      requires Valid() && 0 <= bytes < W32
      modifies this
      ensures Valid() && Answers(old(Now()), sbrkEnd, bytes, mem, Now()) && Spares(old(cs), old(Contents()), Contents())
      ensures exhausted <==> Exhausts(old(Now()), sbrkEnd, Wanted(bytes))
    {
      watched, before := Clients(cs), Contents();
      AllGuarded(cs, watched, before);
      mem, exhausted := DlmallocBlock(bytes);
      GuardedSpares(old(cs), cs, watched, before, Contents());
    }

    // No chunk, and not top either, is large enough for a request that is made to fail.
    lemma AllBelow()
      requires Valid()
      ensures dvsize < MFAIL && NeedsSystem(Now(), MFAIL)
    {
      if top != 0 {
        SizesKnown(dv);
        forall a | a in cs
          ensures cs[a].size < MFAIL
        {
          SizesKnown(a);
        }
      }
    }

    lemma BlockOk(p: int)
      requires Ready() && p in cs
      ensures STATIC_END <= p && cs[p].size < MFAIL && Multiple8(p + 8)
    {
      SizesKnown(p);
      HeapOpen(head, foot, cs, base, top, topsize);
      Multiple8Sum(p, 8);
    }

    /* ---- dlfree ---- */

    // Block p is being freed: [q, e) is that block and free chunks next to it that are in no bin.
    ghost predicate Joining(p: int, q: int, e: int, excl: set<int>)
      reads this
    {
      && Sound(excl) && DvOk() && Freeing(cs, excl, p, q, e) && 16 <= e - q
      && HeadAt(head, q).pinuse && (e in cs || e == top)
      && (forall a | a in cs && q <= a < e :: a == p || a == q) && Unwatched(cs, watched, p)
    }

    // A free chunk in front of block p ends where that begins.
    lemma EndsBefore(p: int, q: int, e: int, excl: set<int>)
      requires Joining(p, q, e, excl) && q != p
      ensures Next(cs, q) <= p < e
    {
      HeapOpen(head, foot, cs, base, top, topsize);
    }

    // set_free_with_pinuse: [q, n) becomes a free chunk in front of a chunk in use.
    method SetFreeWithPinuse(q: int, size: int, n: int, ghost p: int, ghost excl: set<int>, ghost excl': set<int>)
      requires Sound(excl) && Freeing(cs, excl, p, q, n) && 16 <= n - q && HeadAt(head, q).pinuse
      requires n in cs && cs[n].used && size == n - q
      requires q in excl' && forall a | a < q || n <= a :: a in excl' <==> a in excl
      requires Unwatched(cs, watched, p)
      modifies `head, `foot, `cs
      ensures Sound(excl') && cs == Merged(old(cs), q, n)
    {
      ghost var h, f, m, c0 := head, foot, Contents(), cs;
      head := head[n := HeadAt(head, n).(pinuse := false)];
      head, foot := head[q := Head(size, true, false)], foot[q + size := size];
      MergeOk(h, f, cs, base, top, topsize, excl, p, q, n, head, foot);
      MergedBins(links, smallmap, treemap, treebins, sb, tb, cs, excl, excl', p, q, n);
      MergedFrees(cs, excl, p, q, n);
      cs := Merged(cs, q, n);
      assert Next(cs, q) == n;
      QuietFree(c0, m, p);
    }

    // set_size_and_pinuse_of_free_chunk: the same where the last chunk of [q, e) was free.
    method SetSizeAndPinuseOfFree(q: int, size: int, ghost e: int, ghost p: int, ghost excl: set<int>,
                                  ghost excl': set<int>)
      requires Sound(excl) && Freeing(cs, excl, p, q, e) && 16 <= e - q && HeadAt(head, q).pinuse
      requires e in cs && cs[e].used && size == e - q && !HeadAt(head, e).pinuse
      requires q in excl' && forall a | a < q || e <= a :: a in excl' <==> a in excl
      requires Unwatched(cs, watched, p)
      modifies `head, `foot, `cs
      ensures Sound(excl') && cs == Merged(old(cs), q, e)
    {
      ghost var f, m, c0 := foot, Contents(), cs;
      NoChange(e);
      head, foot := head[q := Head(size, true, false)], foot[q + size := size];
      MergeOk(old(head), f, cs, base, top, topsize, excl, p, q, e, head, foot);
      MergedBins(links, smallmap, treemap, treebins, sb, tb, cs, excl, excl', p, q, e);
      MergedFrees(cs, excl, p, q, e);
      cs := Merged(cs, q, e);
      assert Next(cs, q) == e;
      QuietFree(c0, m, p);
    }

    lemma NoChange(e: int)
      requires HeapOk(head, foot, cs, base, top, topsize) && e in cs && !HeadAt(head, e).pinuse
      ensures head[e := HeadAt(head, e).(pinuse := false)] == head
    {
      HeapOpen(head, foot, cs, base, top, topsize);
      assert 16 <= HeadAt(head, e).size;
    }

    // What the head word of the chunk behind block p tells
    lemma NextHead(p: int)
      requires HeapOk(head, foot, cs, base, top, topsize) && p in cs && cs[p].used
      ensures var n := Next(cs, p);
              (n in cs || n == top) && top !in cs && HeadAt(head, n).pinuse
                && (HeadAt(head, n).cinuse <==> n in cs && cs[n].used)
      ensures forall a | a in cs && p <= a < Next(cs, p) :: a == p
      ensures 16 <= cs[p].size == HeadAt(head, p).size
    {
      HeapOpen(head, foot, cs, base, top, topsize);
      assert top in cs ==> top < top;
    }

    // The free chunk in front of p
    lemma PreviousOf(p: int)
      requires HeapOk(head, foot, cs, base, top, topsize) && p in cs && !HeadAt(head, p).pinuse
      ensures var q := p - Rd(foot, p);
              q in cs && !cs[q].used && Next(cs, q) == p && q < p && HeadAt(head, q).pinuse
              && cs[q] == Chunk(Rd(foot, p), false) && forall a | a in cs && q <= a < p :: a == q
    {
      HeapOpen(head, foot, cs, base, top, topsize);
      BackStep(head, foot, cs, base, top, topsize, p);
      FollowsUsed(head, foot, cs, base, top, topsize, p - Rd(foot, p));
    }

    lemma StartAlone(p: int)
      requires Ready() && p in cs && cs[p].used && HeadAt(head, p).pinuse && Unwatched(cs, watched, p)
      ensures Joining(p, p, Next(cs, p), DvSet())
    {
      NextHead(p);
    }

    lemma StartWithPrevious(p: int, q: int, excl: set<int>)
      requires Sound(excl) && DvOk() && p in cs && cs[p].used && p !in excl && !HeadAt(head, p).pinuse
      requires q == p - Rd(foot, p) && q in excl && Unwatched(cs, watched, p)
      ensures Joining(p, q, Next(cs, p), excl)
    {
      NextHead(p);
      PreviousOf(p);
    }

    // Consolidate backward, first case: the free chunk in front leaves its bin.
    method UnlinkPrevious(p: int, q: int, prevsize: int)
      requires Ready() && p in cs && cs[p].used && !HeadAt(head, p).pinuse && q == p - prevsize
      requires prevsize == Rd(foot, p) && q != dv && Unwatched(cs, watched, p)
      modifies `links, `smallmap, `treemap, `treebins, `sb, `tb
      ensures Joining(p, q, Next(cs, p), DvSet() + {q})
    {
      PreviousOf(p);
      UnlinkChunk(q, prevsize, DvSet());
      StartWithPrevious(p, q, DvSet() + {q});
    }

    // Second case: the block joins dv, and the next chunk is in use.
    method FreeIntoDv(p: int, q: int, psize: int, next: int)
      requires Ready() && Joining(p, q, next, DvSet()) && q == dv && psize == next - q && next in cs && cs[next].used
      modifies `head, `foot, `dvsize, `cs
      ensures Ready() && Frees(old(cs), cs, p) && DvKept(old(Now()), Now())
    {
      ghost var excl := DvSet();
      EndsBefore(p, q, next, excl);
      MergedFrees(cs, excl, p, q, next);
      dvsize := psize;
      SetFreeWithPinuse(q, psize, next, p, excl, excl);
    }

    // The chunks from q on join top.
    method LowerTop(q: int, psize: int, ghost p: int, ghost excl: set<int>, ghost excl': set<int>)
      requires Sound(excl) && Freeing(cs, excl, p, q, top) && HeadAt(head, q).pinuse && psize == top - q
      requires (forall a | a < q :: a in excl' <==> a in excl) && Unwatched(cs, watched, p)
      modifies `head, `top, `topsize, `cs
      ensures Sound(excl') && cs == Lower(old(cs), q) && top == q && topsize == old(topsize) + psize
    {
      ghost var h, t, z, m, c0, cs' := head, top, topsize, Contents(), cs, Lower(cs, q);
      TopLast();
      LowerFrees(cs, excl, top, p, q);
      topsize := topsize + psize;
      top := q;
      head := head[q := Head(topsize, true, false)];
      JoinTop(h, foot, cs, base, t, z, q, head, cs');
      LowerBins(links, smallmap, treemap, treebins, sb, tb, cs, excl, excl', t, p, q);
      cs := cs';
      QuietFree(c0, m, p);
    }

    // Consolidate forward, first case: everything joins top.
    method FreeIntoTop(p: int, q: int, psize: int, ghost excl: set<int>)
      requires Joining(p, q, top, excl) && psize == top - q
      requires excl == DvSet() + (if q == p then {} else {q})
      modifies `head, `top, `topsize, `dv, `dvsize, `cs
      ensures Ready() && Frees(old(cs), cs, p) && DvKept(old(Now()), Now()) && TopLower(old(Now()), Now())
    {
      ghost var d := if q == dv then {} else DvSet();
      TopLast();
      LowerFrees(cs, excl, top, p, q);
      LowerTop(q, psize, p, excl, d);
      if q == dv {
        dv := 0;
        dvsize := 0;
      }
    }

    // Second case: the next chunk is dv.
    method FreeIntoNextDv(p: int, q: int, psize: int, ghost excl: set<int>)
      requires Joining(p, q, dv, excl) && psize == dv - q && dvsize != 0 && q != dv
      requires excl == DvSet() + (if q == p then {} else {q})
      modifies `head, `foot, `dv, `dvsize, `cs
      ensures Ready() && Frees(old(cs), cs, p) && DvKept(old(Now()), Now())
    {
      ghost var e := Next(cs, dv);
      FreeNext(dv);
      MergedFrees(cs, excl, p, q, e);
      var dsize := dvsize + psize;
      dvsize := dsize;
      dv := q;
      SetSizeAndPinuseOfFree(q, dsize, e, p, excl, {q});
    }

    // Third case: the next chunk is free and in a bin. It leaves the bin, and its room is added.
    method JoinNext(p: int, q: int, psize: int, next: int, ghost excl: set<int>) returns (psize': int)
      requires Joining(p, q, next, excl) && psize == next - q && next in cs && !cs[next].used && next != dv
      requires excl == DvSet() + (if q == p then {} else {q})
      modifies `head, `foot, `links, `smallmap, `treemap, `treebins, `cs, `sb, `tb
      ensures Sound(DvSet() + {q}) && Frees(old(cs), cs, p)
      ensures q in cs && cs[q] == Chunk(psize', false) && (dv != q ==> DvOk()) && psize <= psize'
    {
      FreeNext(next);
      var nsize := HeadAt(head, next).size;
      psize' := psize + nsize;
      UnlinkChunk(next, nsize, excl);
      AddNext(p, q, psize', next, excl + {next});
    }

    method AddNext(p: int, q: int, size: int, ghost next: int, ghost excl: set<int>)
      requires Sound(excl) && DvOk() && Freeing(cs, excl, p, q, next) && HeadAt(head, q).pinuse
      requires next in cs && !cs[next].used && next != dv && (forall a | a in cs && q <= a < next :: a == p || a == q)
      requires size == Next(cs, next) - q && next in excl && next !in DvSet()
      requires (forall a | a != q && a != next :: a in excl <==> a in DvSet()) && Unwatched(cs, watched, p)
      modifies `head, `foot, `cs
      ensures Sound(DvSet() + {q}) && Frees(old(cs), cs, p)
      ensures q in cs && cs[q] == Chunk(size, false) && (dv != q ==> DvOk())
    {
      ghost var e := Next(cs, next);
      FreeNext(next);
      MergedFrees(cs, excl, p, q, e);
      SetSizeAndPinuseOfFree(q, size, e, p, excl, DvSet() + {q});
    }

    // Last case: the next chunk is in use.
    method JoinNothing(p: int, q: int, psize: int, next: int, ghost excl: set<int>)
      requires Joining(p, q, next, excl) && psize == next - q && next in cs && cs[next].used && q != dv
      requires excl == DvSet() + (if q == p then {} else {q})
      modifies `head, `foot, `cs
      ensures Sound(DvSet() + {q}) && DvOk() && Frees(old(cs), cs, p)
      ensures q in cs && cs[q] == Chunk(psize, false)
    {
      MergedFrees(cs, excl, p, q, next);
      SetFreeWithPinuse(q, psize, next, p, excl, DvSet() + {q});
    }

    // Consolidate forward with a free chunk or top; if a chunk comes out of it that is not dv, it is
    // still to be binned.
    method ForwardFree(p: int, q: int, psize: int, next: int, ghost excl: set<int>) returns (size: int, done: bool)
      requires Joining(p, q, next, excl) && psize == next - q && next == Next(cs, p)
      requires excl == DvSet() + (if q == p then {} else {q})
      requires next == top || (next in cs && !cs[next].used)
      modifies `head, `foot, `links, `smallmap, `treemap, `treebins, `dv, `dvsize, `top, `topsize, `cs, `sb, `tb
      ensures Frees(old(cs), cs, p) && TopLower(old(Now()), Now()) && DvKept(old(Now()), Now()) && (done ==> Ready())
      ensures !done ==> Sound(DvSet() + {q}) && DvOk() && q in cs && cs[q] == Chunk(size, false) && q != dv
    {
      size, done := psize, true;
      if next == top {
        FreeIntoTop(p, q, psize, excl);
      } else if next == dv {
        FreeIntoNextDv(p, q, psize, excl);
      } else {
        if q != p { EndsBefore(p, q, next, excl); }
        size := JoinNext(p, q, psize, next, excl);
        SizesKnown(q);
        done := q == dv;
        if done {
          assert DvSet() + {q} == {q};
          dvsize := size;
        }
      }
    }

    // Consolidate forward, if there is something to consolidate with.
    method ForwardAny(p: int, q: int, psize: int, next: int, ghost excl: set<int>) returns (size: int, done: bool)
      requires Joining(p, q, next, excl) && psize == next - q && next == Next(cs, p)
      requires excl == DvSet() + (if q == p then {} else {q})
      requires q == dv ==> next !in cs || !cs[next].used
      modifies `head, `foot, `links, `smallmap, `treemap, `treebins, `dv, `dvsize, `top, `topsize, `cs, `sb, `tb
      ensures Frees(old(cs), cs, p) && TopLower(old(Now()), Now()) && DvKept(old(Now()), Now()) && (done ==> Ready())
      ensures !done ==> Sound(DvSet() + {q}) && DvOk() && q in cs && cs[q] == Chunk(size, false) && q != dv
    {
      NextHead(p);
      size, done := psize, false;
      if !HeadAt(head, next).cinuse {
        size, done := ForwardFree(p, q, psize, next, excl);
      } else {
        JoinNothing(p, q, psize, next, excl);
      }
    }

    // Consolidate forward, and bin what comes out of it unless it is dv or top.
    method Forward(p: int, q: int, psize: int, next: int, ghost excl: set<int>)
      requires Joining(p, q, next, excl) && psize == next - q && next == Next(cs, p)
      requires excl == DvSet() + (if q == p then {} else {q})
      requires q == dv ==> next !in cs || !cs[next].used
      modifies `head, `foot, `links, `smallmap, `treemap, `treebins, `dv, `dvsize, `top, `topsize, `cs, `sb, `tb
      ensures Ready() && Frees(old(cs), cs, p) && TopLower(old(Now()), Now()) && DvKept(old(Now()), Now())
    {
      var size, done := ForwardAny(p, q, psize, next, excl);
      if !done {
        InsertChunk(q, size, DvSet());
      }
    }

    // The chunk in front of block p is free.
    method FreeWithPrevious(p: int, psize: int, next: int)
      requires Ready() && p in cs && cs[p] == Chunk(psize, true) && next == p + psize && !HeadAt(head, p).pinuse
      requires Unwatched(cs, watched, p)
      modifies `head, `foot, `links, `smallmap, `treemap, `treebins, `dv, `dvsize, `top, `topsize, `cs, `sb, `tb
      ensures Ready() && Frees(old(cs), cs, p) && TopLower(old(Now()), Now()) && DvKept(old(Now()), Now())
    {
      NextHead(p);
      PreviousOf(p);
      var prevsize := Rd(foot, p);
      var q := p - prevsize;
      if q != dv {
        UnlinkPrevious(p, q, prevsize);
        Forward(p, q, psize + prevsize, next, DvSet() + {q});
      } else {
        assert DvSet() == DvSet() + {q};
        StartWithPrevious(p, q, DvSet());
        if HeadAt(head, next).cinuse && HeadAt(head, next).pinuse {
          FreeIntoDv(p, q, psize + prevsize, next);
        } else {
          Forward(p, q, psize + prevsize, next, DvSet());
        }
      }
    }

    method FreeBlock(mem: int)
      requires Ready() && mem - 8 in cs && cs[mem - 8].used && Unwatched(cs, watched, mem - 8)
      modifies `head, `foot, `links, `smallmap, `treemap, `treebins, `dv, `dvsize, `top, `topsize, `cs, `sb, `tb
      ensures Ready() && Freed(old(Now()), Now(), mem - 8)
    {
      var p := mem - 8;
      NextHead(p);
      var psize := HeadAt(head, p).size;
      var next := p + psize;
      if !HeadAt(head, p).pinuse {
        FreeWithPrevious(p, psize, next);
      } else {
        StartAlone(p);
        Forward(p, p, psize, next, DvSet());
      }
    }

    method FreeNotNull(mem: int)
      requires Ready() && mem - 8 in cs && cs[mem - 8].used
      modifies `head, `foot, `links, `smallmap, `treemap, `treebins, `dv, `dvsize, `top, `topsize, `cs, `sb, `tb,
               `watched, `before
      ensures Ready() && Freed(old(Now()), Now(), mem - 8) && Spares(cs, old(Contents()), Contents())
    {
      ghost var c0, b0, t0 := cs, base, top;
      assert Tiled(c0, b0, t0) by { HeapOpen(head, foot, cs, base, top, topsize); }
      watched, before := ClientsBut(cs, mem - 8), Contents();
      AllGuarded(cs, watched, before);
      FreeBlock(mem);
      OthersWatched(c0, cs, b0, t0, mem - 8);
      GuardedSpares(cs, cs, watched, before, Contents());
    }

    // dlfree
    method Dlfree(mem: int)
      requires Valid() && (mem == 0 || (mem - 8 in cs && cs[mem - 8].used))
      modifies this
      ensures Valid()
      ensures if mem == 0 then Now() == old(Now()) && Contents() == old(Contents())
              else Freed(old(Now()), Now(), mem - 8)
      ensures Spares(cs, old(Contents()), Contents())
    {
      if mem == 0 { return; }
      FreeNotNull(mem);
      StillInUse();
    }

    lemma StillInUse()
      requires Ready()
      ensures top != 0
    {
    }

    /* ---- whole runs ---- */

    // The zeroed static state; the linker places the region for sbrk above it.
    constructor (start: int, end: int)
      requires STATIC_END <= start <= end < W32 && Multiple8(start)
      ensures Valid() && cs == map[] && top == 0
      ensures Contents() == Image(map[], map[], Links(map[], map[], map[], map[], map[], map[]))
    {
      head, foot := map[], map[];
      links := Links(map[], map[], map[], map[], map[], map[]);
      smallmap, treemap, treebins := 0, 0, seq(32, i => 0);
      dv, dvsize, top, topsize := 0, 0, 0, 0;
      brk, noncontiguous, sbrkStart, sbrkEnd := start, false, start, end;
      cs, base, sb, tb := map[], 0, seq(32, i => []), seq(32, i => Nil);
      watched, before := iset{}, Image(map[], map[], Links(map[], map[], map[], map[], map[], map[]));
      new;
      ZeroMap(0);
      forall i | 0 <= i < 32
        ensures SmallBinOk(links, Marked(smallmap, i), sb[i], i)
        ensures TreeBinOk(links, Marked(treemap, i), treebins[i], tb[i], i)
      {
        assert !Marked(0, i);
      }
    }

    // Once every block has been freed the segment is a single top chunk, there is no dv, and the
    // bins are empty.
    lemma AllFreed()
      requires Ready() && forall a | a in cs :: !cs[a].used
      ensures cs == map[] && top == base && topsize + TOP_FOOT_SIZE == brk - base
      ensures dv == 0 && dvsize == 0 && smallmap == 0 && treemap == 0
      ensures forall i | 0 <= i < 32 :: treebins[i] == 0
    {
      HeapOpen(head, foot, cs, base, top, topsize);
      AllFree(cs, base, top);
      NoChunks(links, smallmap, treemap, treebins, sb, tb, cs, DvSet());
    }

    // A client stores a word at address x, inside its block a. Every field that would be read from
    // that address changes with it, and the allocator's invariant stands.
    method StoreWord(ghost a: int, x: int, w: int)
      requires Valid() && InPayload(cs, a, x)
      modifies `head, `foot, `links, `watched
      ensures Valid() && Contents() == WithWord(old(Contents()), x, w)
    {
      ghost var m := Contents();
      head, foot := head[x - 4 := OfWord(w)], foot[x := w];
      links := Links(links.fd[x - 8 := w], links.bk[x - 12 := w], links.child0[x - 16 := w], links.child1[x - 20 := w],
                     links.parent[x - 24 := w], links.index[x - 28 := w]);
      watched := iset{};
      NoneGuarded(cs, before, Contents());
      WordStored(cs, a, x, w, m);
      HeapSurvives(cs, base, top, topsize, a, m, Contents());
      BinsSurvive(cs, base, top, topsize, a, m, Contents(), smallmap, treemap, treebins, sb, tb, DvSet());
    }

    // A client loads a word of its block.
    method LoadWord(x: int) returns (w: int)
      ensures w == Rd(foot, x)
    {
      w := Rd(foot, x);
    }

    // Nothing but top is left of the segment, and the bins are empty.
    ghost predicate Pristine()
      reads this
    {
      && cs == map[] && dv == 0 && dvsize == 0 && smallmap == 0 && treemap == 0
      && (top != 0 ==> top == base && topsize + TOP_FOOT_SIZE == brk - base)
    }
  }

  // What giving out the bottom of top does to the heap, and to the words that are to stay
  lemma TopSplit(m: Image, cs: Chunks, base: int, top: int, topsize: int, nb: int, watch: iset<int>, was: Image)
    requires HeapOk(m.head, m.foot, cs, base, top, topsize) && 16 <= nb < topsize && Multiple8(nb)
    requires Guarded(cs, watch, was, m)
    ensures var m' := m.(head := m.head[top + nb := Head(topsize - nb, true, false)][top := Head(nb, true, true)]);
            && HeapOk(m'.head, m'.foot, cs[top := Chunk(nb, true)], base, top + nb, topsize - nb)
            && Guarded(cs[top := Chunk(nb, true)], watch, was, m') && top !in cs
  {
    var m' := m.(head := m.head[top + nb := Head(topsize - nb, true, false)][top := Head(nb, true, true)]);
    var cs' := cs[top := Chunk(nb, true)];
    TakeTop(m.head, m.foot, cs, base, top, topsize, nb, m'.head);
    GuardedGrown(cs, cs', watch, was, m);
    TagsSpared(cs', base, top + nb, topsize - nb, m, m');
    GuardedOn(cs', watch, was, m, m');
  }

  // insert_large_chunk on the links, the map and the root of one tree
  method LinkLarge(L: Links, head: map<int, Head>, treemap: binmap, root: int, x: int, s: int, i: nat, ghost t: Tree)
    returns (M: Links, treemap': binmap, root': int)
    requires 256 <= s < W32 && i == TreeBin(s) < 32 && x != 0 && x !in Addrs(t)
    requires TreeBinOk(L, Marked(treemap, i), root, t, i) && SizesStored(head, t)
    ensures Rep(M, Insert(t, x, s, BinLow(i), BinBits(i)), root', TreeBinAt(i))
    ensures TouchedTree(L, M, t, x) && Rd(M.index, x) == i
    ensures forall a | a != x :: Rd(M.index, a) == Rd(L.index, a)
    ensures forall j | 0 <= j < 32 :: Marked(treemap', j) <==> j == i || Marked(treemap, j)
  {
    treemap', root' := treemap, root;
    var marked := IsMarked(treemap, i);
    if !marked {
      treemap' := Mark(treemap, i);
      root' := x;
      M := LinkFirst(L, x, s, i, TreeBinAt(i));
    } else {
      M := LinkInto(L, head, root, x, s, i, TreeBinAt(i), t);
    }
  }

  // unlink_large_chunk on the links, the map and the root of one tree
  method UnlinkLarge(L: Links, treemap: binmap, root: int, x: int, i: nat, ghost t: Tree)
    returns (M: Links, treemap': binmap, root': int)
    requires i < 32 && x in Addrs(t) && (forall a | a in Addrs(t) :: STATIC_END <= a)
    requires TreeBinOk(L, Marked(treemap, i), root, t, i)
    ensures Rep(M, Remove(t, x), root', TreeBinAt(i)) && M.index == L.index
    ensures TouchedTree(L, M, t, x)
    ensures forall j | 0 <= j < 32 :: Marked(treemap', j) <==> (j != i || root' != 0) && Marked(treemap, j)
  {
    M, root' := Unlink(L, root, x, TreeBinAt(i), t);
    treemap' := treemap;
    RemovedOk(L, M, t, root, root', i, x);
    if x == root && root' == 0 {
      treemap' := Clear(treemap, i);
    }
  }
}
