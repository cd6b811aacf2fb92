// Blocks that are resized in place or moved, and blocks at aligned addresses.
module Resizing {
  import opened Words
  import opened BinMap
  import opened Rings
  import opened HeadWords
  import opened Trie
  import opened Tiling
  import opened Bins
  import opened Heap
  import opened Policy
  import opened Requests
  import opened Merging
  import opened Memory
  import opened Dlmalloc

  // From cs to cs', the block at p becomes the block at q (p itself, or a new one), large enough for nb
  // bytes but not by a whole chunk larger; the other blocks in use stay as they are.
  ghost predicate Resizes(cs: Chunks, cs': Chunks, p: int, q: int, nb: int) {
    && q in cs' && Live(cs', q, cs'[q].size) && nb <= cs'[q].size < nb + 16
    && (q != p && q in cs ==> !cs[q].used)
    && forall a, z {:trigger Live(cs', a, z)} {:trigger Live(cs, a, z)} | a != q ::
         Live(cs', a, z) <==> Live(cs, a, z) && a != p
  }

  // From cs to cs', chunk q comes into use, with room for nb bytes and at most one smallest chunk more.
  ghost predicate Places(cs: Chunks, cs': Chunks, q: int, nb: int) {
    && q in cs' && Live(cs', q, cs'[q].size) && nb <= cs'[q].size <= nb + 16
    && (q in cs ==> !cs[q].used)
    && forall a, z {:trigger Live(cs', a, z)} {:trigger Live(cs, a, z)} | a != q :: Live(cs', a, z) <==> Live(cs, a, z)
  }

  // The chunks after the block at p has been cut in two, both of them in use
  function Cutting(cs: Chunks, p: int, nb: int): Chunks
    requires p in cs
  {
    cs[p := Chunk(nb, true)][p + nb := Chunk(cs[p].size - nb, true)]
  }

  // From v to v', the block at p (0: none) is freed.
  ghost predicate Released(v: View, v': View, p: int) {
    if p == 0 then v' == v else Freed(v, v', p)
  }

  /* ---- the heap ---- */

  // set_inuse
  function SetInuse(head: map<int, Head>, p: int, s: int): map<int, Head> {
    var head' := head[p := Head(s, HeadAt(head, p).pinuse, true)];
    head'[p + s := HeadAt(head', p + s).(pinuse := true)]
  }

  // The head words around a block of that size that is cut in two
  ghost predicate HeadsCut(head: map<int, Head>, head': map<int, Head>, p: int, nb: int, size: int) {
    && HeadAt(head', p) == Head(nb, HeadAt(head, p).pinuse, true)
    && HeadAt(head', p + nb) == Head(size - nb, true, true)
    && HeadAt(head', p + size) == HeadAt(head, p + size).(pinuse := true)
    && forall a | a != p && a != p + nb && a != p + size :: HeadAt(head', a) == HeadAt(head, a)
  }

  // It does not matter in which order the parts are marked.
  lemma EitherOrder(head: map<int, Head>, p: int, nb: int, size: int)
    requires 0 < nb < size
    ensures HeadsCut(head, SetInuse(SetInuse(head, p, nb), p + nb, size - nb), p, nb, size)
    ensures HeadsCut(head, SetInuse(SetInuse(head, p + nb, size - nb), p, nb), p, nb, size)
  {
  }

  // A block in use is cut in two.
  lemma CutInUse(head: map<int, Head>, foot: map<int, int>, cs: Chunks, base: int, top: int, topsize: int,
                 p: int, nb: int, head': map<int, Head>)
    requires HeapOk(head, foot, cs, base, top, topsize) && p in cs && cs[p].used
    requires 16 <= nb <= cs[p].size - 16 && Multiple8(nb) && HeadsCut(head, head', p, nb, cs[p].size)
    ensures HeapOk(head', foot, Cutting(cs, p, nb), base, top, topsize)
    ensures p + nb !in cs
  {
    HeapOpen(head, foot, cs, base, top, topsize);
    var e, m := Next(cs, p), p + nb;
    var cs' := cs[p := Chunk(nb, true)][m := Chunk(cs[p].size - nb, true)];
    assert e <= top;
    TwoChunks(cs, cs', base, top, p, m, e, true, true);
    TwoChunksTags(head, foot, cs, base, top, topsize, p, m, e, true, true, head', foot, cs');
    Multiple8Sum(p, nb);
    Multiple8Sum(cs[p].size, nb);
    StillCoalesced(cs, cs');
  }

  // A block in front of top grows into it.
  lemma GrowInUse(head: map<int, Head>, foot: map<int, int>, cs: Chunks, base: int, top: int, topsize: int,
                  p: int, nb: int, head': map<int, Head>)
    requires HeapOk(head, foot, cs, base, top, topsize) && p in cs && cs[p].used && Next(cs, p) == top
    requires cs[p].size < nb < cs[p].size + topsize && Multiple8(nb)
    requires HeadAt(head', p) == Head(nb, HeadAt(head, p).pinuse, true)
    requires HeadAt(head', p + nb) == Head(cs[p].size + topsize - nb, true, false)
    requires forall a | a != p && a != p + nb :: HeadAt(head', a) == HeadAt(head, a)
    ensures HeapOk(head', foot, cs[p := Chunk(nb, true)], base, p + nb, cs[p].size + topsize - nb)
  {
    HeapOpen(head, foot, cs, base, top, topsize);
    var size := cs[p].size + topsize;
    var low, h := Lower(cs, p), head[p := Head(size, HeadAt(head, p).pinuse, false)];
    TopDown(cs, low, base, top, p);
    TopDownTags(head, foot, cs, base, top, topsize, p, size, h, low);
    TopUp(low, base, p, nb, true);
    TopUpTags(h, foot, low, base, p, size, nb, size - nb, head');
    var cs' := cs[p := Chunk(nb, true)];
    assert cs' == low[p := Chunk(nb, true)] by {
      assert forall a | a in cs && a > p :: Next(cs, p) <= a;
    }
    Multiple8Sum(p, nb);
    Multiple8Sum(cs[p].size, topsize);
    Multiple8Sum(size, nb);
    StillCoalesced(cs, cs');
  }

  // The bins are not concerned by what happens to blocks in use.
  lemma UsedOnly(L: Links, smallmap: binmap, treemap: binmap, treebins: seq<int>, sb: seq<seq<int>>, tb: seq<Tree>,
                 cs: Chunks, excl: set<int>, cs': Chunks, p: int)
    requires BinsOk(L, smallmap, treemap, treebins, sb, tb, cs, excl) && p in cs
    requires forall a | a in cs' && !(a in cs && cs'[a] == cs[a]) :: cs'[a].used && p <= a
    requires forall a | a in cs && !cs[a].used :: a in cs' && cs'[a] == cs[a]
    ensures BinsOk(L, smallmap, treemap, treebins, sb, tb, cs', excl)
  {
    Refile(cs, excl, cs', excl, sb, tb);
  }

  /* ---- realloc ---- */

  // The block at p becomes two, with head words that say so.
  method CutAt(m: MallocState, p: int, nb: int, head': map<int, Head>)
    requires m.Ready() && p in m.cs && m.cs[p].used && 16 <= nb <= m.cs[p].size - 16 && Multiple8(nb)
    requires HeadsCut(m.head, head', p, nb, m.cs[p].size)
    modifies m`head, m`cs, m`watched
    ensures m.Ready() && p + nb !in old(m.cs) && Spares(m.cs, old(m.Contents()), m.Contents())
    ensures m.cs == Cutting(old(m.cs), p, nb)
  {
    ghost var cs' := Cutting(m.cs, p, nb);
    CutInUse(m.head, m.foot, m.cs, m.base, m.top, m.topsize, p, nb, head');
    UsedOnly(m.links, m.smallmap, m.treemap, m.treebins, m.sb, m.tb, m.cs, m.DvSet(), cs', p);
    CutSpares(m.head, m.foot, m.links, m.cs, m.base, m.top, m.topsize, p, nb, head');
    m.watched := iset{};
    m.head := head';
    m.cs := cs';
    NoneGuarded(m.cs, m.before, m.Contents());
  }

  lemma CutSpares(head: map<int, Head>, foot: map<int, int>, L: Links, cs: Chunks, base: int, top: int, topsize: int,
                  p: int, nb: int, head': map<int, Head>)
    requires HeapOk(head, foot, cs, base, top, topsize) && p in cs && HeadsCut(head, head', p, nb, cs[p].size)
    requires HeapOk(head', foot, Cutting(cs, p, nb), base, top, topsize)
    ensures Spares(Cutting(cs, p, nb), Image(head, foot, L),
                   Image(head', foot, L))
  {
    HeapOpen(head, foot, cs, base, top, topsize);
    assert Next(cs, p) in cs || Next(cs, p) == top;
    TagsSpared(Cutting(cs, p, nb), base, top, topsize,
               Image(head, foot, L), Image(head', foot, L));
  }

  // The same with set_inuse for both parts; lower says which of them comes first.
  method Cut(m: MallocState, p: int, nb: int, lower: bool) returns (r: int)
    requires m.Ready() && p in m.cs && m.cs[p].used && 16 <= nb <= m.cs[p].size - 16 && Multiple8(nb)
    modifies m`head, m`cs, m`watched
    ensures m.Ready() && r == p + nb && r !in old(m.cs) && Spares(m.cs, old(m.Contents()), m.Contents())
    ensures m.cs == Cutting(old(m.cs), p, nb)
  {
    m.NextHead(p);
    var size := HeadAt(m.head, p).size;
    r := p + nb;
    var head := if lower then SetInuse(SetInuse(m.head, p, nb), r, size - nb)
                else SetInuse(SetInuse(m.head, r, size - nb), p, nb);
    EitherOrder(m.head, p, nb, size);
    CutAt(m, p, nb, head);
  }

  lemma GrowSpares(head: map<int, Head>, foot: map<int, int>, L: Links, cs: Chunks, base: int, top: int, topsize: int,
                   p: int, nb: int, head': map<int, Head>)
    requires HeapOk(head, foot, cs, base, top, topsize) && p in cs && cs[p].used && Next(cs, p) == top
    requires cs[p].size < nb < cs[p].size + topsize && Multiple8(nb)
    requires HeadAt(head', p) == Head(nb, HeadAt(head, p).pinuse, true)
    requires HeadAt(head', p + nb) == Head(cs[p].size + topsize - nb, true, false)
    requires forall a | a != p && a != p + nb :: HeadAt(head', a) == HeadAt(head, a)
    ensures HeapOk(head', foot, cs[p := Chunk(nb, true)], base, p + nb, cs[p].size + topsize - nb)
    ensures Spares(cs[p := Chunk(nb, true)], Image(head, foot, L), Image(head', foot, L))
  {
    GrowInUse(head, foot, cs, base, top, topsize, p, nb, head');
    TagsSpared(cs[p := Chunk(nb, true)], base, p + nb, cs[p].size + topsize - nb, Image(head, foot, L),
               Image(head', foot, L));
  }

  lemma GrownHeads(head: map<int, Head>, p: int, nb: int, rest: int)
    requires nb > 0
    ensures var head' := SetInuse(head, p, nb)[p + nb := Head(rest, true, false)];
            && HeadAt(head', p) == Head(nb, HeadAt(head, p).pinuse, true)
            && HeadAt(head', p + nb) == Head(rest, true, false)
            && forall a | a != p && a != p + nb :: HeadAt(head', a) == HeadAt(head, a)
  {
  }

  // The state after the block at p has been extended into top
  function Extended(v: View, p: int, nb: int): View {
    v.(cs := v.cs[p := Chunk(nb, true)], top := p + nb, topsize := v.top + v.topsize - (p + nb))
  }

  // The block at p is extended into top.
  method Extend(m: MallocState, p: int, nb: int)
    requires m.Ready() && p in m.cs && m.cs[p].used && Next(m.cs, p) == m.top && Multiple8(nb)
    requires m.cs[p].size < nb < m.cs[p].size + m.topsize
    modifies m`head, m`top, m`topsize, m`cs, m`watched
    ensures m.Ready() && m.Now() == Extended(old(m.Now()), p, nb) && Spares(m.cs, old(m.Contents()), m.Contents())
  {
    m.NextHead(p);
    var newsize := HeadAt(m.head, p).size + m.topsize;
    var newtopsize := newsize - nb;
    var head := SetInuse(m.head, p, nb)[p + nb := Head(newtopsize, true, false)];
    GrownHeads(m.head, p, nb, newtopsize);
    GrowSpares(m.head, m.foot, m.links, m.cs, m.base, m.top, m.topsize, p, nb, head);
    ExtendTo(m, p, nb, newtopsize, head);
  }

  method ExtendTo(m: MallocState, p: int, nb: int, newtopsize: int, head': map<int, Head>)
    requires m.Ready() && p in m.cs && m.cs[p].used && newtopsize == m.top + m.topsize - (p + nb)
    requires HeapOk(head', m.foot, m.cs[p := Chunk(nb, true)], m.base, p + nb, newtopsize)
    modifies m`head, m`top, m`topsize, m`cs, m`watched
    ensures m.Ready() && m.head == head' && m.Now() == Extended(old(m.Now()), p, nb)
  {
    ghost var cs' := m.cs[p := Chunk(nb, true)];
    UsedOnly(m.links, m.smallmap, m.treemap, m.treebins, m.sb, m.tb, m.cs, m.DvSet(), cs', p);
    m.head, m.top, m.topsize, m.watched, m.cs := head', p + nb, newtopsize, iset{}, cs';
    NoneGuarded(m.cs, m.before, m.Contents());
  }

  // The block at p is resized where it is: extended into top, or cut, and the rest is freed, if that makes
  // a chunk, or left as it is.
  ghost predicate ResizedHere(v: View, p: int, nb: int, v': View)
    requires p in v.cs
  {
    if v.cs[p].size < nb then v' == Extended(v, p, nb)
    else if v.cs[p].size < nb + 16 then v' == v
    else Freed(v.(cs := Cutting(v.cs, p, nb)), v', p + nb)
  }

  // The block at p is large enough. What is too much is given back, if it makes a chunk.
  method Shrink(m: MallocState, p: int, nb: int)
    requires m.Valid() && p in m.cs && m.cs[p].used && 16 <= nb <= m.cs[p].size && Multiple8(nb)
    modifies m
    ensures m.Valid() && Resizes(old(m.cs), m.cs, p, p, nb) && ResizedHere(old(m.Now()), p, nb, m.Now())
    ensures Spares(m.cs, old(m.Contents()), m.Contents())
  {
    m.NextHead(p);
    var rsize := HeadAt(m.head, p).size - nb;
    if rsize >= 16 {
      var r := Cut(m, p, nb, true);
      m.StillInUse();
      ghost var cs, i := m.cs, m.Contents();
      m.Dlfree(r + 8);
      assert r + 8 - 8 == r;
      ShrinkOk(old(m.cs), cs, m.cs, p, nb);
      SparesFewer(m.cs, cs, old(m.Contents()), i);
      SparesOn(m.cs, old(m.Contents()), i, m.Contents());
    }
  }

  lemma ShrinkOk(cs: Chunks, cs': Chunks, cs'': Chunks, p: int, nb: int)
    requires p in cs && cs[p].used && p + nb !in cs && 0 < nb
    requires cs' == Cutting(cs, p, nb) && Frees(cs', cs'', p + nb)
    ensures Resizes(cs, cs'', p, p, nb)
  {
    assert Live(cs', p, nb);
  }

  // The block at p can be made large enough where it is.
  ghost predicate InPlace(v: View, p: int, nb: int)
    requires p in v.cs
  {
    nb <= v.cs[p].size || (Next(v.cs, p) == v.top && nb < v.cs[p].size + v.topsize)
  }

  // A request to resize a block is refused: it is too large, or it cannot be met in place and not
  // elsewhere either.
  ghost predicate NotResized(v: View, end: int, p: int, bytes: nat)
    requires p in v.cs
  {
    bytes >= MAX_REQUEST || (!InPlace(v, p, Wanted(bytes)) && Refused(v, end, Wanted(bytes)))
  }

  // What resizing the block at oldmem does: in place if that is possible, and otherwise the block is
  // moved, as malloc prescribes.
  ghost predicate Resized(v: View, end: int, oldmem: int, bytes: nat, mem: int, v': View)
    requires oldmem - 8 in v.cs
  {
    && (mem == oldmem <==> bytes < MAX_REQUEST && InPlace(v, oldmem - 8, Wanted(bytes)))
    && (mem == 0 <==> NotResized(v, end, oldmem - 8, bytes))
    && (mem != 0 ==> Multiple8(mem) && Resizes(v.cs, v'.cs, oldmem - 8, mem - 8, Wanted(bytes)))
    && if bytes >= MAX_REQUEST then v' == v
       else if InPlace(v, oldmem - 8, Wanted(bytes)) then ResizedHere(v, oldmem - 8, Wanted(bytes), v')
       else exists w :: Moved(v, end, oldmem, bytes, mem, w, v')
  }

  // What a request for a new block makes of v is w, and from w to v' the old block is freed, if there is
  // a new one.
  ghost predicate Moved(v: View, end: int, oldmem: int, bytes: nat, mem: int, w: View, v': View) {
    Answers(v, end, bytes, mem, w) && Released(w, v', if mem == 0 then 0 else oldmem - 8)
  }

  lemma IsResized(v: View, end: int, oldmem: int, bytes: nat, v': View)
    requires oldmem != 0 && Multiple8(oldmem) && oldmem - 8 in v.cs && bytes < MAX_REQUEST
    requires InPlace(v, oldmem - 8, Wanted(bytes)) && ResizedHere(v, oldmem - 8, Wanted(bytes), v')
    requires Resizes(v.cs, v'.cs, oldmem - 8, oldmem - 8, Wanted(bytes))
    ensures Resized(v, end, oldmem, bytes, oldmem, v')
  {
  }

  lemma IsMoved(v: View, end: int, oldmem: int, bytes: nat, mem: int, w: View, v': View)
    requires oldmem != 0 && oldmem - 8 in v.cs && bytes < MAX_REQUEST && !InPlace(v, oldmem - 8, Wanted(bytes))
    requires mem == 0 <==> Refused(v, end, Wanted(bytes))
    requires mem != 0 ==> mem != oldmem && Multiple8(mem)
                            && Resizes(v.cs, v'.cs, oldmem - 8, mem - 8, Wanted(bytes))
    requires Moved(v, end, oldmem, bytes, mem, w, v')
    ensures Resized(v, end, oldmem, bytes, mem, v')
  {
  }

  ghost predicate ResizeExhausts(v: View, end: int, oldmem: int, bytes: nat)
    requires oldmem - 8 in v.cs
  {
    bytes < MAX_REQUEST && !InPlace(v, oldmem - 8, Wanted(bytes)) && Exhausts(v, end, Wanted(bytes))
  }

  // The first n bytes of the block at p, word by word, are those of the block at q now.
  ghost predicate Carried(m: Image, m': Image, p: int, q: int, n: int) {
    forall k: nat {:trigger CarriedAt(m, m', p, q, n, k)} :: CarriedAt(m, m', p, q, n, k)
  }

  ghost predicate CarriedAt(m: Image, m': Image, p: int, q: int, n: int, k: nat) {
    k % 4 == 0 && k + 4 <= n ==> Rd(m'.foot, q + 8 + k) == Rd(m.foot, p + 8 + k)
  }

  // How much of a block of that chunk size there is to keep
  function ToKeep(size: int, bytes: int): int {
    if size - 4 < bytes then size - 4 else bytes
  }

  // What is in a block that is resized in place stays.
  lemma CarriedInPlace(cs: Chunks, cs': Chunks, m: Image, m': Image, p: int, bytes: nat)
    requires p in cs && cs[p].used && Resizes(cs, cs', p, p, Wanted(bytes)) && bytes < MAX_REQUEST
    requires SparesBoth(cs, cs', m, m')
    ensures Carried(m, m', p, p, ToKeep(cs[p].size, bytes))
  {
    var n := ToKeep(cs[p].size, bytes);
    forall k: nat
      ensures CarriedAt(m, m', p, p, n, k)
    {
      if k % 4 == 0 && k + 4 <= n {
        assert InPayload(cs, p, p + 8 + k) && InPayload(cs', p, p + 8 + k);
        assert SameWord(m, m', p + 8 + k);
      }
    }
  }

  // internal_realloc
  method Reallocate(m: MallocState, oldmem: int, bytes: int) returns (mem: int, exhausted: bool)
    requires m.Valid() && 0 <= bytes < W32 && oldmem - 8 in m.cs && m.cs[oldmem - 8].used
    modifies m
    ensures m.Valid() && Resized(old(m.Now()), m.sbrkEnd, oldmem, bytes, mem, m.Now())
    ensures exhausted <==> ResizeExhausts(old(m.Now()), m.sbrkEnd, oldmem, bytes)
    ensures SparesBoth(old(m.cs), m.cs, old(m.Contents()), m.Contents())
    ensures mem != 0 ==> Carried(old(m.Contents()), m.Contents(), oldmem - 8, mem - 8,
                                 ToKeep(old(m.cs)[oldmem - 8].size, bytes))
  {
    mem, exhausted := 0, false;
    var p := oldmem - 8;
    ghost var v := m.Now();
    m.BlockOk(p);
    assert p + 8 == oldmem;
    if bytes >= MAX_REQUEST { return; }
    m.NextHead(p);
    var oldsize := HeadAt(m.head, p).size;
    var next := p + oldsize;
    var nb := if bytes < 11 then 16 else PadRequest(bytes);
    if oldsize >= nb || (next == m.top && oldsize + m.topsize > nb) {
      ResizeHere(m, p, bytes);
      mem := oldmem;
      IsResized(v, m.sbrkEnd, oldmem, bytes, m.Now());
    } else {
      ghost var w;
      mem, exhausted, w := Move(m, p, bytes);
      IsMoved(v, m.sbrkEnd, oldmem, bytes, mem, w, m.Now());
    }
  }

  // The block at p is resized where it is.
  method ResizeHere(m: MallocState, p: int, bytes: int)
    requires m.Valid() && 0 <= bytes < MAX_REQUEST && p in m.cs && m.cs[p].used
    requires InPlace(m.Now(), p, Wanted(bytes))
    modifies m
    ensures m.Valid() && Resizes(old(m.cs), m.cs, p, p, Wanted(bytes))
    ensures ResizedHere(old(m.Now()), p, Wanted(bytes), m.Now())
    ensures SparesBoth(old(m.cs), m.cs, old(m.Contents()), m.Contents())
    ensures Carried(old(m.Contents()), m.Contents(), p, p, ToKeep(old(m.cs)[p].size, bytes))
  {
    m.NextHead(p);
    var oldsize := HeadAt(m.head, p).size;
    var nb := if bytes < 11 then 16 else PadRequest(bytes);
    if oldsize >= nb {
      Shrink(m, p, nb);
    } else {
      Extend(m, p, nb);
      m.StillInUse();
      ExtendOk(old(m.cs), p, nb);
    }
    CarriedInPlace(old(m.cs), m.cs, old(m.Contents()), m.Contents(), p, bytes);
  }

  lemma ExtendOk(cs: Chunks, p: int, nb: int)
    requires p in cs && cs[p].used
    ensures Resizes(cs, cs[p := Chunk(nb, true)], p, p, nb)
  {
  }

  // Malloc-copy-free
  method Move(m: MallocState, p: int, bytes: int) returns (mem: int, exhausted: bool, ghost w: View)
    requires m.Valid() && 0 <= bytes < MAX_REQUEST && p in m.cs && m.cs[p].used && m.cs[p].size < Wanted(bytes)
    modifies m
    ensures m.Valid() && Moved(old(m.Now()), m.sbrkEnd, p + 8, bytes, mem, w, m.Now())
    ensures mem == 0 ==> m.cs == old(m.cs)
    ensures mem != 0 ==> Multiple8(mem) && mem - 8 != p && Resizes(old(m.cs), m.cs, p, mem - 8, Wanted(bytes))
    ensures mem == 0 <==> Refused(old(m.Now()), m.sbrkEnd, Wanted(bytes))
    ensures exhausted <==> Exhausts(old(m.Now()), m.sbrkEnd, Wanted(bytes))
    ensures SparesBoth(old(m.cs), m.cs, old(m.Contents()), m.Contents())
    ensures mem != 0 ==>
              Carried(old(m.Contents()), m.Contents(), p, mem - 8, ToKeep(old(m.cs)[p].size, bytes))
  {
    mem, exhausted := m.Dlmalloc(bytes);
    w := m.Now();
    if mem != 0 {
      assert mem - 8 + 8 == mem;
      MovedApart(m, old(m.cs), p, mem - 8, Wanted(bytes));
      MoveInto(m, p, mem - 8, bytes, old(m.cs), old(m.Contents()));
    }
  }

  // What was in the block at p is copied to the one at q, just given out, and the block at p freed.
  method MoveInto(m: MallocState, p: int, q: int, bytes: int, ghost c0: Chunks, ghost i0: Image)
    requires m.Valid() && 0 <= bytes < MAX_REQUEST && p in c0 && c0[p].used && c0[p].size < Wanted(bytes)
    requires Gives(c0, m.cs, q, Wanted(bytes)) && Spares(c0, i0, m.Contents()) && q != p && p in m.cs
    requires m.cs[p] == c0[p]
    modifies m
    ensures m.Valid() && Resizes(c0, m.cs, p, q, Wanted(bytes)) && Freed(old(m.Now()), m.Now(), p)
    ensures SparesBoth(c0, m.cs, i0, m.Contents())
    ensures Carried(i0, m.Contents(), p, q, ToKeep(c0[p].size, bytes))
  {
    ghost var i, b, t, n := m.Contents(), m.base, m.top, ToKeep(c0[p].size, bytes);
    assert Tiled(m.cs, m.base, m.top) by { MovedApart(m, c0, p, q, Wanted(bytes)); }
    WholeWords(m, p, q, bytes);
    CopyBlock(m, p, q, bytes);
    ghost var i' := m.Contents();
    assert p + 8 - 8 == p;
    m.Dlfree(p + 8);
    MoveOk(c0, old(m.cs), m.cs, p, q, Wanted(bytes));
    MoveSpares(c0, old(m.cs), m.cs, b, t, p, q, Wanted(bytes), i0, i, i', m.Contents());
    MoveCarries(c0, old(m.cs), m.cs, p, q, Wanted(bytes), i0, i, i', m.Contents(), n);
  }

  // Block q, just given out, is another one than p.
  lemma MovedApart(m: MallocState, c0: Chunks, p: int, q: int, nb: int)
    requires m.Valid() && p in c0 && c0[p].used && Gives(c0, m.cs, q, nb)
    ensures q != p && p in m.cs && m.cs[p] == c0[p] && q in m.cs && m.cs[q].used && nb <= m.cs[q].size
    ensures m.Ready() && Tiled(m.cs, m.base, m.top)
  {
    assert Live(c0, p, c0[p].size);
    assert Live(m.cs, p, c0[p].size);
    HeapOpen(m.head, m.foot, m.cs, m.base, m.top, m.topsize);
  }

  // memcpy of as much as is in the block at p and fits the request; a block is made of whole words.
  method CopyBlock(m: MallocState, p: int, q: int, bytes: int)
    requires m.Valid() && p in m.cs && m.cs[p].used && q in m.cs && m.cs[q].used && p != q
    requires 0 <= bytes < MAX_REQUEST && m.cs[p].size < Wanted(bytes) <= m.cs[q].size
    modifies m`head, m`foot, m`links, m`watched
    ensures m.Valid() && Stored(m.cs, q, old(m.Contents()), m.Contents())
    ensures Carried(old(m.Contents()), m.Contents(), p, q, ToKeep(m.cs[p].size, bytes))
  {
    m.NextHead(p);
    WholeWords(m, p, q, bytes);
    ghost var i0 := m.Contents();
    var oc := HeadAt(m.head, p).size - 4;
    var n := if oc < bytes then oc else bytes;
    var k := 0;
    while k < n
      invariant 0 <= k <= n && k % 4 == 0 && m.Valid() && Stored(m.cs, q, i0, m.Contents())
      invariant Carried(i0, m.Contents(), p, q, k)
    {
      CopyNext(m, p, q, k, i0);
      k := k + 4;
    }
  }

  lemma WholeWords(m: MallocState, p: int, q: int, bytes: int)
    requires m.Ready() && p in m.cs && m.cs[p].used && q in m.cs
    requires 0 <= bytes < MAX_REQUEST && m.cs[p].size < Wanted(bytes) <= m.cs[q].size
    ensures ToKeep(m.cs[p].size, bytes) == m.cs[p].size - 4 <= m.cs[q].size - 4 && (m.cs[p].size - 4) % 4 == 0
    ensures 16 <= m.cs[p].size
  {
    m.BlockOk(p);
    m.SizesKnown(p);
    WantedTight(bytes, m.cs[p].size);
  }

  // A chunk that is too small for a request has room for fewer bytes.
  lemma WantedTight(bytes: nat, size: int)
    requires bytes < MAX_REQUEST && 16 <= size < Wanted(bytes) && Multiple8(size)
    ensures size - 4 < bytes && (size - 4) % 4 == 0
  {
    assert Wanted(bytes) < bytes + 12 || Wanted(bytes) == 16;
    assert size <= Wanted(bytes) - 8;
  }

  method CopyNext(m: MallocState, p: int, q: int, k: nat, ghost i0: Image)
    requires m.Valid() && p in m.cs && m.cs[p].used && q in m.cs && m.cs[q].used && p != q
    requires k % 4 == 0 && k + 4 <= m.cs[p].size - 4 <= m.cs[q].size - 4
    requires Stored(m.cs, q, i0, m.Contents()) && Carried(i0, m.Contents(), p, q, k)
    modifies m`head, m`foot, m`links, m`watched
    ensures m.Valid() && Stored(m.cs, q, i0, m.Contents()) && Carried(i0, m.Contents(), p, q, k + 4)
  {
    ghost var i := m.Contents();
    assert Tiled(m.cs, m.base, m.top) by { HeapOpen(m.head, m.foot, m.cs, m.base, m.top, m.topsize); }
    var w := m.LoadWord(p + 8 + k);
    m.StoreWord(q, q + 8 + k, w);
    CopiedWord(m.cs, m.base, m.top, p, q, k, w, i0, i);
  }

  lemma CopiedWord(cs: Chunks, base: int, top: int, p: int, q: int, k: nat, w: int, i0: Image, i: Image)
    requires Tiled(cs, base, top) && p != q && InPayload(cs, p, p + 8 + k) && InPayload(cs, q, q + 8 + k)
    requires k % 4 == 0 && w == Rd(i.foot, p + 8 + k) && Stored(cs, q, i0, i) && Carried(i0, i, p, q, k)
    ensures Stored(cs, q, i0, WithWord(i, q + 8 + k, w)) && Carried(i0, WithWord(i, q + 8 + k, w), p, q, k + 4)
  {
    WordStored(cs, q, q + 8 + k, w, i);
    StoredOn(cs, q, i0, i, WithWord(i, q + 8 + k, w));
    if InPayload(cs, q, p + 8 + k) { PayloadsDisjoint(cs, base, top, p, q, p + 8 + k); }
    assert SameWord(i0, i, p + 8 + k);
    CarriedOn(p, q, k, i0, i, WithWord(i, q + 8 + k, w));
  }

  lemma StoredOn(cs: Chunks, q: int, m: Image, m': Image, m'': Image)
    requires Stored(cs, q, m, m') && Stored(cs, q, m', m'')
    ensures Stored(cs, q, m, m'')
  {
    forall x | !InPayload(cs, q, x)
      ensures SameWord(m, m'', x)
    {
      assert SameWord(m, m', x) && SameWord(m', m'', x);
    }
  }

  lemma CarriedOn(p: int, q: int, k: nat, m: Image, m': Image, m'': Image)
    requires k % 4 == 0 && Carried(m, m', p, q, k)
    requires m''.foot == m'.foot[q + 8 + k := Rd(m.foot, p + 8 + k)]
    ensures Carried(m, m'', p, q, k + 4)
  {
    var n := k + 4;
    forall j: nat
      ensures CarriedAt(m, m'', p, q, n, j)
    {
      assert CarriedAt(m, m', p, q, k, j);
    }
  }

  lemma MoveOk(cs: Chunks, cs': Chunks, cs'': Chunks, p: int, q: int, nb: int)
    requires p in cs && cs[p].used && Gives(cs, cs', q, nb) && Frees(cs', cs'', p)
    ensures q != p && Resizes(cs, cs'', p, q, nb)
  {
    assert Live(cs, p, cs[p].size);
    assert Live(cs', q, cs'[q].size);
  }

  lemma MoveSpares(c0: Chunks, c1: Chunks, c2: Chunks, base: int, top: int, p: int, q: int, nb: int, i0: Image,
                   i1: Image, i2: Image, i3: Image)
    requires Gives(c0, c1, q, nb) && Frees(c1, c2, p) && Tiled(c1, base, top)
    requires Spares(c0, i0, i1) && Stored(c1, q, i1, i2) && Spares(c2, i2, i3)
    ensures SparesBoth(c0, c2, i0, i3)
  {
    forall x | Client(c0, x) && Client(c2, x)
      ensures SameWord(i0, i3, x)
    {
      OldNotNew(c0, c1, base, top, q, nb, x);
      assert SameWord(i0, i1, x) && SameWord(i1, i2, x) && SameWord(i2, i3, x);
    }
  }

  // What belonged to a block before does not belong to the new one.
  lemma OldNotNew(c0: Chunks, c1: Chunks, base: int, top: int, q: int, nb: int, x: int)
    requires Gives(c0, c1, q, nb) && Tiled(c1, base, top) && Client(c0, x)
    ensures !InPayload(c1, q, x)
  {
    var a :| InPayload(c0, a, x);
    assert Live(c0, a, c0[a].size);
    assert Live(c1, a, c0[a].size);
    if InPayload(c1, q, x) { PayloadsDisjoint(c1, base, top, a, q, x); }
  }

  lemma MoveCarries(c0: Chunks, c1: Chunks, c2: Chunks, p: int, q: int, nb: int, i0: Image, i1: Image, i2: Image,
                    i3: Image, n: int)
    requires p in c0 && c0[p].used && p != q && q in c1 && c1[q].used && n <= c0[p].size - 4 && n <= c1[q].size - 4
    requires Frees(c1, c2, p) && Spares(c0, i0, i1) && Carried(i1, i2, p, q, n) && Spares(c2, i2, i3)
    ensures Carried(i0, i3, p, q, n)
  {
    assert Live(c1, q, c1[q].size);
    forall k: nat
      ensures CarriedAt(i0, i3, p, q, n, k)
    {
      assert CarriedAt(i1, i2, p, q, n, k);
      if k % 4 == 0 && k + 4 <= n {
        assert InPayload(c0, p, p + 8 + k) && InPayload(c2, q, q + 8 + k);
        assert SameWord(i0, i1, p + 8 + k) && SameWord(i2, i3, q + 8 + k);
      }
    }
  }

  // What a call of realloc does: a null pointer is a malloc.
  ghost predicate Reallocated(v: View, end: int, oldmem: int, bytes: nat, mem: int, v': View)
    requires oldmem == 0 || oldmem - 8 in v.cs
  {
    if oldmem == 0 then Answers(v, end, bytes, mem, v') else Resized(v, end, oldmem, bytes, mem, v')
  }

  ghost predicate ReallocExhausts(v: View, end: int, oldmem: int, bytes: nat)
    requires oldmem == 0 || oldmem - 8 in v.cs
  {
    if oldmem == 0 then Exhausts(v, end, Wanted(bytes)) else ResizeExhausts(v, end, oldmem, bytes)
  }

  // dlrealloc
  method Dlrealloc(m: MallocState, oldmem: int, bytes: int) returns (mem: int, exhausted: bool)
    requires m.Valid() && 0 <= bytes < W32 && (oldmem == 0 || (oldmem - 8 in m.cs && m.cs[oldmem - 8].used))
    modifies m
    ensures m.Valid() && Reallocated(old(m.Now()), m.sbrkEnd, oldmem, bytes, mem, m.Now())
    ensures exhausted <==> ReallocExhausts(old(m.Now()), m.sbrkEnd, oldmem, bytes)
    ensures SparesBoth(old(m.cs), m.cs, old(m.Contents()), m.Contents())
    ensures oldmem != 0 && mem != 0 ==> Carried(old(m.Contents()), m.Contents(), oldmem - 8, mem - 8,
                                                ToKeep(old(m.cs)[oldmem - 8].size, bytes))
  {
    if oldmem == 0 {
      mem, exhausted := m.Dlmalloc(bytes);
    } else {
      mem, exhausted := Reallocate(m, oldmem, bytes);
    }
  }

  /* ---- memalign ---- */

  // alignment & (alignment - 1) is 0 for the powers of two.
  predicate IsPow2(a: nat) {
    a == 1 || (a > 1 && a % 2 == 0 && IsPow2(a / 2))
  }

  lemma {:induction false} Doubles(a: nat, x: nat)
    requires IsPow2(a) && IsPow2(x) && a < x
    ensures 2 * a <= x
  {
    if a > 1 { Doubles(a / 2, x / 2); }
  }

  // The alignment that is used: the least power of two from 16 on that is large enough
  function AlignmentFrom(a: nat, alignment: nat): (al: nat)
    requires a > 0
    ensures a <= al && alignment <= al
    decreases alignment - a
  {
    if a >= alignment then a else AlignmentFrom(2 * a, alignment)
  }

  lemma {:induction false} AlignmentIs(a: nat, alignment: nat)
    requires 16 <= a && a % 8 == 0 && IsPow2(a)
    ensures var al := AlignmentFrom(a, alignment); alignment <= al && a <= al && Multiple8(al) && IsPow2(al)
    ensures forall x | IsPow2(x) && alignment <= x && a <= x :: AlignmentFrom(a, alignment) <= x
    decreases alignment - a
  {
    if a < alignment {
      AlignmentIs(2 * a, alignment);
      forall x | IsPow2(x) && alignment <= x && a <= x
        ensures 2 * a <= x
      {
        Doubles(a, x);
      }
    }
  }

  lemma {:induction false} PowersOfTwo(e: nat)
    ensures IsPow2(Pow2(e))
  {
    if e > 0 { PowersOfTwo(e - 1); }
  }

  lemma Sixteen()
    ensures IsPow2(16)
  {
    assert IsPow2(2) && IsPow2(4) && IsPow2(8);
  }

  // The first steps of internal_memalign: the alignment becomes a power of two, and not less than 16.
  method RoundAlignment(alignment: nat) returns (al: nat)
    requires 8 < alignment <= 0x8000_0000
    ensures al == AlignmentFrom(16, alignment) && 16 <= al <= 0x8000_0000 && Multiple8(al) && IsPow2(al)
    ensures forall x | IsPow2(x) && alignment <= x && 16 <= x :: al <= x
  {
    Sixteen();
    AlignmentIs(16, alignment);
    PowersOfTwo(31);
    Pow2Values();
    al := if alignment < 16 then 16 else alignment;
    if !IsPow2(al) {
      var a := 16;
      while a < al
        invariant 16 <= a && AlignmentFrom(16, alignment) == AlignmentFrom(a, alignment)
      {
        a := a * 2;
      }
      al := a;
    }
  }

  // (x + al - 1) & -al, for a power of two
  function RoundUp(x: nat, al: nat): nat
    requires 0 < al
  {
    x + al - 1 - (x + al - 1) % al
  }

  lemma {:induction false} AtLeastOnce(al: nat, d: nat)
    requires 1 <= d
    ensures al * d >= al
  {
    if d > 1 {
      AtLeastOnce(al, d - 1);
      assert al * d == al * (d - 1) + al;
    }
  }

  lemma MoreTimes(al: nat, p: nat, q: nat)
    requires p > q
    ensures al * p >= al * q + al
  {
    AtLeastOnce(al, p - q);
    assert al * p == al * q + al * (p - q);
  }

  lemma SameCount(al: nat, k: nat, q: nat, r: nat)
    requires al * k == al * q + r && r < al
    ensures k == q
  {
    if k > q { MoreTimes(al, k, q); }
    if q > k { MoreTimes(al, q, k); }
  }

  // A multiple leaves no remainder.
  lemma Multiple(al: nat, k: nat)
    requires 0 < al
    ensures al * k % al == 0
  {
    var x := al * k;
    var q, r := x / al, x % al;
    assert x == al * q + r;
    SameCount(al, k, q, r);
  }

  lemma {:induction false} EightTimes(al: nat, k: nat)
    requires Multiple8(al)
    ensures Multiple8(al * k)
  {
    if k > 0 {
      EightTimes(al, k - 1);
      assert al * k == al * (k - 1) + al;
      Multiple8Sum(al * (k - 1), al);
    }
  }

  lemma RoundedUp(x: nat, al: nat)
    requires 0 < al && Multiple8(al)
    ensures var r := RoundUp(x, al); r % al == 0 && Multiple8(r) && x <= r < x + al && (x % al != 0 ==> x < r)
  {
    var y := x + al - 1;
    Multiple(al, y / al);
    EightTimes(al, y / al);
    assert y == al * (y / al) + y % al;
  }

  lemma AddOne(x: nat, al: nat)
    requires 0 < al && x % al == 0
    ensures (x + al) % al == 0
  {
    assert x == al * (x / al);
    Multiple(al, x / al + 1);
    assert x + al == al * (x / al + 1);
  }

  // The first aligned spot that leaves no space in front of it, or enough for a chunk
  ghost predicate IsSpot(mem: int, al: nat, spot: int)
    requires 0 < al
  {
    && spot % al == 0 && Lead(mem, spot)
    && forall x {:trigger Lead(mem, x)} | x % al == 0 && Lead(mem, x) :: spot <= x
  }

  predicate Lead(mem: int, spot: int) {
    spot == mem || mem + 16 <= spot
  }

  // Two multiples lie at least that far apart.
  lemma NothingBetween(x: nat, y: nat, al: nat)
    requires 0 < al && x % al == 0 && y % al == 0 && x < y
    ensures x + al <= y
  {
    assert x == al * (x / al) && y == al * (y / al);
    if y / al <= x / al {
      if y / al < x / al { MoreTimes(al, x / al, y / al); }
    } else {
      MoreTimes(al, y / al, x / al);
    }
  }

  // Where the aligned part of a block is to begin
  method FirstSpot(mem: nat, al: nat) returns (spot: nat)
    requires 16 <= al && Multiple8(al) && Multiple8(mem)
    ensures IsSpot(mem, al, spot) && mem <= spot < mem + al + 16 && Multiple8(spot - mem)
  {
    spot := mem;
    if mem % al != 0 {
      RoundedUp(mem, al);
      var r := RoundUp(mem, al);
      AddOne(r, al);
      var br := r - 8;
      var pos := if br - (mem - 8) >= 16 then br else br + al;
      spot := pos + 8;
      Multiple8Sum(r, mem);
      Multiple8Sum(r - mem, al);
      forall x | x % al == 0 && Lead(mem, x)
        ensures spot <= x
      {
        if x < r { NothingBetween(x, r, al); }
        if r < x { NothingBetween(r, x, al); }
      }
    }
  }

  // Space in front of the first aligned spot is cut off, if there is any; if it is too small for a
  // chunk, up to the next spot.
  method CutLead(m: MallocState, mem: int, al: nat, ghost nb: nat) returns (q: int)
    requires m.Ready() && mem - 8 in m.cs && m.cs[mem - 8].used && 16 <= al && Multiple8(al)
    requires 16 <= nb && nb + al + 16 <= m.cs[mem - 8].size
    modifies m`head, m`cs, m`watched
    ensures Spares(m.cs, old(m.Contents()), m.Contents())
    ensures m.Ready() && (q + 8) % al == 0 && q in m.cs && m.cs[q].used && nb <= m.cs[q].size
    ensures var p := mem - 8;
            if q == p then m.cs == old(m.cs)
            else q !in old(m.cs) && p < q < Next(old(m.cs), p) && m.cs == Cutting(old(m.cs), p, q - p)
    ensures IsSpot(mem, al, q + 8)
  {
    q := mem - 8;
    m.BlockOk(q);
    var spot := FirstSpot(mem, al);
    if spot != mem {
      q := Cut(m, q, spot - mem, false);
    }
  }

  // Spare room at the end is cut off; 0 if there is too little of it.
  method CutTail(m: MallocState, q: int, nb: int) returns (r: int)
    requires m.Ready() && q in m.cs && m.cs[q].used && 16 <= nb <= m.cs[q].size && Multiple8(nb)
    modifies m`head, m`cs, m`watched
    ensures Spares(m.cs, old(m.Contents()), m.Contents())
    ensures m.Ready() && if old(m.cs)[q].size <= nb + 16 then r == 0 && m.cs == old(m.cs)
            else r == q + nb && r !in old(m.cs) && m.cs == Cutting(old(m.cs), q, nb)
  {
    m.NextHead(q);
    r := 0;
    if HeadAt(m.head, q).size > nb + 16 {
      r := Cut(m, q, nb, true);
    }
  }

  // From cs to cs', just these blocks have gone (0: none).
  ghost predicate Dropped(cs: Chunks, cs': Chunks, p: int, r: int) {
    forall a, z {:trigger Live(cs', a, z)} {:trigger Live(cs, a, z)} ::
      Live(cs', a, z) <==> Live(cs, a, z) && (p == 0 || a != p) && (r == 0 || a != r)
  }

  method Release(m: MallocState, p: int, r: int) returns (ghost x: View)
    requires m.Valid() && (p == 0 || (p in m.cs && m.cs[p].used)) && (r == 0 || (r in m.cs && m.cs[r].used && r != p))
    modifies m
    ensures m.Valid() && Dropped(old(m.cs), m.cs, p, r)
    ensures Released(old(m.Now()), x, p) && Released(x, m.Now(), r)
    ensures Spares(m.cs, old(m.Contents()), m.Contents())
  {
    ghost var cs := m.cs;
    if p != 0 {
      assert p + 8 - 8 == p;
      m.Dlfree(p + 8);
    }
    x := m.Now();
    ghost var c1, i1 := m.cs, m.Contents();
    if r != 0 {
      assert r + 8 - 8 == r && Live(cs, r, cs[r].size);
      m.Dlfree(r + 8);
    }
    SparesFewer(m.cs, c1, old(m.Contents()), i1);
    SparesOn(m.cs, old(m.Contents()), i1, m.Contents());
  }

  // The chunks after the block at p has been cut in front of q, and where that leaves more than 16 bytes
  // too many for nb, behind the room for them
  function Pieces(cs: Chunks, p: int, q: int, nb: int): Chunks
    requires p in cs
  {
    var c1 := if q == p then cs else Cutting(cs, p, q - p);
    if c1[q].size <= nb + 16 then c1 else Cutting(c1, q, nb)
  }

  // What is left behind the block at q that is wanted (0: nothing)
  function Behind(cs: Chunks, p: int, q: int, nb: int): int
    requires p in cs
  {
    if Next(cs, p) - q <= nb + 16 then 0 else q + nb
  }

  // From v to v', the block at p is cut, and what is in front of q and what is too much behind it is freed.
  ghost predicate Fitted(v: View, p: int, q: int, nb: int, v': View) {
    && p in v.cs
    && exists x :: Released(v.(cs := Pieces(v.cs, p, q, nb)), x, if q == p then 0 else p)
                     && Released(x, v', Behind(v.cs, p, q, nb))
  }

  // The chunk at p, just given out for a larger request, is cut to an aligned part of it.
  method Fit(m: MallocState, mem: int, al: int, nb: int, ghost cs: Chunks, ghost req: int) returns (mem': int)
    requires m.Valid() && 16 <= al && Multiple8(al) && 16 <= nb && Multiple8(nb)
    requires Gives(cs, m.cs, mem - 8, req) && nb + al + 16 <= req
    modifies m
    ensures m.Valid() && mem' % al == 0 && mem' != 0 && Places(cs, m.cs, mem' - 8, nb)
    ensures IsSpot(mem, al, mem') && Fitted(old(m.Now()), mem - 8, mem' - 8, nb, m.Now())
    ensures Spares(cs, old(m.Contents()), m.Contents())
  {
    var q, tail := CutOut(m, mem, al, nb, cs, req);
    ghost var c2, i2, v2 := m.cs, m.Contents(), m.Now();
    ghost var x := Release(m, if q != mem - 8 then mem - 8 else 0, tail);
    FitOk(cs, c2, m.cs, mem - 8, q, nb, tail);
    SparesFewer(cs, m.cs, i2, m.Contents());
    SparesOn(cs, old(m.Contents()), i2, m.Contents());
    mem' := q + 8;
    assert mem' - 8 == q;
  }

  // The part of it that is wanted, q, and what is left behind that
  method CutOut(m: MallocState, mem: int, al: int, nb: int, ghost cs: Chunks, ghost req: int)
    returns (q: int, tail: int)
    requires m.Valid() && 16 <= al && Multiple8(al) && 16 <= nb && Multiple8(nb)
    requires Gives(cs, m.cs, mem - 8, req) && nb + al + 16 <= req
    modifies m`head, m`cs, m`watched
    ensures m.Valid() && (q + 8) % al == 0 && STATIC_END <= q && Parts(cs, m.cs, mem - 8, q, nb, tail)
    ensures IsSpot(mem, al, q + 8) && mem - 8 in old(m.cs) && m.cs == Pieces(old(m.cs), mem - 8, q, nb)
    ensures tail == Behind(old(m.cs), mem - 8, q, nb)
    ensures Spares(cs, old(m.Contents()), m.Contents())
  {
    ghost var c0, p := m.cs, mem - 8;
    assert Live(c0, p, c0[p].size);
    Inside(m, p);
    q := CutLead(m, mem, al, nb);
    ghost var c1, i1 := m.cs, m.Contents();
    tail := CutTail(m, q, nb);
    m.StillInUse();
    m.BlockOk(q);
    FitParts(cs, c0, c1, m.cs, p, q, nb, tail);
    FitSpares(cs, c0, c1, m.cs, p, q, nb, tail, old(m.Contents()), i1, m.Contents());
  }

  // No chunk begins inside another.
  lemma Inside(m: MallocState, p: int)
    requires m.Ready() && p in m.cs
    ensures STATIC_END <= p && forall a | p < a < Next(m.cs, p) :: a !in m.cs
  {
    HeapOpen(m.head, m.foot, m.cs, m.base, m.top, m.topsize);
  }

  // Of the parts, all in use, one is the block wanted, and the others are to be released; they are not
  // blocks from before.
  ghost predicate Parts(cs: Chunks, c2: Chunks, p: int, q: int, nb: int, tail: int) {
    && q in c2 && Live(c2, q, c2[q].size) && nb <= c2[q].size <= nb + 16 && (q in cs ==> !cs[q].used)
    && (q != p ==> p in c2 && c2[p].used && p != 0 && (p in cs ==> !cs[p].used))
    && (tail != 0 ==> tail in c2 && c2[tail].used && tail != p && tail != q && (tail in cs ==> !cs[tail].used))
    && forall a, z {:trigger Live(c2, a, z)} {:trigger Live(cs, a, z)} | a != p && a != q && (tail == 0 || a != tail) ::
         Live(c2, a, z) <==> Live(cs, a, z)
  }

  lemma FitParts(cs: Chunks, c0: Chunks, c1: Chunks, c2: Chunks, p: int, q: int, nb: int, tail: int)
    requires p in c0 && c0[p].used && (p in cs ==> !cs[p].used) && 0 < p && 0 < nb
    requires forall a, z {:trigger Live(c0, a, z)} {:trigger Live(cs, a, z)} | a != p ::
               Live(c0, a, z) <==> Live(cs, a, z)
    requires forall a | p < a < Next(c0, p) :: a !in c0
    requires if q == p then c1 == c0
             else p < q < Next(c0, p) && c1 == Cutting(c0, p, q - p)
    requires nb <= c1[q].size
    requires if c1[q].size <= nb + 16 then tail == 0 && c2 == c1
             else tail == q + nb && c2 == Cutting(c1, q, nb)
    ensures Parts(cs, c2, p, q, nb, tail)
  {
    forall a | p < a < Next(c0, p)
      ensures a in cs ==> !cs[a].used
    {
      if a in cs { assert Live(c0, a, cs[a].size) <==> Live(cs, a, cs[a].size); }
    }
    assert Live(c2, q, c2[q].size);
  }

  lemma FitOk(cs: Chunks, c2: Chunks, cs': Chunks, p: int, q: int, nb: int, tail: int)
    requires Parts(cs, c2, p, q, nb, tail) && q != 0 && Dropped(c2, cs', if q != p then p else 0, tail)
    ensures Places(cs, cs', q, nb) && Grows(cs, cs')
  {
    assert Live(cs', q, c2[q].size);
  }

  // The blocks from before are in use all the time.
  lemma FitSpares(cs: Chunks, c0: Chunks, c1: Chunks, c2: Chunks, p: int, q: int, nb: int, tail: int,
                  i0: Image, i1: Image, i2: Image)
    requires Grows(cs, c0) && (p in cs ==> !cs[p].used) && Parts(cs, c2, p, q, nb, tail)
    requires if q == p then c1 == c0 else p in c1 && q in c1 && q !in c0 && c1 == c0[p := c1[p]][q := c1[q]]
    requires Spares(c1, i0, i1) && Spares(c2, i1, i2)
    ensures Spares(cs, i0, i2)
  {
    forall a, z | Live(cs, a, z)
      ensures Live(c1, a, z) && Live(c2, a, z)
    {
      assert Live(c0, a, z);
    }
    SparesFewer(cs, c1, i0, i1);
    SparesFewer(cs, c2, i1, i2);
    SparesOn(cs, i0, i1, i2);
  }

  // What internal_memalign asks malloc for: room for the block at any place that alignment may demand
  function MemalignRequest(al: nat, bytes: nat): nat {
    RequestSize(bytes) + al + 16 - 4
  }

  lemma RoomEnough(al: nat, bytes: nat)
    requires al <= 0x8000_0000 && Multiple8(al) && bytes < MAX_REQUEST - al && MemalignRequest(al, bytes) < MAX_REQUEST
    ensures RequestSize(bytes) + al + 16 <= Wanted(MemalignRequest(al, bytes))
  {
  }

  // What a request for an aligned block does: it is refused if it is too large or malloc refuses it, and
  // otherwise the block begins at a multiple of the alignment, and of the chunk that malloc gave for it
  // nothing stays in use but the block.
  ghost predicate Placed(v: View, end: int, al: nat, bytes: nat, mem: int, v': View)
    requires al > 0
  {
    && (mem == 0 <==> bytes >= MAX_REQUEST - al || MemalignRequest(al, bytes) >= MAX_REQUEST
                      || Refused(v, end, Wanted(MemalignRequest(al, bytes))))
    && (mem != 0 ==> mem % al == 0 && Places(v.cs, v'.cs, mem - 8, RequestSize(bytes)))
    && if bytes >= MAX_REQUEST - al then v' == v
       else exists whole, w :: PlacedIn(v, end, al, bytes, whole, w, mem, v')
  }

  // What malloc makes of v is w, with a block at whole that is large enough for every alignment, if there
  // is one; the block wanted is at the first spot in it, and the rest of it is freed.
  ghost predicate PlacedIn(v: View, end: int, al: nat, bytes: nat, whole: int, w: View, mem: int, v': View)
    requires al > 0
  {
    && Answers(v, end, MemalignRequest(al, bytes), whole, w)
    && if whole == 0 then mem == 0 && v' == w
       else IsSpot(whole, al, mem) && Fitted(w, whole - 8, mem - 8, RequestSize(bytes), v')
  }

  ghost predicate PlaceExhausts(v: View, end: int, al: nat, bytes: nat) {
    bytes < MAX_REQUEST - al && Exhausts(v, end, Wanted(MemalignRequest(al, bytes)))
  }

  // The rest of internal_memalign, from the test of the size on
  method MemalignAt(m: MallocState, al: nat, bytes: int) returns (mem: int, exhausted: bool)
    requires m.Valid() && 0 <= bytes < W32 && 16 <= al <= 0x8000_0000 && Multiple8(al)
    modifies m
    ensures m.Valid() && Placed(old(m.Now()), m.sbrkEnd, al, bytes, mem, m.Now())
    ensures exhausted <==> PlaceExhausts(old(m.Now()), m.sbrkEnd, al, bytes)
    ensures Spares(old(m.cs), old(m.Contents()), m.Contents())
  {
    mem, exhausted := 0, false;
    if bytes >= MAX_REQUEST - al { return; }
    var nb := if bytes < 11 then 16 else PadRequest(bytes);
    mem, exhausted := m.Dlmalloc(nb + al + 16 - 4);
    ghost var whole, w := mem, m.Now();
    if mem != 0 {
      ghost var i := m.Contents();
      RoomEnough(al, bytes);
      mem := Fit(m, mem, al, nb, old(m.cs), Wanted(MemalignRequest(al, bytes)));
      SparesOn(old(m.cs), old(m.Contents()), i, m.Contents());
    }
    assert PlacedIn(old(m.Now()), m.sbrkEnd, al, bytes, whole, w, mem, m.Now());
  }

  // internal_memalign, for alignments beyond that of malloc
  method Memalign(m: MallocState, alignment: int, bytes: int) returns (mem: int, exhausted: bool)
    requires m.Valid() && 0 <= bytes < W32 && 8 < alignment <= 0x8000_0000
    modifies m
    ensures m.Valid() && Placed(old(m.Now()), m.sbrkEnd, AlignmentFrom(16, alignment), bytes, mem, m.Now())
    ensures exhausted <==> PlaceExhausts(old(m.Now()), m.sbrkEnd, AlignmentFrom(16, alignment), bytes)
    ensures Spares(old(m.cs), old(m.Contents()), m.Contents())
  {
    var al := RoundAlignment(alignment);
    mem, exhausted := MemalignAt(m, al, bytes);
  }

  // What a call of memalign does; blocks are multiples of 8 in any case.
  ghost predicate Memaligned(v: View, end: int, alignment: nat, bytes: nat, mem: int, v': View) {
    if alignment <= 8 then Answers(v, end, bytes, mem, v')
    else Placed(v, end, AlignmentFrom(16, alignment), bytes, mem, v')
  }

  ghost predicate MemalignExhausts(v: View, end: int, alignment: nat, bytes: nat) {
    if alignment <= 8 then Exhausts(v, end, Wanted(bytes))
    else PlaceExhausts(v, end, AlignmentFrom(16, alignment), bytes)
  }

  // dlmemalign
  method Dlmemalign(m: MallocState, alignment: int, bytes: int) returns (mem: int, exhausted: bool)
    requires m.Valid() && 0 <= bytes < W32 && 0 <= alignment <= 0x8000_0000
    modifies m
    ensures m.Valid() && Memaligned(old(m.Now()), m.sbrkEnd, alignment, bytes, mem, m.Now())
    ensures exhausted <==> MemalignExhausts(old(m.Now()), m.sbrkEnd, alignment, bytes)
    ensures Spares(old(m.cs), old(m.Contents()), m.Contents())
  {
    if alignment <= 8 {
      mem, exhausted := m.Dlmalloc(bytes);
    } else {
      mem, exhausted := Memalign(m, alignment, bytes);
    }
  }
}
