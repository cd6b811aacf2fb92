// What an allocation does to the chunks, and which chunk it is to take.
module Policy {
  import opened Tiling
  import opened Bins
  import opened Heap
  import opened Fit
  import opened Requests

  // A block of z bytes, head word included, is in use at a.
  ghost predicate Live(cs: Chunks, a: int, z: int) {
    a in cs && cs[a] == Chunk(z, true)
  }

  // Chunk p comes into use for nb bytes: the bottom of top, or a free chunk, of which a rest that makes
  // a chunk stays free.
  function Carved(cs: Chunks, p: int, nb: int): Chunks {
    if p !in cs then cs[p := Chunk(nb, true)]
    else if cs[p].size < nb + 16 then cs[p := Chunk(cs[p].size, true)]
    else cs[p := Chunk(nb, true)][p + nb := Chunk(cs[p].size - nb, false)]
  }

  // From cs to cs', chunk p comes into use, large enough for nb bytes but not by a whole chunk
  // larger; the other blocks in use stay as they are.
  ghost predicate Gives(cs: Chunks, cs': Chunks, p: int, nb: int) {
    && cs' == Carved(cs, p, nb)
    && p in cs' && Live(cs', p, cs'[p].size) && nb <= cs'[p].size < nb + 16
    && (p in cs ==> !cs[p].used)
    && forall a, z {:trigger Live(cs', a, z)} {:trigger Live(cs, a, z)} | a != p :: Live(cs', a, z) <==> Live(cs, a, z)
  }

  // From cs to cs', the block at p is no longer in use; the other blocks in use stay as they are.
  ghost predicate Frees(cs: Chunks, cs': Chunks, p: int) {
    forall a, z {:trigger Live(cs', a, z)} {:trigger Live(cs, a, z)} :: Live(cs', a, z) <==> Live(cs, a, z) && a != p
  }

  // A chunk of a small bin that leaves no remainder
  ghost predicate ExactSmall(cs: Chunks, excl: set<int>, nb: int) {
    exists a, z {:trigger Spare(cs, excl, a, z)} :: Spare(cs, excl, a, z) && nb <= z <= nb + 8 && z < 256
  }

  // Small requests: an exact fit first, then dv, then the smallest chunk of the bins, then top.
  ghost predicate SmallChoice(cs: Chunks, excl: set<int>, dv: int, dvsize: int, top: int, nb: int, p: int) {
    if ExactSmall(cs, excl, nb) then Least(cs, excl, p, nb)
    else if nb <= dvsize then p == dv
    else if !NoneFits(cs, excl, nb) then Least(cs, excl, p, nb)
    else p == top
  }

  // Large requests: the smallest of all free chunks that fit, dv if it is among them, and top if
  // there is none.
  ghost predicate LargeChoice(cs: Chunks, dv: int, dvsize: int, top: int, nb: int, p: int) {
    if NoneFits(cs, {}, nb) then p == top
    else Least(cs, {}, p, nb) && (nb <= dvsize == cs[p].size ==> p == dv)
  }

  // What a request is decided on
  datatype View = View(cs: Chunks, dv: int, dvsize: int, top: int, topsize: int, brk: int, noncontiguous: bool)

  // A state between two calls: from start on chunks lie back to back up to top, no two free ones next to each
  // other and none next to top, and dv, if there is one, is one of them.
  ghost predicate InOrder(v: View, start: int) {
    if v.top == 0 then v == View(map[], 0, 0, 0, 0, start, v.noncontiguous)
    else && 0 < v.topsize && Tiled(v.cs, start, v.top) && Coalesced(v.cs) && v.brk == v.top + v.topsize + TOP_FOOT_SIZE
         && if v.dvsize == 0 then v.dv == 0 else v.dv in v.cs && v.cs[v.dv] == Chunk(v.dvsize, false)
  }

  function Excluded(v: View): set<int> {
    if v.dvsize == 0 then {} else {v.dv}
  }

  // Where the next block at the end of the segment will be
  function TopAt(v: View): int {
    if v.top == 0 then v.brk else v.top
  }

  function AskedOf(v: View, nb: nat): int {
    Asked(v.top, v.topsize, v.noncontiguous, nb)
  }

  // No free chunk is large enough, dv included, and top is not larger either.
  ghost predicate NeedsSystem(v: View, nb: nat) {
    NoneFits(v.cs, {}, nb) && v.topsize <= nb
  }

  // sbrk is asked for more than is left of its region.
  ghost predicate Exhausts(v: View, end: int, nb: nat) {
    NeedsSystem(v, nb) && Beyond(AskedOf(v, nb), v.brk, end)
  }

  // Nothing fits, and sbrk is not even asked, or does not have that much.
  ghost predicate Refused(v: View, end: int, nb: nat) {
    NeedsSystem(v, nb) && Denied(AskedOf(v, nb), v.brk, end)
  }

  // What asking the system does. An amount that is negative when treated as signed ends the contiguous
  // mode for good. What is granted extends the segment, or becomes the first one, and with it top.
  function Asking(v: View, end: int, nb: nat): View {
    var w := v.(noncontiguous := v.noncontiguous || NextSize(v.top, v.topsize, nb) >= HALF_MAX);
    var asked := AskedOf(v, nb);
    if Denied(asked, v.brk, end) then w
    else w.(brk := v.brk + asked, top := TopAt(v),
            topsize := asked + if v.top == 0 then -TOP_FOOT_SIZE else v.topsize)
  }

  // The system is asked exactly if that is needed.
  ghost function Settled(v: View, end: int, nb: nat): View {
    if NeedsSystem(v, nb) then Asking(v, end, nb) else v
  }

  // What is dv after chunk p has been given out: of dv itself, the rest that makes a chunk, if there is
  // one; after a small request the rest of any other chunk that had to be split; else what it was.
  function DvAfter(v: View, small: bool, nb: int, p: int): (int, int) {
    if p == v.dv && nb <= v.dvsize then (if v.dvsize < nb + 16 then (0, 0) else (v.dv + nb, v.dvsize - nb))
    else if small && p in v.cs && nb + 16 <= v.cs[p].size then (p + nb, v.cs[p].size - nb)
    else (v.dv, v.dvsize)
  }

  // The state after chunk p has been given out
  function Giving(v: View, small: bool, nb: int, p: int): View {
    var (dv, dvsize) := DvAfter(v, small, nb, p);
    var w := v.(cs := Carved(v.cs, p, nb), dv := dv, dvsize := dvsize);
    if p in v.cs then w else w.(top := p + nb, topsize := v.topsize - nb)
  }

  // The state after a request, which chunk p serves (0: none)
  ghost function Outcome(v: View, end: int, small: bool, nb: nat, p: int): View {
    if p == 0 then Settled(v, end, nb) else Giving(Settled(v, end, nb), small, nb, p)
  }

  ghost predicate SameSystem(v: View, v': View) {
    v'.brk == v.brk && v'.noncontiguous == v.noncontiguous
  }

  // From v to v', the block at p is freed. The free chunk that contains what was dv is dv afterwards, unless
  // that went into top.
  ghost predicate Freed(v: View, v': View, p: int) {
    Frees(v.cs, v'.cs, p) && SameSystem(v, v') && TopLower(v, v') && DvKept(v, v')
  }

  ghost predicate TopLower(v: View, v': View) {
    v'.top <= v.top && v'.top + v'.topsize == v.top + v.topsize
  }

  ghost predicate DvKept(v: View, v': View) {
    if v.dvsize == 0 then NoDv(v')
    else (NoDv(v') && v'.top <= v.dv)
           || (v'.dvsize != 0 && v'.dv <= v.dv && v.dv + v.dvsize <= v'.dv + v'.dvsize)
  }

  ghost predicate NoDv(v: View) {
    v.dv == 0 && v.dvsize == 0
  }

  // Chunk p serves a request for bytes bytes: none exactly if the request cannot be met, else the one
  // that the policy prescribes.
  ghost predicate ServedBy(v: View, end: int, bytes: nat, p: int, v': View) {
    && (p == 0 <==> bytes >= MAX_REQUEST || Refused(v, end, Wanted(bytes)))
    && v' == Outcome(v, end, bytes <= MAX_SMALL_REQUEST, Wanted(bytes), p)
    && (p != 0 ==> Gives(v.cs, v'.cs, p, Wanted(bytes))
                     && if bytes <= MAX_SMALL_REQUEST
                        then SmallChoice(v.cs, Excluded(v), v.dv, v.dvsize, TopAt(v), Wanted(bytes), p)
                        else LargeChoice(v.cs, v.dv, v.dvsize, TopAt(v), Wanted(bytes), p))
  }

  // The same for the pointer that the client gets: null, or behind the chunk's first two words
  ghost predicate Answers(v: View, end: int, bytes: nat, mem: int, v': View) {
    if mem == 0 then ServedBy(v, end, bytes, 0, v')
    else mem > 8 && Multiple8(mem) && ServedBy(v, end, bytes, mem - 8, v')
  }

  // What comes of a request that the bins do not serve: dv, top, or what the system gives
  ghost predicate FromRest(v: View, end: int, nb: nat, p: int, exhausted: bool, v': View) {
    && (exhausted <==> v.dvsize < nb && v.topsize <= nb && Beyond(AskedOf(v, nb), v.brk, end))
    && (p == 0 <==> nb == MFAIL || (v.dvsize < nb && v.topsize <= nb && Denied(AskedOf(v, nb), v.brk, end)))
    && (p != 0 ==> Gives(v.cs, v'.cs, p, nb) && if nb <= v.dvsize then p == v.dv else p == TopAt(v) && p !in v.cs)
    && var w := if v.dvsize < nb && v.topsize <= nb then Asking(v, end, nb) else v;
       v' == if p == 0 then w else Giving(w, false, nb, p)
  }

  // What comes of a request for a chunk of nb bytes: none exactly if it is refused, else the one that the
  // policy for small or for large requests prescribes
  ghost predicate Allotted(v: View, end: int, small: bool, nb: nat, p: int, exhausted: bool, v': View) {
    && (p == 0 <==> Refused(v, end, nb)) && (exhausted <==> Exhausts(v, end, nb))
    && v' == Outcome(v, end, small, nb, p)
    && (p != 0 ==> Gives(v.cs, v'.cs, p, nb)
                     && if small then SmallChoice(v.cs, Excluded(v), v.dv, v.dvsize, TopAt(v), nb, p)
                        else LargeChoice(v.cs, v.dv, v.dvsize, TopAt(v), nb, p))
  }

  // The chunks and top after the system has been asked: as they were, or top is where it was or at the
  // break, with what has been granted, and serves the request unless that is made to fail.
  ghost predicate TopGiven(v: View, end: int, nb: nat, p: int, cs: Chunks, top: int, topsize: int) {
    var z := AskedOf(v, nb) + if v.top == 0 then -TOP_FOOT_SIZE else v.topsize;
    if Denied(AskedOf(v, nb), v.brk, end) then p == 0 && cs == v.cs && top == v.top && topsize == v.topsize
    else if nb == MFAIL then p == 0 && cs == v.cs && top == TopAt(v) && topsize == z
    else p == TopAt(v) != 0 && p !in v.cs && Gives(v.cs, cs, p, nb) && top == p + nb && topsize == z - nb
  }

  lemma Supplied(v: View, end: int, nb: nat, p: int, v': View)
    requires v.dvsize < nb && v'.dv == v.dv && v'.dvsize == v.dvsize
    requires v'.noncontiguous == (v.noncontiguous || NextSize(v.top, v.topsize, nb) >= HALF_MAX)
    requires v'.brk == if Denied(AskedOf(v, nb), v.brk, end) then v.brk else v.brk + AskedOf(v, nb)
    requires TopGiven(v, end, nb, p, v'.cs, v'.top, v'.topsize)
    ensures p == 0 <==> nb == MFAIL || Denied(AskedOf(v, nb), v.brk, end)
    ensures p != 0 ==> p == TopAt(v) && p !in v.cs && Gives(v.cs, v'.cs, p, nb)
    ensures var w := Asking(v, end, nb); v' == if p == 0 then w else Giving(w, false, nb, p)
  {
  }

  lemma AllottedFromBins(v: View, end: int, small: bool, nb: nat, p: int, v': View)
    requires p != 0 && Gives(v.cs, v'.cs, p, nb) && v' == Giving(v, small, nb, p)
    requires if small then Least(v.cs, Excluded(v), p, nb) && (ExactSmall(v.cs, Excluded(v), nb) || v.dvsize < nb)
             else Least(v.cs, {}, p, nb) && !(nb <= v.dvsize <= v.cs[p].size)
    ensures Allotted(v, end, small, nb, p, false, v')
  {
    LeastFits(v.cs, if small then Excluded(v) else {}, p, nb);
  }

  lemma AllottedFromRest(v: View, end: int, small: bool, nb: nat, p: int, exhausted: bool, v': View)
    requires nb != MFAIL && FromRest(v, end, nb, p, exhausted, v')
    requires NeedsSystem(v, nb) <==> v.dvsize < nb && v.topsize <= nb
    requires if small
             then !ExactSmall(v.cs, Excluded(v), nb) && (v.dvsize < nb ==> NoneFits(v.cs, Excluded(v), nb))
             else if nb <= v.dvsize then Least(v.cs, {}, v.dv, nb) && v.cs[v.dv].size == v.dvsize
             else NoneFits(v.cs, {}, nb)
    ensures Allotted(v, end, small, nb, p, exhausted, v')
  {
    if !small && nb <= v.dvsize { LeastFits(v.cs, {}, v.dv, nb); }
  }

  // The bins and dv settle whether the system is needed.
  lemma SystemNeeded(v: View, nb: nat)
    requires 0 < nb && (v.dvsize != 0 ==> v.dv in v.cs && v.cs[v.dv] == Chunk(v.dvsize, false))
    requires v.dvsize < nb ==> NoneFits(v.cs, Excluded(v), nb)
    ensures NeedsSystem(v, nb) <==> v.dvsize < nb && v.topsize <= nb
  {
    if v.dvsize < nb {
      NoneAtAll(v.cs, v.dv, v.dvsize, nb);
    } else {
      assert Spare(v.cs, {}, v.dv, v.cs[v.dv].size);
    }
  }

  lemma LeastFits(cs: Chunks, excl: set<int>, p: int, nb: int)
    requires Least(cs, excl, p, nb)
    ensures !NoneFits(cs, {}, nb)
  {
    assert Spare(cs, {}, p, cs[p].size);
  }

  lemma WholeGives(cs: Chunks, p: int, nb: int)
    requires p in cs && !cs[p].used && nb <= cs[p].size < nb + 16
    ensures Gives(cs, cs[p := Chunk(cs[p].size, true)], p, nb)
  {
  }

  lemma SplitGives(cs: Chunks, p: int, nb: int, rsize: int)
    requires p in cs && cs[p] == Chunk(nb + rsize, false) && p + nb !in cs && 0 < nb && 16 <= rsize
    ensures Gives(cs, cs[p := Chunk(nb, true)][p + nb := Chunk(rsize, false)], p, nb)
  {
  }

  lemma TopGives(cs: Chunks, p: int, nb: int)
    requires p !in cs && 0 < nb
    ensures Gives(cs, cs[p := Chunk(nb, true)], p, nb)
  {
  }

  // The best of the bins is the best of all unless dv is at least as good.
  lemma LeastBeatsDv(cs: Chunks, dv: int, dvsize: int, p: int, nb: int)
    requires dvsize != 0 ==> dv in cs && cs[dv] == Chunk(dvsize, false)
    requires Least(cs, if dvsize == 0 then {} else {dv}, p, nb) && !(nb <= dvsize <= cs[p].size)
    ensures Least(cs, {}, p, nb)
  {
    var excl := if dvsize == 0 then {} else {dv};
    assert Spare(cs, {}, p, cs[p].size);
    forall a | a in cs && Spare(cs, {}, a, cs[a].size) && nb <= cs[a].size
      ensures cs[p].size <= cs[a].size
    {
      if a !in excl { assert Spare(cs, excl, a, cs[a].size); }
    }
  }

  lemma DvIsLeast(cs: Chunks, dv: int, dvsize: int, nb: int)
    requires 0 < nb <= dvsize && dv in cs && cs[dv] == Chunk(dvsize, false)
    requires forall a | a in cs && Spare(cs, {dv}, a, cs[a].size) && nb <= cs[a].size :: dvsize <= cs[a].size
    ensures Least(cs, {}, dv, nb)
  {
    assert Spare(cs, {}, dv, dvsize);
    forall a | a in cs && Spare(cs, {}, a, cs[a].size) && nb <= cs[a].size
      ensures dvsize <= cs[a].size
    {
      if a != dv { assert Spare(cs, {dv}, a, cs[a].size); }
    }
  }

  lemma NoneAtAll(cs: Chunks, dv: int, dvsize: int, nb: int)
    requires dvsize != 0 ==> dv in cs && cs[dv] == Chunk(dvsize, false)
    requires NoneFits(cs, if dvsize == 0 then {} else {dv}, nb) && dvsize < nb
    ensures NoneFits(cs, {}, nb)
  {
    var excl := if dvsize == 0 then {} else {dv};
    forall a | a in cs && Spare(cs, {}, a, cs[a].size)
      ensures cs[a].size < nb
    {
      if a !in excl { assert Spare(cs, excl, a, cs[a].size); }
    }
  }
}
