// Request sizes and the amounts asked of the system, in the 32-bit arithmetic of the target.
module Requests {
  import opened Words
  import opened Tiling

  const MAX_SMALL_REQUEST: int := 244
  const MAX_REQUEST: int := 0xFFFF_FFC0
  const HALF_MAX: int := 0x7FFF_FFFF
  const MFAIL: int := 0xFFFF_FFFF

  // x & ~7
  function Floor8(x: nat): (r: nat)
    ensures Multiple8(r) && r <= x < r + 8
  {
    x - x % 8
  }

  // pad_request: room for the head word, rounded up to a double word
  function PadRequest(bytes: int): (nb: nat)
    requires 0 <= bytes
    ensures Multiple8(nb)
    ensures bytes < W32 - 11 ==> bytes + 4 <= nb < bytes + 12
  {
    Floor8(U32(bytes + 4 + 7))
  }

  // What chunk size a request needs: enough for its bytes and a head word, at least 16
  function RequestSize(bytes: int): (nb: nat)
    requires 0 <= bytes
    ensures Multiple8(nb)
    ensures bytes < MAX_REQUEST ==> 16 <= nb < W32 && bytes + 4 <= nb
    ensures bytes <= MAX_SMALL_REQUEST ==> nb < 256
    ensures MAX_SMALL_REQUEST < bytes < MAX_REQUEST ==> 256 <= nb <= W32 - 56
  {
    if bytes < 11 then 16 else PadRequest(bytes)
  }

  // page_align and granularity_align, both for units of 8 bytes
  function Align(x: int): (r: nat)
    ensures Multiple8(r) && r < W32
    ensures 0 <= x < W32 - 8 ==> x < r <= x + 8
  {
    Floor8(U32(x + 8))
  }

  // What sys_alloc asks for when it starts a segment, or cannot count on the top it has
  function FreshSize(nb: nat): (r: nat) {
    Align(U32(nb + 40 + 1))
  }

  lemma FreshEnough(nb: nat)
    requires (Multiple8(nb) && 8 <= nb <= W32 - 56) || nb == W32 - 1
    ensures Multiple8(FreshSize(nb)) && FreshSize(nb) == if nb == W32 - 1 then 48 else nb + 48
    ensures FreshSize(nb) > U32(nb + 40)
  {
    if nb != W32 - 1 { NextDouble(nb); }
  }

  // What sys_alloc asks for first: with a segment, what top lacks of nb and a top chunk
  function NextSize(top: int, topsize: int, nb: nat): int {
    if top == 0 then FreshSize(nb)
    else if nb == MFAIL then Align(U32(nb - topsize + 40 + 1))
    else nb - topsize + 48
  }

  // What sbrk is asked for in the end. An amount that is negative when treated as signed is not asked
  // for; sys_alloc then no longer counts on what top has.
  function Asked(top: int, topsize: int, noncontiguous: bool, nb: nat): int {
    if !noncontiguous && NextSize(top, topsize, nb) < HALF_MAX then NextSize(top, topsize, nb) else FreshSize(nb)
  }

  // sbrk is asked, and does not have that much left.
  predicate Beyond(asked: int, brk: int, end: int) {
    asked < HALF_MAX && brk + asked > end
  }

  // No memory comes from sbrk.
  predicate Denied(asked: int, brk: int, end: int) {
    asked >= HALF_MAX || brk + asked > end
  }

  // The chunk size that dlmalloc looks for; requests beyond MAX_REQUEST are made to fail in sys_alloc.
  function Wanted(bytes: nat): (nb: nat)
    ensures if bytes < MAX_REQUEST then Multiple8(nb) && 16 <= nb <= W32 - 56 else nb == MFAIL
  {
    if bytes < MAX_REQUEST then RequestSize(bytes) else MFAIL
  }

  lemma NextDouble(x: nat)
    requires Multiple8(x) && x <= W32 - 56
    ensures Align(U32(x + 40 + 1)) == x + 48
  {
    assert U32(x + 41) == x + 41 && U32(x + 41 + 8) == x + 49;
    assert (x + 49) % 8 == 1;
  }

  lemma MoreEnough(nb: nat, topsize: nat)
    requires Multiple8(nb) && nb <= W32 - 56 && Multiple8(topsize) && topsize <= nb
    ensures Align(U32(nb - topsize + 40 + 1)) == nb - topsize + 48
  {
    assert Multiple8(nb - topsize);
    NextDouble(nb - topsize);
  }

  // What a request beyond MAX_REQUEST does, although it is made to fail: it takes 48 bytes of the region
  // on a fresh heap, and what top lacks of that later; where top is larger, it ends the contiguous mode.
  lemma OversizeAsks(top: int, topsize: int, noncontiguous: bool)
    requires top == 0 || (0 < topsize < W32 && Multiple8(topsize))
    ensures NextSize(top, topsize, MFAIL) >= HALF_MAX <==> top != 0 && 48 < topsize <= 0x8000_0031
    ensures Asked(top, topsize, noncontiguous, MFAIL) ==
              if top == 0 || noncontiguous || 48 < topsize <= 0x8000_0031 then 48 else U32(48 - topsize)
  {
    FreshEnough(MFAIL);
    if 0 < topsize < W32 && Multiple8(topsize) { OversizeNext(topsize); }
  }

  lemma OversizeNext(topsize: int)
    requires 0 < topsize < W32 && Multiple8(topsize)
    ensures Align(U32(MFAIL - topsize + 40 + 1)) == U32(48 - topsize)
    ensures U32(48 - topsize) == if topsize <= 48 then 48 - topsize else W32 + 48 - topsize
  {
    Wraps(MFAIL - topsize + 40 + 1);
    Wraps(48 - topsize);
    AlignUp(U32(MFAIL - topsize + 40 + 1));
  }

  lemma AlignUp(x: nat)
    requires Multiple8(x) && x < W32
    ensures Align(x) == if x < W32 - 8 then x + 8 else 0
  {
    Wraps(x + 8);
  }
}
