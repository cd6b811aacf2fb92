// Clients of the allocator: what a run of calls gives them, and that what they store stays.
module Clients {
  import opened Words
  import opened Rings
  import opened Tiling
  import opened Heap
  import opened Policy
  import opened Requests
  import opened Merging
  import opened Memory
  import opened Dlmalloc
  import opened Resizing

  type Size = n: nat | n < W32
  type Alignment = n: nat | n <= 0x8000_0000

  // The calls that a client makes, its own accesses to memory among them
  datatype Call =
    | Malloc(bytes: Size)
    | Free(mem: int)
    | Realloc(mem: int, bytes: Size)
    | Memalign(alignment: Alignment, bytes: Size)
    | Store(mem: int, offset: nat, word: int)
    | Load(mem: int, offset: nat)

  // A block, with the words that have been stored in it, by their offsets; a client's record of its
  // blocks, by their pointers
  datatype Block = Block(bytes: nat, words: map<nat, int>)
  type Record = map<int, Block>

  // A word of one of the client's blocks
  predicate Inside(rec: Record, mem: int, offset: nat) {
    mem in rec && offset % 4 == 0 && offset + 4 <= rec[mem].bytes
  }

  function Front(words: map<nat, int>, bytes: nat): map<nat, int> {
    map k | k in words && k + 4 <= bytes :: words[k]
  }

  function Opened(rec: Record, reply: int, bytes: nat): Record {
    if reply != 0 then rec[reply := Block(bytes, map[])] else rec
  }

  // The client's record after a call. A block that is resized keeps the words that it has room for.
  function Booked(rec: Record, call: Call, reply: int): Record {
    match call
    case Malloc(bytes) => Opened(rec, reply, bytes)
    case Memalign(_, bytes) => Opened(rec, reply, bytes)
    case Free(mem) => rec - {mem}
    case Realloc(mem, bytes) =>
      if mem == 0 then Opened(rec, reply, bytes)
      else if reply == 0 || mem !in rec then rec
      else (rec - {mem})[reply := Block(bytes, Front(rec[mem].words, bytes))]
    case Store(mem, offset, word) =>
      if Inside(rec, mem, offset) then rec[mem := rec[mem].(words := rec[mem].words[offset := word])] else rec
    case Load(_, _) => rec
  }

  // The client's record after all calls of a run
  function Ledger(calls: seq<Call>, replies: seq<int>): Record
    requires |calls| == |replies|
  {
    if calls == [] then map[]
    else var n := |calls| - 1; Booked(Ledger(calls[..n], replies[..n]), calls[n], replies[n])
  }

  /* ---- what the record has to do with memory ---- */

  // A block of the client is in use, and has room for what was asked.
  ghost predicate OwnsBlock(cs: Chunks, mem: int, bytes: nat) {
    mem - 8 in cs && cs[mem - 8].used && Multiple8(mem) && bytes <= cs[mem - 8].size - 4
  }

  // The record agrees with the chunks in use.
  ghost predicate Owns(cs: Chunks, rec: Record) {
    && (forall mem {:trigger OwnsBlock(cs, mem, rec[mem].bytes)} | mem in rec :: OwnsBlock(cs, mem, rec[mem].bytes))
    && (forall a, z {:trigger Live(cs, a, z)} | Live(cs, a, z) :: a + 8 in rec)
  }

  // The words that the client has stored are in memory.
  ghost predicate HoldsWord(m: Image, rec: Record, mem: int, k: nat) {
    mem in rec && k in rec[mem].words ==> Inside(rec, mem, k) && Rd(m.foot, mem + k) == rec[mem].words[k]
  }

  ghost predicate Holds(m: Image, rec: Record) {
    forall mem, k: nat {:trigger HoldsWord(m, rec, mem, k)} :: HoldsWord(m, rec, mem, k)
  }

  lemma IsClient(cs: Chunks, rec: Record, mem: int, k: nat)
    requires Owns(cs, rec) && Inside(rec, mem, k)
    ensures InPayload(cs, mem - 8, mem + k) && Client(cs, mem + k)
  {
    assert OwnsBlock(cs, mem, rec[mem].bytes);
    assert InPayload(cs, mem - 8, mem + k);
  }

  lemma OwnedBlock(cs: Chunks, rec: Record, mem: int)
    requires Owns(cs, rec) && mem in rec
    ensures OwnsBlock(cs, mem, rec[mem].bytes)
  {
  }

  // Without chunks there are no blocks.
  lemma NoBlocks(rec: Record)
    requires Owns(map[], rec)
    ensures rec == map[]
  {
    forall n | n in rec
      ensures false
    {
      OwnedBlock(map[], rec, n);
    }
  }

  lemma OwnerOf(cs: Chunks, rec: Record, a: int)
    requires Owns(cs, rec)
    ensures a in cs && cs[a].used ==> a + 8 in rec
  {
    if a in cs { assert Live(cs, a, cs[a].size) <==> cs[a].used; }
  }

  // From cs to cs', chunk q comes into use with room for that many bytes.
  ghost predicate Adds(cs: Chunks, cs': Chunks, q: int, bytes: nat) {
    && OwnsBlock(cs', q + 8, bytes) && (q in cs ==> !cs[q].used)
    && forall a, z {:trigger Live(cs', a, z)} {:trigger Live(cs, a, z)} | a != q :: Live(cs', a, z) <==> Live(cs, a, z)
  }

  lemma OpenedOwner(cs: Chunks, cs': Chunks, m: Image, m': Image, rec: Record, mem: int, bytes: nat)
    requires Owns(cs, rec) && Holds(m, rec) && Adds(cs, cs', mem - 8, bytes) && Spares(cs, m, m')
    ensures mem !in rec && Owns(cs', rec[mem := Block(bytes, map[])]) && Holds(m', rec[mem := Block(bytes, map[])])
  {
    var rec' := rec[mem := Block(bytes, map[])];
    assert mem - 8 + 8 == mem;
    assert mem in rec ==> OwnsBlock(cs, mem, rec[mem].bytes);
    forall n | n in rec'
      ensures OwnsBlock(cs', n, rec'[n].bytes)
    {
      if n != mem {
        assert OwnsBlock(cs, n, rec[n].bytes);
        assert Live(cs, n - 8, cs[n - 8].size);
      }
    }
    forall a, z | Live(cs', a, z)
      ensures a + 8 in rec'
    {
      if a != mem - 8 { assert Live(cs, a, z); }
    }
    forall n, k: nat
      ensures HoldsWord(m', rec', n, k)
    {
      assert HoldsWord(m, rec, n, k);
      if n in rec && k in rec[n].words {
        IsClient(cs, rec, n, k);
        assert SameWord(m, m', n + k);
      }
    }
  }

  lemma FreedOwner(cs: Chunks, cs': Chunks, m: Image, m': Image, rec: Record, mem: int)
    requires Owns(cs, rec) && Holds(m, rec) && Frees(cs, cs', mem - 8) && Spares(cs', m, m')
    ensures Owns(cs', rec - {mem}) && Holds(m', rec - {mem})
  {
    var rec' := rec - {mem};
    forall n | n in rec'
      ensures OwnsBlock(cs', n, rec'[n].bytes)
    {
      assert OwnsBlock(cs, n, rec[n].bytes);
      assert Live(cs, n - 8, cs[n - 8].size);
    }
    forall a, z | Live(cs', a, z)
      ensures a + 8 in rec'
    {
      assert Live(cs, a, z);
    }
    forall n, k: nat
      ensures HoldsWord(m', rec', n, k)
    {
      assert HoldsWord(m, rec, n, k);
      if n in rec' && k in rec'[n].words {
        IsClient(cs', rec', n, k);
        assert SameWord(m, m', n + k);
      }
    }
  }

  lemma ResizedOwner(cs: Chunks, cs': Chunks, rec: Record, mem: int, mem': int, bytes: nat)
    requires Owns(cs, rec) && mem in rec && bytes < MAX_REQUEST && Multiple8(mem')
    requires Resizes(cs, cs', mem - 8, mem' - 8, Wanted(bytes))
    ensures mem' == mem || mem' !in rec
    ensures Owns(cs', (rec - {mem})[mem' := Block(bytes, Front(rec[mem].words, bytes))])
  {
    var rec' := (rec - {mem})[mem' := Block(bytes, Front(rec[mem].words, bytes))];
    assert mem' in rec ==> OwnsBlock(cs, mem', rec[mem'].bytes);
    forall n | n in rec'
      ensures OwnsBlock(cs', n, rec'[n].bytes)
    {
      if n != mem' {
        assert OwnsBlock(cs, n, rec[n].bytes);
        assert Live(cs, n - 8, cs[n - 8].size);
      }
    }
    forall a, z | Live(cs', a, z)
      ensures a + 8 in rec'
    {
      if a != mem' - 8 { assert Live(cs, a, z); }
    }
  }

  lemma ResizedWords(cs: Chunks, cs': Chunks, m: Image, m': Image, rec: Record, mem: int, mem': int, bytes: nat)
    requires Owns(cs, rec) && Holds(m, rec) && mem in rec && (mem' == mem || mem' !in rec)
    requires Owns(cs', (rec - {mem})[mem' := Block(bytes, Front(rec[mem].words, bytes))])
    requires SparesBoth(cs, cs', m, m') && mem - 8 in cs
    requires Carried(m, m', mem - 8, mem' - 8, ToKeep(cs[mem - 8].size, bytes))
    ensures Holds(m', (rec - {mem})[mem' := Block(bytes, Front(rec[mem].words, bytes))])
  {
    var rec' := (rec - {mem})[mem' := Block(bytes, Front(rec[mem].words, bytes))];
    forall n, k: nat
      ensures HoldsWord(m', rec', n, k)
    {
      if n in rec' && k in rec'[n].words {
        if n == mem' {
          assert HoldsWord(m, rec, mem, k) && OwnsBlock(cs, mem, rec[mem].bytes);
          assert CarriedAt(m, m', mem - 8, mem' - 8, ToKeep(cs[mem - 8].size, bytes), k);
        } else {
          assert HoldsWord(m, rec, n, k);
          IsClient(cs, rec, n, k);
          IsClient(cs', rec', n, k);
          assert SameWord(m, m', n + k);
        }
      }
    }
  }

  lemma StoredOwner(cs: Chunks, base: int, top: int, m: Image, rec: Record, mem: int, offset: nat, word: int)
    requires Tiled(cs, base, top) && Owns(cs, rec) && Holds(m, rec) && Inside(rec, mem, offset)
    ensures var rec' := Booked(rec, Store(mem, offset, word), 0);
            Owns(cs, rec') && Holds(WithWord(m, mem + offset, word), rec')
  {
    var rec', m' := Booked(rec, Store(mem, offset, word), 0), WithWord(m, mem + offset, word);
    forall n | n in rec'
      ensures OwnsBlock(cs, n, rec'[n].bytes)
    {
      assert OwnsBlock(cs, n, rec[n].bytes);
    }
    forall n, k: nat
      ensures HoldsWord(m', rec', n, k)
    {
      assert HoldsWord(m, rec, n, k);
      if n in rec && k in rec[n].words && n + k == mem + offset {
        IsClient(cs, rec, n, k);
        IsClient(cs, rec, mem, offset);
        PayloadsDisjoint(cs, base, top, n - 8, mem - 8, n + k);
      }
    }
  }

  /* ---- one call ---- */

  // A call takes the allocator from v to v'. Freeing, resizing and storing what is not the client's own
  // are left undone. What is loaded is what was stored.
  ghost predicate Served(v: View, end: int, rec: Record, call: Call, reply: int, v': View) {
    match call
    case Malloc(bytes) => Answers(v, end, bytes, reply, v')
    case Memalign(alignment, bytes) => Memaligned(v, end, alignment, bytes, reply, v')
    case Free(mem) =>
      reply == 0 && if mem in rec then Freed(v, v', mem - 8) else v' == v
    case Realloc(mem, bytes) =>
      if mem == 0 then Answers(v, end, bytes, reply, v')
      else if mem in rec then mem - 8 in v.cs && Resized(v, end, mem, bytes, reply, v')
      else reply == 0 && v' == v
    case Store(_, _, _) => reply == 0 && v' == v
    case Load(mem, offset) =>
      v' == v && (mem in rec && offset in rec[mem].words ==> reply == rec[mem].words[offset])
  }

  // sbrk has not as much left as the call needs.
  ghost predicate Exhausting(v: View, end: int, rec: Record, call: Call) {
    match call
    case Malloc(bytes) => Exhausts(v, end, Wanted(bytes))
    case Memalign(alignment, bytes) => MemalignExhausts(v, end, alignment, bytes)
    case Realloc(mem, bytes) =>
      if mem == 0 then Exhausts(v, end, Wanted(bytes))
      else mem in rec && mem - 8 in v.cs && ResizeExhausts(v, end, mem, bytes)
    case _ => false
  }

  // The client's record is right.
  ghost predicate Kept(m: MallocState, rec: Record)
    reads m
  {
    Owns(m.cs, rec) && Holds(m.Contents(), rec)
  }

  // One call of a client
  method Serve(m: MallocState, call: Call, rec: Record) returns (reply: int, rec': Record, exhausted: bool)
    requires m.Valid() && Kept(m, rec)
    modifies m
    ensures m.Valid() && Kept(m, rec') && rec' == Booked(rec, call, reply)
    ensures Served(old(m.Now()), m.sbrkEnd, rec, call, reply, m.Now())
    ensures exhausted <==> Exhausting(old(m.Now()), m.sbrkEnd, rec, call)
  {
    reply, rec', exhausted := 0, rec, false;
    match call
    case Malloc(bytes) => reply, rec', exhausted := ServeMalloc(m, bytes, rec);
    case Memalign(alignment, bytes) => reply, rec', exhausted := ServeMemalign(m, alignment, bytes, rec);
    case Free(mem) => rec' := ServeFree(m, mem, rec);
    case Realloc(mem, bytes) =>
      if mem == 0 {
        reply, rec', exhausted := ServeMalloc(m, bytes, rec);
      } else if mem in rec {
        reply, rec', exhausted := ServeRealloc(m, mem, bytes, rec);
      }
    case Store(mem, offset, word) => rec' := ServeStore(m, mem, offset, word, rec);
    case Load(mem, offset) => reply := ServeLoad(m, mem, offset, rec);
  }

  method ServeMalloc(m: MallocState, bytes: Size, rec: Record) returns (mem: int, rec': Record, exhausted: bool)
    requires m.Valid() && Kept(m, rec)
    modifies m
    ensures m.Valid() && Kept(m, rec') && rec' == Opened(rec, mem, bytes)
    ensures Answers(old(m.Now()), m.sbrkEnd, bytes, mem, m.Now())
    ensures exhausted <==> Exhausts(old(m.Now()), m.sbrkEnd, Wanted(bytes))
  {
    mem, exhausted := m.Dlmalloc(bytes);
    rec' := rec;
    if mem != 0 {
      GivenAdds(old(m.cs), m.cs, mem, bytes);
      rec' := rec[mem := Block(bytes, map[])];
      OpenedOwner(old(m.cs), m.cs, old(m.Contents()), m.Contents(), rec, mem, bytes);
    } else {
      NothingOpened(old(m.cs), m.cs, old(m.Contents()), m.Contents(), rec);
    }
  }

  lemma GivenAdds(cs: Chunks, cs': Chunks, mem: int, bytes: nat)
    requires bytes < MAX_REQUEST && Gives(cs, cs', mem - 8, Wanted(bytes)) && Multiple8(mem)
    ensures Adds(cs, cs', mem - 8, bytes)
  {
    assert mem - 8 + 8 == mem;
  }

  lemma NothingOpened(cs: Chunks, cs': Chunks, m: Image, m': Image, rec: Record)
    requires Owns(cs, rec) && Holds(m, rec) && Spares(cs, m, m') && cs' == cs
    ensures Owns(cs', rec) && Holds(m', rec)
  {
    forall n, k: nat
      ensures HoldsWord(m', rec, n, k)
    {
      assert HoldsWord(m, rec, n, k);
      if n in rec && k in rec[n].words {
        IsClient(cs, rec, n, k);
        assert SameWord(m, m', n + k);
      }
    }
  }

  method ServeMemalign(m: MallocState, alignment: Alignment, bytes: Size, rec: Record)
    returns (mem: int, rec': Record, exhausted: bool)
    requires m.Valid() && Kept(m, rec)
    modifies m
    ensures m.Valid() && Kept(m, rec') && rec' == Opened(rec, mem, bytes)
    ensures Memaligned(old(m.Now()), m.sbrkEnd, alignment, bytes, mem, m.Now())
    ensures exhausted <==> MemalignExhausts(old(m.Now()), m.sbrkEnd, alignment, bytes)
  {
    mem, exhausted := Dlmemalign(m, alignment, bytes);
    rec' := rec;
    if mem != 0 {
      PlacedAdds(m, old(m.cs), mem, alignment, bytes, old(m.Now()));
      rec' := rec[mem := Block(bytes, map[])];
      OpenedOwner(old(m.cs), m.cs, old(m.Contents()), m.Contents(), rec, mem, bytes);
    } else {
      NothingOpened(old(m.cs), m.cs, old(m.Contents()), m.Contents(), rec);
    }
  }

  lemma PlacedAdds(m: MallocState, cs: Chunks, mem: int, alignment: Alignment, bytes: Size, v: View)
    requires m.Valid() && mem != 0 && v.cs == cs && Memaligned(v, m.sbrkEnd, alignment, bytes, mem, m.Now())
    ensures Adds(cs, m.cs, mem - 8, bytes)
  {
    assert mem - 8 + 8 == mem;
    m.BlockOk(mem - 8);
  }

  method ServeFree(m: MallocState, mem: int, rec: Record) returns (rec': Record)
    requires m.Valid() && Kept(m, rec)
    modifies m
    ensures m.Valid() && Kept(m, rec') && rec' == rec - {mem}
    ensures Served(old(m.Now()), m.sbrkEnd, rec, Free(mem), 0, m.Now())
  {
    rec' := rec - {mem};
    if mem in rec {
      assert OwnsBlock(m.cs, mem, rec[mem].bytes);
      NotNull(m, mem);
      m.Dlfree(mem);
      FreedOwner(old(m.cs), m.cs, old(m.Contents()), m.Contents(), rec, mem);
    } else {
      assert rec' == rec;
    }
  }

  lemma NotNull(m: MallocState, mem: int)
    requires m.Valid() && mem - 8 in m.cs
    ensures mem != 0
  {
    m.BlockOk(mem - 8);
  }

  method ServeRealloc(m: MallocState, mem: int, bytes: Size, rec: Record)
    returns (mem': int, rec': Record, exhausted: bool)
    requires m.Valid() && Kept(m, rec) && mem in rec
    modifies m
    ensures m.Valid() && Kept(m, rec') && rec' == Booked(rec, Realloc(mem, bytes), mem')
    ensures Served(old(m.Now()), m.sbrkEnd, rec, Realloc(mem, bytes), mem', m.Now())
    ensures exhausted <==> Exhausting(old(m.Now()), m.sbrkEnd, rec, Realloc(mem, bytes))
  {
    assert OwnsBlock(m.cs, mem, rec[mem].bytes);
    NotNull(m, mem);
    mem', exhausted := Dlrealloc(m, mem, bytes);
    rec' := rec;
    if mem' != 0 {
      rec' := (rec - {mem})[mem' := Block(bytes, Front(rec[mem].words, bytes))];
      ResizedOwner(old(m.cs), m.cs, rec, mem, mem', bytes);
      ResizedWords(old(m.cs), m.cs, old(m.Contents()), m.Contents(), rec, mem, mem', bytes);
    } else {
      BothSpared(m.cs, old(m.Contents()), m.Contents());
      NothingOpened(old(m.cs), m.cs, old(m.Contents()), m.Contents(), rec);
    }
  }

  lemma BothSpared(cs: Chunks, m: Image, m': Image)
    requires SparesBoth(cs, cs, m, m')
    ensures Spares(cs, m, m')
  {
  }

  // A store to the client's own block does what StoreWord does, and any other is left undone.
  method ServeStore(m: MallocState, mem: int, offset: nat, word: int, rec: Record) returns (rec': Record)
    requires m.Valid() && Kept(m, rec)
    modifies m`head, m`foot, m`links, m`watched
    ensures m.Valid() && Kept(m, rec') && rec' == Booked(rec, Store(mem, offset, word), 0) && m.Now() == old(m.Now())
    ensures m.Contents() == if Inside(rec, mem, offset) then WithWord(old(m.Contents()), mem + offset, word)
                            else old(m.Contents())
  {
    rec' := Booked(rec, Store(mem, offset, word), 0);
    if Inside(rec, mem, offset) {
      IsClient(m.cs, rec, mem, offset);
      assert Tiled(m.cs, m.base, m.top) by { HeapOpen(m.head, m.foot, m.cs, m.base, m.top, m.topsize); }
      StoredOwner(m.cs, m.base, m.top, m.Contents(), rec, mem, offset, word);
      m.StoreWord(mem - 8, mem + offset, word);
    }
  }

  method ServeLoad(m: MallocState, mem: int, offset: nat, rec: Record) returns (word: int)
    requires m.Valid() && Kept(m, rec)
    ensures mem in rec && offset in rec[mem].words ==> word == rec[mem].words[offset]
  {
    word := 0;
    assert HoldsWord(m.Contents(), rec, mem, offset);
    if Inside(rec, mem, offset) {
      word := m.LoadWord(mem + offset);
    }
  }

  /* ---- whole runs ---- */

  // Blocks, by pointer and length, do not overlap.
  ghost predicate Apart(rec: Record) {
    forall m, n {:trigger rec[m], rec[n]} | m in rec && n in rec && m < n :: m + rec[m].bytes <= n
  }

  lemma BlocksApart(cs: Chunks, base: int, top: int, rec: Record)
    requires Tiled(cs, base, top) && Owns(cs, rec)
    ensures Apart(rec)
  {
    forall m, n {:trigger rec[m], rec[n]} | m in rec && n in rec && m < n
      ensures m + rec[m].bytes <= n
    {
      assert OwnsBlock(cs, m, rec[m].bytes) && OwnsBlock(cs, n, rec[n].bytes);
      assert Next(cs, m - 8) <= n - 8;
    }
  }

  lemma EndOfRun(m: MallocState, rec: Record)
    requires m.Valid() && Kept(m, rec)
    ensures Apart(rec) && (rec == map[] ==> m.Pristine())
  {
    if m.top != 0 {
      HeapOpen(m.head, m.foot, m.cs, m.base, m.top, m.topsize);
      BlocksApart(m.cs, m.base, m.top, rec);
    } else {
      m.NoBins();
      NoBlocks(rec);
    }
    if rec == map[] && m.top != 0 {
      forall a | a in m.cs
        ensures !m.cs[a].used
      {
        OwnerOf(m.cs, rec, a);
      }
      m.AllFreed();
    }
  }

  ghost function RecordAt(calls: seq<Call>, replies: seq<int>, i: nat): Record
    requires i <= |replies| <= |calls|
  {
    Ledger(calls[..i], replies[..i])
  }

  // Call number i was served as it should be, in the state and with the record that it found.
  ghost predicate ServedAt(views: seq<View>, end: int, calls: seq<Call>, replies: seq<int>, i: nat)
    requires |replies| <= |calls| && |views| == |replies| + 1
  {
    i < |replies| ==>
      && Owns(views[i].cs, RecordAt(calls, replies, i))
      && Served(views[i], end, RecordAt(calls, replies, i), calls[i], replies[i], views[i + 1])
  }

  // What has been recorded of a run: the replies, and what each call found and left, a state in order
  ghost predicate Log(views: seq<View>, start: int, end: int, calls: seq<Call>, replies: seq<int>, rec: Record) {
    && |replies| <= |calls| && |views| == |replies| + 1 && rec == RecordAt(calls, replies, |replies|)
    && (forall i: nat {:trigger InOrder(views[i], start)} | i < |views| :: InOrder(views[i], start))
    && forall i: nat {:trigger ServedAt(views, end, calls, replies, i)} :: ServedAt(views, end, calls, replies, i)
  }

  lemma Logged(views: seq<View>, start: int, end: int, calls: seq<Call>, replies: seq<int>, rec: Record, reply: int,
               v: View)
    requires Log(views, start, end, calls, replies, rec) && |replies| < |calls| && Owns(views[|replies|].cs, rec)
    requires Served(views[|replies|], end, rec, calls[|replies|], reply, v) && InOrder(v, start)
    ensures Log(views + [v], start, end, calls, replies + [reply], Booked(rec, calls[|replies|], reply))
  {
    var n, replies', views' := |replies|, replies + [reply], views + [v];
    assert calls[..n + 1][..n] == calls[..n] && replies'[..n + 1][..n] == replies[..n];
    forall i: nat
      ensures ServedAt(views', end, calls, replies', i)
    {
      assert ServedAt(views, end, calls, replies, i);
      if i <= n { assert replies'[..i] == replies[..i]; }
    }
  }

  lemma StateInOrder(m: MallocState)
    requires m.Valid()
    ensures InOrder(m.Now(), m.sbrkStart)
  {
    if m.top != 0 { HeapOpen(m.head, m.foot, m.cs, m.base, m.top, m.topsize); }
  }

  lemma NothingYet(m: MallocState)
    requires m.Valid() && m.cs == map[]
    ensures Kept(m, map[])
  {
  }

  // One more call of a run
  method RunNext(m: MallocState, calls: seq<Call>, replies: seq<int>, rec: Record, ghost views: seq<View>)
    returns (replies': seq<int>, rec': Record, exhausted: bool, ghost views': seq<View>)
    requires m.Valid() && Kept(m, rec) && |replies| < |calls|
    requires Log(views, m.sbrkStart, m.sbrkEnd, calls, replies, rec) && views[|replies|] == m.Now()
    modifies m
    ensures m.Valid() && Kept(m, rec') && |replies'| == |replies| + 1
    ensures Log(views', m.sbrkStart, m.sbrkEnd, calls, replies', rec')
    ensures views'[0] == views[0] && views'[|replies'|] == m.Now()
    ensures exhausted ==> Exhausting(views'[|replies|], m.sbrkEnd, RecordAt(calls, replies', |replies|),
                                     calls[|replies|])
  {
    var reply;
    reply, rec', exhausted := Serve(m, calls[|replies|], rec);
    StateInOrder(m);
    Logged(views, m.sbrkStart, m.sbrkEnd, calls, replies, rec, reply, m.Now());
    assert (replies + [reply])[..|replies|] == replies[..|replies|];
    replies', views' := replies + [reply], views + [m.Now()];
  }

  // Every run from the initial state: each call is served as it should be in the state that it finds,
  // and the run ends early only when sbrk has nothing left. At the end the blocks given out lie apart, what
  // has been stored in them is there, and if all have been freed nothing is left but top.
  method Run(m: MallocState, calls: seq<Call>)
    returns (replies: seq<int>, rec: Record, exhausted: bool, ghost views: seq<View>)
    requires m.Valid() && m.cs == map[]
    modifies m
    ensures m.Valid() && Kept(m, rec) && Apart(rec) && (rec == map[] ==> m.Pristine())
    ensures Log(views, m.sbrkStart, m.sbrkEnd, calls, replies, rec)
    ensures views[0] == old(m.Now()) && views[|replies|] == m.Now()
    ensures if exhausted
            then 0 < |replies| && Exhausting(views[|replies| - 1], m.sbrkEnd,
                                             RecordAt(calls, replies, |replies| - 1), calls[|replies| - 1])
            else |replies| == |calls|
  {
    replies, rec, exhausted, views := [], map[], false, [m.Now()];
    NothingYet(m);
    StateInOrder(m);
    while |replies| < |calls| && !exhausted
      invariant m.Valid() && Kept(m, rec)
      invariant Log(views, m.sbrkStart, m.sbrkEnd, calls, replies, rec)
      invariant views[0] == old(m.Now()) && views[|replies|] == m.Now()
      invariant exhausted ==>
                  0 < |replies| && Exhausting(views[|replies| - 1], m.sbrkEnd,
                                              RecordAt(calls, replies, |replies| - 1), calls[|replies| - 1])
      decreases |calls| - |replies|
    {
      replies, rec, exhausted, views := RunNext(m, calls, replies, rec, views);
    }
    EndOfRun(m, rec);
  }

  /* ---- what a client relies on ---- */

  // The call does not touch that word of the block, and does not give the block up or resize it.
  predicate LeavesWord(call: Call, mem: int, offset: nat) {
    match call
    case Free(n) => n != mem
    case Realloc(n, _) => n != mem
    case Store(n, k, _) => n != mem || k != offset
    case _ => true
  }

  lemma WordStays(v: View, end: int, rec: Record, call: Call, reply: int, v': View, mem: int, offset: nat)
    requires Owns(v.cs, rec) && Served(v, end, rec, call, reply, v') && LeavesWord(call, mem, offset)
    requires mem in rec && offset in rec[mem].words
    ensures var rec' := Booked(rec, call, reply);
            mem in rec' && offset in rec'[mem].words && rec'[mem].words[offset] == rec[mem].words[offset]
  {
    assert OwnsBlock(v.cs, mem, rec[mem].bytes);
    assert reply == mem ==> reply - 8 == mem - 8;
  }

  // In every run, what a client has stored in a block of its own is what it loads from there, whatever
  // happens in between, as long as it does not store there again, free the block or resize it.
  lemma {:induction false} ReadsBack(views: seq<View>, start: int, end: int, calls: seq<Call>, replies: seq<int>,
                                     rec: Record, mem: int, offset: nat, word: int, i: nat, j: nat)
    requires Log(views, start, end, calls, replies, rec) && i < j <= |replies|
    requires calls[i] == Store(mem, offset, word) && Inside(RecordAt(calls, replies, i), mem, offset)
    requires forall n | i < n < j :: LeavesWord(calls[n], mem, offset)
    ensures var r := RecordAt(calls, replies, j);
            mem in r && offset in r[mem].words && r[mem].words[offset] == word
    ensures j < |replies| && calls[j] == Load(mem, offset) ==> replies[j] == word
  {
    assert calls[..j][..j - 1] == calls[..j - 1] && replies[..j][..j - 1] == replies[..j - 1];
    assert ServedAt(views, end, calls, replies, j - 1) && ServedAt(views, end, calls, replies, j);
    if i < j - 1 {
      ReadsBack(views, start, end, calls, replies, rec, mem, offset, word, i, j - 1);
      WordStays(views[j - 1], end, RecordAt(calls, replies, j - 1), calls[j - 1], replies[j - 1], views[j], mem,
                offset);
    }
  }
}
