// The disk layer over the SD card: reads and writes of runs of sectors through the cache.
module DiskIo {
  import opened Words
  import opened SectorCache

  const ELM_SD: nat := 0
  const RES_OK: int := 0
  const FAILED: int := -2

  // What the card does with a command: it works, or fails, and a failed write may leave anything in
  // the sectors that it was about.
  datatype Outcome = Works | Fails(left: seq<Data>)

  // Contents of the card; sectors never written hold nothing of interest.
  function At(card: map<nat, Data>, sector: nat): Data {
    if sector in card then card[sector] else []
  }

  ghost predicate SameOutside(card: map<nat, Data>, card': map<nat, Data>, sector: nat, n: nat) {
    forall s: nat | s < sector || sector + n <= s :: At(card', s) == At(card, s)
  }

  // Commands from turn k on, n of them, all work; those beyond the list do.
  predicate WorkFor(outcomes: seq<Outcome>, k: nat, n: nat) {
    forall i | k <= i < k + n && i < |outcomes| :: outcomes[i].Works?
  }

  // Commands have been given from turn k on, up to the first that fails but not more than n; the next is turn t.
  predicate Given(outcomes: seq<Outcome>, k: nat, n: nat, t: nat) {
    if WorkFor(outcomes, k, n) then t == k + n
    else k < t <= k + n && WorkFor(outcomes, k, t - 1 - k) && !WorkFor(outcomes, t - 1, 1)
  }

  // How many commands a transfer takes if none fails
  function Commands(aligned: bool, count: nat): nat {
    if count > 1 && aligned then 1 else count
  }

  class Card {
    var sectors: map<nat, Data>
    const outcomes: seq<Outcome>
    var turn: nat

    constructor (sectors: map<nat, Data>, outcomes: seq<Outcome>)
      ensures this.sectors == sectors && this.outcomes == outcomes && turn == 0
    {
      this.sectors, this.outcomes, turn := sectors, outcomes, 0;
    }

    method Command() returns (o: Outcome)
      modifies `turn
      ensures o.Works? == WorkFor(outcomes, old(turn), 1) && turn == old(turn) + 1
    {
      o := if turn < |outcomes| then outcomes[turn] else Works;
      turn := turn + 1;
    }

    // sd_read
    method Read(sector: nat, n: nat) returns (ok: bool, data: seq<Data>)
      modifies `turn
      ensures ok == WorkFor(outcomes, old(turn), 1) && turn == old(turn) + 1
      ensures |data| == n && (ok ==> forall i | 0 <= i < n :: data[i] == At(sectors, sector + i))
    {
      var o := Command();
      ok := o.Works?;
      var content, works := sectors, ok;
      data := seq(n, i requires 0 <= i < n => if works then At(content, sector + i) else []);
    }

    // sd_write
    method Write(sector: nat, data: seq<Data>) returns (ok: bool)
      modifies `sectors, `turn
      ensures ok == WorkFor(outcomes, old(turn), 1) && turn == old(turn) + 1
      ensures SameOutside(old(sectors), sectors, sector, |data|)
      ensures ok ==> forall i | 0 <= i < |data| :: At(sectors, sector + i) == data[i]
    {
      var o := Command();
      ok := o.Works?;
      var put := if ok then data else o.left;
      for i := 0 to |data|
        invariant SameOutside(old(sectors), sectors, sector, i) && turn == old(turn) + 1
        invariant ok ==> forall j | 0 <= j < i :: At(sectors, sector + j) == data[j]
      {
        if i < |put| { sectors := sectors[sector + i := put[i]]; }
      }
    }
  }

  // Sectors have been written one at a time with n commands, of which only the last may have failed.
  ghost predicate UpTo(data: seq<Data>, card: map<nat, Data>, card': map<nat, Data>, sector: nat, ok: bool, n: int) {
    && 0 <= n <= |data| && (ok || n > 0)
    && (forall i | 0 <= i < (if ok then n else n - 1) :: At(card', sector + i) == data[i])
    && SameOutside(card, card', sector, n)
  }

  // Every valid entry of the cache has what is on the card.
  ghost predicate Agrees(s: seq<Entry>, card: map<nat, Data>) {
    forall i | 0 <= i < |s| && s[i].valid && s[i].drive == ELM_SD :: s[i].data == At(card, s[i].sector)
  }

  // Nothing of [sector, sector + n) is in the cache.
  ghost predicate Uncached(s: seq<Entry>, sector: nat, n: nat) {
    forall k: nat | sector <= k < sector + n :: !Caches(s, Key(ELM_SD, k))
  }

  lemma StillAgrees(s: seq<Entry>, card: map<nat, Data>, card': map<nat, Data>, sector: nat, n: nat)
    requires Agrees(s, card) && Uncached(s, sector, n) && SameOutside(card, card', sector, n)
    ensures Agrees(s, card')
  {
    forall i | 0 <= i < |s| && s[i].valid && s[i].drive == ELM_SD
      ensures s[i].data == At(card', s[i].sector)
    {
      assert KeyOf(s[i]) == Key(ELM_SD, s[i].sector);
      assert Caches(s, Key(ELM_SD, s[i].sector));
    }
  }

  lemma AfterInvalidation(s: seq<Entry>, s': seq<Entry>, card: map<nat, Data>, sector: nat, count: nat)
    requires Agrees(s, card) && |s'| == |s|
    requires forall i | 0 <= i < |s| :: s'[i] == Invalidated(s[i], ELM_SD, sector, count)
    ensures Agrees(s', card)
    ensures sector + count < W32 || Uncached(s, sector, count) ==> Uncached(s', sector, count)
  {
    if sector + count < W32 {
      forall k: nat | sector <= k < sector + count
        ensures !Caches(s', Key(ELM_SD, k))
      {
      }
    } else if Uncached(s, sector, count) {
      forall k: nat | sector <= k < sector + count
        ensures !Caches(s', Key(ELM_SD, k))
      {
        assert !Caches(s, Key(ELM_SD, k));
      }
    }
  }

  class SdDisk {
    const card: Card
    const cache: Cache
    var buffer: Data

    ghost predicate Valid()
      reads this, card, cache, cache.slots
    {
      cache.Valid() && Agrees(cache.slots[..], card.sectors)
    }

    constructor (card: Card)
      ensures Valid() && this.card == card && fresh(cache) && fresh(cache.slots)
    {
      this.card := card;
      cache := new Cache();
      buffer := [];
    }

    // SD_disk_read_core; aligned says whether the caller's buffer allows a transfer in one go.
    method ReadCore(buff: array<Data>, aligned: bool, sector: nat, count: nat) returns (r: int)
      requires count < 256 && buff.Length >= count && sector + count <= W32
      modifies buff, `buffer, card`turn
      ensures r == if WorkFor(card.outcomes, old(card.turn), Commands(aligned, count)) then RES_OK else FAILED
      ensures Given(card.outcomes, old(card.turn), Commands(aligned, count), card.turn)
      ensures r == RES_OK ==> forall i | 0 <= i < count :: buff[i] == At(card.sectors, sector + i)
      ensures buff[count..] == old(buff[count..])
    {
      if count > 1 && aligned {
        var ok, data := card.Read(sector, count);
        for i := 0 to count
          invariant card.turn == old(card.turn) + 1 && forall j | 0 <= j < i :: buff[j] == data[j]
          invariant buff[count..] == old(buff[count..])
        {
          buff[i] := data[i];
        }
        return if ok then RES_OK else FAILED;
      }
      for i := 0 to count
        invariant forall j | 0 <= j < i :: buff[j] == At(card.sectors, sector + j)
        invariant buff[count..] == old(buff[count..])
        invariant WorkFor(card.outcomes, old(card.turn), i) && card.turn == old(card.turn) + i
      {
        var ok, data := card.Read(sector + i, 1);
        buffer := data[0];
        if !ok { return FAILED; }
        buff[i] := buffer;
      }
      r := RES_OK;
    }

    // SD_disk_read: what a successful read returns is what is on the card. A read fails only if the
    // card does, and not at all if the sector is in the cache: the card is not asked then. A sector that
    // has been read alone is cached afterwards; a run is not, and what was cached of it is given up.
    method Read(buff: array<Data>, aligned: bool, sector: nat, count: nat) returns (r: int)
      requires Valid() && count < 256 && buff.Length >= count && sector + count <= W32
      modifies buff, `buffer, card`turn, cache`accessCounter, cache`history, cache.slots
      ensures Valid()
      ensures r == if (count == 1 && Caches(old(cache.slots[..]), Key(ELM_SD, sector)))
                      || WorkFor(card.outcomes, old(card.turn), Commands(aligned, count)) then RES_OK else FAILED
      ensures r == RES_OK ==> forall i | 0 <= i < count :: buff[i] == At(card.sectors, sector + i)
      ensures buff[count..] == old(buff[count..])
      ensures if count == 1 && Caches(old(cache.slots[..]), Key(ELM_SD, sector)) then card.turn == old(card.turn)
              else Given(card.outcomes, old(card.turn), Commands(aligned, count), card.turn)
      ensures r == RES_OK && count == 1 ==>
                Caches(cache.slots[..], Key(ELM_SD, sector)) || AllNewest(cache.slots[..])
      ensures r != RES_OK && count == 1 ==> cache.slots[..] == old(cache.slots[..])
      ensures count != 1 ==> forall i | 0 <= i < CACHE_SIZE ::
                               cache.slots[i] == Invalidated(old(cache.slots[i]), ELM_SD, sector, count)
    {
      if count == 1 {
        var hit, data := cache.Read(ELM_SD, sector);
        if hit {
          buff[0] := data;
          return RES_OK;
        }
      } else {
        cache.Invalidate(ELM_SD, sector, count);
      }
      r := ReadCore(buff, aligned, sector, count);
      if r == RES_OK && count == 1 {
        cache.Add(ELM_SD, sector, buff[0]);
      }
    }

    // SD_disk_write fails exactly if the card does. Whether it fails or not, the cache agrees with the
    // card afterwards, if the end of the range does not wrap around to 0 or nothing of it was cached.
    method Write(buff: array<Data>, aligned: bool, sector: nat, count: nat) returns (r: int)
      requires Valid() && count < 256 && buff.Length >= count && sector + count <= W32
      modifies `buffer, card`turn, card`sectors, cache.slots
      ensures r == if WorkFor(card.outcomes, old(card.turn), Commands(aligned, count)) then RES_OK else FAILED
      ensures cache.Valid() && SameOutside(old(card.sectors), card.sectors, sector, count)
      ensures sector + count < W32 || Uncached(old(cache.slots[..]), sector, count) ==> Valid()
      ensures r == RES_OK ==> forall i | 0 <= i < count :: At(card.sectors, sector + i) == buff[i]
      ensures Given(card.outcomes, old(card.turn), Commands(aligned, count), card.turn)
      ensures !(count > 1 && aligned) ==> UpTo(buff[..count], old(card.sectors), card.sectors, sector, r == RES_OK,
                                           card.turn - old(card.turn))
      ensures forall i | 0 <= i < CACHE_SIZE ::
                cache.slots[i] == Invalidated(old(cache.slots[i]), ELM_SD, sector, count)
    {
      ghost var s0, c0 := cache.slots[..], card.sectors;
      cache.Invalidate(ELM_SD, sector, count);
      AfterInvalidation(s0, cache.slots[..], c0, sector, count);
      r := WriteCore(buff, aligned, sector, count);
      if sector + count < W32 || Uncached(s0, sector, count) {
        StillAgrees(cache.slots[..], c0, card.sectors, sector, count);
      }
    }

    method WriteCore(buff: array<Data>, aligned: bool, sector: nat, count: nat) returns (r: int)
      requires count < 256 && buff.Length >= count && sector + count <= W32
      modifies `buffer, card`turn, card`sectors
      ensures r == if WorkFor(card.outcomes, old(card.turn), Commands(aligned, count)) then RES_OK else FAILED
      ensures Given(card.outcomes, old(card.turn), Commands(aligned, count), card.turn)
      ensures SameOutside(old(card.sectors), card.sectors, sector, count)
      ensures r == RES_OK ==> forall i | 0 <= i < count :: At(card.sectors, sector + i) == buff[i]
      ensures !(count > 1 && aligned) ==> UpTo(buff[..count], old(card.sectors), card.sectors, sector, r == RES_OK,
                                           card.turn - old(card.turn))
    {
      if count > 1 && aligned {
        var ok := card.Write(sector, buff[..count]);
        return if ok then RES_OK else FAILED;
      }
      for i := 0 to count
        invariant SameOutside(old(card.sectors), card.sectors, sector, i)
        invariant forall j | 0 <= j < i :: At(card.sectors, sector + j) == buff[j]
        invariant WorkFor(card.outcomes, old(card.turn), i) && card.turn == old(card.turn) + i
      {
        buffer := buff[i];
        var one := [buffer];
        var ok := card.Write(sector + i, one);
        if !ok { return FAILED; }
        assert one[0] == buff[i];
      }
      r := RES_OK;
    }
  }

  // The end of the 32-bit sector space shows the wrap-around: a write to the last sector leaves the
  // old content in the cache.
  lemma StaleLastSector(before: Data, after: Data)
    requires before != after
    ensures var e := Entry(before, true, W32 - 1, 1, ELM_SD);
            Agrees([e], map[W32 - 1 := before])
            && !Agrees([Invalidated(e, ELM_SD, W32 - 1, 1)], map[W32 - 1 := after])
  {
    var e := Entry(before, true, W32 - 1, 1, ELM_SD);
    var s := [Invalidated(e, ELM_SD, W32 - 1, 1)];
    assert s[0].valid && s[0].data != At(map[W32 - 1 := after], s[0].sector);
  }

  datatype Op = ReadOp(aligned: bool, sector: nat, count: nat) | WriteOp(aligned: bool, sector: nat, data: seq<Data>)

  // Sectors have 32-bit numbers and come up to 255 at a time; what is written does not reach the last.
  predicate InRange(op: Op) {
    match op
    case ReadOp(_, sector, count) => count < 256 && sector + count <= W32
    case WriteOp(_, sector, data) => |data| < 256 && sector + |data| < W32
  }

  // The return code, and the sectors that were read
  datatype Answer = Answer(r: int, data: seq<Data>)

  // What an uncached card does: a read gives what is there, and a write puts the data there, or fails
  // and leaves its range undetermined.
  ghost predicate Answers(op: Op, a: Answer, card: map<nat, Data>, card': map<nat, Data>) {
    match op
    case ReadOp(_, sector, count) =>
      card' == card && |a.data| == count
        && (a.r == RES_OK ==> forall i | 0 <= i < count :: a.data[i] == At(card, sector + i))
    case WriteOp(_, sector, data) =>
      && SameOutside(card, card', sector, |data|)
      && (a.r == RES_OK ==> forall i | 0 <= i < |data| :: At(card', sector + i) == data[i])
  }

  predicate AllWork(card: Card) {
    forall i | 0 <= i < |card.outcomes| :: card.outcomes[i].Works?
  }

  method Do(disk: SdDisk, op: Op) returns (a: Answer)
    requires disk.Valid() && InRange(op)
    modifies disk, disk.card, disk.cache, disk.cache.slots
    ensures disk.Valid() && Answers(op, a, old(disk.card.sectors), disk.card.sectors)
    ensures AllWork(disk.card) ==> a.r == RES_OK
  {
    var buff := new Data[256](_ => []);
    match op {
      case ReadOp(aligned, sector, count) =>
        var r := disk.Read(buff, aligned, sector, count);
        a := Answer(r, buff[..count]);
      case WriteOp(aligned, sector, data) =>
        forall j | 0 <= j < |data| { buff[j] := data[j]; }
        var r := disk.Write(buff, aligned, sector, |data|);
        assert forall j | 0 <= j < |data| :: buff[j] == data[j];
        a := Answer(r, []);
    }
  }

  // Any trace of reads and writes, failing or not, is answered as an uncached card would answer it, and
  // none fails if the card does not.
  method Trace(disk: SdDisk, ops: seq<Op>) returns (answers: seq<Answer>, ghost cards: seq<map<nat, Data>>)
    requires disk.Valid() && forall i | 0 <= i < |ops| :: InRange(ops[i])
    modifies disk, disk.card, disk.cache, disk.cache.slots
    ensures disk.Valid() && |answers| == |ops| && |cards| == |ops| + 1
    ensures cards[0] == old(disk.card.sectors) && cards[|ops|] == disk.card.sectors
    ensures forall i {:trigger answers[i]} | 0 <= i < |ops| :: Answers(ops[i], answers[i], cards[i], cards[i + 1])
    ensures AllWork(disk.card) ==> forall i | 0 <= i < |ops| :: answers[i].r == RES_OK
  {
    answers, cards := [], [disk.card.sectors];
    for n := 0 to |ops|
      invariant disk.Valid() && |answers| == n && |cards| == n + 1
      invariant cards[0] == old(disk.card.sectors) && cards[n] == disk.card.sectors
      invariant forall i {:trigger answers[i]} | 0 <= i < n :: Answers(ops[i], answers[i], cards[i], cards[i + 1])
      invariant AllWork(disk.card) ==> forall i | 0 <= i < n :: answers[i].r == RES_OK
    {
      var a := Do(disk, ops[n]);
      answers, cards := answers + [a], cards + [disk.card.sectors];
    }
  }
}
