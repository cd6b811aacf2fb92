// A formatted disk, mounted: the volume that f_mkfs and chk_mounted make together.
module NewVolume {
  import opened FatEntries
  import opened ClusterChains
  import opened Sectors
  import opened FatVolume
  import opened FileSectors
  import opened Layouts
  import opened Format

  // The table of a new volume
  predicate NewTable(t: FatType, fat: seq<Byte>) {
    && |fat| >= 512 && fat[0] >= 0xF0 && fat[1] == 0xFF && fat[2] == 0xFF && fat[3] == (if t == Fat12 then 0 else 0xFF)
    && (t == Fat32 ==> Dword(fat[4], fat[5], fat[6], fat[7]) == 0xFFFF_FFFF)
    && (t == Fat32 ==> Dword(fat[8], fat[9], fat[10], fat[11]) == 0x0FFF_FFFF)
    && forall b | (if t == Fat32 then 12 else 4) <= b < |fat| :: fat[b] == 0
  }

  lemma TableIsNew(disk: map<nat, Sector>, fatbase: nat, nFat: nat, t: FatType, media: Byte)
    requires nFat >= 1 && media >= 0xF0 && IsFirst(At(disk, fatbase), t, media)
    requires Zeroed(disk, fatbase + 1, fatbase + nFat)
    ensures NewTable(t, TableBytes(disk, fatbase, nFat))
  {
    var fat := TableBytes(disk, fatbase, nFat);
    forall b: nat | b < |fat|
      ensures if b < 512 then fat[b] == At(disk, fatbase)[b] else fat[b] == 0
    {
      TableByte(disk, fatbase, nFat, b);
      if b >= 512 { assert At(disk, fatbase + b / 512) == Blank(); }
    }
  }

  lemma TableByte(disk: map<nat, Sector>, s: nat, n: nat, b: nat)
    requires b < 512 * n
    ensures b / 512 < n && TableBytes(disk, s, n)[b] == At(disk, s + b / 512)[b % 512]
  {
    var fat := TableBytes(disk, s, n);
    var j, r := b / 512, b % 512;
    TableSector(disk, s, n, j);
    assert Slice(fat, j)[r] == fat[512 * j + r];
  }

  // All clusters are free but that of the root directory, where the root is a chain.
  function FirstFree(t: FatType): nat {
    if t == Fat32 then 3 else 2
  }

  lemma NewEntry(t: FatType, fat: seq<Byte>, c: nat)
    requires NewTable(t, fat) && Inside(t, |fat|, c)
    ensures c >= FirstFree(t) ==> Entry(t, fat, c) == 0
    ensures c < FirstFree(t) ==> Entry(t, fat, c) != 0
    ensures t == Fat32 && c == 2 ==> Entry(t, fat, c) == 0x0FFF_FFFF
  {
    if c >= FirstFree(t) { ZeroEntry(t, fat, c); } else { ReservedEntry(t, fat, c); }
  }

  lemma ZeroEntry(t: FatType, fat: seq<Byte>, c: nat)
    requires Inside(t, |fat|, c) && c >= FirstFree(t)
    requires forall b | (if t == Fat12 then 3 else if t == Fat16 then 4 else 12) <= b < |fat| :: fat[b] == 0
    ensures Entry(t, fat, c) == 0
  {
    var p := Pos(t, c);
    var lo, hi := fat[p], fat[p + 1];
    assert lo == 0 && hi == 0;
    if t == Fat32 { assert fat[p + 2] == 0 && fat[p + 3] == 0; }
  }

  lemma ReservedEntry(t: FatType, fat: seq<Byte>, c: nat)
    requires NewTable(t, fat) && c < FirstFree(t) && Inside(t, |fat|, c)
    ensures Entry(t, fat, c) != 0 && (t == Fat32 && c == 2 ==> Entry(t, fat, c) == 0x0FFF_FFFF)
  {
    match t
    case Fat12 => Reserved12(fat, c);
    case Fat16 => Reserved16(fat, c);
    case Fat32 => Reserved32(fat, c);
  }

  lemma Reserved12(fat: seq<Byte>, c: nat)
    requires |fat| >= 512 && fat[0] >= 0xF0 && fat[1] == 0xFF && fat[2] == 0xFF && c < 2
    ensures Entry(Fat12, fat, c) != 0
  {
    TopNibble(fat[0], fat[1]);
    TopNibble(fat[1], fat[2]);
    assert Pos(Fat12, c) == c;
  }

  lemma Reserved16(fat: seq<Byte>, c: nat)
    requires |fat| >= 512 && fat[0] >= 0xF0 && fat[2] == 0xFF && c < 2
    ensures Entry(Fat16, fat, c) != 0
  {
    if c == 0 { assert Word(fat[0], fat[1]) >= 0xF0; } else { assert Word(fat[2], fat[3]) >= 0xFF; }
  }

  lemma Reserved32(fat: seq<Byte>, c: nat)
    requires NewTable(Fat32, fat) && c < 3
    ensures Entry(Fat32, fat, c) != 0 && (c == 2 ==> Entry(Fat32, fat, c) == 0x0FFF_FFFF)
  {
    if c == 1 { Bytes4(0xFFFF_FFFF, fat[4], fat[5], fat[6], fat[7], 0xFF, 0xFF, 0xFF, 0xFF); }
    if c == 2 { EndMark(fat[8], fat[9], fat[10], fat[11]); }
    LowByteTells(fat, c);
  }

  lemma LowByteTells(fat: seq<Byte>, c: nat)
    requires 4 * c + 4 <= |fat| && fat[4 * c] > 0
    ensures Entry(Fat32, fat, c) > 0
  {
    AtLeastLow(fat[4 * c], fat[4 * c + 1], fat[4 * c + 2], fat[4 * c + 3]);
  }

  lemma AtLeastLow(a: Byte, b: Byte, c: Byte, d: Byte)
    ensures Dword28(a, b, c, d) >= a
  {
  }

  lemma EndMark(a: Byte, b: Byte, c: Byte, d: Byte)
    requires Dword(a, b, c, d) == 0x0FFF_FFFF
    ensures Dword28(a, b, c, d) == 0x0FFF_FFFF && a > 0
  {
    Bytes4(0x0FFF_FFFF, a, b, c, d, 0xFF, 0xFF, 0xFF, 0x0F);
  }

  lemma TopNibble(lo: Byte, hi: Byte)
    requires lo >= 0xF0 && hi == 0xFF
    ensures Word(lo, hi) % 0x1000 != 0 && Word(lo, hi) / 16 != 0
  {
    Mod12(Word(lo, hi), 15, 0xF00 + lo);
  }

  function NewChains(t: FatType): map<nat, seq<nat>> {
    if t == Fat32 then map[2 := [2]] else map[]
  }

  predicate NewLink(t: FatType, link: seq<nat>) {
    && |link| > FirstFree(t)
    && (forall c | 0 <= c < |link| :: link[c] == 0 <==> c >= FirstFree(t))
    && (t == Fat32 ==> link[2] >= |link|)
  }

  lemma NewForest(t: FatType, link: seq<nat>)
    requires NewLink(t, link)
    ensures Forest(link, NewChains(t)) && Free(link) == |link| - FirstFree(t) && Zeros(link, |link|) == Free(link)
  {
    if t == Fat32 {
      assert HasChain(link, NewChains(t), 2);
      assert 2 in NewChains(t)[2];
      assert Owned(NewChains(t), 2);
    }
    AllFree(t, link, |link|);
    RawCountRight(link);
  }

  lemma {:induction false} AllFree(t: FatType, link: seq<nat>, n: nat)
    requires NewLink(t, link) && n <= |link|
    ensures FreeBelow(link, n) == if n <= FirstFree(t) then 0 else n - FirstFree(t)
  {
    if n > 2 { AllFree(t, link, n - 1); }
  }

  // The sectors of the root directory
  function RootOf(l: Layout): set<nat> {
    set s: nat | s < RootEnd(l) && InRoot(l, s)
  }

  function RootEnd(l: Layout): nat {
    l.Fatbase() + l.nFat + if l.t == Fat32 then l.csize else l.nDir
  }

  predicate InRoot(l: Layout, s: nat) {
    l.Fatbase() + l.nFat <= s < RootEnd(l)
  }

  lemma NoCopies(l: Layout, disk: map<nat, Sector>)
    requires l.Ok()
    ensures Mirrored(l.Geo(), disk)
  {
  }

  // What a volume needs of the disk
  lemma DiskIsNew(disk: map<nat, Sector>, l: Layout)
    requires l.Ok() && Formatted(disk, l)
    ensures l.Geo().Ok() && Sized(l.Geo()) && Mirrored(l.Geo(), disk) && (l.t == Fat32 ==> l.bPart + 1 < l.Fatbase())
    ensures NewTable(l.t, TableBytes(disk, l.Fatbase(), l.nFat))
    ensures forall s | s in RootOf(l) :: At(disk, s) == Blank()
  {
    GeometryOk(l);
    TableIsNew(disk, l.Fatbase(), l.nFat, l.t, MediaOf(l));
    NoCopies(l, disk);
  }

  lemma LinkIsNew(v: Volume, l: Layout)
    requires l.Ok() && v.Valid() && v.g == l.Geo() && NewTable(l.t, v.fat)
    ensures NewLink(l.t, v.link)
  {
    forall c: nat | c < |v.link|
      ensures v.link[c] == 0 <==> c >= FirstFree(l.t)
      ensures l.t == Fat32 && c == 2 ==> v.link[c] >= |v.link|
    {
      assert ReadsAt(v.g.t, v.fat, v.link, c);
      NewEntry(l.t, v.fat, c);
    }
  }

  lemma VolumeIsNew(v: Volume, l: Layout)
    requires l.Ok() && v.Valid() && v.g == l.Geo() && NewTable(l.t, v.fat)
    requires v.freeClust == if l.t == Fat32 then l.nClst - 1 else 0xFFFF_FFFF
    ensures Forest(v.link, NewChains(v.g.t)) && Free(v.link) == l.nClst + 2 - FirstFree(v.g.t)
    ensures v.link[0] != 0 && v.link[1] != 0 && v.Tracked()
  {
    LinkIsNew(v, l);
    NewForest(l.t, v.link);
  }

  // chk_mounted on a formatted disk
  method MountIt(disk: map<nat, Sector>, last: Long, ghost l: Layout) returns (m: MountResult)
    requires l.Mountable() && Formatted(disk, l)
    ensures MountedAs(m, l)
  {
    FoundBoot(disk, l);
    var bsect;
    ghost var f;
    m, bsect, f := Mount(disk, last);
    FormattedMounts(disk, l, last, m, f);
  }

  // The volume that comes of it
  method MountNew(disk: map<nat, Sector>, last: Long, ghost l: Layout) returns (v: Volume)
    requires l.Ok() && Formatted(disk, l)
    ensures fresh(v) && v.Valid() && v.Tracked() && v.g == l.Geo() && Sized(v.g)
    ensures Forest(v.link, NewChains(v.g.t)) && Free(v.link) == l.nClst + 2 - FirstFree(v.g.t)
    ensures v.link[0] != 0 && v.link[1] != 0
    ensures v.dirs.Keys == RootOf(l) && forall s | s in v.dirs :: v.dirs[s] == Blank()
  {
    var m := MountIt(disk, last, l);
    DiskIsNew(disk, l);
    v := new Volume(m.g, disk, m.lastClust, m.freeClust, m.fsiSect, RootOf(l));
    VolumeIsNew(v, l);
  }

  // Formatting and then mounting: the volume has the planned geometry, its chains are in order, the root
  // directory is empty, and the count of free clusters, where one is kept, is right.
  method FormatAndMount(disk0: map<nat, Sector>, count: nat, partition: nat, asked: nat, time: nat, last: Long)
    returns (res: MakeResult, v: Volume?)
    requires asked < 0x1_0000 && time < 0x1_0000_0000
    ensures res == Made <==> Formattable(count, partition, asked)
    ensures res == Aborted ==> v == null
    ensures res == Made ==>
              var l := LayoutFor(count, partition, asked);
              && v != null && fresh(v) && v.Valid() && v.Tracked() && l.Ok() && v.g == l.Geo() && Sized(v.g)
              && Forest(v.link, NewChains(v.g.t)) && Free(v.link) == l.nClst + 2 - FirstFree(v.g.t)
              && v.link[0] != 0 && v.link[1] != 0
              && v.dirs.Keys == RootOf(l) && forall s | s in v.dirs :: v.dirs[s] == Blank()
  {
    var disk;
    res, disk := MakeFs(disk0, count, partition, asked, time);
    v := null;
    if res == Made {
      v := MountNew(disk, last, LayoutFor(count, partition, asked));
    }
  }
}
