// Formatting a disk, and mounting what was written.
module Format {
  import opened Words
  import opened FatEntries
  import opened Sectors
  import opened FatVolume
  import opened Layouts

  // "NO NAME    FAT     " and "NO NAME    FAT32   "
  const LABEL16: seq<Byte> :=
    [0x4E, 0x4F, 0x20, 0x4E, 0x41, 0x4D, 0x45, 0x20, 0x20, 0x20, 0x20, 0x46, 0x41, 0x54, 0x20, 0x20, 0x20, 0x20, 0x20]
  const LABEL32: seq<Byte> :=
    [0x4E, 0x4F, 0x20, 0x4E, 0x41, 0x4D, 0x45, 0x20, 0x20, 0x20, 0x20, 0x46, 0x41, 0x54, 0x33, 0x32, 0x20, 0x20, 0x20]

  // The letters FAT at o
  predicate SaysFat(w: Sector, o: nat)
    requires o + 4 <= 512
  {
    w[o] == 0x46 && w[o + 1] == 0x41 && w[o + 2] == 0x54
  }

  // They are found by comparing a word.
  lemma FatLetters(w: Sector, o: nat)
    requires o + 4 <= 512
    ensures LdDword(w, o) % 0x100_0000 == 0x54_4146 <==> SaysFat(w, o)
  {
    var low := Dword(w[o], w[o + 1], w[o + 2], 0);
    Low24(LdDword(w, o), w[o + 3], low);
    if low == 0x54_4146 { Bytes4(low, w[o], w[o + 1], w[o + 2], 0, 0x46, 0x41, 0x54, 0); }
  }

  lemma Low24(v: nat, q: nat, r: nat)
    requires v == 0x100_0000 * q + r && r < 0x100_0000
    ensures v % 0x100_0000 == r
  {
  }

  /* ---- what formatting writes ---- */

  // The media byte: on a partition it is another one than on a whole disk.
  function MediaOf(l: Layout): Byte {
    if l.bPart > 0 then 0xF8 else 0xF0
  }

  predicate IsBoot(w: Sector, l: Layout) {
    LdWord(w, 510) == 0xAA55 && HasAreas(w, l) && HasTotal(w, l) && HasTable(w, l) && HasDisk(w, l)
  }

  predicate HasAreas(w: Sector, l: Layout) {
    LdWord(w, 11) == 512 && w[13] == l.csize && LdWord(w, 14) == l.nRsv && w[16] == 1 && LdWord(w, 17) == 16 * l.nDir
  }

  predicate HasTotal(w: Sector, l: Layout) {
    if l.nPart < 0x1_0000 then LdWord(w, 19) == l.nPart else LdWord(w, 19) == 0 && LdDword(w, 32) == l.nPart
  }

  predicate HasTable(w: Sector, l: Layout) {
    if l.t == Fat32 then
      LdWord(w, 22) == 0 && LdDword(w, 36) == l.nFat && LdDword(w, 44) == 2 && LdWord(w, 48) == 1 && SaysFat(w, 82)
    else
      LdWord(w, 22) == l.nFat && SaysFat(w, 54)
  }

  // The jump at the beginning, the media byte, and what the record says of the disk
  predicate HasDisk(w: Sector, l: Layout) {
    && LdDword(w, 0) == 0x90FEEB && w[21] == MediaOf(l) && LdWord(w, 24) == 63 && LdWord(w, 26) == 255
    && LdDword(w, 28) == l.bPart
  }

  // The serial number, which is the time, and the label
  predicate HasLabel(w: Sector, t: FatType, time: nat) {
    if t == Fat32
    then LdDword(w, 67) == time && w[64] == 0x80 && w[66] == 0x29 && LdWord(w, 50) == 6 && w[71..90] == LABEL32
    else LdDword(w, 39) == time && w[36] == 0x80 && w[38] == 0x29 && w[43..62] == LABEL16
  }

  lemma DiskKept(w: Sector, w': Sector, l: Layout)
    requires HasDisk(w, l) && forall i | 0 <= i < 4 || 21 <= i < 22 || 24 <= i < 32 :: w'[i] == w[i]
    ensures HasDisk(w', l)
  {
    SameWord(w, w', 24);
    SameWord(w, w', 26);
  }

  lemma LabelKept(w: Sector, w': Sector, t: FatType, time: nat)
    requires HasLabel(w, t, time) && forall i | 36 <= i < 510 :: w'[i] == w[i]
    ensures HasLabel(w', t, time)
  {
    SameWord(w, w', 50);
    assert w'[71..90] == w[71..90] && w'[43..62] == w[43..62];
  }

  lemma Kept(w: Sector, w': Sector, l: Layout)
    requires forall i | 11 <= i < 21 || 32 <= i < 36 :: w'[i] == w[i]
    ensures HasAreas(w, l) ==> HasAreas(w', l)
    ensures HasTotal(w, l) ==> HasTotal(w', l)
  {
    SameWord(w, w', 11);
    SameWord(w, w', 14);
    SameWord(w, w', 17);
    SameWord(w, w', 19);
    assert w'[13] == w[13] && w'[16] == w[16];
    assert LdDword(w', 32) == LdDword(w, 32);
  }

  lemma SameWord(w: Sector, w': Sector, o: nat)
    requires o + 2 <= 512 && w'[o] == w[o] && w'[o + 1] == w[o + 1]
    ensures LdWord(w', o) == LdWord(w, o)
  {
  }

  lemma AreasKept(w: Sector, w': Sector, l: Layout)
    requires HasAreas(w, l) && forall i | 11 <= i < 19 :: w'[i] == w[i]
    ensures HasAreas(w', l)
  {
  }

  lemma TableKept(w: Sector, w': Sector, l: Layout)
    requires HasTable(w, l) && forall i | 22 <= i < 510 :: w'[i] == w[i]
    ensures HasTable(w', l)
  {
  }

  // A partition table with one partition, which is bootable, has the type that goes with its size, and is said
  // to begin at bPart and to have all sectors of the layout
  predicate IsPartitionTable(w: Sector, l: Layout) {
    && LdWord(w, 510) == 0xAA55 && !SaysFat(w, 54) && !SaysFat(w, 82) && LdDword(w, 446) == 0x0001_0180
    && w[450] == PartitionType(l) && LdDword(w, 454) == l.bPart && LdDword(w, 458) == l.nPart
    && EndsInCylinder(w, LastCylinder(l.bPart + l.nPart)) && OneEntry(w)
  }

  // There is nothing in the sector but the first entry of the table and the signature.
  predicate OneEntry(w: Sector) {
    forall i | 0 <= i < 510 && (i < 446 || 462 <= i) :: w[i] == 0
  }

  // The end of the partition in cylinders, heads and sectors is the last sector of this cylinder.
  predicate EndsInCylinder(w: Sector, c: nat) {
    var high: nat, low: nat := w[452], w[453];
    w[451] == 254 && high % 64 == 63 && low + 256 * (high / 64) == c
  }

  // Cylinders of 255 heads and 63 sectors have 10-bit numbers.
  function LastCylinder(n: nat): nat {
    if n / 16065 < 1024 then n / 16065 else 1023
  }

  function PartitionType(l: Layout): Byte {
    if l.t == Fat32 then 0x0C else if l.nPart < 0x1_0000 then 0x04 else 0x06
  }

  // The first half of the boot record
  method BootAreas(l: Layout) returns (tbl: Sector)
    requires l.Storable()
    ensures HasAreas(tbl, l) && LdDword(tbl, 0) == 0x90FEEB
    ensures forall i | 19 <= i < 512 :: tbl[i] == 0
  {
    tbl := Blank();
    tbl := StDword(tbl, 0, 0x90FEEB);
    tbl := StWord(tbl, 11, 512);
    tbl := tbl[13 := l.csize];
    tbl := StWord(tbl, 14, l.nRsv);
    tbl := tbl[16 := 1];
    tbl := StWord(tbl, 17, 512 / 32 * l.nDir);
  }

  method BootTotals(areas: Sector, l: Layout) returns (tbl: Sector)
    requires l.Storable() && LdDword(areas, 0) == 0x90FEEB && forall i | 19 <= i < 512 :: areas[i] == 0
    ensures forall i | 11 <= i < 19 :: tbl[i] == areas[i]
    ensures HasTotal(tbl, l) && HasDisk(tbl, l)
    ensures tbl[22] == tbl[23] == 0
  {
    var total := PutTotal(areas, l);
    tbl := BootDisk(total, l);
    Kept(total, tbl, l);
  }

  method PutTotal(areas: Sector, l: Layout) returns (tbl: Sector)
    requires l.Storable() && forall i | 19 <= i < 512 :: areas[i] == 0
    ensures HasTotal(tbl, l) && forall i | 0 <= i < 19 || 22 <= i < 24 :: tbl[i] == areas[i]
  {
    if l.nPart < 0x1_0000 {
      tbl := StWord(areas, 19, l.nPart);
    } else {
      tbl := StDword(areas, 32, l.nPart);
    }
  }

  method BootDisk(totals: Sector, l: Layout) returns (tbl: Sector)
    requires l.Storable() && LdDword(totals, 0) == 0x90FEEB
    ensures forall i | 11 <= i < 21 || 22 <= i < 24 || 32 <= i < 36 :: tbl[i] == totals[i]
    ensures HasDisk(tbl, l)
  {
    tbl := totals[21 := if l.bPart == 0 then 0xF0 else 0xF8];
    tbl := StWord(tbl, 24, 63);
    tbl := StWord(tbl, 26, 255);
    tbl := StDword(tbl, 28, l.bPart);
  }

  // A label, in which the file system's name begins with the letters FAT
  method WriteLabel(w: Sector, o: nat, text: seq<Byte>) returns (tbl: Sector)
    requires |text| == 19 && o + 19 <= 512 && text[11] == 0x46 && text[12] == 0x41 && text[13] == 0x54
    ensures tbl[o..o + 19] == text && SaysFat(tbl, o + 11)
    ensures forall i | 0 <= i < 512 && (i < o || o + 19 <= i) :: tbl[i] == w[i]
  {
    tbl := Copy(w, o, text);
    assert tbl[o + 11] == text[11] && tbl[o + 12] == text[12] && tbl[o + 13] == text[13];
  }

  method BootTail16(head: Sector, nFat: nat, time: nat) returns (tbl: Sector)
    requires nFat < 0x1_0000 && time < 0x1_0000_0000
    ensures (forall i | 0 <= i < 22 || 24 <= i < 36 :: tbl[i] == head[i]) && LdWord(tbl, 22) == nFat
    ensures SaysFat(tbl, 54) && HasLabel(tbl, Fat16, time)
  {
    tbl := StDword(head, 39, time);
    tbl := StWord(tbl, 22, nFat);
    tbl := tbl[36 := 0x80];
    tbl := tbl[38 := 0x29];
    tbl := WriteLabel(tbl, 43, LABEL16);
  }

  method BootTail32(head: Sector, nFat: nat, time: nat) returns (tbl: Sector)
    requires nFat < 0x1_0000_0000 && time < 0x1_0000_0000
    ensures (forall i | 0 <= i < 36 :: tbl[i] == head[i]) && HasLabel(tbl, Fat32, time)
    ensures LdDword(tbl, 36) == nFat && LdDword(tbl, 44) == 2 && LdWord(tbl, 48) == 1 && SaysFat(tbl, 82)
  {
    tbl := StDword(head, 67, time);
    tbl := StDword(tbl, 36, nFat);
    tbl := StDword(tbl, 44, 2);
    tbl := StWord(tbl, 48, 1);
    tbl := StWord(tbl, 50, 6);
    tbl := tbl[64 := 0x80];
    tbl := tbl[66 := 0x29];
    tbl := WriteLabel(tbl, 71, LABEL32);
  }

  method BootRecord(l: Layout, time: nat) returns (tbl: Sector)
    requires l.Storable() && time < 0x1_0000_0000
    ensures IsBoot(tbl, l) && HasLabel(tbl, l.t, time)
  {
    var areas := BootAreas(l);
    var head := BootTotals(areas, l);
    AreasKept(areas, head, l);
    tbl := BootTail(head, l, time);
    Kept(head, tbl, l);
    DiskKept(head, tbl, l);
    ghost var before := tbl;
    tbl := StWord(tbl, 510, 0xAA55);
    Kept(before, tbl, l);
    TableKept(before, tbl, l);
    DiskKept(before, tbl, l);
    LabelKept(before, tbl, l.t, time);
  }

  method BootTail(head: Sector, l: Layout, time: nat) returns (tbl: Sector)
    requires l.Storable() && time < 0x1_0000_0000 && head[22] == head[23] == 0
    ensures HasTable(tbl, l) && HasLabel(tbl, l.t, time)
    ensures forall i | 0 <= i < 22 || 24 <= i < 36 :: tbl[i] == head[i]
  {
    if l.t != Fat32 {
      tbl := BootTail16(head, l.nFat, time);
    } else {
      tbl := BootTail32(head, l.nFat, time);
    }
  }

  lemma CylinderBytes(n: nat)
    ensures n < 63 * 255 * 1024 ==>
              var c := n / 63 / 255;
              c == LastCylinder(n) && (c / 4 - c / 4 % 64 + 63) % 256 == 64 * (c / 256) + 63
    ensures n >= 63 * 255 * 1024 ==> LastCylinder(n) == 1023
  {
  }

  // The end of a partition on a disk of so many sectors
  method PartitionEnd(w0: Sector, nDisk: nat) returns (w: Sector)
    ensures EndsInCylinder(w, LastCylinder(nDisk)) && forall i | 0 <= i < 451 || 454 <= i < 512 :: w[i] == w0[i]
  {
    w := w0;
    CylinderBytes(nDisk);
    if nDisk < 63 * 255 * 1024 {
      var c := nDisk / 63 / 255;
      w := w[446 + 7 := c % 256];
      w := w[446 + 6 := (c / 4 - c / 4 % 64 + 63) % 256];
    } else {
      w := StWord(w, 446 + 6, 0xFFFF);
    }
    w := w[446 + 5 := 254];
  }

  // The partition table with the one partition from sector 63 on
  method PartitionTable(l: Layout) returns (w: Sector)
    requires l.Storable() && l.bPart == 63
    ensures IsPartitionTable(w, l)
  {
    w := Blank();
    w := StDword(w, 446, 0x0001_0180);
    w := PartitionEnd(w, l.bPart + l.nPart);
    w := w[446 + 4 := if l.t != Fat32 then (if l.nPart < 0x1_0000 then 0x04 else 0x06) else 0x0C];
    w := StDword(w, 446 + 8, 63);
    w := StDword(w, 446 + 12, l.nPart);
    w := StWord(w, 446 + 64, 0xAA55);
  }

  // The first sector of a new table: the reserved entries, and with 32-bit entries that of the root
  // directory
  predicate IsFirst(w: Sector, t: FatType, media: Byte) {
    && w[0] == (if t == Fat32 then 0xF8 else media) && w[1] == 0xFF && w[2] == 0xFF
    && w[3] == (if t == Fat12 then 0 else 0xFF)
    && (t == Fat32 ==> LdDword(w, 4) == 0xFFFF_FFFF && LdDword(w, 8) == 0x0FFF_FFFF)
    && forall i | (if t == Fat32 then 12 else 4) <= i < 512 :: w[i] == 0
  }

  method FirstOfTable(t: FatType, media: Byte) returns (tbl: Sector)
    ensures IsFirst(tbl, t, media)
  {
    if t != Fat32 {
      tbl := FirstOf16(t, media);
    } else {
      tbl := FirstOf32(media);
    }
  }

  method FirstOf16(t: FatType, media: Byte) returns (tbl: Sector)
    requires t != Fat32
    ensures IsFirst(tbl, t, media)
  {
    var n := if t == Fat12 then 0x00FF_FF00 else 0xFFFF_FF00;
    n := n + media;
    tbl := OneWord(n);
    FirstWord(t, media);
    Bytes4(n, tbl[0], tbl[1], tbl[2], tbl[3], media, 0xFF, 0xFF, if t == Fat12 then 0 else 0xFF);
  }

  // A sector with a word at its beginning, and zeros
  method OneWord(v: nat) returns (tbl: Sector)
    requires v < 0x1_0000_0000
    ensures LdDword(tbl, 0) == v && forall i | 4 <= i < 512 :: tbl[i] == 0
  {
    tbl := Blank();
    assert forall i | 0 <= i < 512 :: tbl[i] == 0;
    tbl := StDword(tbl, 0, v);
  }

  lemma FirstWord(t: FatType, media: Byte)
    ensures media + (if t == Fat12 then 0x00FF_FF00 else 0xFFFF_FF00)
            == Dword(media, 0xFF, 0xFF, if t == Fat12 then 0 else 0xFF)
  {
  }

  method FirstOf32(ghost media: Byte) returns (tbl: Sector)
    ensures IsFirst(tbl, Fat32, media)
  {
    tbl := OneWord(0xFFFF_FFF8);
    Bytes4(0xFFFF_FFF8, tbl[0], tbl[1], tbl[2], tbl[3], 0xF8, 0xFF, 0xFF, 0xFF);
    tbl := TwoWords(tbl);
  }

  method TwoWords(w: Sector) returns (tbl: Sector)
    requires forall i | 12 <= i < 512 :: w[i] == 0
    ensures (forall i | 0 <= i < 4 :: tbl[i] == w[i]) && LdDword(tbl, 4) == 0xFFFF_FFFF
    ensures LdDword(tbl, 8) == 0x0FFF_FFFF
    ensures forall i | 12 <= i < 512 :: tbl[i] == 0
  {
    tbl := StDword(w, 4, 0xFFFF_FFFF);
    assert forall i | 12 <= i < 512 :: tbl[i] == 0;
    tbl := StDword(tbl, 8, 0x0FFF_FFFF);
  }

  // A word has only one spelling.
  lemma Bytes4(v: nat, a: Byte, b: Byte, c: Byte, d: Byte, a': Byte, b': Byte, c': Byte, d': Byte)
    requires v == Dword(a, b, c, d) == Dword(a', b', c', d')
    ensures a == a' && b == b' && c == c' && d == d'
  {
    Digit(v, a, Dword(b, c, d, 0), a', Dword(b', c', d', 0));
    Digit(Dword(b, c, d, 0), b, Dword(c, d, 0, 0), b', Dword(c', d', 0, 0));
    Digit(Dword(c, d, 0, 0), c, d, c', d');
  }

  lemma Digit(v: nat, a: Byte, q: nat, a': Byte, q': nat)
    requires v == a + 256 * q == a' + 256 * q'
    ensures a == a' && q == q'
  {
  }

  // There is one free cluster less than there are clusters.
  predicate IsInfo(w: Sector, nClst: nat) {
    nClst > 0 && SaysFree(w, nClst - 1, 0xFFFF_FFFF)
  }

  // Sectors from s to below e are zero.
  ghost predicate Zeroed(disk: map<nat, Sector>, s: nat, e: nat) {
    forall t: nat {:trigger At(disk, t)} | s <= t < e :: At(disk, t) == Blank()
  }

  // With 32-bit entries there are copies of the boot record and of the information sector.
  predicate HasBackup(disk: map<nat, Sector>, bPart: nat) {
    At(disk, bPart + 6) == At(disk, bPart) && At(disk, bPart + 7) == At(disk, bPart + 1)
  }

  ghost predicate Formatted(disk: map<nat, Sector>, l: Layout) {
    && IsBoot(At(disk, l.bPart), l) && (l.bPart > 0 ==> IsPartitionTable(At(disk, 0), l))
    && IsFirst(At(disk, l.Fatbase()), l.t, MediaOf(l))
    && Zeroed(disk, l.Fatbase() + 1, l.Fatbase() + l.nFat + (if l.t == Fat32 then l.csize else l.nDir))
    && (l.t == Fat32 ==> IsInfo(At(disk, l.bPart + 1), l.nClst) && HasBackup(disk, l.bPart))
  }

  // Write zero sectors from s to below e.
  method ZeroSectors(disk0: map<nat, Sector>, s: nat, e: nat) returns (disk: map<nat, Sector>)
    requires s <= e
    ensures Zeroed(disk, s, e) && forall t: nat | !(s <= t < e) :: At(disk, t) == At(disk0, t)
  {
    disk := disk0;
    for n := s to e
      invariant Zeroed(disk, s, n) && forall t: nat | !(s <= t < n) :: At(disk, t) == At(disk0, t)
    {
      ghost var before := disk;
      disk := disk[n := Blank()];
      forall t: nat | s <= t < n + 1
        ensures At(disk, t) == Blank()
      {
        if t < n { assert At(before, t) == Blank(); }
      }
    }
  }

  datatype MakeResult = Made | Aborted

  // The layout of a disk of count sectors under a partitioning rule
  function LayoutFor(count: nat, partition: nat, asked: nat): (l: Layout)
    requires partition < 2 && count >= 2000
    ensures l.csize >= 1 && l.bPart == (if partition == 0 then 63 else 0) && l.bPart + l.nPart == Capped(count)
  {
    var bPart := if partition == 0 then 63 else 0;
    PlanOf(Capped(count) - bPart, bPart, SectorsPerCluster(asked, Capped(count) - bPart), partition)
  }

  // A disk can be formatted if the partitioning rule is known, there are enough sectors, and aligning
  // the data leaves as many clusters as the FAT type needs that all sectors together would make.
  predicate Formattable(count: nat, partition: nat, asked: nat) {
    partition < 2 && count >= 2000 && KeepsType(LayoutFor(count, partition, asked))
  }

  // The part of f_mkfs that decides on the layout
  method Decide(count: nat, partition: nat, asked: nat) returns (ok: bool, l: Layout)
    requires asked < 0x1_0000 && partition < 2 && count >= 2000
    ensures l == LayoutFor(count, partition, asked) && (ok <==> KeepsType(l)) && (ok ==> l.Ok())
  {
    var nPart := if count > 131072000 then 131072000 else count;
    var bPart := if partition == 0 then 63 else 0;
    nPart := nPart - bPart;
    var allocsize := ClusterSize(asked, nPart);
    ok, l := Plan(nPart, bPart, allocsize, partition);
  }

  // f_mkfs, from the check of the partitioning rule on; the disk has count sectors. An aborted call
  // writes nothing.
  method MakeFs(disk0: map<nat, Sector>, count: nat, partition: nat, asked: nat, time: nat)
    returns (res: MakeResult, disk: map<nat, Sector>)
    requires asked < 0x1_0000 && time < 0x1_0000_0000
    ensures res == Made <==> Formattable(count, partition, asked)
    ensures res == Aborted ==> disk == disk0
    ensures res == Made ==>
              var l := LayoutFor(count, partition, asked);
              l.Ok() && Formatted(disk, l) && HasLabel(At(disk, l.bPart), l.t, time) && NothingElse(disk0, disk, l)
  {
    disk := disk0;
    if partition >= 2 { return Aborted, disk; }
    if count < 2000 { return Aborted, disk; }
    var ok, l := Decide(count, partition, asked);
    if !ok { return Aborted, disk; }
    disk := WriteVolume(disk0, l, time);
    res := Made;
  }

  function Capped(count: nat): nat {
    if count > 131072000 then 131072000 else count
  }

  lemma RestKept(d0: map<nat, Sector>, d1: map<nat, Sector>, d2: map<nat, Sector>, d3: map<nat, Sector>, l: Layout)
    requires forall t: nat {:trigger At(d1, t)} | t != 0 && t != l.bPart && !(l.t == Fat32 && t == l.bPart + 6) ::
               At(d1, t) == At(d0, t)
    requires forall t: nat {:trigger At(d2, t)} | t < l.Fatbase() || TableEnd(l) <= t :: At(d2, t) == At(d1, t)
    requires if l.t != Fat32 then d3 == d2
             else forall t: nat {:trigger At(d3, t)} | t != l.bPart + 1 && t != l.bPart + 7 :: At(d3, t) == At(d2, t)
    ensures NothingElse(d0, d3, l)
  {
  }

  // All that is written
  method WriteVolume(disk0: map<nat, Sector>, l: Layout, time: nat) returns (disk: map<nat, Sector>)
    requires time < 0x1_0000_0000 && l.Mountable() && (l.bPart == 0 || l.bPart == 63) && (l.t == Fat32 ==> l.nRsv >= 8)
    ensures Formatted(disk, l) && HasLabel(At(disk, l.bPart), l.t, time) && NothingElse(disk0, disk, l)
  {
    disk := WriteBoot(disk0, l, time);
    ghost var d1 := disk;
    disk := WriteTable(disk, l, if l.bPart == 0 then 0xF0 else 0xF8);
    ghost var d2 := disk;
    if l.t == Fat32 {
      disk := WriteInfo(disk, l.bPart, l.nClst);
    }
    AllWritten(d1, d2, disk, l);
    RestKept(disk0, d1, d2, disk, l);
  }

  // Where the root directory ends
  function TableEnd(l: Layout): nat {
    l.Fatbase() + l.nFat + if l.t == Fat32 then l.csize else l.nDir
  }

  // What is written later does not reach what was written before.
  lemma AllWritten(d1: map<nat, Sector>, d2: map<nat, Sector>, disk: map<nat, Sector>, l: Layout)
    requires BootWritten(d1, l) && TableWritten(d2, l) && (l.t == Fat32 ==> l.nRsv >= 8) && l.nRsv >= 1
    requires forall t: nat {:trigger At(d2, t)} | t < l.Fatbase() :: At(d2, t) == At(d1, t)
    requires if l.t != Fat32 then disk == d2
             else IsInfo(At(disk, l.bPart + 1), l.nClst) && At(disk, l.bPart + 7) == At(disk, l.bPart + 1)
                  && forall t: nat {:trigger At(disk, t)} | t != l.bPart + 1 && t != l.bPart + 7 ::
                       At(disk, t) == At(d2, t)
    ensures Formatted(disk, l) && At(disk, l.bPart) == At(d1, l.bPart)
  {
  }

  ghost predicate BootWritten(disk: map<nat, Sector>, l: Layout) {
    && IsBoot(At(disk, l.bPart), l) && (l.bPart > 0 ==> IsPartitionTable(At(disk, 0), l))
    && (l.t == Fat32 ==> At(disk, l.bPart + 6) == At(disk, l.bPart))
  }

  ghost predicate TableWritten(disk: map<nat, Sector>, l: Layout) {
    && IsFirst(At(disk, l.Fatbase()), l.t, MediaOf(l))
    && Zeroed(disk, l.Fatbase() + 1, TableEnd(l))
  }

  // The sectors that a layout is about
  predicate Concerned(l: Layout, t: nat) {
    || t == 0 || t == l.bPart || l.Fatbase() <= t < TableEnd(l)
    || (l.t == Fat32 && (t == l.bPart + 1 || t == l.bPart + 6 || t == l.bPart + 7))
  }

  // The rest of the disk stays as it is.
  ghost predicate NothingElse(disk0: map<nat, Sector>, disk: map<nat, Sector>, l: Layout) {
    forall t: nat {:trigger At(disk, t)} | !Concerned(l, t) :: At(disk, t) == At(disk0, t)
  }

  method WriteInfo(disk0: map<nat, Sector>, bPart: nat, nClst: nat) returns (disk: map<nat, Sector>)
    requires 1 <= nClst <= 131072000
    ensures IsInfo(At(disk, bPart + 1), nClst) && At(disk, bPart + 7) == At(disk, bPart + 1)
    ensures forall t: nat {:trigger At(disk, t)} | t != bPart + 1 && t != bPart + 7 :: At(disk, t) == At(disk0, t)
  {
    var info := InfoSector(nClst - 1, 0xFFFF_FFFF);
    disk := disk0[bPart + 1 := info][bPart + 7 := info];
  }

  // The partition table, and the boot record with its copy
  method WriteBoot(disk0: map<nat, Sector>, l: Layout, time: nat) returns (disk: map<nat, Sector>)
    requires time < 0x1_0000_0000 && l.Storable() && (l.bPart == 0 || l.bPart == 63)
    ensures BootWritten(disk, l) && HasLabel(At(disk, l.bPart), l.t, time)
    ensures forall t: nat | t != 0 && t != l.bPart && !(l.t == Fat32 && t == l.bPart + 6) ::
              At(disk, t) == At(disk0, t)
  {
    disk := disk0;
    if l.bPart != 0 {
      var table := PartitionTable(l);
      disk := disk[0 := table];
    }
    var boot := BootRecord(l, time);
    disk := disk[l.bPart := boot];
    if l.t == Fat32 {
      disk := disk[l.bPart + 6 := boot];
    }
  }

  // The table and the root directory
  method WriteTable(disk0: map<nat, Sector>, l: Layout, media: Byte) returns (disk: map<nat, Sector>)
    requires l.Storable() && media == MediaOf(l)
    ensures TableWritten(disk, l)
    ensures forall t: nat | t < l.Fatbase() || TableEnd(l) <= t :: At(disk, t) == At(disk0, t)
  {
    var bFat := l.bPart + l.nRsv;
    var first := FirstOfTable(l.t, media);
    disk := disk0[bFat := first];
    bFat := bFat + 1;
    disk := ZeroSectors(disk, bFat, bFat + l.nFat - 1);
    bFat := bFat + l.nFat - 1;
    ghost var before := disk;
    disk := ZeroSectors(disk, bFat, bFat + if l.t == Fat32 then l.csize else l.nDir);
    forall t: nat | l.Fatbase() + 1 <= t < bFat
      ensures At(disk, t) == Blank()
    {
      assert At(before, t) == Blank();
    }
  }

  /* ---- mounting ---- */

  datatype MountResult =
    | Mounted(g: Geometry, dirbase: nat, nRootdir: nat, fsiSect: nat, lastClust: Long, freeClust: Long)
    | NoFileSystem
    | DivisionByZero

  predicate IsFatBoot(w: Sector) {
    LdWord(w, 510) == 0xAA55 && (SaysFat(w, 54) || SaysFat(w, 82))
  }

  // Where the boot record is: in sector 0, or if that is no boot record of a FAT volume but has a first
  // partition, where that begins
  function BootAt(disk: map<nat, Sector>): nat {
    var w := At(disk, 0);
    if LdWord(w, 510) == 0xAA55 && !IsFatBoot(w) && w[450] != 0 then LdDword(w, 454) else 0
  }

  // check_fs: 0 is a boot record of a FAT volume, 1 another, 2 none
  method CheckFs(w: Sector) returns (r: nat)
    ensures r == if LdWord(w, 510) != 0xAA55 then 2 else if IsFatBoot(w) then 0 else 1
  {
    FatLetters(w, 54);
    FatLetters(w, 82);
    if LdWord(w, 510) != 0xAA55 { return 2; }
    if LdDword(w, 54) % 0x100_0000 == 0x54_4146 { return 0; }
    if LdDword(w, 82) % 0x100_0000 == 0x54_4146 { return 0; }
    r := 1;
  }

  // Where the boot record is, and whether it is one
  method FindBoot(disk: map<nat, Sector>) returns (fmt: nat, bsect: nat)
    ensures bsect == BootAt(disk) && (fmt == 0 <==> IsFatBoot(At(disk, bsect)))
  {
    bsect := 0;
    var win := At(disk, bsect);
    fmt := CheckFs(win);
    if fmt == 1 {
      if win[446 + 4] != 0 {
        bsect := LdDword(win, 446 + 8);
        win := At(disk, bsect);
        fmt := CheckFs(win);
      }
    }
  }

  // What a boot record says of a volume: sectors of a table, tables, reserved sectors, sectors of a cluster,
  // entries of the root directory, sectors in all, the first cluster of the root directory, and which sector is
  // the information sector
  datatype Fields = Fields(sectsFat: nat, nFats: nat, rsvd: nat, csize: nat, nRootdir: nat, tsect: nat,
                           rootClus: nat, info: nat)

  // A number with a place of 16 bits, and one of 32 bits for when that is 0
  predicate InEither(w: Sector, o: nat, o': nat, v: nat)
    requires o + 2 <= 512 && o' + 4 <= 512
  {
    v == if LdWord(w, o) != 0 then LdWord(w, o) else LdDword(w, o')
  }

  predicate Says(w: Sector, f: Fields) {
    && InEither(w, 22, 36, f.sectsFat) && w[16] == f.nFats && LdWord(w, 14) == f.rsvd && w[13] == f.csize
    && LdWord(w, 17) == f.nRootdir && InEither(w, 19, 32, f.tsect) && LdDword(w, 44) == f.rootClus
    && LdWord(w, 48) == f.info
  }

  // The areas of the volume, of which none may be missing, fit into it, and its sectors have 32-bit numbers.
  predicate Prescribed(f: Fields, bsect: nat) {
    && 1 <= f.sectsFat && 1 <= f.nFats && 1 <= f.rsvd && 1 <= f.csize
    && f.rsvd + Runs(f.nFats, f.sectsFat) + f.nRootdir / 16 <= f.tsect && bsect + f.tsect < W32
  }

  // The areas of the volume follow one another: the reserved sectors, all copies of the table, the root directory
  // (with 32-bit entries a chain), and as many clusters as there is room for. Their number tells the type.
  predicate LaidOut(r: MountResult, f: Fields, bsect: nat)
    requires r.Mounted?
  {
    && r.g.sectsFat == f.sectsFat && r.g.nFats == f.nFats && r.g.csize == f.csize && r.nRootdir == f.nRootdir
    && r.g.fatbase == bsect + f.rsvd && r.g.fatEnd == r.g.fatbase + Runs(f.nFats, f.sectsFat)
    && r.g.database == r.g.fatEnd + f.nRootdir / 16 && r.dirbase == (if r.g.t == Fat32 then f.rootClus else r.g.fatEnd)
    && r.g.maxClust >= 2 && Filled(r.g.maxClust - 2, f.csize, bsect + f.tsect - r.g.database)
    && r.g.t == TypeOf(r.g.maxClust - 2)
  }

  // So many clusters fit into the sectors, and not one more.
  predicate Filled(n: nat, csize: nat, sectors: int) {
    Runs(n, csize) <= sectors < Runs(n, csize) + csize
  }

  // The count of free clusters and the last cluster given out, from the information sector if it is one
  predicate InfoTaken(w: Sector, last: Long, last': Long, free: Long) {
    if LdWord(w, 510) == 0xAA55 && LdDword(w, 0) == 0x4161_5252 && LdDword(w, 484) == 0x6141_7272
    then SaysFree(w, free, last')
    else free == 0xFFFF_FFFF && last' == last
  }

  // What mounting finds out, from what the boot record says
  predicate MountedFrom(disk: map<nat, Sector>, bsect: nat, last: Long, f: Fields, r: MountResult)
    requires r.Mounted?
  {
    && (Prescribed(f, bsect) ==> LaidOut(r, f, bsect))
    && if r.g.t == Fat32
       then r.fsiSect == U32(bsect + f.info) && InfoTaken(At(disk, r.fsiSect), last, r.lastClust, r.freeClust)
       else r.freeClust == 0xFFFF_FFFF && r.lastClust == last
  }

  // The fields of a boot record, as they are read
  method ReadFields(win: Sector) returns (f: Fields)
    ensures Says(win, f)
  {
    var fsize := LdWord(win, 22);
    if fsize == 0 { fsize := LdDword(win, 36); }
    var tsect := LdWord(win, 19);
    if tsect == 0 { tsect := LdDword(win, 32); }
    f := Fields(fsize, win[16], LdWord(win, 14), win[13], LdWord(win, 17), tsect, LdDword(win, 44), LdWord(win, 48));
  }

  // How many clusters the boot record makes, by number of the last one and 1 more
  method CountClusters(f: Fields, fsize: nat) returns (mclst: nat)
    requires f.csize > 0
    ensures Prescribed(f, 0) && fsize == Runs(f.nFats, f.sectsFat) ==>
              mclst >= 2 && Filled(mclst - 2, f.csize, f.tsect - f.rsvd - fsize - f.nRootdir / 16)
  {
    var sectors := f.tsect - f.rsvd - fsize - f.nRootdir / 16;
    mclst := U32(U32(sectors) / f.csize + 2);
    if Prescribed(f, 0) && fsize == Runs(f.nFats, f.sectsFat) {
      SmallU32(sectors);
      WholeRuns(sectors, f.csize);
      RunsUp(0, f.nFats, f.sectsFat);
      AtLeast(sectors / f.csize, f.csize);
      SmallU32(sectors / f.csize + 2);
    }
  }

  // Runs that are not empty count at least one each.
  lemma {:induction false} AtLeast(n: nat, x: nat)
    requires x > 0
    ensures n <= Runs(n, x)
  {
    if n > 0 { AtLeast(n - 1, x); }
  }

  // The size of all tables
  method TablesSize(f: Fields) returns (fsize: nat)
    ensures Runs(f.nFats, f.sectsFat) < W32 ==> fsize == Runs(f.nFats, f.sectsFat)
  {
    fsize := U32(f.sectsFat * f.nFats);
    RunsProduct(f.nFats, f.sectsFat);
    if Runs(f.nFats, f.sectsFat) < W32 { SmallU32(f.sectsFat * f.nFats); }
  }

  function TypeFor(mclst: nat): FatType {
    if mclst >= 0xFFF7 then Fat32 else if mclst >= 0xFF7 then Fat16 else Fat12
  }

  // The rest of the volume's numbers
  method MountFields(disk: map<nat, Sector>, f: Fields, bsect: nat, last: Long) returns (r: MountResult)
    requires f.csize > 0
    ensures r.Mounted? && MountedFrom(disk, bsect, last, f, r)
  {
    var fsize := TablesSize(f);
    var mclst := CountClusters(f, fsize);
    var fatbase := U32(bsect + f.rsvd);
    var database := U32(fatbase + fsize + f.nRootdir / 16);
    var t := TypeFor(mclst);
    var dirbase := if t == Fat32 then f.rootClus else U32(fatbase + fsize);
    if Prescribed(f, bsect) { Unwrapped(f, bsect); }
    var g := Geometry(t, fatbase, f.sectsFat, f.nFats, fatbase + Runs(f.nFats, f.sectsFat), f.csize, database, mclst);
    var fsiSect := U32(bsect + f.info);
    var lastClust, freeClust: Long := last, 0xFFFF_FFFF;
    if t == Fat32 {
      lastClust, freeClust := ReadInfo(At(disk, fsiSect), last);
    }
    r := Mounted(g, dirbase, f.nRootdir, fsiSect, lastClust, freeClust);
  }

  // Where the areas fit, none of the sums wraps around.
  lemma Unwrapped(f: Fields, bsect: nat)
    requires Prescribed(f, bsect)
    ensures var fsize := Runs(f.nFats, f.sectsFat);
            && fsize < W32 && U32(bsect + f.rsvd) == bsect + f.rsvd
            && U32(bsect + f.rsvd + fsize) == bsect + f.rsvd + fsize
            && U32(bsect + f.rsvd + fsize + f.nRootdir / 16) == bsect + f.rsvd + fsize + f.nRootdir / 16
  {
    var fsize := Runs(f.nFats, f.sectsFat);
    SmallU32(bsect + f.rsvd);
    SmallU32(bsect + f.rsvd + fsize);
    SmallU32(bsect + f.rsvd + fsize + f.nRootdir / 16);
  }

  // What the information sector says, if it is one
  method ReadInfo(info: Sector, last: Long) returns (lastClust: Long, freeClust: Long)
    ensures InfoTaken(info, last, lastClust, freeClust)
  {
    lastClust, freeClust := last, 0xFFFF_FFFF;
    if LdWord(info, 510) == 0xAA55 && LdDword(info, 0) == 0x4161_5252 && LdDword(info, 484) == 0x6141_7272 {
      lastClust := LdDword(info, 492);
      freeClust := LdDword(info, 488);
    }
  }

  // The volume whose boot record is in that sector
  method MountAt(disk: map<nat, Sector>, fmt: nat, bsect: nat, last: Long) returns (r: MountResult, ghost f: Fields)
    ensures Says(At(disk, bsect), f) && (r == NoFileSystem <==> fmt != 0 || LdWord(At(disk, bsect), 11) != 512)
    ensures r == DivisionByZero <==> r != NoFileSystem && f.csize == 0
    ensures r.Mounted? ==> MountedFrom(disk, bsect, last, f, r)
  {
    var win := At(disk, bsect);
    var read := ReadFields(win);
    f := read;
    if fmt != 0 || LdWord(win, 11) != 512 { return NoFileSystem, f; }
    if win[13] == 0 { return DivisionByZero, f; }
    r := MountFields(disk, read, bsect, last);
  }

  // chk_mounted, where the volume is not mounted yet; what last_clust was before is given. A volume that is laid
  // out as the format prescribes is mounted with that layout, however many tables, reserved sectors and root
  // entries it has, and wherever its sizes are stored.
  method Mount(disk: map<nat, Sector>, last: Long) returns (r: MountResult, bsect: nat, ghost f: Fields)
    ensures bsect == BootAt(disk) && Says(At(disk, bsect), f)
    ensures r == NoFileSystem <==> !IsFatBoot(At(disk, bsect)) || LdWord(At(disk, bsect), 11) != 512
    ensures r == DivisionByZero <==> r != NoFileSystem && f.csize == 0
    ensures r.Mounted? ==> MountedFrom(disk, bsect, last, f, r)
  {
    var fmt;
    fmt, bsect := FindBoot(disk);
    r, f := MountAt(disk, fmt, bsect, last);
  }

  // A volume laid out like that can be worked with exactly if the table has room for the entries of all clusters,
  // and their numbers have 28 bits.
  lemma LaidOutOk(r: MountResult, f: Fields, bsect: nat)
    requires r.Mounted? && Prescribed(f, bsect) && LaidOut(r, f, bsect)
    ensures r.g.Ok() <==> Inside(r.g.t, 512 * f.sectsFat, r.g.maxClust - 1) && r.g.maxClust < 0x1000_0000
  {
    if Inside(r.g.t, 512 * f.sectsFat, r.g.maxClust - 1) {
      forall c | 0 <= c < r.g.maxClust
        ensures Inside(r.g.t, 512 * f.sectsFat, c)
      {
      }
    }
  }

  /* ---- mounting what formatting has written ---- */

  // What mounting finds is what formatting has laid out.
  ghost predicate MountedAs(r: MountResult, l: Layout) {
    && r.Mounted? && r.g == l.Geo() && r.dirbase == l.Dirbase() && r.nRootdir == 16 * l.nDir
    && (l.t == Fat32 ==> r.fsiSect == l.bPart + 1)
    && r.freeClust == if l.t == Fat32 then l.nClst - 1 else 0xFFFF_FFFF
  }

  lemma FoundBoot(disk: map<nat, Sector>, l: Layout)
    requires Formatted(disk, l)
    ensures BootAt(disk) == l.bPart && IsFatBoot(At(disk, l.bPart))
  {
  }

  // The fields of that layout
  predicate FieldsOf(f: Fields, l: Layout) {
    && f.sectsFat == l.nFat && f.nFats == 1 && f.rsvd == l.nRsv && f.csize == l.csize && f.tsect == l.nPart
    && f.nRootdir == 16 * l.nDir && (l.t == Fat32 ==> f.rootClus == 2 && f.info == 1)
  }

  lemma BootSays(w: Sector, l: Layout, f: Fields)
    requires l.Storable() && IsBoot(w, l) && Says(w, f)
    ensures FieldsOf(f, l)
  {
  }

  lemma LaidOutAs(l: Layout, f: Fields, r: MountResult)
    requires l.Mountable() && FieldsOf(f, l) && r.Mounted? && LaidOut(r, f, l.bPart)
    ensures r.g == l.Geo() && r.dirbase == l.Dirbase() && r.nRootdir == 16 * l.nDir
  {
    var sectors := l.nPart - l.nRsv - l.nFat - l.nDir;
    OneRun(l.nFat);
    SameFill(l.nClst, r.g.maxClust - 2, l.csize, sectors);
  }

  lemma OneRun(x: nat)
    ensures Runs(1, x) == x
  {
    assert Runs(1, x) == Runs(0, x) + x;
  }

  lemma SameFill(n: nat, n': nat, csize: nat, sectors: nat)
    requires csize > 0 && Filled(n, csize, sectors) && Filled(n', csize, sectors)
    ensures n == n'
  {
    RunsQuotient(sectors, n, csize);
    RunsQuotient(sectors, n', csize);
  }

  lemma IsPrescribed(l: Layout, f: Fields)
    requires l.Mountable() && FieldsOf(f, l)
    ensures Prescribed(f, l.bPart)
  {
    OneRun(l.nFat);
  }

  lemma InfoIs(w: Sector, nClst: nat, last: Long, last': Long, free: Long)
    requires IsInfo(w, nClst) && InfoTaken(w, last, last', free)
    ensures free == nClst - 1
  {
  }

  lemma FormattedMounts(disk: map<nat, Sector>, l: Layout, last: Long, r: MountResult, f: Fields)
    requires l.Mountable() && Formatted(disk, l) && r.Mounted? && Says(At(disk, l.bPart), f)
    requires MountedFrom(disk, l.bPart, last, f, r)
    ensures MountedAs(r, l)
  {
    BootSays(At(disk, l.bPart), l, f);
    IsPrescribed(l, f);
    LaidOutAs(l, f, r);
    if l.t == Fat32 {
      SmallU32(l.bPart + 1);
      InfoIs(At(disk, l.bPart + 1), l.nClst, last, r.lastClust, r.freeClust);
    }
  }
}
