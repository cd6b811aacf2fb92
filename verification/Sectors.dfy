// Sectors of 512 bytes, and the words in them, least significant byte first.
module Sectors {
  import opened FatEntries

  type Sector = s: seq<Byte> | |s| == 512 witness seq(512, i => 0)

  function Blank(): (s: Sector)
    ensures forall i | 0 <= i < 512 :: s[i] == 0
  {
    seq(512, i => 0)
  }

  function At(disk: map<nat, Sector>, s: nat): Sector {
    if s in disk then disk[s] else Blank()
  }

  function LdWord(w: Sector, o: nat): nat
    requires o + 2 <= 512
  {
    Word(w[o], w[o + 1])
  }

  function LdDword(w: Sector, o: nat): nat
    requires o + 4 <= 512
  {
    Dword(w[o], w[o + 1], w[o + 2], w[o + 3])
  }

  // ST_WORD and ST_DWORD
  method StWord(w: Sector, o: nat, v: nat) returns (r: Sector)
    requires o + 2 <= 512 && v < 0x1_0000
    ensures forall i | 0 <= i < 512 && !(o <= i < o + 2) :: r[i] == w[i]
    ensures LdWord(r, o) == v
  {
    WordOf(v);
    r := w[o := ByteOf(v, 0)][o + 1 := ByteOf(v, 1)];
  }

  method StDword(w: Sector, o: nat, v: nat) returns (r: Sector)
    requires o + 4 <= 512 && v < 0x1_0000_0000
    ensures forall i | 0 <= i < 512 && !(o <= i < o + 4) :: r[i] == w[i]
    ensures LdDword(r, o) == v
  {
    var a, b, c, d := DwordBytes(v);
    r := w[o := a][o + 1 := b][o + 2 := c][o + 3 := d];
  }

  method DwordBytes(v: nat) returns (a: Byte, b: Byte, c: Byte, d: Byte)
    requires v < 0x1_0000_0000
    ensures Dword(a, b, c, d) == v
  {
    DwordSmall(v);
    a, b, c, d := ByteOf(v, 0), ByteOf(v, 1), ByteOf(v, 2), ByteOf(v, 3);
  }

  // mem_cpy
  method Copy(w: Sector, o: nat, bytes: seq<Byte>) returns (r: Sector)
    requires o + |bytes| <= 512
    ensures forall i | 0 <= i < 512 && !(o <= i < o + |bytes|) :: r[i] == w[i]
    ensures forall j | 0 <= j < |bytes| :: r[o + j] == bytes[j]
  {
    r := w[..o] + bytes + w[o + |bytes|..];
  }

  // The information sector says that there are that many free clusters, and which was given out last.
  predicate SaysFree(w: Sector, free: nat, last: nat) {
    && LdWord(w, 510) == 0xAA55 && LdDword(w, 0) == 0x4161_5252 && LdDword(w, 484) == 0x6141_7272
    && LdDword(w, 488) == free && LdDword(w, 492) == last
  }

  method InfoSector(free: nat, last: nat) returns (w: Sector)
    requires free < 0x1_0000_0000 && last < 0x1_0000_0000
    ensures SaysFree(w, free, last)
  {
    w := Blank();
    w := StWord(w, 510, 0xAA55);
    w := StDword(w, 0, 0x4161_5252);
    w := StDword(w, 484, 0x6141_7272);
    w := StDword(w, 488, free);
    w := StDword(w, 492, last);
  }

  // The directory entry at off says that the file begins at this cluster and has this size.
  predicate EntrySays(w: Sector, off: nat, clust: nat, size: nat)
    requires off + 32 <= 512
  {
    LdWord(w, off + 26) + 0x1_0000 * LdWord(w, off + 20) == clust && LdDword(w, off + 28) == size
  }

  // b | AM_ARC
  function Archived(b: Byte): (r: Byte)
    ensures r / 32 % 2 == 1 && (r == b || r == b + 32)
  {
    if b / 32 % 2 == 1 then b else b + 32
  }

  // The directory entry at off has another cluster, size and time, and the archive bit; the rest is as it was.
  predicate EntryChanged(w: Sector, w': Sector, off: nat, time: nat)
    requires off + 32 <= 512
  {
    && LdDword(w', off + 22) == time && w'[off + 11] == Archived(w[off + 11])
    && forall i | 0 <= i < 512 && i != off + 11 && !(off + 20 <= i < off + 32) :: w'[i] == w[i]
  }

  method UpdateEntry(w: Sector, off: nat, clust: nat, size: nat, time: nat) returns (r: Sector)
    requires off + 32 <= 512 && clust < 0x1_0000_0000 && size < 0x1_0000_0000 && time < 0x1_0000_0000
    ensures EntrySays(r, off, clust, size) && EntryChanged(w, r, off, time)
  {
    r := w[off + 11 := Archived(w[off + 11])];
    r := StDword(r, off + 28, size);
    r := StWord(r, off + 26, clust % 0x1_0000);
    r := StWord(r, off + 20, clust / 0x1_0000);
    r := StDword(r, off + 22, time);
  }
}
