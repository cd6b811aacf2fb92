// A mounted volume: its disk, the sector window with delayed write-back, and the table entries seen
// through the window.
module FatVolume {
  import opened FatEntries
  import opened Sectors
  import opened ClusterChains

  // n sectors of the disk from s on
  function SectorsAt(disk: map<nat, Sector>, s: nat, n: nat): (r: seq<Sector>)
    ensures |r| == n
  {
    if n == 0 then [] else SectorsAt(disk, s, n - 1) + [At(disk, s + n - 1)]
  }

  lemma {:induction false} SectorsAtAt(disk: map<nat, Sector>, s: nat, n: nat, j: nat)
    requires j < n
    ensures SectorsAt(disk, s, n)[j] == At(disk, s + j)
  {
    if j < n - 1 { SectorsAtAt(disk, s, n - 1, j); }
  }

  // The disk with these sectors written from s on
  function Written(disk: map<nat, Sector>, s: nat, ss: seq<Sector>): map<nat, Sector> {
    if ss == [] then disk else Written(disk, s, ss[..|ss| - 1])[s + |ss| - 1 := ss[|ss| - 1]]
  }

  lemma {:induction false} WrittenAt(disk: map<nat, Sector>, s: nat, ss: seq<Sector>, t: nat)
    ensures At(Written(disk, s, ss), t) == if s <= t < s + |ss| then ss[t - s] else At(disk, t)
  {
    if ss != [] { WrittenAt(disk, s, ss[..|ss| - 1], t); }
  }

  // What mounting has found out. The table has n copies of sectsFat sectors; data clusters are
  // numbered from 2 to below maxClust.
  datatype Geometry = Geometry(t: FatType, fatbase: nat, sectsFat: nat, nFats: nat, fatEnd: nat,
                               csize: nat, database: nat, maxClust: nat)
  {
    ghost predicate Ok() {
      && 0 < fatbase && 0 < sectsFat && 1 <= nFats
      && fatEnd == fatbase + Runs(nFats, sectsFat) && fatEnd <= database
      && 2 <= maxClust < Width(t) && 0 < csize
      && forall c | 0 <= c < maxClust :: Inside(t, 512 * sectsFat, c)
    }

    predicate InTable(s: nat) {
      fatbase <= s < fatbase + sectsFat
    }

    // Sectors of the second and further copies of the table
    predicate IsCopy(s: nat) {
      fatbase + sectsFat <= s < fatEnd
    }
  }

  // The disk as it would be after writing the window back
  function Overlaid(disk: map<nat, Sector>, win: Sector, winsect: nat, wflag: bool, s: nat): Sector {
    if wflag && s == winsect then win else At(disk, s)
  }

  // A clean window shows what is on the disk; sector number 0 stands for no sector.
  ghost predicate WindowOk(disk: map<nat, Sector>, win: Sector, winsect: nat, wflag: bool) {
    (winsect != 0 && !wflag ==> win == At(disk, winsect)) && (wflag ==> winsect != 0)
  }

  // Sector s of a copy of the table equals the sector of the copy before.
  predicate Follows(g: Geometry, disk: map<nat, Sector>, s: nat) {
    s >= g.sectsFat && At(disk, s) == At(disk, s - g.sectsFat)
  }

  ghost predicate Mirrored(g: Geometry, disk: map<nat, Sector>) {
    forall s: nat {:trigger Follows(g, disk, s)} | g.IsCopy(s) :: Follows(g, disk, s)
  }

  // All copies but for the one that continues after sector w
  ghost predicate MirroredBut(g: Geometry, disk: map<nat, Sector>, w: nat) {
    forall s: nat {:trigger Follows(g, disk, s)} | g.IsCopy(s) && s != w + g.sectsFat :: Follows(g, disk, s)
  }

  ghost predicate SameButCopies(g: Geometry, disk: map<nat, Sector>, disk': map<nat, Sector>) {
    forall s: nat | !g.IsCopy(s) :: At(disk', s) == At(disk, s)
  }

  // A sector of the table may be written; the copies follow one after another.
  lemma WriteFirst(g: Geometry, disk: map<nat, Sector>, w: nat, x: Sector)
    requires g.Ok() && Mirrored(g, disk) && g.InTable(w)
    ensures MirroredBut(g, disk[w := x], w)
  {
    var disk' := disk[w := x];
    forall s: nat | g.IsCopy(s) && s != w + g.sectsFat
      ensures Follows(g, disk', s)
    {
      assert Follows(g, disk, s);
    }
  }

  lemma WriteNext(g: Geometry, disk: map<nat, Sector>, w: nat, x: Sector)
    requires g.Ok() && MirroredBut(g, disk, w) && At(disk, w) == x && g.IsCopy(w + g.sectsFat)
    ensures MirroredBut(g, disk[w + g.sectsFat := x], w + g.sectsFat)
    ensures SameButCopies(g, disk, disk[w + g.sectsFat := x])
  {
    var n := w + g.sectsFat;
    var disk' := disk[n := x];
    forall s: nat | g.IsCopy(s) && s != n + g.sectsFat
      ensures Follows(g, disk', s)
    {
      if s != n { assert Follows(g, disk, s); }
    }
  }

  lemma WriteElsewhere(g: Geometry, disk: map<nat, Sector>, w: nat, x: Sector)
    requires g.Ok() && Mirrored(g, disk) && g.fatEnd <= w
    ensures Mirrored(g, disk[w := x])
  {
    var disk' := disk[w := x];
    forall s: nat | g.IsCopy(s)
      ensures Follows(g, disk', s)
    {
      assert Follows(g, disk, s);
    }
  }

  lemma WriteBelow(g: Geometry, disk: map<nat, Sector>, w: nat, x: Sector)
    requires g.Ok() && Mirrored(g, disk) && w < g.fatbase
    ensures Mirrored(g, disk[w := x])
  {
    var disk' := disk[w := x];
    forall s: nat | g.IsCopy(s)
      ensures Follows(g, disk', s)
    {
      assert Follows(g, disk, s);
    }
  }

  lemma LastWritten(g: Geometry, disk: map<nat, Sector>, w: nat)
    requires g.Ok() && MirroredBut(g, disk, w) && w + g.sectsFat >= g.fatEnd
    ensures Mirrored(g, disk)
  {
    forall s: nat | g.IsCopy(s)
      ensures Follows(g, disk, s)
    {
    }
  }

  type Long = n: nat | n < 0x1_0000_0000

  // 32-bit counting
  function Minus1(x: nat): (r: Long)
    ensures 0 < x < 0x1_0000_0000 ==> r == x - 1
  {
    (x + 0xFFFF_FFFF) % 0x1_0000_0000
  }

  function Plus1(x: nat): (r: Long)
    ensures x < 0xFFFF_FFFF ==> r == x + 1
  {
    (x + 1) % 0x1_0000_0000
  }

  // The sectors of directories, with what they hold where the window is laid over the disk
  type Directories = map<nat, Sector>

  ghost predicate SameBehind(g: Geometry, dirs: Directories, disk: map<nat, Sector>, disk': map<nat, Sector>) {
    forall s: nat {:trigger At(disk', s)} | s >= g.fatEnd && s !in dirs :: At(disk', s) == At(disk, s)
  }

  lemma SameBehindOn(g: Geometry, dirs: Directories, d0: map<nat, Sector>, d1: map<nat, Sector>,
                     d2: map<nat, Sector>)
    requires SameBehind(g, dirs, d0, d1) && SameBehind(g, dirs, d1, d2)
    ensures SameBehind(g, dirs, d0, d2)
  {
    forall s: nat | s >= g.fatEnd && s !in dirs
      ensures At(d2, s) == At(d0, s)
    {
      assert At(d1, s) == At(d0, s);
    }
  }

  // Sectors in n runs of x sectors each
  function Runs(n: nat, x: nat): nat {
    if n == 0 then 0 else Runs(n - 1, x) + x
  }

  lemma {:induction false} RunsUp(a: nat, b: nat, x: nat)
    requires a < b
    ensures Runs(a, x) + x <= Runs(b, x)
    decreases b
  {
    if a < b - 1 { RunsUp(a, b - 1, x); }
  }

  lemma {:induction false} RunsProduct(n: nat, x: nat)
    ensures Runs(n, x) == n * x
  {
    if n > 0 {
      RunsProduct(n - 1, x);
      assert n * x == (n - 1) * x + x;
    }
  }

  lemma Quotient(x: nat, m: nat, q: nat, r: nat)
    requires m > 0 && x == q * m + r && r < m
    ensures x / m == q && x % m == r
  {
    var d := x / m;
    if d < q { NoLess(d + 1, q, m); }
    if q < d { NoLess(q + 1, d, m); }
    assert x == d * m + x % m;
  }

  lemma NoLess(a: int, b: nat, m: nat)
    requires a <= b
    ensures a * m <= b * m && a * m == (a - 1) * m + m
  {
  }

  // The quotient by x, as whole runs of x
  lemma WholeRuns(n: nat, x: nat)
    requires x > 0
    ensures Runs(n / x, x) <= n < Runs(n / x, x) + x
  {
    RunsProduct(n / x, x);
    assert n == n / x * x + n % x;
  }

  lemma RunsQuotient(n: nat, q: nat, x: nat)
    requires x > 0 && Runs(q, x) <= n < Runs(q, x) + x
    ensures n / x == q
  {
    RunsProduct(q, x);
    Quotient(n, x, q, n - Runs(q, x));
  }

  // The bytes of n sectors of the disk
  function TableBytes(disk: map<nat, Sector>, s: nat, n: nat): (r: seq<Byte>)
    ensures |r| == 512 * n
  {
    if n == 0 then [] else TableBytes(disk, s, n - 1) + At(disk, s + n - 1)
  }

  lemma {:induction false} TableSector(disk: map<nat, Sector>, s: nat, n: nat, j: nat)
    requires j < n
    ensures Slice(TableBytes(disk, s, n), j) == At(disk, s + j)
  {
    if j < n - 1 {
      TableSector(disk, s, n - 1, j);
      assert Slice(TableBytes(disk, s, n), j) == Slice(TableBytes(disk, s, n - 1), j);
    }
  }

  lemma TableShown(g: Geometry, disk: map<nat, Sector>, win: Sector)
    ensures forall s: nat {:trigger Overlaid(disk, win, 0, false, s)} | g.InTable(s) ::
              Overlaid(disk, win, 0, false, s) == Slice(TableBytes(disk, g.fatbase, g.sectsFat), s - g.fatbase)
  {
    forall s: nat | g.InTable(s)
      ensures Overlaid(disk, win, 0, false, s) == Slice(TableBytes(disk, g.fatbase, g.sectsFat), s - g.fatbase)
    {
      TableSector(disk, g.fatbase, g.sectsFat, s - g.fatbase);
    }
  }

  // The entries of the first n clusters
  function Entries(t: FatType, fat: seq<Byte>, n: nat): (r: seq<nat>)
    requires forall c | 0 <= c < n :: Inside(t, |fat|, c)
    ensures |r| == n
  {
    if n == 0 then [] else assert Inside(t, |fat|, n - 1); Entries(t, fat, n - 1) + [Entry(t, fat, n - 1)]
  }

  lemma {:induction false} EntriesAt(t: FatType, fat: seq<Byte>, n: nat, c: nat)
    requires (forall d | 0 <= d < n :: Inside(t, |fat|, d)) && c < n
    ensures Inside(t, |fat|, c) && Entries(t, fat, n)[c] == Entry(t, fat, c)
  {
    if c < n - 1 { EntriesAt(t, fat, n - 1, c); }
  }

  lemma EntriesRead(g: Geometry, fat: seq<Byte>)
    requires g.Ok() && |fat| == 512 * g.sectsFat
    ensures forall c | 0 <= c < g.maxClust :: Inside(g.t, |fat|, c)
    ensures Reads(g, fat, Entries(g.t, fat, g.maxClust))
  {
    forall c: nat | c < g.maxClust
      ensures ReadsAt(g.t, fat, Entries(g.t, fat, g.maxClust), c)
    {
      EntriesAt(g.t, fat, g.maxClust, c);
    }
  }

  // No cluster has the mark of a bad one.
  predicate NoneBad(link: seq<nat>) {
    forall c | 2 <= c < |link| :: link[c] != 1
  }

  class Volume {
    const g: Geometry
    const fsiSect: nat
    var disk: map<nat, Sector>
    var win: Sector
    var winsect: nat
    var wflag: bool

    var lastClust: Long
    var freeClust: Long
    var fsiFlag: bool

    // The bytes of the table, its entries, and the directories
    ghost var fat: seq<Byte>
    ghost var link: seq<nat>
    ghost var dirs: Directories

    // A volume just mounted: nothing is in the window. With 32-bit entries there is a sector for the count of
    // free clusters among the reserved ones.
    constructor (geo: Geometry, sectors: map<nat, Sector>, last: Long, free: Long, info: nat,
                 ghost dirSectors: set<nat>)
      requires geo.Ok() && Mirrored(geo, sectors) && (geo.t == Fat32 ==> 0 < info < geo.fatbase)
      ensures Valid() && g == geo && fsiSect == info && disk == sectors && lastClust == last && freeClust == free
      ensures dirs == map s | s in dirSectors :: At(sectors, s)
      ensures fat == TableBytes(sectors, geo.fatbase, geo.sectsFat) && winsect == 0 && !wflag && !fsiFlag
    {
      g, fsiSect, disk, win, winsect, wflag := geo, info, sectors, Blank(), 0, false;
      lastClust, freeClust, fsiFlag := last, free, false;
      dirs := map s | s in dirSectors :: At(sectors, s);
      new;
      fat := TableBytes(disk, g.fatbase, g.sectsFat);
      link := Entries(g.t, fat, g.maxClust);
      EntriesRead(g, fat);
      TableShown(g, disk, win);
    }

    ghost function Logical(s: nat): Sector
      reads `disk, `win, `winsect, `wflag
    {
      Overlaid(disk, win, winsect, wflag, s)
    }

    // But for the copies of the table, the disk overlaid with the window is as before.
    twostate predicate LogicalKept()
      reads `disk, `win, `winsect, `wflag
    {
      forall s: nat {:trigger Logical(s)} | !g.IsCopy(s) :: Logical(s) == old(Logical(s))
    }

    // Whatever the window shows, it is in order, and only sectors that have no copies of the table
    // in them are dirty.
    ghost predicate WindowValid()
      reads `disk, `win, `winsect, `wflag
    {
      && g.Ok() && WindowOk(disk, win, winsect, wflag) && Mirrored(g, disk)
      && (wflag ==> winsect >= g.fatbase && !g.IsCopy(winsect))
    }

    // The mirror loop of move_window: w is the sector just written.
    method WriteCopies(w: nat)
      requires g.Ok() && g.InTable(w) && MirroredBut(g, disk, w) && At(disk, w) == win
      modifies `disk
      ensures Mirrored(g, disk) && SameButCopies(g, old(disk), disk)
    {
      var wsect: nat, nf: nat := w, g.nFats;
      while nf > 1
        invariant 1 <= nf <= g.nFats && Remaining(wsect, nf, w)
        invariant MirroredBut(g, disk, wsect) && At(disk, wsect) == win
        invariant SameButCopies(g, old(disk), disk)
      {
        NextCopy(wsect, nf, w);
        WriteNext(g, disk, wsect, win);
        wsect := wsect + g.sectsFat;
        disk := disk[wsect := win];
        nf := nf - 1;
      }
      assert Runs(1, g.sectsFat) == Runs(0, g.sectsFat) + g.sectsFat;
      LastWritten(g, disk, wsect);
    }

    // nf copies, counting the one at wsect, are left of those that begin with w.
    ghost predicate Remaining(wsect: nat, nf: nat, w: nat) {
      wsect >= w && wsect + Runs(nf, g.sectsFat) == w + Runs(g.nFats, g.sectsFat)
    }

    lemma NextCopy(wsect: nat, nf: nat, w: nat)
      requires g.Ok() && g.InTable(w) && nf > 1 && Remaining(wsect, nf, w)
      ensures g.IsCopy(wsect + g.sectsFat) && Remaining(wsect + g.sectsFat, nf - 1, w)
    {
      RunsUp(0, nf - 1, g.sectsFat);
    }

    // move_window, which loses nothing: but for the copies of the table, the disk overlaid with the
    // window is what it was. Moving to 0 only writes back.
    method MoveWindow(sector: nat)
      requires WindowValid()
      modifies `disk, `win, `winsect, `wflag
      ensures WindowValid()
      ensures LogicalKept()
      ensures sector != 0 ==> winsect == sector
      ensures sector != 0 && !g.IsCopy(sector) ==> win == old(Logical(sector))
      ensures sector == 0 ==> winsect == old(winsect) && !wflag
      ensures wflag ==> old(wflag) && winsect == old(winsect)
    {
      var wsect := winsect;
      if wsect != sector {
        if wflag {
          if g.InTable(wsect) { WriteFirst(g, disk, wsect, win); } else { WriteElsewhere(g, disk, wsect, win); }
          disk := disk[wsect := win];
          wflag := false;
          if wsect < g.fatbase + g.sectsFat {
            WriteCopies(wsect);
          }
        }
        if sector != 0 {
          win := At(disk, sector);
          winsect := sector;
        }
      }
    }

    /* ---- the table through the window ---- */

    // The window is on the table, on a sector of a directory, or on nothing. With it laid over the
    // disk the table has the bytes fat, in which the entries read link.
    ghost predicate Valid()
      reads `disk, `win, `winsect, `wflag, `fat, `link, `dirs
    {
      && WindowValid() && OnWindow(winsect) && (g.t == Fat32 ==> 0 < fsiSect < g.fatbase)
      && |fat| == 512 * g.sectsFat && TableIs(fat) && DirsAre()
      && Reads(g, fat, link)
    }

    ghost predicate DirsAre()
      reads `disk, `win, `winsect, `wflag, `dirs
    {
      forall s: nat {:trigger Logical(s)} | s in dirs && s >= g.fatEnd :: Logical(s) == dirs[s]
    }

    ghost predicate OnWindow(s: nat)
      reads `dirs
    {
      s == 0 || g.InTable(s) || (s in dirs && s >= g.fatEnd)
    }

    ghost predicate TableIs(bytes: seq<Byte>)
      requires |bytes| == 512 * g.sectsFat
      reads `disk, `win, `winsect, `wflag
    {
      forall s: nat {:trigger Logical(s)} | g.InTable(s) :: Logical(s) == Slice(bytes, s - g.fatbase)
    }

    // Everything behind the table is as before, but for what was to be written to directories.
    twostate predicate DataKept()
      reads `disk, `dirs
    {
      SameBehind(g, dirs, old(disk), disk)
    }

    twostate lemma TableKept()
      requires g.Ok() && |fat| == 512 * g.sectsFat && fat == old(fat) && old(TableIs(fat)) && LogicalKept()
      requires dirs == old(dirs) && old(DirsAre())
      ensures TableIs(fat) && DirsAre()
    {
    }

    twostate lemma BehindKept()
      requires g.Ok() && LogicalKept() && dirs == old(dirs) && old(OnWindow(winsect)) && OnWindow(winsect)
      ensures DataKept()
    {
      forall s: nat | s >= g.fatEnd && s !in dirs
        ensures At(disk, s) == old(At(disk, s))
      {
        RunsUp(0, g.nFats, g.sectsFat);
        assert Logical(s) == old(Logical(s));
      }
    }

    // Show sector number i of the table.
    method ShowTable(i: nat)
      requires Valid() && i < g.sectsFat
      modifies `disk, `win, `winsect, `wflag
      ensures Valid() && winsect == g.fatbase + i && win == Slice(fat, i) && DataKept() && LogicalKept()
    {
      assert Logical(g.fatbase + i) == Slice(fat, i);
      MoveWindow(g.fatbase + i);
      TableKept();
      BehindKept();
    }

    // get_fat: 1 stands for an error.
    method GetFat(clst: nat) returns (v: nat)
      requires Valid()
      modifies `disk, `win, `winsect, `wflag
      ensures Valid() && DataKept() && LogicalKept()
      ensures v == if clst < 2 || clst >= g.maxClust then 1 else link[clst]
    {
      if clst < 2 || clst >= g.maxClust { return 1; }
      assert ReadsAt(g.t, fat, link, clst);
      match g.t {
        case Fat12 => v := GetFat12(clst);
        case Fat16 => v := GetFat16(clst);
        case Fat32 => v := GetFat32(clst);
      }
    }

    method GetFat12(clst: nat) returns (v: nat)
      requires Valid() && g.t == Fat12 && Inside(Fat12, |fat|, clst)
      modifies `disk, `win, `winsect, `wflag
      ensures Valid() && DataKept() && LogicalKept() && v == Entry(Fat12, fat, clst)
    {
      var bc := clst + clst / 2;
      var wc := ReadByte(bc);
      bc := bc + 1;
      var hi := ReadByte(bc);
      var w := Word(wc, hi);
      v := if clst % 2 == 1 then w / 16 else w % 0x1000;
    }

    // Move to the sector of byte b of the table, and take the byte.
    method ReadByte(b: nat) returns (x: Byte)
      requires Valid() && b < |fat|
      modifies `disk, `win, `winsect, `wflag
      ensures Valid() && DataKept() && LogicalKept() && x == fat[b]
    {
      ByteInWindow(fat, b);
      ShowTable(b / 512);
      x := win[b % 512];
    }

    method GetFat16(clst: nat) returns (v: nat)
      requires Valid() && g.t == Fat16 && Inside(Fat16, |fat|, clst)
      modifies `disk, `win, `winsect, `wflag
      ensures Valid() && DataKept() && LogicalKept() && v == Entry(Fat16, fat, clst)
    {
      Entry16InWindow(fat, clst);
      v := LoadWord(clst / 256, Offset(clst, 2));
    }

    // LD_WORD in sector i of the table
    method LoadWord(i: nat, p: nat) returns (v: nat)
      requires Valid() && 512 * (i + 1) <= |fat| && p + 1 < 512
      modifies `disk, `win, `winsect, `wflag
      ensures Valid() && DataKept() && LogicalKept() && v == Word(Slice(fat, i)[p], Slice(fat, i)[p + 1])
    {
      ShowTable(i);
      v := Word(win[p], win[p + 1]);
    }

    method GetFat32(clst: nat) returns (v: nat)
      requires Valid() && g.t == Fat32 && Inside(Fat32, |fat|, clst)
      modifies `disk, `win, `winsect, `wflag
      ensures Valid() && DataKept() && LogicalKept() && v == Entry(Fat32, fat, clst)
    {
      Entry32InWindow(fat, clst);
      v := LoadDword(clst / 128, Offset(clst, 4));
    }

    // LD_DWORD without the top four bits
    method LoadDword(i: nat, p: nat) returns (v: nat)
      requires Valid() && 512 * (i + 1) <= |fat| && p + 3 < 512
      modifies `disk, `win, `winsect, `wflag
      ensures Valid() && DataKept() && LogicalKept()
      ensures var w := Slice(fat, i); v == Dword28(w[p], w[p + 1], w[p + 2], w[p + 3])
    {
      ShowTable(i);
      v := Dword28(win[p], win[p + 1], win[p + 2], win[p + 3]);
    }

    /* ---- storing an entry ---- */

    // The table as it is while an entry is being stored
    ghost predicate Raw()
      reads `disk, `win, `winsect, `wflag, `fat, `dirs
    {
      WindowValid() && OnWindow(winsect) && |fat| == 512 * g.sectsFat && TableIs(fat) && DirsAre()
    }

    // But for the table, nothing changes.
    twostate predicate OnlyTable()
      reads `disk, `win, `winsect, `wflag
    {
      forall s: nat {:trigger Logical(s)} | !g.IsCopy(s) && !g.InTable(s) :: Logical(s) == old(Logical(s))
    }

    // win[p] = x, which is byte b of the table
    method SetByte(p: nat, x: Byte, ghost b: nat)
      requires Raw() && b < |fat| && winsect == g.fatbase + b / 512 && p == b % 512
      modifies `win, `wflag, `fat
      ensures Raw() && fat == old(fat)[b := x] && wflag && OnlyTable()
    {
      SliceUpdate(fat, b, x);
      RunsUp(0, g.nFats, g.sectsFat);
      win := win[p := x];
      wflag := true;
      fat := fat[b := x];
      forall s: nat | g.InTable(s)
        ensures Logical(s) == Slice(fat, s - g.fatbase)
      {
        assert old(Logical(s)) == Slice(old(fat), s - g.fatbase);
      }
      forall s: nat | s in dirs && s >= g.fatEnd
        ensures Logical(s) == dirs[s]
      {
        assert old(Logical(s)) == dirs[s];
      }
    }

    // put_fat
    method PutFat(clst: nat, val: nat) returns (ok: bool)
      requires Valid()
      modifies `disk, `win, `winsect, `wflag, `fat, `link
      ensures Valid() && DataKept() && OnlyTable()
      ensures ok == (2 <= clst < g.maxClust)
      ensures link == if ok then old(link)[clst := Masked(g.t, val)] else old(link)
    {
      if clst < 2 || clst >= g.maxClust { return false; }
      assert Inside(g.t, 512 * g.sectsFat, clst);
      StoredReads(g, fat, link, clst, val);
      StoreEntry(clst, val);
      link := link[clst := Masked(g.t, val)];
      ok := true;
    }

    method StoreEntry(clst: nat, val: nat)
      requires Raw() && Inside(g.t, |fat|, clst)
      modifies `disk, `win, `winsect, `wflag, `fat
      ensures Raw() && DataKept() && OnlyTable() && fat == Stored(g.t, old(fat), clst, val)
    {
      match g.t {
        case Fat12 => { PutFat12(clst, val); }
        case Fat16 => { PutFat16(clst, val); }
        case Fat32 => { PutFat32(clst, val); }
      }
    }

    method PutFat12(clst: nat, val: nat)
      requires Raw() && Inside(Fat12, |fat|, clst)
      modifies `disk, `win, `winsect, `wflag, `fat
      ensures Raw() && DataKept() && OnlyTable() && fat == Stored(Fat12, old(fat), clst, val)
    {
      var bc := clst + clst / 2;
      ShowByte(g.fatbase + bc / 512, bc);
      var p := bc % 512;
      SetByte(p, Low12(clst % 2 == 1, win[p], val), bc);
      bc := bc + 1;
      ShowByte(g.fatbase + bc / 512, bc);
      p := bc % 512;
      SetByte(p, High12(clst % 2 == 1, win[p], val), bc);
    }

    method PutFat16(clst: nat, val: nat)
      requires Raw() && Inside(Fat16, |fat|, clst)
      modifies `disk, `win, `winsect, `wflag, `fat
      ensures Raw() && DataKept() && OnlyTable() && fat == Stored(Fat16, old(fat), clst, val)
    {
      Place16(clst);
      ShowByte(g.fatbase + clst / 256, 2 * clst);
      var p := Offset(clst, 2);
      SetByte(p, ByteOf(val, 0), 2 * clst);
      SetByte(p + 1, ByteOf(val, 1), 2 * clst + 1);
    }

    method PutFat32(clst: nat, val: nat)
      requires Raw() && Inside(Fat32, |fat|, clst)
      modifies `disk, `win, `winsect, `wflag, `fat
      ensures Raw() && DataKept() && OnlyTable() && fat == Stored(Fat32, old(fat), clst, val)
    {
      Place32(clst);
      ShowByte(g.fatbase + clst / 128, 4 * clst);
      var p := Offset(clst, 4);
      SetByte(p, ByteOf(val, 0), 4 * clst);
      SetByte(p + 1, ByteOf(val, 1), 4 * clst + 1);
      SetByte(p + 2, ByteOf(val, 2), 4 * clst + 2);
      SetByte(p + 3, ByteOf(val, 3), 4 * clst + 3);
    }

    // move_window to the sector that holds byte b of the table
    method ShowByte(sector: nat, ghost b: nat)
      requires Raw() && b < |fat| && sector == g.fatbase + b / 512
      modifies `disk, `win, `winsect, `wflag
      ensures Raw() && winsect == sector && win[b % 512] == fat[b] && DataKept() && OnlyTable()
    {
      ByteInWindow(fat, b);
      assert Logical(g.fatbase + b / 512) == Slice(fat, b / 512);
      MoveWindow(sector);
      TableKept();
      BehindKept();
    }

    /* ---- chains ---- */

    // The count of free clusters is right, if it is known.
    ghost predicate Tracked()
      reads `freeClust, `link
    {
      freeClust == 0xFFFF_FFFF || freeClust == Free(link)
    }

    ghost function Eoc(): nat {
      Width(g.t) - 1
    }

    // When the count of free clusters changes, this is noted for the information sector.
    twostate predicate Noted()
      reads `freeClust, `fsiFlag
    {
      (old(fsiFlag) ==> fsiFlag) && (g.t == Fat32 && freeClust != old(freeClust) ==> fsiFlag)
    }

    // create_chain, but for the two lines that count
    method CreateChain(clst: nat) returns (r: nat)
      requires Valid()
      modifies `disk, `win, `winsect, `wflag, `fat, `link, `lastClust, `freeClust, `fsiFlag
      ensures Valid() && DataKept() && OnlyTable()
      ensures Created(old(link), old(lastClust), clst, r, link, Eoc())
      ensures (old(Tracked()) ==> Tracked()) && Noted()
    {
      var mcl := g.maxClust;
      var scl: nat;
      if clst == 0 {
        scl := lastClust;
        if scl == 0 || scl >= mcl { scl := 1; }
      } else {
        var cs := GetFat(clst);
        if cs < 2 { return 1; }
        if cs < mcl { return cs; }
        scl := clst;
      }
      r := FindFree(scl);
      if r >= 2 {
        TakeCluster(clst, r);
      }
    }

    // The search of create_chain
    method FindFree(scl: nat) returns (r: nat)
      requires Valid() && 1 <= scl && (scl == 1 || scl < g.maxClust)
      modifies `disk, `win, `winsect, `wflag
      ensures Valid() && DataKept() && LogicalKept()
      ensures r == 0 ==> forall c: nat | IsCluster(link, c) :: link[c] >= 2
      ensures r == 1 ==> exists n: nat :: FirstStop(link, scl, n) && link[n] == 1
      ensures r >= 2 ==> FirstStop(link, scl, r) && link[r] == 0
    {
      var mcl := g.maxClust;
      var ncl := scl;
      ghost var wrapped := false;
      while true
        invariant Valid() && DataKept() && LogicalKept()
        invariant if wrapped then 2 <= ncl < scl else scl <= ncl && (ncl == 1 || ncl < mcl)
        invariant forall c: nat | IsCluster(link, c) && (if wrapped then c > scl || c <= ncl else scl < c <= ncl) ::
                    link[c] >= 2
        decreases !wrapped, mcl - ncl
      {
        ncl := ncl + 1;
        if ncl >= mcl {
          ncl := 2;
          wrapped := true;
          if ncl > scl { return 0; }
        }
        var cs := GetFat(ncl);
        if cs == 0 { break; }
        if cs == 1 {
          assert FirstStop(link, scl, ncl);
          return 1;
        }
        if ncl == scl { return 0; }
      }
      r := ncl;
    }

    // Mark the new cluster as the last of a chain, link it to the one before, and count it.
    method TakeCluster(clst: nat, ncl: nat)
      requires Valid() && IsCluster(link, ncl) && link[ncl] == 0
      requires clst == 0 || (IsCluster(link, clst) && link[clst] >= g.maxClust)
      modifies `disk, `win, `winsect, `wflag, `fat, `link, `lastClust, `freeClust, `fsiFlag
      ensures Valid() && DataKept() && OnlyTable()
      ensures link == Taken(old(link), clst, ncl, Eoc())
      ensures (old(Tracked()) ==> Tracked()) && fsiFlag == (old(fsiFlag) || old(freeClust) != 0xFFFF_FFFF) && Noted()
      ensures lastClust == ncl
    {
      OneTaken(link, clst, ncl, Eoc());
      LinkCluster(clst, ncl);
      lastClust := ncl;
      if freeClust != 0xFFFF_FFFF {
        freeClust := Minus1(freeClust);
        fsiFlag := true;
      }
    }

    method LinkCluster(clst: nat, ncl: nat)
      requires Valid() && IsCluster(link, ncl) && (clst == 0 || IsCluster(link, clst))
      modifies `disk, `win, `winsect, `wflag, `fat, `link
      ensures Valid() && DataKept() && OnlyTable()
      ensures link == Taken(old(link), clst, ncl, Eoc())
    {
      EocStored(g.t);
      var ok := PutFat(ncl, 0x0FFF_FFFF);
      if clst != 0 {
        ok := PutFat(clst, ncl);
      }
    }

    // Clear the entry of a cluster in use, and count it.
    method ClearEntry(clst: nat)
      requires Valid() && IsCluster(link, clst) && link[clst] != 0
      modifies `disk, `win, `winsect, `wflag, `fat, `link, `freeClust, `fsiFlag
      ensures Valid() && DataKept() && OnlyTable()
      ensures link == old(link)[clst := 0] && Free(link) == Free(old(link)) + 1
      ensures (old(Tracked()) ==> Tracked()) && fsiFlag == (old(fsiFlag) || old(freeClust) != 0xFFFF_FFFF) && Noted()
    {
      FreeAfter(link, |link|, clst, 0);
      var ok := PutFat(clst, 0);
      if freeClust != 0xFFFF_FFFF {
        freeClust := Plus1(freeClust);
        fsiFlag := true;
      }
    }

    // One turn of the loop of remove_chain: the entry, which is cleared if it is of a cluster in use
    method RemoveNext(clst: nat) returns (nxt: nat)
      requires Valid() && IsCluster(link, clst)
      modifies `disk, `win, `winsect, `wflag, `fat, `link, `freeClust, `fsiFlag
      ensures Valid() && DataKept() && OnlyTable() && nxt == old(link)[clst]
      ensures link == if nxt <= 1 then old(link) else old(link)[clst := 0]
      ensures nxt > 1 ==> Free(link) == Free(old(link)) + 1
      ensures (old(Tracked()) ==> Tracked()) && Noted()
    {
      nxt := GetFat(clst);
      if nxt > 1 {
        ClearEntry(clst);
      }
    }

    // remove_chain; ch is the chain that begins at clst, where that is the case.
    method RemoveChain(start: nat, ghost ch: seq<nat>) returns (ok: bool)
      requires Valid()
      modifies `disk, `win, `winsect, `wflag, `fat, `link, `freeClust, `fsiFlag
      ensures Valid() && DataKept() && OnlyTable()
      ensures IsChain(old(link), ch) && ch[0] == start ==> ok && link == Freed(old(link), ch)
      ensures if IsCluster(old(link), start) then Removed(old(link), start, ok, link) else !ok && link == old(link)
      ensures (old(Tracked()) ==> Tracked()) && Noted()
    {
      if start < 2 || start >= g.maxClust { return false; }
      ok := true;
      var clst := start;
      ghost var p: seq<nat> := [];
      NoneFreed(link);
      while clst < g.maxClust
        invariant Valid() && DataKept() && OnlyTable() && clst >= 2 && ok
        invariant Walked(old(link), start, p, clst) && link == Freed(old(link), p)
        invariant (old(Tracked()) ==> Tracked()) && Noted()
        decreases |link| - Free(link)
      {
        Further(old(link), start, p, clst);
        var nxt := RemoveNext(clst);
        if nxt == 0 { break; }
        if nxt == 1 {
          ok := false;
          break;
        }
        clst, p := nxt, p + [clst];
      }
      assert WalkEnds(old(link), p, clst, ok);
      if IsChain(old(link), ch) && ch[0] == start { ChainWalked(old(link), ch, p, clst, ok); }
    }

    /* ---- files ---- */

    // disk_write of sectors that are neither of the table nor of a directory
    method WriteData(s: nat, ss: seq<Sector>)
      requires Valid() && s >= g.fatEnd && forall d | d in dirs :: !(s <= d < s + |ss|)
      modifies `disk
      ensures Valid() && disk == Written(old(disk), s, ss)
    {
      disk := Written(disk, s, ss);
      RunsUp(0, g.nFats, g.sectsFat);
      forall t: nat | t < g.fatEnd || t in dirs
        ensures At(disk, t) == At(old(disk), t)
      {
        WrittenAt(old(disk), s, ss, t);
      }
      forall t: nat | g.IsCopy(t)
        ensures Follows(g, disk, t)
      {
        assert Follows(g, old(disk), t);
      }
      forall t: nat | g.InTable(t)
        ensures Logical(t) == Slice(fat, t - g.fatbase)
      {
        assert old(Logical(t)) == Slice(fat, t - g.fatbase);
      }
      forall t: nat | t in dirs && t >= g.fatEnd
        ensures Logical(t) == dirs[t]
      {
        assert old(Logical(t)) == dirs[t];
      }
    }

    /* ---- directories and the information sector ---- */

    // move_window to a sector of a directory
    method ShowDirectory(sector: nat)
      requires Valid() && sector in dirs && sector >= g.fatEnd
      modifies `disk, `win, `winsect, `wflag
      ensures Valid() && winsect == sector && win == dirs[sector] && DataKept() && LogicalKept()
    {
      RunsUp(0, g.nFats, g.sectsFat);
      assert Logical(sector) == dirs[sector];
      MoveWindow(sector);
      TableKept();
      BehindKept();
    }

    // The sector of a directory in the window is changed there.
    method ChangeDirectory(w: Sector)
      requires Valid() && winsect in dirs && winsect >= g.fatEnd
      modifies `win, `wflag, `dirs
      ensures Valid() && wflag && dirs == old(dirs)[winsect := w]
    {
      RunsUp(0, g.nFats, g.sectsFat);
      win := w;
      wflag := true;
      dirs := dirs[winsect := w];
      forall s: nat | g.InTable(s)
        ensures Logical(s) == Slice(fat, s - g.fatbase)
      {
        assert old(Logical(s)) == Slice(fat, s - g.fatbase);
      }
      forall s: nat | s in dirs && s >= g.fatEnd
        ensures Logical(s) == dirs[s]
      {
        if s != winsect { assert old(Logical(s)) == old(dirs)[s]; }
      }
    }

    // The information sector is made in the window, and written.
    method WriteInfo()
      requires Valid() && !wflag && g.t == Fat32
      modifies `disk, `win, `winsect, `wflag, `fsiFlag
      ensures Valid() && !wflag && !fsiFlag && SaysFree(At(disk, fsiSect), freeClust, lastClust)
      ensures forall s: nat | s >= g.fatbase :: At(disk, s) == old(At(disk, s))
    {
      winsect := 0;
      win := InfoSector(freeClust, lastClust);
      disk := disk[fsiSect := win];
      fsiFlag := false;
      WriteBelow(g, old(disk), fsiSect, win);
      forall s: nat | s >= g.fatbase
        ensures Logical(s) == old(Logical(s))
      {
      }
    }

    // sync: the window is written back, and the information sector, if what it is to say has changed. The
    // disk alone then holds what it held with the window laid over it.
    method Sync()
      requires Valid()
      modifies `disk, `win, `winsect, `wflag, `fsiFlag
      ensures Valid() && !wflag && DataKept()
      ensures forall s: nat {:trigger At(disk, s)} | s >= g.fatbase && !g.IsCopy(s) :: At(disk, s) == old(Logical(s))
      ensures fsiFlag == (old(fsiFlag) && g.t != Fat32)
      ensures g.t == Fat32 ==>
                if old(fsiFlag) then SaysFree(At(disk, fsiSect), freeClust, lastClust)
                else At(disk, fsiSect) == At(old(disk), fsiSect)
    {
      MoveWindow(0);
      TableKept();
      BehindKept();
      assert forall s: nat {:trigger At(disk, s)} | !g.IsCopy(s) :: At(disk, s) == Logical(s);
      if g.t == Fat32 && fsiFlag {
        WriteInfo();
      }
    }

    // The part of f_sync that updates a directory entry, and brings everything to the disk
    method SaveEntry(sector: nat, off: nat, clust: nat, size: nat, time: nat)
      requires Valid() && sector in dirs && sector >= g.fatEnd && off + 32 <= 512
      requires clust < 0x1_0000_0000 && size < 0x1_0000_0000 && time < 0x1_0000_0000
      modifies `disk, `win, `winsect, `wflag, `fsiFlag, `dirs
      ensures Valid() && !wflag && DataKept() && sector in dirs && dirs == old(dirs)[sector := dirs[sector]]
      ensures EntrySays(dirs[sector], off, clust, size) && EntryChanged(old(dirs[sector]), dirs[sector], off, time)
    {
      ShowDirectory(sector);
      ghost var d1 := disk;
      var w := UpdateEntry(win, off, clust, size, time);
      ChangeDirectory(w);
      Sync();
      SameBehindOn(g, dirs, old(disk), d1, disk);
    }

    /* ---- counting free clusters ---- */

    // f_getfree
    method GetFree() returns (ok: bool, n: Long)
      requires Valid()
      modifies `disk, `win, `winsect, `wflag, `freeClust, `fsiFlag
      ensures Valid() && DataKept() && LogicalKept()
      ensures old(freeClust) <= g.maxClust - 2 ==> ok && n == old(freeClust)
      ensures old(freeClust) > g.maxClust - 2 && g.t == Fat12 ==>
                (ok <==> g.maxClust > 2 && NoneBad(link)) && (ok ==> n == Free(link))
      ensures old(freeClust) > g.maxClust - 2 && g.t != Fat12 ==> ok && n == Zeros(link, |link|)
      ensures ok ==> freeClust == n
      ensures !ok ==> freeClust == old(freeClust)
      ensures fsiFlag == (old(fsiFlag) || (ok && old(freeClust) > g.maxClust - 2 && g.t == Fat32)) && Noted()
    {
      if freeClust <= g.maxClust - 2 { return true, freeClust; }
      var m;
      if g.t == Fat12 {
        ok, m := Scan12();
        if !ok { return false, 0; }
      } else {
        m := ScanRaw();
        ok := true;
      }
      n := m;
      freeClust := n;
      if g.t == Fat32 { fsiFlag := true; }
    }

    method Scan12() returns (ok: bool, n: nat)
      requires Valid()
      modifies `disk, `win, `winsect, `wflag
      ensures Valid() && DataKept() && LogicalKept()
      ensures (ok <==> g.maxClust > 2 && NoneBad(link)) && (ok ==> n == Free(link))
    {
      n := 0;
      var clst := 2;
      while true
        invariant Valid() && DataKept() && LogicalKept()
        invariant 2 <= clst && (clst < g.maxClust || clst == 2) && n == FreeBelow(link, clst)
        invariant forall c | 2 <= c < clst :: c < |link| ==> link[c] != 1
        decreases g.maxClust - clst
      {
        var stat := GetFat(clst);
        if stat == 1 { return false, n; }
        if stat == 0 { n := n + 1; }
        clst := clst + 1;
        if clst >= g.maxClust { break; }
      }
      ok := true;
    }

    // The scan goes over the entries in the window, p bytes into it, and has i bytes left there.
    method ScanRaw() returns (n: nat)
      requires Valid() && g.t != Fat12
      modifies `disk, `win, `winsect, `wflag
      ensures Valid() && DataKept() && LogicalKept()
      ensures n == Zeros(link, |link|)
    {
      n := 0;
      var clst, sect, i, p := g.maxClust, g.fatbase, 0, 0;
      while true
        invariant Valid() && DataKept() && LogicalKept()
        invariant 0 < clst <= g.maxClust && n == Zeros(link, g.maxClust - clst)
        invariant Scanning(sect, i, p, g.maxClust - clst)
        decreases clst
      {
        var zero;
        sect, i, p, zero := ScanEntry(sect, i, p, g.maxClust - clst);
        if zero { n := n + 1; }
        clst := clst - 1;
        if clst == 0 { break; }
      }
    }

    // k entries are behind; if some of the window is left, it shows the sector before sect.
    ghost predicate Scanning(sect: nat, i: nat, p: nat, k: nat)
      requires |fat| == 512 * g.sectsFat
      reads `fat, `win
    {
      && sect >= g.fatbase && ScanAt(g.t, sect - g.fatbase, i, p, k)
      && (i > 0 ==> g.fatbase < sect <= g.fatbase + g.sectsFat && win == Slice(fat, sect - 1 - g.fatbase))
    }

    // One turn of the scan, at the entry of cluster k
    method ScanEntry(sect0: nat, i0: nat, p0: nat, ghost k: nat) returns (sect: nat, i: nat, p: nat, zero: bool)
      requires Valid() && g.t != Fat12 && k < g.maxClust && Scanning(sect0, i0, p0, k)
      modifies `disk, `win, `winsect, `wflag
      ensures Valid() && DataKept() && LogicalKept()
      ensures Scanning(sect, i, p, k + 1) && zero == (link[k] == 0)
    {
      sect, i, p := sect0, i0, p0;
      assert ReadsAt(g.t, fat, link, k);
      if i == 0 {
        NextSector(g, sect - g.fatbase, k);
        ShowTable(sect - g.fatbase);
        sect := sect + 1;
        p := 0;
        i := 512;
      }
      i, p, zero := EntryInWindow(sect, i, p, k);
    }

    method EntryInWindow(sect: nat, i0: nat, p0: nat, ghost k: nat) returns (i: nat, p: nat, zero: bool)
      requires Valid() && g.t != Fat12 && k < g.maxClust && Scanning(sect, i0, p0, k) && i0 > 0
      ensures Scanning(sect, i, p, k + 1) && zero == (link[k] == 0)
    {
      assert ReadsAt(g.t, fat, link, k);
      EntryHere(g.t, fat, sect - 1 - g.fatbase, i0, p0, k, win);
      if g.t == Fat16 {
        zero := Word(win[p0], win[p0 + 1]) == 0;
        p, i := p0 + 2, i0 - 2;
      } else {
        zero := Dword28(win[p0], win[p0 + 1], win[p0 + 2], win[p0 + 3]) == 0;
        p, i := p0 + 4, i0 - 4;
      }
    }
  }

  // After k entries: the scan has entered d sectors.
  predicate ScanAt(t: FatType, d: int, i: nat, p: nat, k: nat) {
    && d >= 0 && (i > 0 ==> p == 512 - i) && i <= 512
    && (if t == Fat16 then 2 * k == 512 * d - i && i % 2 == 0 else 4 * k == 512 * d - i && i % 4 == 0)
  }

  lemma NextSector(g: Geometry, d: nat, k: nat)
    requires g.Ok() && k < g.maxClust && g.t != Fat12 && Inside(g.t, 512 * g.sectsFat, k)
    requires if g.t == Fat16 then 2 * k == 512 * d else 4 * k == 512 * d
    ensures d < g.sectsFat
  {
  }

  lemma EntryHere(t: FatType, fat: seq<Byte>, d: nat, i: nat, p: nat, k: nat, w: Sector)
    requires t != Fat12 && 512 * (d + 1) <= |fat| && w == Slice(fat, d) && Inside(t, |fat|, k)
    requires ScanAt(t, d + 1, i, p, k) && i > 0
    ensures t == Fat16 ==> p + 1 < 512 && Word(w[p], w[p + 1]) == Entry(t, fat, k)
    ensures t == Fat16 ==> i >= 2 && ScanAt(t, d + 1, i - 2, p + 2, k + 1)
    ensures t == Fat32 ==> p + 3 < 512 && Dword28(w[p], w[p + 1], w[p + 2], w[p + 3]) == Entry(t, fat, k)
    ensures t == Fat32 ==> i >= 4 && ScanAt(t, d + 1, i - 4, p + 4, k + 1)
  {
    assert Pos(t, k) == 512 * d + p;
  }

  lemma EocStored(t: FatType)
    ensures Masked(t, 0x0FFF_FFFF) == Width(t) - 1
  {
  }

  lemma OneTaken(link: seq<nat>, clst: nat, n: nat, eoc: nat)
    requires IsCluster(link, n) && link[n] == 0 && eoc >= |link|
    requires clst == 0 || (IsCluster(link, clst) && link[clst] >= |link|)
    ensures Free(Taken(link, clst, n, eoc)) == Free(link) - 1
  {
    FreeAfter(link, |link|, n, eoc);
    if clst != 0 { FreeAfter(link[n := eoc], |link|, clst, n); }
  }

  // link[c] is the entry of cluster c.
  predicate ReadsAt(t: FatType, fat: seq<Byte>, link: seq<nat>, c: nat)
    requires c < |link|
  {
    Inside(t, |fat|, c) && link[c] == Entry(t, fat, c)
  }

  ghost predicate Reads(g: Geometry, fat: seq<Byte>, link: seq<nat>) {
    && |link| == g.maxClust
    && forall c: nat {:trigger ReadsAt(g.t, fat, link, c)} | c < g.maxClust :: ReadsAt(g.t, fat, link, c)
  }

  lemma StoredReads(g: Geometry, fat: seq<Byte>, link: seq<nat>, c: nat, v: nat)
    requires Reads(g, fat, link) && c < g.maxClust && Inside(g.t, |fat|, c)
    ensures Reads(g, Stored(g.t, fat, c, v), link[c := Masked(g.t, v)])
  {
    var fat', link' := Stored(g.t, fat, c, v), link[c := Masked(g.t, v)];
    forall d: nat | d < g.maxClust
      ensures ReadsAt(g.t, fat', link', d)
    {
      assert ReadsAt(g.t, fat, link, d);
      if d == c { StoredEntry(g.t, fat, c, v); } else { OtherEntry(g.t, fat, c, v, d); }
    }
  }

  lemma Place16(c: nat)
    ensures 2 * c / 512 == c / 256 && (2 * c + 1) / 512 == c / 256
    ensures var p := Offset(c, 2); p == 2 * c % 512 && p + 1 == (2 * c + 1) % 512
  {
    Offset16(c);
    var d, r := c / 256, c % 256;
    Mod512(2 * c, d, 2 * r);
    Mod512(2 * c + 1, d, 2 * r + 1);
  }

  lemma Place32(c: nat)
    ensures 4 * c / 512 == c / 128 && (4 * c + 1) / 512 == c / 128
    ensures (4 * c + 2) / 512 == c / 128 && (4 * c + 3) / 512 == c / 128
    ensures var p := Offset(c, 4);
            p == 4 * c % 512 && p + 1 == (4 * c + 1) % 512 && p + 2 == (4 * c + 2) % 512 && p + 3 == (4 * c + 3) % 512
  {
    Offset32(c);
    var d, r := c / 128, c % 128;
    Mod512(4 * c, d, 4 * r);
    Mod512(4 * c + 1, d, 4 * r + 1);
    Mod512(4 * c + 2, d, 4 * r + 2);
    Mod512(4 * c + 3, d, 4 * r + 3);
  }

  lemma ByteInWindow(bytes: seq<Byte>, b: nat)
    requires b < |bytes| && |bytes| % 512 == 0
    ensures 512 * (b / 512 + 1) <= |bytes| && Slice(bytes, b / 512)[b % 512] == bytes[b]
  {
    assert b == 512 * (b / 512) + b % 512;
    assert |bytes| == 512 * (|bytes| / 512);
  }

  // Where in the window the entry of cluster c is, if each has w bytes
  function Offset(c: nat, w: nat): nat {
    c % 0x1_0000 * w % 512
  }

  lemma Entry16InWindow(bytes: seq<Byte>, c: nat)
    requires 2 * c + 2 <= |bytes| && |bytes| % 512 == 0
    ensures 512 * (c / 256 + 1) <= |bytes| && Offset(c, 2) + 1 < 512
    ensures var (p, w) := (Offset(c, 2), Slice(bytes, c / 256)); Word(w[p], w[p + 1]) == Entry(Fat16, bytes, c)
  {
    Offset16(c);
    SlotFits(|bytes|, c, c / 256, c % 256, 2);
    var w, p := Slice(bytes, c / 256), Offset(c, 2);
    assert w[p] == bytes[2 * c] && w[p + 1] == bytes[2 * c + 1];
  }

  lemma Entry32InWindow(bytes: seq<Byte>, c: nat)
    requires 4 * c + 4 <= |bytes| && |bytes| % 512 == 0
    ensures 512 * (c / 128 + 1) <= |bytes| && Offset(c, 4) + 3 < 512
    ensures var (p, w) := (Offset(c, 4), Slice(bytes, c / 128));
            Dword28(w[p], w[p + 1], w[p + 2], w[p + 3]) == Entry(Fat32, bytes, c)
  {
    Offset32(c);
    SlotFits(|bytes|, c, c / 128, c % 128, 4);
    var w, p := Slice(bytes, c / 128), Offset(c, 4);
    assert w[p] == bytes[4 * c] && w[p + 1] == bytes[4 * c + 1];
    assert w[p + 2] == bytes[4 * c + 2] && w[p + 3] == bytes[4 * c + 3];
  }

  // Slot c, of w bytes, is slot r of sector d.
  lemma SlotFits(size: nat, c: nat, d: nat, r: nat, w: nat)
    requires size % 512 == 0
    requires (w == 2 && c == 256 * d + r && r < 256 && 2 * c + 2 <= size)
             || (w == 4 && c == 128 * d + r && r < 128 && 4 * c + 4 <= size)
    ensures 512 * (d + 1) <= size
  {
    var n := size / 512;
    assert size == 512 * n;
  }

  lemma Offset16(c: nat)
    ensures Offset(c, 2) == 2 * (c % 256)
  {
    var q, r := c / 0x1_0000, c % 0x1_0000;
    var a, b := r / 256, r % 256;
    Mod256(c, 256 * q + a, b);
    Mod512(r * 2, a, 2 * b);
  }

  lemma Offset32(c: nat)
    ensures Offset(c, 4) == 4 * (c % 128)
  {
    var q, r := c / 0x1_0000, c % 0x1_0000;
    var a, b := r / 128, r % 128;
    Mod128(c, 512 * q + a, b);
    Mod512(r * 4, a, 4 * b);
  }

  lemma Mod128(v: nat, q: nat, r: nat)
    requires v == 128 * q + r && r < 128
    ensures v % 128 == r
  {
  }

  lemma Mod256(v: nat, q: nat, r: nat)
    requires v == 256 * q + r && r < 256
    ensures v % 256 == r
  {
  }

  lemma Mod512(v: nat, q: nat, r: nat)
    requires v == 512 * q + r && r < 512
    ensures v % 512 == r && v / 512 == q
  {
  }

  lemma SliceUpdate(bytes: seq<Byte>, b: nat, x: Byte)
    requires b < |bytes| && |bytes| % 512 == 0
    ensures forall i: nat | 512 * (i + 1) <= |bytes| ::
              Slice(bytes[b := x], i) == if i == b / 512 then Slice(bytes, i)[b % 512 := x] else Slice(bytes, i)
  {
    assert b == 512 * (b / 512) + b % 512;
  }

  // Sector i of a table
  function Slice(bytes: seq<Byte>, i: nat): (s: Sector)
    requires 512 * (i + 1) <= |bytes|
  {
    bytes[512 * i..512 * (i + 1)]
  }
}
