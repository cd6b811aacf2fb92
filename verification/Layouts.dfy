// What formatting decides about a volume: the FAT type, and where its areas lie.
module Layouts {
  import opened FatEntries
  import opened FatVolume
  import opened FileSectors

  // A partition of nPart sectors from bPart on: reserved sectors, one table of nFat sectors, nDir sectors
  // of root directory, and nClst clusters of csize sectors
  datatype Layout = Layout(t: FatType, bPart: nat, nPart: nat, csize: nat, nRsv: nat, nFat: nat, nDir: nat, nClst: nat)
  {
    function Fatbase(): nat {
      bPart + nRsv
    }

    function Dirbase(): nat {
      if t == Fat32 then 2 else bPart + nRsv + nFat
    }

    function Database(): nat {
      bPart + nRsv + nFat + nDir
    }

    function Geo(): Geometry {
      Geometry(t, Fatbase(), nFat, 1, Fatbase() + nFat, csize, Database(), nClst + 2)
    }

    // The numbers fit into a boot record.
    predicate Storable() {
      && 1 <= csize <= 64 && bPart <= 63 && 1 <= nRsv <= 33 && nDir <= 32 && 1 <= nPart <= 131072000
      && 1 <= nFat <= nPart && (t != Fat32 ==> nFat < 0x1_0000)
    }

    // They agree with one another.
    predicate Mountable() {
      && Storable() && nDir == (if t == Fat32 then 0 else 32) && nRsv + nFat + nDir <= nPart
      && t == TypeOf(nClst) && 1 <= nClst <= 131072000
      && Runs(nClst, csize) <= nPart - nRsv - nFat - nDir < Runs(nClst, csize) + csize
    }

    // The table is large enough, and the data aligned.
    predicate Ok() {
      Mountable() && PowerOfTwo(csize) && Room(t, nClst) <= 512 * nFat && Database() % 512 == 0
    }
  }

  // Section "FAT Type Determination" of Microsoft's FAT32 File System Specification
  function TypeOf(nClst: nat): FatType {
    if nClst < 4085 then Fat12 else if nClst < 65525 then Fat16 else Fat32
  }

  // Bytes of table for this many clusters
  function Room(t: FatType, nClst: nat): nat {
    match t
    case Fat12 => (nClst * 3 + 1) / 2 + 3
    case Fat16 => nClst * 2 + 4
    case Fat32 => nClst * 4 + 8
  }

  predicate UnitSize(a: nat) {
    a == 512 || a == 1024 || a == 2048 || a == 4096 || a == 8192 || a == 16384 || a == 32768
  }

  const SSTBL: seq<nat> := [2048000, 1024000, 512000, 256000, 128000, 64000, 32000, 16000, 8000, 4000, 0]
  const CSTBL: seq<nat> := [32768, 16384, 8192, 4096, 2048, 16384, 8192, 4096, 2048, 1024, 512]

  // Row n is the first of the tables for partitions of this size, and gives the unit.
  predicate RowFor(nPart: nat, n: nat, unit: nat) {
    n < |SSTBL| && nPart >= SSTBL[n] && (n > 0 ==> nPart < SSTBL[n - 1]) && unit == CSTBL[n]
  }

  // The unit that the tables give, from row n on
  function UnitFrom(nPart: nat, n: nat): (unit: nat)
    requires n < |SSTBL| && (n > 0 ==> nPart < SSTBL[n - 1])
    ensures UnitSize(unit) && exists k: nat :: RowFor(nPart, k, unit)
    decreases |SSTBL| - n
  {
    assert nPart >= SSTBL[n] ==> RowFor(nPart, n, CSTBL[n]);
    if nPart >= SSTBL[n] then CSTBL[n] else UnitFrom(nPart, n + 1)
  }

  // Sectors per cluster: what was asked for, or what the tables give
  function SectorsPerCluster(asked: nat, nPart: nat): (csize: nat)
    ensures PowerOfTwo(csize) && csize <= 64
  {
    if UnitSize(asked) then asked / 512 else UnitFrom(nPart, 0) / 512
  }

  method AutoUnit(nPart: nat) returns (unit: nat)
    ensures UnitSize(unit) && unit == UnitFrom(nPart, 0)
  {
    var n := 0;
    while nPart < SSTBL[n]
      invariant n < |SSTBL| && (n > 0 ==> nPart < SSTBL[n - 1]) && UnitFrom(nPart, 0) == UnitFrom(nPart, n)
      decreases |SSTBL| - n
    {
      n := n + 1;
    }
    unit := CSTBL[n];
  }

  method ClusterSize(asked: nat, nPart: nat) returns (csize: nat)
    requires asked < 0x1_0000
    ensures csize == SectorsPerCluster(asked, nPart) && PowerOfTwo(csize) && csize <= 64
  {
    var allocsize := asked;
    var d: nat := 512;
    while d <= 32768 && d != allocsize
      invariant UnitSize(d) || d == 65536
      invariant forall x: nat | UnitSize(x) && x < d :: x != allocsize
      decreases 65536 - d
    {
      d := d * 2;
    }
    if d != allocsize { allocsize := 0; }
    if allocsize == 0 {
      allocsize := AutoUnit(nPart);
    }
    csize := allocsize / 512;
  }

  function Reserved(t: FatType, partition: nat): nat
    requires partition <= 1
  {
    if t == Fat32 then 33 - partition else 1 + partition
  }

  function RootSectors(t: FatType): nat {
    if t == Fat32 then 0 else 32
  }

  function TableSectors(t: FatType, nClst: nat): (n: nat)
    ensures Room(t, nClst) <= 512 * n < Room(t, nClst) + 512
  {
    (Room(t, nClst) + 511) / 512
  }

  // Sectors of the table, the reserved area and the root directory, before anything is aligned
  method Areas(fmt: FatType, nClst: nat, partition: nat) returns (nFat: nat, nRsv: nat, nDir: nat)
    requires partition <= 1
    ensures nFat == TableSectors(fmt, nClst) && nRsv == Reserved(fmt, partition) && nDir == RootSectors(fmt)
  {
    match fmt {
      case Fat12 => {
        nFat := ((nClst * 3 + 1) / 2 + 3 + 512 - 1) / 512;
        nRsv := 1 + partition;
        nDir := 512 * 32 / 512;
      }
      case Fat16 => {
        nFat := (nClst * 2 + 4 + 512 - 1) / 512;
        nRsv := 1 + partition;
        nDir := 512 * 32 / 512;
      }
      case Fat32 => {
        nFat := (nClst * 4 + 8 + 512 - 1) / 512;
        nRsv := 33 - partition;
        nDir := 0;
      }
    }
  }

  // Data starts at a multiple of the erase block, which the disk says is 512 sectors.
  function Aligned(b: nat): (n: nat)
    ensures b <= n <= b + 511 && n % 512 == 0
  {
    b + 511 - (b + 511) % 512
  }

  // As many clusters as fit
  function ClustersIn(sectors: nat, csize: nat): (n: nat)
    requires csize >= 1
    ensures Runs(n, csize) <= sectors < Runs(n, csize) + csize
    decreases sectors
  {
    if sectors < csize then 0 else 1 + ClustersIn(sectors - csize, csize)
  }

  lemma {:induction false} OnlyOneCount(n: nat, sectors: nat, csize: nat)
    requires csize >= 1 && Runs(n, csize) <= sectors < Runs(n, csize) + csize
    ensures n == ClustersIn(sectors, csize)
  {
    if n > 0 { OnlyOneCount(n - 1, sectors - csize, csize); }
  }

  // Where the data starts behind a table for nClst clusters
  function DataFrom(t: FatType, nClst: nat, bPart: nat, partition: nat): (data: nat)
    requires partition <= 1
    ensures bPart + Reserved(t, partition) + RootSectors(t) <= data
  {
    Aligned(bPart + Reserved(t, partition) + TableSectors(t, nClst) + RootSectors(t))
  }

  // What a partition becomes: the FAT type is that of as many clusters as all its sectors make, and
  // the table takes up what is left up to the erase block where the data starts.
  function PlanOf(nPart: nat, bPart: nat, csize: nat, partition: nat): Layout
    requires csize >= 1 && partition <= 1
  {
    var all := ClustersIn(nPart, csize);
    var t := TypeOf(all);
    var data := DataFrom(t, all, bPart, partition);
    PlanWith(t, data, nPart, bPart, csize, partition)
  }

  function PlanWith(t: FatType, data: nat, nPart: nat, bPart: nat, csize: nat, partition: nat): Layout
    requires csize >= 1 && partition <= 1 && bPart + Reserved(t, partition) + RootSectors(t) <= data
  {
    Layout(t, bPart, nPart, csize, Reserved(t, partition), data - bPart - Reserved(t, partition) - RootSectors(t),
           RootSectors(t), ClustersIn(if data <= bPart + nPart then bPart + nPart - data else 0, csize))
  }

  // The clusters that are left are as many as the type of the plan needs.
  predicate KeepsType(l: Layout)
    requires l.csize >= 1
  {
    TypeOf(l.nClst) == TypeOf(ClustersIn(l.nPart, l.csize))
  }

  // How many clusters that many sectors make
  method ClusterCount(sectors: nat, csize: nat) returns (n: nat)
    requires PowerOfTwo(csize) && csize <= 64 && sectors >= 64
    ensures n == ClustersIn(sectors, csize) && Runs(n, csize) <= sectors < Runs(n, csize) + csize && 1 <= n <= sectors
  {
    n := sectors / csize;
    WholeRuns(sectors, csize);
    OnlyOneCount(n, sectors, csize);
    AtLeastAsMany(n, csize);
  }

  lemma NotMore(a: nat, b: nat, m: nat, n: nat, csize: nat)
    requires Runs(m, csize) <= a <= b < Runs(n, csize) + csize
    ensures m <= n
  {
    if n < m { RunsUp(n, m, csize); }
  }

  // The sizes of the areas; where aligning the data to blocks of 512 sectors leaves too few clusters
  // for the type that all sectors together would make, formatting is given up.
  method Plan(nPart: nat, bPart: nat, csize: nat, partition: nat) returns (ok: bool, l: Layout)
    requires 1937 <= nPart <= 131072000 && PowerOfTwo(csize) && csize <= 64
    requires (partition == 0 && bPart == 63) || (partition == 1 && bPart == 0)
    ensures l == PlanOf(nPart, bPart, csize, partition) && (ok <==> KeepsType(l)) && (ok ==> l.Ok())
  {
    var nClst := ClusterCount(nPart, csize);
    ghost var all := nClst;
    var fmt, nFat, nRsv, nDir := PlanAreas(nPart, bPart, nClst, partition);
    var rest := nPart - nRsv - nFat - nDir;
    nClst := ClusterCount(rest, csize);
    l := Layout(fmt, bPart, nPart, csize, nRsv, nFat, nDir, nClst);
    ok := !((fmt == Fat16 && nClst < 0xFF5) || (fmt == Fat32 && nClst < 0xFFF5));
    PlanRight(nPart, bPart, csize, partition, all, l);
  }

  lemma PlanRight(nPart: nat, bPart: nat, csize: nat, partition: nat, all: nat, l: Layout)
    requires 1937 <= nPart <= 131072000 && PowerOfTwo(csize) && csize <= 64
    requires ((partition == 0 && bPart == 63) || (partition == 1 && bPart == 0)) && all == ClustersIn(nPart, csize)
    requires l.t == TypeOf(all) && Room(l.t, all) <= 512 * l.nFat && l.nFat >= 1
    requires (l.t != Fat32 ==> l.nFat < 0x1_0000) && l.bPart == bPart && l.nPart == nPart && l.csize == csize
    requires l.nRsv == Reserved(l.t, partition) && l.nDir == RootSectors(l.t)
    requires bPart + l.nRsv + l.nFat + l.nDir == DataFrom(l.t, all, bPart, partition)
    requires l.nRsv + l.nFat + l.nDir + 64 <= nPart && (bPart + l.nRsv + l.nFat + l.nDir) % 512 == 0
    requires l.nClst == ClustersIn(nPart - l.nRsv - l.nFat - l.nDir, csize) && 1 <= l.nClst <= nPart
    ensures l == PlanOf(nPart, bPart, csize, partition)
    ensures KeepsType(l) <==> !((l.t == Fat16 && l.nClst < 0xFF5) || (l.t == Fat32 && l.nClst < 0xFFF5))
    ensures KeepsType(l) ==> l.Ok()
  {
    PlanIs(nPart, bPart, csize, partition, all, l);
    PlanOk(l, all);
  }

  lemma PlanOk(l: Layout, all: nat)
    requires 1 <= l.nPart <= 131072000 && PowerOfTwo(l.csize) && l.csize <= 64 && l.bPart <= 63 && 1 <= l.nRsv <= 33
    requires all == ClustersIn(l.nPart, l.csize) && l.t == TypeOf(all) && l.nDir == RootSectors(l.t)
    requires Room(l.t, all) <= 512 * l.nFat && 1 <= l.nFat && (l.t != Fat32 ==> l.nFat < 0x1_0000)
    requires l.nRsv + l.nFat + l.nDir <= l.nPart && l.Database() % 512 == 0
    requires l.nClst == ClustersIn(l.nPart - l.nRsv - l.nFat - l.nDir, l.csize) && 1 <= l.nClst <= 131072000
    ensures KeepsType(l) <==> !((l.t == Fat16 && l.nClst < 0xFF5) || (l.t == Fat32 && l.nClst < 0xFFF5))
    ensures KeepsType(l) ==> l.Ok()
  {
    NotMore(l.nPart - l.nRsv - l.nFat - l.nDir, l.nPart, l.nClst, all, l.csize);
    LessRoom(l.t, all, l.nClst);
  }

  lemma PlanIs(nPart: nat, bPart: nat, csize: nat, partition: nat, all: nat, l: Layout)
    requires csize >= 1 && partition <= 1 && all == ClustersIn(nPart, csize) && l.t == TypeOf(all) && l.bPart == bPart
    requires l.nPart == nPart && l.csize == csize && l.nRsv == Reserved(l.t, partition) && l.nDir == RootSectors(l.t)
    requires bPart + l.nRsv + l.nFat + l.nDir == DataFrom(l.t, all, bPart, partition)
    requires l.nRsv + l.nFat + l.nDir <= nPart && l.nClst == ClustersIn(nPart - l.nRsv - l.nFat - l.nDir, csize)
    ensures l == PlanOf(nPart, bPart, csize, partition)
  {
    assert l == PlanWith(l.t, DataFrom(l.t, all, bPart, partition), nPart, bPart, csize, partition);
  }

  method PlanAreas(nPart: nat, bPart: nat, nClst: nat, partition: nat) returns (fmt: FatType, nFat: nat, nRsv: nat,
                   nDir: nat)
    requires 1937 <= nPart && nClst <= nPart && partition <= 1
    ensures fmt == TypeOf(nClst) && Room(fmt, nClst) <= 512 * nFat && nFat >= 1 && (fmt != Fat32 ==> nFat < 0x1_0000)
    ensures nRsv == Reserved(fmt, partition) && nDir == RootSectors(fmt)
    ensures bPart + nRsv + nFat + nDir == DataFrom(fmt, nClst, bPart, partition)
    ensures nRsv + nFat + nDir + 64 <= nPart && (bPart + nRsv + nFat + nDir) % 512 == 0
  {
    fmt := Fat12;
    if nClst >= 0xFF5 { fmt := Fat16; }
    if nClst >= 0xFFF5 { fmt := Fat32; }
    nFat, nRsv, nDir := Areas(fmt, nClst, partition);
    var bData := bPart + nRsv + nFat + nDir;
    var n := Aligned(bData);
    nFat := nFat + (n - bData);
    Left(fmt, nPart, nClst, nFat, nRsv, nDir);
  }

  // There are sectors left for clusters.
  lemma Left(fmt: FatType, nPart: nat, nClst: nat, nFat: nat, nRsv: nat, nDir: nat)
    requires nPart >= 1937 && nClst <= nPart && fmt == TypeOf(nClst) && nRsv <= 33 && nDir <= 32
    requires 512 * nFat <= Room(fmt, nClst) + 512 + 512 * 511
    ensures nRsv + nFat + nDir + 64 <= nPart && (fmt != Fat32 ==> nFat < 0x1_0000)
  {
  }

  lemma LessRoom(fmt: FatType, n: nat, m: nat)
    requires m <= n
    ensures Room(fmt, m) <= Room(fmt, n)
  {
  }

  // A layout mounts as a volume in order: every entry is in the table, and the last cluster in the
  // partition.
  lemma GeometryOk(l: Layout)
    requires l.Ok()
    ensures Sized(l.Geo()) && l.Geo().fatEnd + l.nDir == l.Database()
    ensures l.Database() + Runs(l.nClst, l.csize) <= l.bPart + l.nPart
  {
    var g := l.Geo();
    assert Runs(1, l.nFat) == Runs(0, l.nFat) + l.nFat;
    forall c | 0 <= c < g.maxClust
      ensures Inside(g.t, 512 * g.sectsFat, c)
    {
      EntryInside(l.t, l.nClst, l.nFat, c);
    }
    RunsUp(0, l.nClst, l.csize);
  }

  lemma EntryInside(t: FatType, nClst: nat, nFat: nat, c: nat)
    requires Room(t, nClst) <= 512 * nFat && c < nClst + 2
    ensures Inside(t, 512 * nFat, c)
  {
  }

  lemma {:induction false} AtLeastAsMany(n: nat, x: nat)
    requires x >= 1
    ensures Runs(n, x) >= n
  {
    if n > 0 { AtLeastAsMany(n - 1, x); }
  }
}
