// What a program sees of an open file: an array of bytes with a position.
module FatClient {
  import opened FatEntries
  import opened ClusterChains
  import opened Sectors
  import opened FatVolume
  import opened FileSectors
  import opened FatFile

  datatype ByteFile = ByteFile(content: seq<Byte>, pos: nat)

  // How the file was opened
  datatype Mode = Mode(read: bool, write: bool)

  datatype Op = ReadOp(n: nat) | WriteOp(bytes: seq<Byte>) | SeekOp(ofs: nat) | TruncateOp | SyncOp(time: nat)

  ghost predicate Within(a: ByteFile, room: nat) {
    a.pos <= |a.content| <= room
  }

  // What an operation does to the array, and what it returns. The array may become as long as there
  // is room: a write is cut short there, and a seek stops there, but what a seek adds is not said. A
  // write that would take the size to 4 GB writes nothing.
  ghost predicate Does(m: Mode, room: nat, a: ByteFile, op: Op, out: seq<Byte>, a': ByteFile) {
    Within(a, room) && Within(a', room) &&
    match op
    case ReadOp(n) =>
      && a' == a.(pos := if m.read then a.pos + Least(n, |a.content| - a.pos) else a.pos)
      && out == a.content[a.pos..a'.pos]
    case WriteOp(bytes) =>
      && out == (if !m.write || |a.content| + |bytes| >= 0x1_0000_0000 then []
                else bytes[..Least(|bytes|, room - a.pos)])
      && a' == ByteFile(Overwritten(a.content, a.pos, out), a.pos + |out|)
    case SeekOp(ofs) =>
      && a'.pos == Least(ofs, if m.write then room else |a.content|) && out == []
      && a.content <= a'.content && |a'.content| == Most(|a.content|, a'.pos)
    case TruncateOp => a' == a.(content := if m.write then a.content[..a.pos] else a.content) && out == []
    case SyncOp(_) => a' == a && out == []
  }

  ghost predicate DoesAll(m: Mode, room: nat, ops: seq<Op>, outs: seq<seq<Byte>>, trace: seq<ByteFile>) {
    && |outs| == |ops| && |trace| == |ops| + 1
    && forall i {:trigger ops[i]} | 0 <= i < |ops| :: Does(m, room, trace[i], ops[i], outs[i], trace[i + 1])
  }

  ghost function Seen(f: File): ByteFile
    requires f.fsize <= 512 * |f.data|
    reads f
  {
    ByteFile(f.Content(), f.fptr)
  }

  function ModeOf(f: File): Mode
    reads f
  {
    Mode(f.canRead, f.canWrite)
  }

  // What the file's own clusters and the free ones hold together
  ghost function Room(f: File): nat
    reads f
  {
    512 * Runs(|f.mine|, f.fs.g.csize)
  }

  // The sizes of requests are 32-bit numbers.
  predicate Fits(op: Op) {
    match op
    case WriteOp(bytes) => |bytes| < 0x1_0000_0000
    case SeekOp(ofs) => ofs < 0x1_0000_0000
    case SyncOp(time) => time < 0x1_0000_0000
    case _ => true
  }

  /* ---- counting clusters ---- */

  ghost function FreeSet(link: seq<nat>, n: nat): set<nat>
    requires n <= |link|
  {
    set c: nat | 2 <= c < n && link[c] == 0
  }

  lemma {:induction false} FreeCounted(link: seq<nat>, n: nat)
    requires n <= |link|
    ensures |FreeSet(link, n)| == FreeBelow(link, n)
  {
    if n <= 2 {
      assert FreeSet(link, n) == {};
    } else {
      FreeCounted(link, n - 1);
      assert FreeSet(link, n) == FreeSet(link, n - 1) + if link[n - 1] == 0 then {n - 1} else {};
    }
  }

  function Members(ch: seq<nat>): set<nat> {
    set c: nat | c in ch
  }

  lemma {:induction false} ChainCounted(chain: seq<nat>)
    requires Distinct(chain)
    ensures |Members(chain)| == |chain|
  {
    if chain != [] {
      var n := |chain| - 1;
      ChainCounted(chain[..n]);
      assert Members(chain) == Members(chain[..n]) + {chain[n]} && chain[n] !in Members(chain[..n]);
    }
  }

  // Clusters pass between the file and the free ones, and none is lost.
  lemma MineCounted(link: seq<nat>, others: map<nat, seq<nat>>, org: nat, chain: seq<nat>, mine: set<nat>)
    requires ChainsAre(link, others, org, chain) && MineIs(link, chain, mine)
    ensures |mine| == Free(link) + |chain|
  {
    OwnClusters(link, others, org, chain);
    FreeCounted(link, |link|);
    ChainCounted(chain);
    forall c | c in Members(chain)
      ensures c !in FreeSet(link, |link|)
    {
      var i :| 0 <= i < |chain| && chain[i] == c;
      InUse(link, chain, i);
    }
    assert mine == FreeSet(link, |link|) + Members(chain) && FreeSet(link, |link|) * Members(chain) == {};
  }

  // The file never is larger than there is room, and where there is no free cluster it has all of it.
  lemma RoomLeft(f: File)
    requires f.Core()
    ensures 512 * |f.data| <= Room(f) && (Free(f.fs.link) == 0 ==> 512 * |f.data| == Room(f))
  {
    f.Parts();
    MineCounted(f.fs.link, f.others, f.orgClust, f.chain, f.mine);
    if |f.chain| < |f.mine| { RunsUp(|f.chain|, |f.mine|, f.fs.g.csize); }
  }

  /* ---- the operations ---- */

  method Do(f: File, op: Op) returns (out: seq<Byte>)
    requires f.Valid() && !f.err && Fits(op)
    modifies f, f.fs
    ensures f.Valid() && !f.err && f.RestKept() && ModeOf(f) == old(ModeOf(f))
    ensures op.SyncOp? ==> !f.changed
    ensures old(f.fsize <= 512 * |f.data|) && Does(ModeOf(f), Room(f), old(Seen(f)), op, out, Seen(f))
  {
    out := [];
    RoomLeft(f);
    match op {
      case ReadOp(n) => out := DoRead(f, n);
      case WriteOp(bytes) => out := DoWrite(f, bytes);
      case SeekOp(ofs) => DoSeek(f, ofs);
      case TruncateOp => DoTruncate(f);
      case SyncOp(time) => DoSync(f, time);
    }
  }

  method DoRead(f: File, n: nat) returns (out: seq<Byte>)
    requires f.Valid() && !f.err && |f.Content()| <= Room(f)
    modifies f, f.fs
    ensures f.Valid() && !f.err && f.RestKept() && ModeOf(f) == old(ModeOf(f))
    ensures Does(ModeOf(f), Room(f), old(Seen(f)), ReadOp(n), out, Seen(f))
  {
    var res;
    res, out := f.Read(n);
  }

  method DoWrite(f: File, bytes: seq<Byte>) returns (out: seq<Byte>)
    requires f.Valid() && !f.err && |bytes| < 0x1_0000_0000
    modifies f, f.fs
    ensures f.Valid() && !f.err && f.RestKept() && ModeOf(f) == old(ModeOf(f))
    ensures Does(ModeOf(f), Room(f), old(Seen(f)), WriteOp(bytes), out, Seen(f))
  {
    RoomLeft(f);
    var res, bw := f.Write(bytes);
    RoomLeft(f);
    out := bytes[..bw];
  }

  method DoSeek(f: File, ofs: nat)
    requires f.Valid() && !f.err && ofs < 0x1_0000_0000
    modifies f, f.fs
    ensures f.Valid() && !f.err && f.RestKept() && ModeOf(f) == old(ModeOf(f))
    ensures Does(ModeOf(f), Room(f), old(Seen(f)), SeekOp(ofs), [], Seen(f))
  {
    RoomLeft(f);
    var res := f.Seek(ofs);
    ContentGrown(old(f.data), f.data, old(f.fsize), f.fsize);
    f.InFile();
    RoomLeft(f);
  }

  method DoTruncate(f: File)
    requires f.Valid() && !f.err && |f.Content()| <= Room(f)
    modifies f, f.fs
    ensures f.Valid() && !f.err && f.RestKept() && ModeOf(f) == old(ModeOf(f))
    ensures Does(ModeOf(f), Room(f), old(Seen(f)), TruncateOp, [], Seen(f))
  {
    var res := f.Truncate();
    RoomLeft(f);
  }

  method DoSync(f: File, time: nat)
    requires f.Valid() && !f.err && |f.Content()| <= Room(f) && time < 0x1_0000_0000
    modifies f, f.fs
    ensures f.Valid() && !f.err && !f.changed && f.RestKept() && ModeOf(f) == old(ModeOf(f))
    ensures Does(ModeOf(f), Room(f), old(Seen(f)), SyncOp(time), [], Seen(f))
  {
    f.Sync(time);
  }

  lemma ContentGrown(data: seq<Sector>, data': seq<Sector>, size: nat, size': nat)
    requires data <= data' && size <= 512 * |data| && size <= size' <= 512 * |data'|
    ensures Flat(data)[..size] <= Flat(data')[..size']
  {
    FlatPrefix(data, data');
  }

  // However the work is divided into calls, the file is the array of bytes, and every other file keeps
  // its content.
  method Run(f: File, ops: seq<Op>) returns (outs: seq<seq<Byte>>, ghost trace: seq<ByteFile>)
    requires f.Valid() && !f.err && forall i | 0 <= i < |ops| :: Fits(ops[i])
    modifies f, f.fs
    ensures f.Valid() && DoesAll(old(ModeOf(f)), old(Room(f)), ops, outs, trace)
    ensures old(f.fsize <= 512 * |f.data|) && trace[0] == old(Seen(f)) && trace[|ops|] == Seen(f)
    ensures f.RestKept() && FilesKept(f.fs.g, f.others, f.fs.dirs, old(f.fs.disk), f.fs.disk)
  {
    outs, trace := [], [Seen(f)];
    for i := 0 to |ops|
      invariant f.Valid() && !f.err && f.RestKept() && ModeOf(f) == old(ModeOf(f)) && |outs| == i && |trace| == i + 1
      invariant trace[0] == old(Seen(f)) && trace[i] == Seen(f)
      invariant DoesAll(ModeOf(f), Room(f), ops[..i], outs, trace)
    {
      ghost var disk := f.fs.disk;
      var out := Do(f, ops[i]);
      SameSince(f.fs.g, f.mine, f.fs.dirs, old(f.fs.disk), disk, f.fs.disk);
      outs := outs + [out];
      trace := trace + [Seen(f)];
    }
    assert ops[..|ops|] == ops;
    f.Parts();
    AllFilesKept(f.fs.g, f.fs.link, f.others, f.orgClust, f.chain, f.mine, f.fs.dirs, old(f.fs.disk), f.fs.disk);
  }

  /* ---- what is on the disk ---- */

  // Without a dirty window the table on the disk is the table.
  lemma SameTable(fs: Volume, v: Volume)
    requires fs.Valid() && !fs.wflag && v.Valid() && v.g == fs.g && v.disk == fs.disk
    requires v.fat == TableBytes(v.disk, v.g.fatbase, v.g.sectsFat)
    ensures v.fat == fs.fat && v.link == fs.link
  {
    var g := fs.g;
    forall b: nat | b < |fs.fat|
      ensures v.fat[b] == fs.fat[b]
    {
      ByteInWindow(fs.fat, b);
      ByteInWindow(v.fat, b);
      TableSector(v.disk, g.fatbase, g.sectsFat, b / 512);
      assert fs.Logical(g.fatbase + b / 512) == Slice(fs.fat, b / 512);
    }
    assert v.fat == fs.fat;
    forall c: nat | c < g.maxClust
      ensures v.link[c] == fs.link[c]
    {
      assert ReadsAt(g.t, fs.fat, fs.link, c) && ReadsAt(g.t, v.fat, v.link, c);
    }
  }

  // Without a dirty buffer the file's data are what its chain holds on the disk.
  lemma CleanData(g: Geometry, v: View, ch: seq<nat>, data: seq<Sector>)
    requires DataIs(g, v, ch, data) && !v.dirty
    ensures data == DiskData(g, v.disk, ch)
  {
    var data' := DiskData(g, v.disk, ch);
    OnDisk(g, v, ch);
    OneData(g, v, ch, data, data', |ch|);
    assert data[..Runs(|ch|, g.csize)] == data && data'[..Runs(|ch|, g.csize)] == data';
  }

  lemma {:induction false} OneData(g: Geometry, v: View, ch: seq<nat>, data: seq<Sector>, data': seq<Sector>, n: nat)
    requires DataIs(g, v, ch, data) && DataIs(g, v, ch, data') && n <= |ch|
    ensures Runs(n, g.csize) <= |data| == |data'| && data[..Runs(n, g.csize)] == data'[..Runs(n, g.csize)]
  {
    if n > 0 {
      var q := Runs(n - 1, g.csize);
      if n < |ch| { RunsUp(n, |ch|, g.csize); }
      OneData(g, v, ch, data, data', n - 1);
      forall x | 0 <= x < Runs(n, g.csize)
        ensures data[x] == data'[x]
      {
        if x < q {
          assert data[x] == data[..q][x] && data'[x] == data'[..q][x];
        } else {
          HoldsAt(g, v, ch, data, n - 1, x - q);
          HoldsAt(g, v, ch, data', n - 1, x - q);
        }
      }
    }
  }

  lemma StillClear(g: Geometry, mine: set<nat>, dirs: Directories, dirs': Directories)
    requires AllClear(g, mine, dirs) && dirs'.Keys == dirs.Keys
    ensures AllClear(g, mine, dirs')
  {
    forall c | c in mine
      ensures NotIn(g, c, dirs')
    {
      assert NotIn(g, c, dirs);
      forall s | s in dirs'
        ensures !InCluster(g, c, s)
      {
        assert s in dirs.Keys;
      }
    }
  }

  // The volume, mounted again
  method Remount(f: File) returns (v: Volume)
    requires f.Valid() && !f.changed && !f.fs.wflag
    ensures fresh(v) && v.Valid() && v.g == f.fs.g && v.disk == f.fs.disk && v.link == f.fs.link
    ensures f.dirSect in v.dirs && v.dirs[f.dirSect] == At(v.disk, f.dirSect)
    ensures EntrySays(v.dirs[f.dirSect], f.dirOff, f.orgClust, f.fsize)
    ensures Openable(v, AllChains(f.others, f.orgClust, f.chain), f.orgClust, f.fsize)
    ensures ChainAt(AllChains(f.others, f.orgClust, f.chain), f.orgClust) == f.chain
    ensures Clusters(f.chain) && DiskData(v.g, v.disk, f.chain) == f.data
  {
    f.Parts();
    var fs := f.fs;
    v := new Volume(fs.g, fs.disk, fs.lastClust, fs.freeClust, fs.fsiSect, fs.dirs.Keys);
    SameTable(fs, v);
    assert fs.Logical(f.dirSect) == fs.dirs[f.dirSect];
    StillClear(fs.g, f.mine, fs.dirs, v.dirs);
    CleanData(fs.g, f.Look(), f.chain, f.data);
  }

  // Once f_sync has been called, the file can be opened again on the disk as it is: its directory entry leads to
  // the same bytes. The disk must have the table as well, which it has if f_sync had something to write.
  method Reopen(f: File, readable: bool, writable: bool) returns (f': File)
    requires f.Valid() && !f.changed && !f.fs.wflag
    ensures fresh(f') && fresh(f'.fs) && f'.Valid() && f'.fs.disk == f.fs.disk && f'.fs.link == f.fs.link
    ensures f'.fs.g == f.fs.g && f'.Content() == f.Content() && f'.fptr == 0 && ModeOf(f') == Mode(readable, writable)
    ensures f'.orgClust == f.orgClust && f'.chain == f.chain
  {
    var v := Remount(f);
    var w := At(v.disk, f.dirSect);
    var start, size := LdWord(w, f.dirOff + 26) + 0x1_0000 * LdWord(w, f.dirOff + 20), LdDword(w, f.dirOff + 28);
    f' := new File(v, f.dirSect, f.dirOff, AllChains(f.others, f.orgClust, f.chain), start, size, readable, writable);
  }

  /* ---- laws of the array ---- */

  // Two writes one after the other are one.
  lemma WritesJoin(c: seq<Byte>, pos: nat, a: seq<Byte>, b: seq<Byte>)
    requires pos <= |c|
    ensures Overwritten(Overwritten(c, pos, a), pos + |a|, b) == Overwritten(c, pos, a + b)
  {
    var l, r := Overwritten(Overwritten(c, pos, a), pos + |a|, b), Overwritten(c, pos, a + b);
    assert |l| == |r|;
    forall x | 0 <= x < |l|
      ensures l[x] == r[x]
    {
    }
  }

  // What was written is there, and nothing else has changed.
  lemma WrittenIsThere(c: seq<Byte>, pos: nat, w: seq<Byte>)
    requires pos <= |c|
    ensures Overwritten(c, pos, w)[pos..pos + |w|] == w
    ensures forall x | 0 <= x < |c| && !(pos <= x < pos + |w|) :: Overwritten(c, pos, w)[x] == c[x]
  {
  }

  // Writing, seeking back and reading as much returns what was written, also where the disk got full
  // or the file too large.
  lemma ReadBack(m: Mode, room: nat, a: ByteFile, b: ByteFile, c: ByteFile, d: ByteFile, bytes: seq<Byte>,
                 written: seq<Byte>, none: seq<Byte>, out: seq<Byte>)
    requires m.read && Does(m, room, a, WriteOp(bytes), written, b) && Does(m, room, b, SeekOp(a.pos), none, c)
    requires Does(m, room, c, ReadOp(|written|), out, d)
    ensures out == written && d == b
  {
    WrittenIsThere(a.content, a.pos, written);
    var n := |written|;
    assert c.content == b.content;
  }

  /* ---- other files ---- */

  // Every file whose clusters are not a directory's holds what it held.
  ghost predicate FilesKept(g: Geometry, others: map<nat, seq<nat>>, dirs: Directories, disk: map<nat, Sector>,
                            disk': map<nat, Sector>) {
    forall t {:trigger others[t]} | t in others && NoDirectory(g, others[t], dirs) ::
      DiskData(g, disk', others[t]) == DiskData(g, disk, others[t])
  }

  predicate NoDirectory(g: Geometry, ch: seq<nat>, dirs: Directories) {
    forall k | 0 <= k < |ch| :: ch[k] >= 2 && NotIn(g, ch[k], dirs)
  }

  lemma AllFilesKept(g: Geometry, link: seq<nat>, others: map<nat, seq<nat>>, org: nat, chain: seq<nat>, mine: set<nat>,
                     dirs: Directories, disk: map<nat, Sector>, disk': map<nat, Sector>)
    requires Sized(g) && |link| == g.maxClust && ChainsAre(link, others, org, chain) && MineIs(link, chain, mine)
    requires SameOutside(g, mine, dirs, disk, disk')
    ensures FilesKept(g, others, dirs, disk, disk')
  {
    forall t {:trigger others[t]} | t in others && NoDirectory(g, others[t], dirs)
      ensures DiskData(g, disk', others[t]) == DiskData(g, disk, others[t])
    {
      OtherFileKept(g, link, others, org, chain, mine, dirs, disk, disk', t, |others[t]|);
      assert others[t][..|others[t]|] == others[t];
    }
  }

  // Where only clusters that are the file's or free have changed, every other chain holds what it held.
  lemma {:induction false} OtherFileKept(g: Geometry, link: seq<nat>, others: map<nat, seq<nat>>, org: nat,
                                         chain: seq<nat>, mine: set<nat>,
                                         dirs: Directories, disk: map<nat, Sector>, disk': map<nat, Sector>,
                                         t: nat, n: nat)
    requires Sized(g) && |link| == g.maxClust && ChainsAre(link, others, org, chain) && MineIs(link, chain, mine)
    requires SameOutside(g, mine, dirs, disk, disk') && t in others && n <= |others[t]|
    requires forall k | 0 <= k < n :: others[t][k] >= 2 && NotIn(g, others[t][k], dirs)
    ensures Clusters(others[t][..n]) && DiskData(g, disk', others[t][..n]) == DiskData(g, disk, others[t][..n])
  {
    if n > 0 {
      OtherFileKept(g, link, others, org, chain, mine, dirs, disk, disk', t, n - 1);
      var c := others[t][n - 1];
      assert others[t][..n][..n - 1] == others[t][..n - 1] && others[t][..n][n - 1] == c;
      NotMine(link, others, org, chain, mine, t, n - 1);
      ClusterFits(g, c);
      SameSectors(g, mine, dirs, disk, disk', c, g.csize);
    }
  }

  lemma NotMine(link: seq<nat>, others: map<nat, seq<nat>>, org: nat, chain: seq<nat>, mine: set<nat>, t: nat, i: nat)
    requires ChainsAre(link, others, org, chain) && MineIs(link, chain, mine) && t in others && i < |others[t]|
    ensures others[t][i] !in mine && IsCluster(link, others[t][i])
  {
    var all := AllChains(others, org, chain);
    assert HasChain(link, all, t);
    InUse(link, all[t], i);
    if org != 0 { OtherChain(link, all, org, t); }
  }

  lemma {:induction false} SameSectors(g: Geometry, mine: set<nat>, dirs: Directories, disk: map<nat, Sector>,
                                       disk': map<nat, Sector>, c: nat, n: nat)
    requires SameOutside(g, mine, dirs, disk, disk') && c >= 2 && c !in mine && NotIn(g, c, dirs) && n <= g.csize
    requires First(g, c) >= g.fatEnd
    ensures SectorsAt(disk', First(g, c), n) == SectorsAt(disk, First(g, c), n)
  {
    if n > 0 {
      SameSectors(g, mine, dirs, disk, disk', c, n - 1);
      var s := First(g, c) + n - 1;
      assert InCluster(g, c, s);
      forall d | d in mine && d >= 2
        ensures !InCluster(g, d, s)
      {
        if InCluster(g, d, s) { ClustersApart(g, c, d, s); }
      }
      assert SectorKept(disk, disk', s);
    }
  }
}
