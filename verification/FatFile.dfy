// An open file: its position, its current cluster and its sector buffer, moved over the file's
// chain by reading, writing, seeking and truncating.
module FatFile {
  import opened FatEntries
  import opened ClusterChains
  import opened Sectors
  import opened FatVolume
  import opened FileSectors

  datatype Result = Ok | IntErr | Denied

  // The clusters that the file has or may come to have: its own and the free ones. No operation on
  // the file changes this set.
  ghost predicate MineIs(link: seq<nat>, chain: seq<nat>, mine: set<nat>) {
    forall c: nat {:trigger c in mine} :: c in mine <==> IsCluster(link, c) && (link[c] == 0 || c in chain)
  }

  ghost function ClustersFor(link: seq<nat>, chain: seq<nat>): (mine: set<nat>)
    ensures MineIs(link, chain, mine)
  {
    set c: nat | c < |link| && c >= 2 && (link[c] == 0 || c in chain)
  }

  ghost predicate AllClear(g: Geometry, mine: set<nat>, dirs: Directories) {
    forall c | c in mine :: c >= 2 && NotIn(g, c, dirs)
  }

  // Sector number 0 stands for no sector; the buffer may still be of a cluster that the file gave up.
  ghost predicate BufferOk(g: Geometry, mine: set<nat>, bc: nat, v: View) {
    if v.dsect == 0 then !v.dirty
    else bc in mine && bc >= 2 && InCluster(g, bc, v.dsect) && (!v.dirty ==> v.buf == At(v.disk, v.dsect))
  }

  // All chains of the volume: those of others, and the file's own, which begins at org (0: none)
  function AllChains(others: map<nat, seq<nat>>, org: nat, chain: seq<nat>): map<nat, seq<nat>> {
    if org == 0 then others else others[org := chain]
  }

  ghost predicate ChainsAre(link: seq<nat>, others: map<nat, seq<nat>>, org: nat, chain: seq<nat>) {
    Forest(link, AllChains(others, org, chain)) && org !in others && (org == 0 ==> chain == [])
  }

  // Cluster number ci of the chain is the current one, and sector csect in it the next.
  ghost predicate Position(csize: nat, ch: seq<nat>, ci: nat, fptr: nat, curr: nat, csect: nat) {
    if fptr == 0 then csect >= csize
    else
      && ci < |ch| && curr == ch[ci] && 1 <= csect <= csize
      && 512 * (Runs(ci, csize) + csect - 1) < fptr <= 512 * (Runs(ci, csize) + csect)
  }

  ghost predicate Outside(g: Geometry, mine: set<nat>, s: nat) {
    forall c | c in mine :: c >= 2 ==> !InCluster(g, c, s)
  }

  // Of all data, only that of these clusters may have changed.
  ghost predicate SameOutside(g: Geometry, mine: set<nat>, dirs: Directories, disk: map<nat, Sector>,
                              disk': map<nat, Sector>) {
    forall s: nat {:trigger SectorKept(disk, disk', s)} | s >= g.fatEnd && s !in dirs && Outside(g, mine, s) ::
      SectorKept(disk, disk', s)
  }

  ghost predicate SectorKept(disk: map<nat, Sector>, disk': map<nat, Sector>, s: nat) {
    At(disk', s) == At(disk, s)
  }

  // Of all directories, only the entry at that place may have changed.
  ghost predicate DirsBut(dirs: Directories, dirs': Directories, sect: nat, off: nat) {
    && dirs'.Keys == dirs.Keys && (forall s | s in dirs && s != sect :: dirs'[s] == dirs[s])
    && (sect in dirs ==> forall i | 0 <= i < 512 && !(off <= i < off + 32) :: dirs'[sect][i] == dirs[sect][i])
  }

  lemma SameSince(g: Geometry, mine: set<nat>, dirs: Directories, d0: map<nat, Sector>, d1: map<nat, Sector>,
                  d2: map<nat, Sector>)
    requires SameOutside(g, mine, dirs, d0, d1) && SameOutside(g, mine, dirs, d1, d2)
    ensures SameOutside(g, mine, dirs, d0, d2)
  {
    forall s: nat | s >= g.fatEnd && s !in dirs && Outside(g, mine, s)
      ensures SectorKept(d0, d2, s)
    {
      assert SectorKept(d0, d1, s) && SectorKept(d1, d2, s);
    }
  }

  // What moving the window over the table does to a file: nothing.
  lemma TableMoved(g: Geometry, link: seq<nat>, mine: set<nat>, dirs: Directories, bc: nat, v: View,
                   disk: map<nat, Sector>, ch: seq<nat>, data: seq<Sector>)
    requires DataIs(g, v, ch, data) && BufferOk(g, mine, bc, v) && AllClear(g, mine, dirs) && MineIs(link, ch, mine)
    requires Sized(g) && |link| == g.maxClust && SameBehind(g, dirs, v.disk, disk)
    requires forall k | 0 <= k < |ch| :: IsCluster(link, ch[k])
    ensures DataIs(g, v.(disk := disk), ch, data) && BufferOk(g, mine, bc, v.(disk := disk))
  {
    forall k | 0 <= k < |ch|
      ensures ch[k] < g.maxClust && NotIn(g, ch[k], dirs)
    {
      assert ch[k] in mine;
    }
    TableChanged(g, dirs, v, disk, ch, data);
    if v.dsect != 0 {
      ClusterFits(g, bc);
      assert At(disk, v.dsect) == At(v.disk, v.dsect);
    }
  }

  lemma OwnClusters(link: seq<nat>, others: map<nat, seq<nat>>, org: nat, chain: seq<nat>)
    requires ChainsAre(link, others, org, chain)
    ensures forall k | 0 <= k < |chain| :: IsCluster(link, chain[k])
    ensures Distinct(chain) && (org != 0 ==> IsChain(link, chain) && chain[0] == org && org >= 2)
  {
    if org != 0 {
      assert HasChain(link, AllChains(others, org, chain), org);
      forall j, k | 0 <= j < k < |chain|
        ensures chain[j] != chain[k]
      {
        NoCycle(link, chain, j, k);
      }
    }
  }

  // A free cluster taken into the file was the file's to take.
  lemma MineTaken(link: seq<nat>, chain: seq<nat>, clst: nat, n: nat, eoc: nat, mine: set<nat>)
    requires MineIs(link, chain, mine) && IsCluster(link, n) && link[n] == 0 && eoc >= |link|
    requires if clst == 0 then chain == [] else IsChain(link, chain) && clst == chain[|chain| - 1]
    ensures MineIs(Taken(link, clst, n, eoc), chain + [n], mine)
  {
    var link' := Taken(link, clst, n, eoc);
    forall c: nat
      ensures c in mine <==> IsCluster(link', c) && (link'[c] == 0 || c in chain + [n])
    {
      if c in chain {
        var i :| 0 <= i < |chain| && chain[i] == c;
        InUse(link, chain, i);
      }
    }
  }

  function ChainAt(chains: map<nat, seq<nat>>, start: nat): seq<nat>
    requires start == 0 || start in chains
  {
    if start == 0 then [] else chains[start]
  }

  // What opening a file that begins at start and has this size demands of the volume and its chains
  ghost predicate Openable(v: Volume, chains: map<nat, seq<nat>>, start: nat, size: nat)
    reads v
  {
    && Sized(v.g) && Forest(v.link, chains) && (start == 0 || start in chains)
    && size < 0x1_0000_0000 && size <= 512 * Runs(|ChainAt(chains, start)|, v.g.csize)
    && forall c: nat | IsCluster(v.link, c) && (v.link[c] == 0 || c in ChainAt(chains, start)) :: NotIn(v.g, c, v.dirs)
  }

  // No chain begins at cluster 0.
  lemma NoZero(link: seq<nat>, chains: map<nat, seq<nat>>)
    requires Forest(link, chains)
    ensures 0 !in chains
  {
    forall s | s in chains
      ensures s >= 2
    {
      assert HasChain(link, chains, s);
    }
  }

  function OthersOf(chains: map<nat, seq<nat>>, start: nat): map<nat, seq<nat>> {
    if start == 0 then chains else chains - {start}
  }

  lemma Opening(v: Volume, chains: map<nat, seq<nat>>, start: nat, size: nat)
    requires v.Valid() && Openable(v, chains, start, size)
    ensures var ch := ChainAt(chains, start);
            && ChainsAre(v.link, OthersOf(chains, start), start, ch) && Clusters(ch)
            && AllClear(v.g, ClustersFor(v.link, ch), v.dirs) && size <= 512 * |DiskData(v.g, v.disk, ch)|
  {
    var ch := ChainAt(chains, start);
    NoZero(v.link, chains);
    assert AllChains(OthersOf(chains, start), start, ch) == chains;
    OwnClusters(v.link, OthersOf(chains, start), start, ch);
    OnDisk(v.g, FileSectors.View(v.disk, Blank(), 0, false), ch);
  }

  class File {
    const fs: Volume
    const dirSect: nat
    const dirOff: nat
    var canRead: bool
    var canWrite: bool
    var err: bool
    var changed: bool
    var fptr: nat
    var fsize: nat
    var orgClust: nat
    var currClust: nat
    var dsect: nat
    var csect: nat
    var buf: Sector
    var dirty: bool

    // The chain of the file, what its sectors hold, the place of the current cluster in the chain,
    // the cluster of the buffer, the clusters that are the file's or free, and the chains of others
    ghost var chain: seq<nat>
    ghost var data: seq<Sector>
    ghost var ci: nat
    ghost var bufClust: nat
    ghost var mine: set<nat>
    ghost var others: map<nat, seq<nat>>

    // f_open of a file whose directory entry, at that place of that sector, says that it begins at this cluster
    // (0: it has none) and has this size; the volume has these chains.
    constructor (volume: Volume, sect: nat, off: nat, ghost chains: map<nat, seq<nat>>, start: nat, size: nat,
                 readable: bool, writable: bool)
      requires sect in volume.dirs && sect >= volume.g.fatEnd && off + 32 <= 512
      requires EntrySays(volume.dirs[sect], off, start, size)
      requires volume.Valid() && Openable(volume, chains, start, size)
      ensures Valid() && fs == volume && fptr == 0 && fsize == size && orgClust == start && !err
      ensures canRead == readable && canWrite == writable && chain == ChainAt(chains, start) && !changed
      ensures dirSect == sect && dirOff == off && Clusters(chain) && data == DiskData(volume.g, volume.disk, chain)
    {
      fs, dirSect, dirOff := volume, sect, off;
      canRead, canWrite, err, changed := readable, writable, false, false;
      fptr, fsize, orgClust, currClust, dsect, csect := 0, size, start, 0, 0, 255;
      buf, dirty := Blank(), false;
      chain, others := ChainAt(chains, start), OthersOf(chains, start);
      new;
      Opening(fs, chains, start, size);
      mine, data := ClustersFor(fs.link, chain), DiskData(fs.g, fs.disk, chain);
      OnDisk(fs.g, Look(), chain);
      Whole();
    }

    // Between operations: the position and the size fit the chain, and in the middle of a sector the
    // buffer is that sector's.
    ghost predicate Valid()
      reads this, fs
    {
      && Core() && Placed() && fptr <= fsize && Saved()
    }

    // As long as the file does not count as changed, its directory entry says where it begins and how large it is,
    // and the buffer has nothing that is not on the disk.
    ghost predicate Saved()
      reads `changed, `dirty, `fsize, `orgClust, fs`dirs
    {
      && dirSect in fs.dirs && dirSect >= fs.g.fatEnd && dirOff + 32 <= 512
      && (!changed ==> !dirty && EntrySays(fs.dirs[dirSect], dirOff, orgClust, fsize))
    }

    ghost predicate Placed()
      reads `fsize, `data, `chain, `ci, `fptr, `currClust, `csect, `dsect
    {
      && SizeOk() && Position(fs.g.csize, chain, ci, fptr, currClust, csect)
      && (fptr % 512 != 0 ==> ci < |chain| && chain[ci] >= 2 && dsect == First(fs.g, chain[ci]) + csect - 1)
    }

    ghost predicate SizeOk()
      reads `fsize, `data
    {
      fsize <= 512 * |data| && fsize < 0x1_0000_0000
    }

    ghost function Look(): View
      reads `buf, `dsect, `dirty, fs`disk
    {
      View(fs.disk, buf, dsect, dirty)
    }

    // What holds of the file on its volume at all times, part by part
    ghost predicate Core()
      reads `orgClust, `chain, `mine, `others, `data, `bufClust, `buf, `dsect, `dirty, fs
    {
      forall k: nat {:trigger Part(k)} | k < 3 :: Part(k)
    }

    ghost predicate Part(k: nat)
      reads `orgClust, `chain, `mine, `others, `data, `bufClust, `buf, `dsect, `dirty, fs
    {
      match k
      case 0 => OnVolume()
      case 1 => ChainsOk()
      case _ => BytesOk()
    }

    ghost predicate OnVolume()
      reads `mine, fs
    {
      fs.Valid() && Sized(fs.g) && AllClear(fs.g, mine, fs.dirs)
    }

    ghost predicate ChainsOk()
      reads `orgClust, `chain, `mine, `others, fs`link
    {
      ChainsAre(fs.link, others, orgClust, chain) && MineIs(fs.link, chain, mine)
    }

    ghost predicate BytesOk()
      reads `chain, `mine, `data, `bufClust, `buf, `dsect, `dirty, fs`disk
    {
      DataIs(fs.g, Look(), chain, data) && BufferOk(fs.g, mine, bufClust, Look())
    }

    lemma Parts()
      requires Core()
      ensures OnVolume() && ChainsOk() && BytesOk()
    {
      assert Part(0) && Part(1) && Part(2);
    }

    // Core, but for the bytes
    ghost predicate Founded()
      reads `orgClust, `chain, `mine, `others, fs
    {
      forall k: nat {:trigger Ground(k)} | k < 2 :: Ground(k)
    }

    ghost predicate Ground(k: nat)
      reads `orgClust, `chain, `mine, `others, fs
    {
      if k == 0 then OnVolume() else ChainsOk()
    }

    lemma Found()
      requires Founded()
      ensures OnVolume() && ChainsOk()
    {
      assert Ground(0) && Ground(1);
    }

    lemma StillFounded()
      requires OnVolume() && ChainsOk()
      ensures Founded()
    {
    }

    lemma Whole()
      requires OnVolume() && ChainsOk() && BytesOk()
      ensures Core()
    {
    }

    // The rest of the volume is as before.
    twostate predicate OthersKept()
      reads `mine, `others, fs
    {
      && (fs.dirs, mine, others) == old((fs.dirs, mine, others))
      && SameOutside(fs.g, mine, fs.dirs, old(fs.disk), fs.disk)
      && (old(fs.Tracked()) ==> fs.Tracked())
    }

    // The same but for the file's own directory entry
    twostate predicate RestKept()
      reads `mine, `others, fs
    {
      && (mine, others) == old((mine, others)) && DirsBut(old(fs.dirs), fs.dirs, dirSect, dirOff)
      && SameOutside(fs.g, mine, fs.dirs, old(fs.disk), fs.disk)
      && (old(fs.Tracked()) ==> fs.Tracked())
    }

    // get_fat of the current cluster
    method Follow() returns (clst: nat)
      requires Core() && ci < |chain| && currClust == chain[ci]
      modifies fs`disk, fs`win, fs`winsect, fs`wflag
      ensures Core() && OthersKept()
      ensures if ci + 1 < |chain| then clst == chain[ci + 1] else clst >= fs.g.maxClust
    {
      Parts();
      ghost var v := Look();
      OwnClusters(fs.link, others, orgClust, chain);
      if ci + 1 < |chain| { Next(fs.link, chain, ci); }
      clst := fs.GetFat(currClust);
      TableMoved(fs.g, fs.link, mine, fs.dirs, bufClust, v, fs.disk, chain, data);
    }

    // create_chain, which leaves the file's data where they are
    method Create(clst: nat) returns (r: nat)
      requires Core() && (clst == 0 || clst in chain)
      modifies fs`disk, fs`win, fs`winsect, fs`wflag, fs`fat, fs`link, fs`lastClust, fs`freeClust, fs`fsiFlag
      ensures OnVolume() && BytesOk() && OthersKept()
      ensures Created(old(fs.link), old(fs.lastClust), clst, r, fs.link, fs.Eoc())
    {
      Parts();
      ghost var v, link := Look(), fs.link;
      OwnClusters(link, others, orgClust, chain);
      r := fs.CreateChain(clst);
      TableMoved(fs.g, link, mine, fs.dirs, bufClust, v, fs.disk, chain, data);
    }

    // The chain has become longer by a cluster.
    ghost method Adopt(n: nat)
      requires OnVolume() && BytesOk() && n >= 2
      requires ChainsAre(fs.link, others, orgClust, chain + [n]) && MineIs(fs.link, chain + [n], mine)
      modifies `chain, `data
      ensures Core() && chain == old(chain) + [n] && old(data) <= data
    {
      Grown(fs.g, Look(), chain, data, n);
      data := data + Patched(Look(), First(fs.g, n), fs.g.csize);
      chain := chain + [n];
      Whole();
    }

    // What create_chain returns is the first cluster of a file without clusters.
    method NewChain() returns (clst: nat)
      requires Core() && orgClust == 0
      modifies fs, `orgClust, `chain, `data
      ensures Core() && OthersKept() && clst == orgClust
      ensures clst == 0 ==> Free(fs.link) == 0 && chain == [] && data == old(data)
      ensures clst != 0 ==> chain == [clst] && clst >= 2
    {
      Parts();
      ghost var link := fs.link;
      clst := Create(0);
      CreatedChain(link, others, old(fs.lastClust), clst, fs.link, fs.Eoc());
      orgClust := clst;
      if clst != 0 {
        MineTaken(link, chain, 0, clst, fs.Eoc(), mine);
        assert chain + [clst] == [clst];
        Adopt(clst);
      } else {
        Whole();
      }
    }

    // create_chain at the current cluster: the next one, a new one, or 0
    method Stretch() returns (clst: nat)
      requires Core() && ci < |chain| && currClust == chain[ci]
      modifies fs, `chain, `data
      ensures Core() && OthersKept() && old(chain) <= chain && old(data) <= data
      ensures clst == 0 ==> Free(fs.link) == 0 && chain == old(chain) && data == old(data) && ci + 1 == |chain|
      ensures clst != 0 ==> ci + 1 < |chain| && clst == chain[ci + 1] && clst >= 2
    {
      Parts();
      ghost var link := fs.link;
      OwnClusters(link, others, orgClust, chain);
      clst := Create(currClust);
      CreatedNext(link, AllChains(others, orgClust, chain), old(fs.lastClust), orgClust, ci, clst, fs.link, fs.Eoc());
      if ci + 1 == |chain| && clst != 0 {
        MineTaken(link, chain, currClust, clst, fs.Eoc(), mine);
        assert AllChains(others, orgClust, chain)[orgClust := chain + [clst]]
               == AllChains(others, orgClust, chain + [clst]);
        Adopt(clst);
      } else {
        Whole();
      }
    }

    /* ---- reading ---- */

    // A sector of the current cluster is next.
    ghost predicate AtSector()
      reads `chain, `ci, `currClust, `csect, `fptr
    {
      && ci < |chain| && currClust == chain[ci] && currClust >= 2 && csect < fs.g.csize
      && fptr == 512 * (Runs(ci, fs.g.csize) + csect)
    }

    // On a sector boundary before the end of the file there is a sector, or a cluster, to come.
    lemma ReadBoundary()
      requires Core() && Placed() && fptr % 512 == 0 && fptr < fsize
      ensures fs.g.csize >= 1 && (csect < fs.g.csize ==> AtSector())
      ensures csect >= fs.g.csize ==> var k := if fptr == 0 then 0 else ci + 1;
                                      && k < |chain| && chain[k] >= 2 && fptr == 512 * Runs(k, fs.g.csize)
                                      && (if k == 0 then orgClust == chain[0] else currClust == chain[ci])
    {
      Parts();
      OnBoundary(fs.g.csize, chain, ci, fptr, currClust, csect);
      OwnClusters(fs.link, others, orgClust, chain);
      if csect >= fs.g.csize { Behind(fs.g.csize, |chain|, ci, fptr, csect); }
    }

    // On a sector boundary before the end of the file: the cluster that is to be read
    method EnterForRead() returns (ok: bool)
      requires Core() && Placed() && fptr % 512 == 0 && fptr < fsize
      modifies fs`disk, fs`win, fs`winsect, fs`wflag, `currClust, `csect, `ci
      ensures Core() && OthersKept() && AtSector() && ok
    {
      ReadBoundary();
      if csect >= fs.g.csize {
        var clst;
        if fptr == 0 {
          clst := orgClust;
          ci := 0;
        } else {
          clst := Follow();
          ci := ci + 1;
        }
        ok := clst > 1;
        if ok {
          currClust := clst;
          csect := 0;
        }
      } else {
        ok := true;
      }
    }

    // Write the buffer back if it is dirty.
    method Flush()
      requires Core()
      modifies fs`disk, `dirty
      ensures Core() && OthersKept() && !dirty
    {
      if dirty {
        Parts();
        ghost var v := Look();
        Flushed(fs.g, v, chain, data);
        ClusterFits(fs.g, bufClust);
        fs.WriteData(dsect, [buf]);
        dirty := false;
      }
    }

    // Give the clean buffer to a sector of the current cluster.
    method Load(sect: nat)
      requires Core() && !dirty && ci < |chain| && currClust == chain[ci] && currClust >= 2
      requires InCluster(fs.g, currClust, sect)
      modifies `buf, `dsect, `bufClust
      ensures Core() && !dirty && dsect == sect
    {
      Parts();
      OwnClusters(fs.link, others, orgClust, chain);
      assert chain[ci] in mine;
      ClusterFits(fs.g, chain[ci]);
      Rebuffered(fs.g, Look(), chain, data, At(fs.disk, sect), sect);
      if dsect != sect {
        buf := At(fs.disk, sect);
      }
      dsect := sect;
      bufClust := chain[ci];
    }

    // The position is in the sector of the buffer.
    ghost predicate InBuffer()
      reads `chain, `ci, `currClust, `csect, `fptr, `dsect
    {
      && ci < |chain| && currClust == chain[ci] && currClust >= 2 && 1 <= csect <= fs.g.csize
      && dsect == First(fs.g, currClust) + csect - 1
      && 512 * (Runs(ci, fs.g.csize) + csect - 1) <= fptr < 512 * (Runs(ci, fs.g.csize) + csect)
    }

    // disk_read of cc sectors of the current cluster, with the dirty buffer put in
    method DirectSectors(sect: nat, cc: nat) returns (rbuff: seq<Sector>)
      requires Core() && AtSector() && sect == First(fs.g, currClust) + csect && 0 < cc && csect + cc <= fs.g.csize
      ensures var q := Runs(ci, fs.g.csize) + csect; q + cc <= |data| && rbuff == data[q..q + cc]
    {
      Parts();
      OwnClusters(fs.link, others, orgClust, chain);
      ReadRun(fs.g, Look(), chain, data, ci, csect, cc, sect, Runs(ci, fs.g.csize) + csect);
      AmongRead(fs.g, mine, bufClust, Look(), fs.link, chain, ci, csect, cc);
      rbuff := SectorsAt(fs.disk, sect, cc);
      if dirty && Minus32(dsect, sect) < cc {
        rbuff := rbuff[dsect - sect := buf];
      }
      assert rbuff == Patched(Look(), sect, cc);
    }

    // Read cc sectors of the current cluster, past the buffer.
    method ReadDirect(sect: nat, cc: nat) returns (piece: seq<Byte>)
      requires Core() && AtSector() && sect == First(fs.g, currClust) + csect && 0 < cc && csect + cc <= fs.g.csize
      modifies `csect, `fptr
      ensures fptr == old(fptr) + 512 * cc == old(fptr) + |piece|
      ensures Position(fs.g.csize, chain, ci, fptr, currClust, csect) && fptr % 512 == 0
      ensures fptr <= 512 * |data| && piece == Flat(data)[old(fptr)..fptr]
    {
      var rbuff := DirectSectors(sect, cc);
      FlatPart(data, Runs(ci, fs.g.csize) + csect, cc);
      csect := csect + cc;
      piece := Flat(rbuff);
      fptr := fptr + 512 * cc;
    }

    lemma InBufferIs()
      requires Core() && InBuffer()
      ensures var q := Runs(ci, fs.g.csize) + csect - 1;
              q < |data| && buf == data[q] && fptr == 512 * q + fptr % 512
    {
      Parts();
      CurrentSector();
      BufferIs(fs.g, mine, bufClust, Look(), chain, data, ci, csect - 1);
      InSector(Runs(ci, fs.g.csize) + csect - 1, fptr);
    }

    // Read from the buffer.
    method ReadBuffered(btr: nat) returns (piece: seq<Byte>)
      requires Core() && InBuffer() && btr > 0
      modifies `fptr
      ensures fptr == old(fptr) + |piece| && 0 < |piece| <= btr
      ensures Position(fs.g.csize, chain, ci, fptr, currClust, csect)
      ensures fptr % 512 != 0 ==> chain[ci] >= 2 && dsect == First(fs.g, chain[ci]) + csect - 1
      ensures fptr <= 512 * |data| && piece == Flat(data)[old(fptr)..fptr]
    {
      ghost var q := Runs(ci, fs.g.csize) + csect - 1;
      InBufferIs();
      var p := fptr % 512;
      var rcnt := 512 - p;
      if rcnt > btr { rcnt := btr; }
      FlatBytes(data, q, 512 * q, p, rcnt);
      piece := buf[p..p + rcnt];
      fptr := fptr + rcnt;
    }

    // On a sector boundary: read whole sectors directly, or bring the next sector into the buffer.
    method BeginSector(btr: nat) returns (ok: bool, piece: seq<Byte>)
      requires Core() && Placed() && fptr % 512 == 0 && 0 < btr <= fsize - fptr
      modifies fs`disk, fs`win, fs`winsect, fs`wflag, `currClust, `csect, `ci, `fptr, `buf, `dsect, `dirty, `bufClust
      ensures ok && Core() && OthersKept() && |piece| <= btr && fptr == old(fptr) + |piece| && (dirty ==> old(dirty))
      ensures piece != [] ==> Position(fs.g.csize, chain, ci, fptr, currClust, csect) && fptr % 512 == 0
      ensures piece != [] ==> fptr <= 512 * |data| && piece == Flat(data)[old(fptr)..fptr]
      ensures piece == [] ==> InBuffer()
    {
      piece := [];
      ok := EnterForRead();
      if !ok { return; }
      CurrentSector();
      var sect := ClusterToSector(fs.g, currClust);
      if sect == 0 { return false, []; }
      sect := sect + csect;
      var cc := btr / 512;
      if cc != 0 {
        if csect + cc > fs.g.csize { cc := fs.g.csize - csect; }
        piece := ReadDirect(sect, cc);
      } else {
        ghost var disk := fs.disk;
        LoadForRead(sect);
        SameSince(fs.g, mine, fs.dirs, old(fs.disk), disk, fs.disk);
      }
    }

    // Write the buffer back, and give it to the next sector.
    method LoadForRead(sect: nat)
      requires Core() && AtSector() && sect == First(fs.g, currClust) + csect
      modifies fs`disk, `buf, `dsect, `dirty, `bufClust, `csect
      ensures Core() && OthersKept() && InBuffer() && !dirty
    {
      Flush();
      Load(sect);
      csect := csect + 1;
    }

    lemma CurrentSector()
      requires Core() && ci < |chain| && currClust == chain[ci]
      ensures IsCluster(fs.link, currClust) && ClusterToSector(fs.g, currClust) == First(fs.g, currClust) != 0
    {
      Parts();
      OwnClusters(fs.link, others, orgClust, chain);
      ToSector(fs.g, currClust);
    }

    // The sector of the position comes into the buffer, unless whole sectors are read directly.
    method EnterSector(btr: nat) returns (ok: bool, piece: seq<Byte>)
      requires Core() && Placed() && 0 < btr <= fsize - fptr
      modifies fs`disk, fs`win, fs`winsect, fs`wflag, `currClust, `csect, `ci, `fptr, `buf, `dsect, `dirty, `bufClust
      ensures ok && Core() && OthersKept() && |piece| <= btr && fptr == old(fptr) + |piece| && (dirty ==> old(dirty))
      ensures piece != [] ==> Placed() && fptr <= 512 * |data| && piece == Flat(data)[old(fptr)..fptr]
      ensures piece == [] ==> InBuffer()
    {
      ok, piece := true, [];
      if fptr % 512 == 0 {
        ok, piece := BeginSector(btr);
      } else {
        StillInBuffer(Runs(ci, fs.g.csize), fptr, csect);
      }
    }

    // One turn of the loop of f_read
    method ReadPiece(btr: nat) returns (ok: bool, piece: seq<Byte>)
      requires Core() && Placed() && 0 < btr <= fsize - fptr
      modifies fs`disk, fs`win, fs`winsect, fs`wflag, `currClust, `csect, `ci, `fptr, `buf, `dsect, `dirty, `bufClust
      ensures ok && Core() && Placed() && OthersKept() && 0 < |piece| <= btr && fptr == old(fptr) + |piece|
      ensures dirty ==> old(dirty)
      ensures fptr <= 512 * |data| && piece == Flat(data)[old(fptr)..fptr]
    {
      ok, piece := EnterSector(btr);
      if !ok || piece != [] { return; }
      piece := ReadBuffered(btr);
    }

    // f_read: as many bytes of the file as are there, from the position on
    method Read(btr: nat) returns (res: Result, out: seq<Byte>)
      requires Valid()
      modifies fs`disk, fs`win, fs`winsect, fs`wflag,
               `err, `currClust, `csect, `ci, `fptr, `buf, `dsect, `dirty, `bufClust
      ensures Valid() && OthersKept() && err == old(err)
      ensures err ==> res == IntErr && out == [] && fptr == old(fptr)
      ensures !err && !canRead ==> res == Denied && out == [] && fptr == old(fptr)
      ensures !err && canRead ==> res == Ok && fptr == old(fptr) + |out| && |out| == Least(btr, fsize - old(fptr))
      ensures !err && canRead ==> out == Content()[old(fptr)..fptr]
    {
      if err { return IntErr, []; }
      if !canRead { return Denied, []; }
      var remain := fsize - fptr;
      var ok;
      ok, out := ReadIn(if btr > remain then remain else btr);
      err := !ok;
      res := if ok then Ok else IntErr;
    }

    method ReadIn(btr: nat) returns (ok: bool, out: seq<Byte>)
      requires Valid() && fptr + btr <= fsize
      modifies fs`disk, fs`win, fs`winsect, fs`wflag, `currClust, `csect, `ci, `fptr, `buf, `dsect, `dirty, `bufClust
      ensures ok && Valid() && OthersKept() && |out| == btr && fptr == old(fptr) + btr
      ensures out == Content()[old(fptr)..fptr]
    {
      ok, out := ReadAll(btr);
      PartOfFront(Flat(data), fsize, old(fptr), fptr);
    }

    // The loop of f_read
    method ReadAll(btr: nat) returns (ok: bool, out: seq<Byte>)
      requires Core() && Placed() && fptr + btr <= fsize
      modifies fs`disk, fs`win, fs`winsect, fs`wflag, `currClust, `csect, `ci, `fptr, `buf, `dsect, `dirty, `bufClust
      ensures ok && Core() && Placed() && OthersKept() && |out| == btr && fptr == old(fptr) + btr
      ensures dirty ==> old(dirty)
      ensures out == Flat(data)[old(fptr)..fptr]
    {
      out := [];
      ok := true;
      while |out| < btr
        invariant ok && Core() && Placed() && OthersKept() && |out| <= btr && fptr == old(fptr) + |out|
        invariant dirty ==> old(dirty)
        invariant out == Flat(data)[old(fptr)..fptr]
      {
        ghost var disk := fs.disk;
        ok, out := ReadOnward(out, btr, old(fptr));
        SameSince(fs.g, mine, fs.dirs, old(fs.disk), disk, fs.disk);
        if !ok { return; }
      }
    }

    // One more turn, where out was read from pos on
    method ReadOnward(out: seq<Byte>, btr: nat, ghost pos: nat) returns (ok: bool, out': seq<Byte>)
      requires Core() && Placed() && |out| < btr && fptr == pos + |out| && pos + btr <= fsize
      requires out == Flat(data)[pos..fptr]
      modifies fs`disk, fs`win, fs`winsect, fs`wflag, `currClust, `csect, `ci, `fptr, `buf, `dsect, `dirty, `bufClust
      ensures ok && Core() && Placed() && OthersKept() && |out| < |out'| <= btr && fptr == pos + |out'|
      ensures dirty ==> old(dirty)
      ensures out' == Flat(data)[pos..fptr]
    {
      var piece;
      ok, piece := ReadPiece(btr - |out|);
      Joined(Flat(data), pos, old(fptr), fptr);
      out' := out + piece;
    }

    /* ---- writing ---- */

    // On a sector boundary: the cluster that is to be written, which may be a new one
    method EnterForWrite() returns (ok: bool, full: bool)
      requires Core() && Placed() && fptr % 512 == 0
      modifies fs, `orgClust, `chain, `data, `currClust, `csect, `ci
      ensures ok && Core() && OthersKept() && old(chain) <= chain && old(data) <= data
      ensures !full ==> AtSector()
      ensures full ==>
                Placed() && Free(fs.link) == 0 && fptr == 512 * |data| && chain == old(chain) && data == old(data)
    {
      ok, full := true, false;
      SomeSectors();
      OnBoundary(fs.g.csize, chain, ci, fptr, currClust, csect);
      if csect >= fs.g.csize {
        var clst := ClusterForWrite();
        if clst == 0 {
          full := true;
        } else if clst == 1 {
          ok := false;
        } else {
          ci := if fptr == 0 then 0 else ci + 1;
          currClust := clst;
          csect := 0;
        }
      } else {
        CurrentSector();
      }
    }

    lemma SomeSectors()
      requires Core()
      ensures fs.g.csize >= 1
    {
      Parts();
    }

    // The cluster behind the position, which is a cluster boundary
    method ClusterForWrite() returns (clst: nat)
      requires Core() && Placed() && csect >= fs.g.csize && (fptr > 0 ==> fptr == 512 * (Runs(ci, fs.g.csize) + csect))
      modifies fs, `orgClust, `chain, `data
      ensures Core() && OthersKept() && old(chain) <= chain && old(data) <= data && clst != 1
      ensures clst == 0 ==> Free(fs.link) == 0 && fptr == 512 * |data| && chain == old(chain) && data == old(data)
      ensures clst != 0 ==> clst >= 2 && var k := if fptr == 0 then 0 else ci + 1;
                            k < |chain| && chain[k] == clst && fptr == 512 * Runs(k, fs.g.csize)
    {
      Parts();
      OwnClusters(fs.link, others, orgClust, chain);
      if fptr == 0 {
        clst := orgClust;
        if clst == 0 { clst := NewChain(); }
      } else {
        clst := Stretch();
      }
    }

    // disk_write of sectors of the current cluster, which are those of the file from q on
    method WriteRunOf(sect: nat, ss: seq<Sector>, ghost q: nat)
      requires Core() && !dirty && AtSector() && sect == First(fs.g, currClust) + csect && 0 < |ss|
      requires csect + |ss| <= fs.g.csize
      requires q == Runs(ci, fs.g.csize) + csect
      modifies fs`disk, `data
      ensures OnVolume() && ChainsOk() && OthersKept()
      ensures DataIs(fs.g, Look(), chain, data) && fs.disk == Written(old(fs.disk), sect, ss)
      ensures q + |ss| <= |old(data)| && data == Put(old(data), q, ss)
    {
      ghost var v := Look();
      DirectRun(sect, ss);
      fs.WriteData(sect, ss);
      WriteRun(fs.g, v, chain, data, ci, csect, ss, buf, sect, q);
      data := Put(data, q, ss);
    }

    // The same past the buffer, which is clean and refilled if it is of one of the sectors
    method WriteDirect(sect: nat, wbuff: seq<Byte>, cc: nat, ghost q: nat)
      requires Core() && !dirty && AtSector() && sect == First(fs.g, currClust) + csect
      requires 0 < cc && csect + cc <= fs.g.csize && 512 * cc <= |wbuff| && q == Runs(ci, fs.g.csize) + csect
      modifies fs`disk, `buf, `dirty, `data
      ensures Core() && OthersKept()
      ensures q + cc <= |old(data)| && data == Put(old(data), q, Chop(wbuff, cc))
    {
      ghost var v := Look();
      DirectRun(sect, Chop(wbuff, cc));
      WriteRunOf(sect, Chop(wbuff, cc), q);
      Refill(sect, wbuff, cc, v);
      Whole();
    }

    // v is what there was before the disk was written.
    method Refill(sect: nat, wbuff: seq<Byte>, cc: nat, ghost v: View)
      requires 512 * cc <= |wbuff| && (Minus32(dsect, sect) < cc <==> sect <= dsect < sect + cc) && !v.dirty
      requires BufferOk(fs.g, mine, bufClust, v) && Look() == v.(disk := Written(v.disk, sect, Chop(wbuff, cc)))
      requires DataIs(fs.g, Look(), chain, data)
      modifies `buf, `dirty
      ensures BytesOk()
    {
      if Minus32(dsect, sect) < cc {
        buf := Slice(wbuff, dsect - sect);
        dirty := false;
      }
      Rebuffered(fs.g, v.(disk := fs.disk), chain, data, buf, dsect);
      BufferRefilled(fs.g, mine, bufClust, v, sect, Chop(wbuff, cc), buf);
    }

    // What is known of a run of sectors of the current cluster
    lemma DirectRun(sect: nat, ss: seq<Sector>)
      requires Core() && AtSector() && sect == First(fs.g, currClust) + csect && 0 < |ss| && csect + |ss| <= fs.g.csize
      ensures OnVolume() && ChainsOk() && BytesOk() && Distinct(chain) && sect >= fs.g.fatEnd
      ensures Runs(ci, fs.g.csize) + csect + |ss| <= |data|
      ensures Minus32(dsect, sect) < |ss| <==> sect <= dsect < sect + |ss|
      ensures forall d | d in fs.dirs :: !(sect <= d < sect + |ss|)
      ensures SameOutside(fs.g, mine, fs.dirs, fs.disk, Written(fs.disk, sect, ss))
    {
      Parts();
      OwnClusters(fs.link, others, orgClust, chain);
      assert currClust in mine;
      ClusterFits(fs.g, currClust);
      AmongRead(fs.g, mine, bufClust, Look(), fs.link, chain, ci, csect, |ss|);
      RunOutside(fs.g, mine, currClust, fs.dirs, sect, |ss|);
      RunKept(fs.g, mine, currClust, fs.dirs, fs.disk, sect, ss);
      RunsUp(ci, |chain|, fs.g.csize);
    }

    // The buffer is of a cluster that is the file's.
    ghost predicate BufferMine()
      reads `mine, `bufClust, `dsect
    {
      dsect != 0 && bufClust in mine && bufClust >= 2 && InCluster(fs.g, bufClust, dsect)
    }

    // The position is in the sector of the buffer, which holds what is in the file already.
    ghost predicate ReadyToFit()
      reads this, fs
    {
      && Founded() && DataIs(fs.g, Look(), chain, data) && BufferMine() && InBuffer()
      && (fptr % 512 != 0 || fptr < fsize ==>
            Runs(ci, fs.g.csize) + csect - 1 < |data| && buf == data[Runs(ci, fs.g.csize) + csect - 1])
    }

    // The sector that is next
    lemma NextSector(sect: nat)
      requires Core() && AtSector() && sect == First(fs.g, currClust) + csect
      ensures Founded() && BytesOk() && chain[ci] in mine && InCluster(fs.g, chain[ci], sect) && sect != 0
      ensures SectorIs(Look(), sect, data, Runs(ci, fs.g.csize) + csect) && fptr % 512 == 0
    {
      Parts();
      OwnClusters(fs.link, others, orgClust, chain);
      assert chain[ci] in mine;
      ClusterFits(fs.g, chain[ci]);
      HoldsAt(fs.g, Look(), chain, data, ci, csect);
      StillFounded();
      InSector(Runs(ci, fs.g.csize) + csect, fptr);
    }

    // Give the clean buffer to the next sector; past the end of the file there is nothing to read.
    method LoadForWrite(sect: nat)
      requires Core() && !dirty && AtSector() && sect == First(fs.g, currClust) + csect
      modifies `buf, `dsect, `bufClust, `csect
      ensures ReadyToFit()
    {
      NextSector(sect);
      FillForWrite(sect, Runs(ci, fs.g.csize) + csect);
      dsect := sect;
      bufClust := chain[ci];
      csect := csect + 1;
    }

    method FillForWrite(sect: nat, ghost q: nat)
      requires BytesOk() && !dirty && SectorIs(Look(), sect, data, q) && sect != 0
      modifies `buf
      ensures DataIs(fs.g, View(fs.disk, buf, sect, false), chain, data) && (fptr < fsize ==> buf == data[q])
    {
      ghost var v := Look();
      if dsect != sect {
        if fptr < fsize {
          buf := At(fs.disk, sect);
        }
      }
      Rebuffered(fs.g, v, chain, data, buf, sect);
    }

    // Fit part of a sector into the buffer, which is of sector q of the file; what was in it before
    // matters only if some of it is in the file.
    method FitBytes(p: nat, w: seq<Byte>, ghost q: nat)
      requires Founded() && DataIs(fs.g, Look(), chain, data) && BufferMine() && InBuffer()
      requires q == Runs(ci, fs.g.csize) + csect - 1 && q < |data| && fptr == 512 * q + p && p + |w| <= 512
      requires p != 0 || fptr < fsize ==> buf == data[q]
      requires fsize <= 512 * |data|
      modifies `buf, `dirty, `data
      ensures Core() && OthersKept() && |data| == |old(data)|
      ensures Wrote(Flat(old(data)), Flat(data), fptr, w, Most(fsize, fptr))
    {
      Found();
      OwnClusters(fs.link, others, orgClust, chain);
      BufferPut(fs.g, Look(), chain, data, ci, csect - 1, Patch(buf, p, w), dsect, q);
      WroteInto(data, q, buf, p, w, fptr, Most(fsize, fptr));
      buf := Patch(buf, p, w);
      dirty := true;
      data := Put(data, q, [buf]);
      Whole();
    }

    method PutBytes(wbuff: seq<Byte>) returns (wcnt: nat)
      requires ReadyToFit() && wbuff != [] && SizeOk()
      modifies `buf, `dirty, `fptr, `data
      ensures Core() && Placed() && OthersKept() && 0 < wcnt <= |wbuff| && fptr == old(fptr) + wcnt
      ensures |data| == |old(data)|
      ensures old(fptr) <= 512 * |old(data)|
      ensures Wrote(Flat(old(data)), Flat(data), old(fptr), wbuff[..wcnt], Most(fsize, old(fptr)))
    {
      ghost var q := Runs(ci, fs.g.csize) + csect - 1;
      InSector(q, fptr);
      Within(fs.g.csize, |chain|, ci, csect - 1);
      var p := fptr % 512;
      wcnt := 512 - p;
      if wcnt > |wbuff| { wcnt := |wbuff|; }
      FitBytes(p, wbuff[..wcnt], q);
      fptr := fptr + wcnt;
    }

    // At a sector of the current cluster: write whole sectors directly, or give the buffer to it.
    method WriteAt(wbuff: seq<Byte>) returns (ok: bool, wcnt: nat)
      requires Core() && AtSector() && wbuff != [] && SizeOk()
      modifies fs`disk, `data, `csect, `fptr, `buf, `dsect, `dirty, `bufClust
      ensures ok && OthersKept() && wcnt <= |wbuff| && fptr == old(fptr) + wcnt && |data| == |old(data)|
      ensures wcnt > 0 ==> Core() && Placed()
      ensures wcnt > 0 ==> Wrote(Flat(old(data)), Flat(data), old(fptr), wbuff[..wcnt], 512 * |data|)
      ensures wcnt == 0 ==> ReadyToFit() && data == old(data)
    {
      wcnt := 0;
      var sect;
      ok, sect := CleanSector();
      if ok {
        ghost var disk := fs.disk;
        var cc := |wbuff| / 512;
        if cc != 0 {
          if csect + cc > fs.g.csize { cc := fs.g.csize - csect; }
          wcnt := WriteSectors(sect, wbuff, cc);
          SameSince(fs.g, mine, fs.dirs, old(fs.disk), disk, fs.disk);
        } else {
          LoadForWrite(sect);
        }
      }
    }

    // Write the buffer back; the number of the sector that is next
    method CleanSector() returns (ok: bool, sect: nat)
      requires Core() && AtSector()
      modifies fs`disk, `dirty
      ensures ok && Core() && OthersKept() && AtSector() && !dirty && sect == First(fs.g, currClust) + csect
    {
      Flush();
      CurrentSector();
      sect := ClusterToSector(fs.g, currClust);
      ok := sect != 0;
      sect := sect + csect;
    }

    method WriteSectors(sect: nat, wbuff: seq<Byte>, cc: nat) returns (wcnt: nat)
      requires Core() && !dirty && AtSector() && sect == First(fs.g, currClust) + csect
      requires 0 < cc && csect + cc <= fs.g.csize && 512 * cc <= |wbuff| && SizeOk()
      modifies fs`disk, `buf, `dirty, `data, `csect, `fptr
      ensures Core() && Placed() && OthersKept() && wcnt == 512 * cc && fptr == old(fptr) + wcnt
      ensures |data| == |old(data)|
      ensures Wrote(Flat(old(data)), Flat(data), old(fptr), wbuff[..wcnt], 512 * |data|)
    {
      ghost var q := Runs(ci, fs.g.csize) + csect;
      WriteDirect(sect, wbuff, cc, q);
      WroteRun(old(data), q, wbuff, cc, fptr);
      csect := csect + cc;
      wcnt := 512 * cc;
      fptr := fptr + wcnt;
    }

    // On a sector boundary, which may be where the file's clusters end
    method BeginWrite(wbuff: seq<Byte>) returns (ok: bool, full: bool, wcnt: nat)
      requires Core() && Placed() && fptr % 512 == 0 && wbuff != []
      modifies fs, `orgClust, `chain, `data, `currClust, `csect, `ci, `fptr, `buf, `dsect, `dirty, `bufClust
      ensures ok && OthersKept() && wcnt <= |wbuff| && fptr == old(fptr) + wcnt && |old(data)| <= |data|
      ensures full ==> wcnt == 0 && data == old(data) && Free(fs.link) == 0 && fptr == 512 * |data|
      ensures full || wcnt > 0 ==>
                Core() && Placed() && Wrote(Flat(old(data)), Flat(data), old(fptr), wbuff[..wcnt],
                                            Most(fsize, old(fptr)))
      ensures !full && wcnt == 0 ==> ReadyToFit() && old(data) <= data
    {
      wcnt := 0;
      InFile();
      ok, full := EnterForWrite();
      ghost var grown, disk := data, fs.disk;
      FlatPrefix(old(data), grown);
      if full {
        WroteNothing(Flat(old(data)), Flat(grown), fptr, Most(fsize, fptr));
      } else if ok {
        ok, wcnt := WriteAt(wbuff);
        SameSince(fs.g, mine, fs.dirs, old(fs.disk), disk, fs.disk);
        if wcnt > 0 {
          WroteLess(Flat(grown), Flat(data), old(fptr), wbuff[..wcnt], 512 * |data|, Most(fsize, old(fptr)));
          WroteGrown(Flat(old(data)), Flat(grown), Flat(data), old(fptr), wbuff[..wcnt], Most(fsize, old(fptr)));
        }
      }
    }

    // The file may have grown since it held before.
    method PutGrown(wbuff: seq<Byte>, ghost before: seq<Sector>) returns (wcnt: nat)
      requires ReadyToFit() && wbuff != [] && SizeOk() && before <= data && fsize <= 512 * |before|
      requires fptr <= 512 * |before|
      modifies `buf, `dirty, `fptr, `data
      ensures Core() && Placed() && OthersKept() && 0 < wcnt <= |wbuff| && fptr == old(fptr) + wcnt
      ensures |data| == |old(data)|
      ensures Wrote(Flat(before), Flat(data), old(fptr), wbuff[..wcnt], Most(fsize, old(fptr)))
    {
      FlatPrefix(before, data);
      wcnt := PutBytes(wbuff);
      WroteGrown(Flat(before), Flat(old(data)), Flat(data), old(fptr), wbuff[..wcnt], Most(fsize, old(fptr)));
    }

    method PieceAtBoundary(wbuff: seq<Byte>) returns (ok: bool, full: bool, wcnt: nat)
      requires Core() && Placed() && wbuff != [] && fptr % 512 == 0
      modifies fs, `orgClust, `chain, `data, `currClust, `csect, `ci, `fptr, `buf, `dsect, `dirty, `bufClust
      ensures ok && Core() && Placed() && OthersKept() && wcnt <= |wbuff| && fptr == old(fptr) + wcnt
      ensures if full then wcnt == 0 && Free(fs.link) == 0 && fptr == 512 * |data| && data == old(data) else wcnt > 0
      ensures |old(data)| <= |data|
      ensures Wrote(Flat(old(data)), Flat(data), old(fptr), wbuff[..wcnt], Most(fsize, old(fptr)))
    {
      InFile();
      ok, full, wcnt := BeginWrite(wbuff);
      if ok && !full && wcnt == 0 {
        wcnt := PutGrown(wbuff, old(data));
      }
    }

    // One turn of the loop of f_write
    method WritePiece(wbuff: seq<Byte>) returns (ok: bool, full: bool, wcnt: nat)
      requires Core() && Placed() && wbuff != []
      modifies fs, `orgClust, `chain, `data, `currClust, `csect, `ci, `fptr, `buf, `dsect, `dirty, `bufClust
      ensures ok && Core() && Placed() && OthersKept() && wcnt <= |wbuff| && fptr == old(fptr) + wcnt
      ensures if full then wcnt == 0 && Free(fs.link) == 0 && fptr == 512 * |data| && data == old(data) else wcnt > 0
      ensures |old(data)| <= |data|
      ensures Wrote(Flat(old(data)), Flat(data), old(fptr), wbuff[..wcnt], Most(fsize, old(fptr)))
    {
      if fptr % 512 == 0 {
        ok, full, wcnt := PieceAtBoundary(wbuff);
      } else {
        ok, full := true, false;
        InFile();
        MidSector();
        wcnt := PutGrown(wbuff, data);
      }
    }

    // The position is in the file's clusters.
    lemma InFile()
      requires Core() && Placed()
      ensures fptr <= 512 * |data|
    {
      Parts();
      if fptr > 0 { RunsUp(ci, |chain|, fs.g.csize); }
    }

    // In the middle of a sector, the buffer is ready.
    lemma MidSector()
      requires Core() && Placed() && fptr % 512 != 0
      ensures ReadyToFit()
    {
      Parts();
      CurrentSector();
      StillInBuffer(Runs(ci, fs.g.csize), fptr, csect);
      BufferIs(fs.g, mine, bufClust, Look(), chain, data, ci, csect - 1);
      StillFounded();
    }

    // The loop of f_write, which ends early where the disk is full
    method WriteAll(wbuff: seq<Byte>) returns (ok: bool, bw: nat)
      requires Core() && Placed() && fptr <= fsize
      modifies fs, `orgClust, `chain, `data, `currClust, `csect, `ci, `fptr, `buf, `dsect, `dirty, `bufClust
      ensures ok && Core() && Placed() && OthersKept() && bw <= |wbuff| && fptr == old(fptr) + bw
      ensures bw < |wbuff| ==> Free(fs.link) == 0 && fptr == 512 * |data|
      ensures fsize <= 512 * |old(data)| && fptr <= 512 * |data|
      ensures Wrote(Flat(old(data)), Flat(data), old(fptr), wbuff[..bw], fsize)
    {
      ok, bw := true, 0;
      InFile();
      WroteNothing(Flat(data), Flat(data), fptr, fsize);
      while bw < |wbuff|
        invariant ok && Core() && Placed() && OthersKept() && bw <= |wbuff| && fptr == old(fptr) + bw
        invariant Wrote(Flat(old(data)), Flat(data), old(fptr), wbuff[..bw], fsize)
      {
        ghost var disk := fs.disk;
        var full;
        ok, full, bw := WriteOnward(wbuff, bw, old(data), old(fptr));
        SameSince(fs.g, mine, fs.dirs, old(fs.disk), disk, fs.disk);
        if !ok { return; }
        if full { break; }
      }
      InFile();
    }

    // One more turn, where bw bytes were written from pos on in a file that held before
    method WriteOnward(wbuff: seq<Byte>, bw: nat, ghost before: seq<Sector>, ghost pos: nat)
      returns (ok: bool, full: bool, bw': nat)
      requires Core() && Placed() && bw < |wbuff| && fptr == pos + bw && pos <= fsize
      requires Wrote(Flat(before), Flat(data), pos, wbuff[..bw], fsize)
      modifies fs, `orgClust, `chain, `data, `currClust, `csect, `ci, `fptr, `buf, `dsect, `dirty, `bufClust
      ensures ok && Core() && Placed() && OthersKept() && bw' <= |wbuff| && fptr == pos + bw'
      ensures if full then bw' == bw && Free(fs.link) == 0 && fptr == 512 * |data| else bw < bw'
      ensures Wrote(Flat(before), Flat(data), pos, wbuff[..bw'], fsize)
    {
      var wcnt;
      ok, full, wcnt := WritePiece(wbuff[bw..]);
      WroteOn(Flat(before), Flat(old(data)), Flat(data), pos, wbuff[..bw], wbuff[bw..][..wcnt], fsize,
              Most(fsize, old(fptr)));
      Piece(wbuff, bw, wcnt);
      bw' := bw + wcnt;
    }

    // f_write: bytes of the file from the position on are replaced and added; it ends short only where
    // no cluster is free, and writes nothing if the file would reach 4 GB.
    method Write(buff: seq<Byte>) returns (res: Result, bw: nat)
      requires Valid() && |buff| < 0x1_0000_0000
      modifies fs, `err, `changed, `orgClust, `chain, `data, `currClust, `csect, `ci,
               `fptr, `fsize, `buf, `dsect, `dirty, `bufClust
      ensures Valid() && OthersKept() && err == old(err)
      ensures err ==> res == IntErr
      ensures !err && !canWrite ==> res == Denied
      ensures res != Ok ==> bw == 0 && fptr == old(fptr) && Content() == old(Content()) && changed == old(changed)
      ensures !err && canWrite ==> res == Ok && changed && bw <= |buff| && fptr == old(fptr) + bw
      ensures !err && canWrite && bw < |buff| ==>
                old(fsize) + |buff| >= 0x1_0000_0000 || (Free(fs.link) == 0 && fptr == 512 * |data|)
      ensures !err && canWrite && old(fsize) + |buff| >= 0x1_0000_0000 ==> bw == 0
      ensures !err && canWrite ==> Content() == Overwritten(old(Content()), old(fptr), buff[..bw])
    {
      if err { return IntErr, 0; }
      if !canWrite { return Denied, 0; }
      var ok;
      ok, bw := WriteIn(buff);
      err := !ok;
      res := if ok then Ok else IntErr;
    }

    method WriteIn(buff: seq<Byte>) returns (ok: bool, bw: nat)
      requires Valid() && |buff| < 0x1_0000_0000
      modifies fs, `changed, `orgClust, `chain, `data, `currClust, `csect, `ci, `fptr, `fsize,
               `buf, `dsect, `dirty, `bufClust
      ensures ok && Valid() && OthersKept() && changed && bw <= |buff| && fptr == old(fptr) + bw
      ensures bw < |buff| ==> old(fsize) + |buff| >= 0x1_0000_0000 || (Free(fs.link) == 0 && fptr == 512 * |data|)
      ensures old(fsize) + |buff| >= 0x1_0000_0000 ==> bw == 0
      ensures Content() == Overwritten(old(Content()), old(fptr), buff[..bw])
    {
      var btw := if (fsize + |buff|) % 0x1_0000_0000 < fsize then 0 else |buff|;
      ok, bw := WriteOut(buff[..btw]);
      PartOfFront(buff, btw, 0, bw);
    }

    method WriteOut(wbuff: seq<Byte>) returns (ok: bool, bw: nat)
      requires Valid() && fsize + |wbuff| < 0x1_0000_0000
      modifies fs, `changed, `orgClust, `chain, `data, `currClust, `csect, `ci, `fptr, `fsize,
               `buf, `dsect, `dirty, `bufClust
      ensures ok && Valid() && OthersKept() && changed && bw <= |wbuff| && fptr == old(fptr) + bw
      ensures bw < |wbuff| ==> Free(fs.link) == 0 && fptr == 512 * |data|
      ensures Content() == Overwritten(old(Content()), old(fptr), wbuff[..bw])
    {
      ok, bw := WriteAll(wbuff);
      WroteContent(Flat(old(data)), Flat(data), old(fptr), wbuff[..bw], fsize);
      if fptr > fsize { fsize := fptr; }
      changed := true;
    }

    /* ---- seeking ---- */

    // The position is the beginning of the current cluster.
    ghost predicate AtCluster()
      reads `chain, `ci, `currClust, `fptr
    {
      ci < |chain| && currClust == chain[ci] && currClust >= 2 && fptr == 512 * Runs(ci, fs.g.csize)
    }

    // Start at the current cluster, if that is not behind the target, or at the first.
    method StartWalk(ofs: nat, ifptr: nat) returns (ok: bool, clst: nat, rest: nat)
      requires Core() && SizeOk() && fptr == 0 && ofs > 0 && (canWrite || ofs <= fsize)
      requires ifptr > 0 ==>
                 ci < |chain| && currClust == chain[ci] && 0 < ifptr - 512 * Runs(ci, fs.g.csize) <= 512 * fs.g.csize
      modifies fs, `orgClust, `chain, `data, `currClust, `ci, `fptr
      ensures ok && Core() && OthersKept() && old(chain) <= chain && old(data) <= data && rest > 0 && fptr + rest == ofs
      ensures orgClust == old(orgClust) || (old(data) == [] && clst != 0)
      ensures !canWrite ==> clst != 0 && chain == old(chain) && data == old(data) && orgClust == old(orgClust)
      ensures if clst != 0 then AtCluster() && clst == currClust else fptr == 0 && data == [] && Free(fs.link) == 0
    {
      Parts();
      OwnClusters(fs.link, others, orgClust, chain);
      var bcs := fs.g.csize * 512;
      if ifptr > 0 { ClusterOf(fs.g.csize, ci, ifptr - 1, ofs - 1); }
      ok := true;
      if ifptr > 0 && (ofs - 1) / bcs >= (ifptr - 1) / bcs {
        fptr := ClearLow(ifptr - 1, bcs);
        rest := ofs - fptr;
        clst := currClust;
      } else {
        rest := ofs;
        clst := orgClust;
        if clst == 0 {
          clst := NewChain();
          ok := clst != 1;
        }
        currClust := clst;
        ci := 0;
      }
    }

    // Follow the chain, or stretch it in write mode; where the disk gets full, the target is clipped.
    method Walk(start: nat, ofs: nat) returns (ok: bool, clst: nat, rest: nat)
      requires Core() && SizeOk() && AtCluster() && start == currClust && ofs > 0 && (canWrite || fptr + ofs <= fsize)
      modifies fs, `chain, `data, `currClust, `ci, `fptr
      ensures ok && Core() && OthersKept() && AtCluster() && old(chain) <= chain && old(data) <= data
      ensures !canWrite ==> chain == old(chain) && data == old(data)
      ensures 0 < rest <= 512 * fs.g.csize && (clst == currClust || rest == 512 * fs.g.csize)
      ensures fptr + rest == old(fptr) + ofs
              || (fptr + rest < old(fptr) + ofs && Free(fs.link) == 0 && fptr + rest == 512 * |data|)
    {
      SomeSectors();
      ok, clst, rest := true, start, ofs;
      var bcs := fs.g.csize * 512;
      while rest > bcs
        invariant ok && Core() && OthersKept() && SizeOk() && AtCluster() && clst == currClust && rest > 0
        invariant old(chain) <= chain && old(data) <= data && fptr + rest == old(fptr) + ofs
        invariant !canWrite ==> chain == old(chain) && data == old(data)
      {
        ghost var disk := fs.disk;
        ok, clst, rest := WalkOn(rest);
        SameSince(fs.g, mine, fs.dirs, old(fs.disk), disk, fs.disk);
        if !ok { return; }
        if clst == 0 { break; }
      }
    }

    // One cluster further, or where the disk is full, to the end of this one
    method WalkOn(ofs: nat) returns (ok: bool, clst: nat, rest: nat)
      requires Core() && SizeOk() && AtCluster() && ofs > 512 * fs.g.csize && (canWrite || fptr + ofs <= fsize)
      modifies fs, `chain, `data, `currClust, `ci, `fptr
      ensures ok && Core() && OthersKept() && SizeOk() && AtCluster() && old(chain) <= chain && old(data) <= data
      ensures !canWrite ==> clst != 0 && chain == old(chain) && data == old(data)
      ensures clst != 0 ==> clst == currClust && rest == ofs - 512 * fs.g.csize && fptr + rest == old(fptr) + ofs
      ensures clst == 0 ==> fptr == old(fptr) && rest == 512 * fs.g.csize && Free(fs.link) == 0
                            && fptr + rest == 512 * |data|
    {
      var bcs := fs.g.csize * 512;
      ok, rest := true, bcs;
      clst := NextForSeek(ofs);
      if clst == 0 { return; }
      if clst <= 1 || clst >= fs.g.maxClust { ok := false; return; }
      currClust := clst;
      ci := ci + 1;
      fptr := fptr + bcs;
      rest := ofs - bcs;
    }

    method NextForSeek(rest: nat) returns (clst: nat)
      requires Core() && SizeOk() && AtCluster() && rest > 512 * fs.g.csize && (canWrite || fptr + rest <= fsize)
      modifies fs, `chain, `data
      ensures Core() && OthersKept() && old(chain) <= chain && old(data) <= data
      ensures !canWrite ==> clst != 0 && chain == old(chain) && data == old(data)
      ensures clst == 0 ==> Free(fs.link) == 0 && ci + 1 == |chain| && |data| == Runs(ci + 1, fs.g.csize)
      ensures clst != 0 ==> ci + 1 < |chain| && clst == chain[ci + 1] && 2 <= clst < fs.g.maxClust
    {
      Parts();
      OwnClusters(fs.link, others, orgClust, chain);
      if canWrite {
        clst := Stretch();
        Parts();
        OwnClusters(fs.link, others, orgClust, chain);
      } else {
        clst := Follow();
      }
    }

    // The position is rest bytes into the current cluster.
    method Settle(clst: nat, rest: nat) returns (ok: bool, nsect: nat)
      requires Core() && AtCluster() && 0 < rest <= 512 * fs.g.csize && (clst == currClust || rest == 512 * fs.g.csize)
      modifies `fptr, `csect
      ensures ok && fptr == old(fptr) + rest && Position(fs.g.csize, chain, ci, fptr, currClust, csect)
      ensures fptr % 512 != 0 ==> nsect == First(fs.g, currClust) + csect - 1
    {
      CurrentSector();
      SectorOf(old(fptr), Runs(ci, fs.g.csize), rest, fs.g.csize);
      ok := true;
      nsect := 0;
      fptr := fptr + rest;
      csect := rest / 512;
      if rest % 512 != 0 {
        nsect := ClusterToSector(fs.g, clst);
        ok := nsect != 0;
        nsect := nsect + csect;
        csect := csect + 1;
      }
    }

    // The walk of f_lseek
    method MoveTo(ofs: nat, ifptr: nat) returns (ok: bool, nsect: nat)
      requires Core() && SizeOk() && fptr == 0 && csect == 255 && (canWrite || ofs <= fsize)
      requires ifptr > 0 ==>
                 ci < |chain| && currClust == chain[ci] && 0 < ifptr - 512 * Runs(ci, fs.g.csize) <= 512 * fs.g.csize
      modifies fs, `orgClust, `chain, `data, `currClust, `ci, `fptr, `csect
      ensures ok && Core() && OthersKept() && old(data) <= data
      ensures Position(fs.g.csize, chain, ci, fptr, currClust, csect)
      ensures fptr % 512 != 0 ==> currClust >= 2 && nsect == First(fs.g, currClust) + csect - 1
      ensures fptr == ofs || (canWrite && fptr < ofs && Free(fs.link) == 0 && fptr == 512 * |data|)
      ensures !canWrite ==> chain == old(chain) && data == old(data) && orgClust == old(orgClust)
      ensures orgClust == old(orgClust) || (old(data) == [] && fptr > 0)
    {
      ok, nsect := true, 0;
      AtMost128();
      if ofs > 0 {
        var clst, rest;
        ok, clst, rest := StartWalk(ofs, ifptr);
        if ok && clst != 0 {
          ghost var disk := fs.disk;
          ok, nsect := WalkAndSettle(clst, rest);
          SameSince(fs.g, mine, fs.dirs, old(fs.disk), disk, fs.disk);
        }
      }
    }

    method WalkAndSettle(start: nat, ofs: nat) returns (ok: bool, nsect: nat)
      requires Core() && SizeOk() && AtCluster() && start == currClust && ofs > 0 && (canWrite || fptr + ofs <= fsize)
      modifies fs, `chain, `data, `currClust, `ci, `fptr, `csect
      ensures ok && Core() && OthersKept() && old(data) <= data
      ensures Position(fs.g.csize, chain, ci, fptr, currClust, csect)
      ensures fptr % 512 != 0 ==> currClust >= 2 && nsect == First(fs.g, currClust) + csect - 1
      ensures fptr > 0 && (fptr == old(fptr) + ofs
                           || (canWrite && fptr < old(fptr) + ofs && Free(fs.link) == 0 && fptr == 512 * |data|))
      ensures !canWrite ==> chain == old(chain) && data == old(data)
    {
      var clst, rest;
      nsect := 0;
      ok, clst, rest := Walk(start, ofs);
      if ok {
        ok, nsect := Settle(clst, rest);
      }
    }

    lemma AtMost128()
      requires Core()
      ensures 1 <= fs.g.csize <= 128
    {
      Parts();
    }

    // In the middle of a sector, have it in the buffer.
    method ShowSector(nsect: nat)
      requires Core() && SizeOk() && Position(fs.g.csize, chain, ci, fptr, currClust, csect)
      requires fptr % 512 != 0 ==> currClust >= 2 && nsect == First(fs.g, currClust) + csect - 1
      modifies fs`disk, `dirty, `buf, `dsect, `bufClust
      ensures Core() && Placed() && OthersKept() && (dirty ==> old(dirty))
    {
      if fptr % 512 != 0 && nsect != dsect {
        Flush();
        Load(nsect);
      }
    }

    // f_lseek: the position is where it was asked for; in read mode it stays in the file, in write mode
    // the file grows to it, or to where no cluster is free.
    method Seek(ofs: nat) returns (res: Result)
      requires Valid() && ofs < 0x1_0000_0000
      modifies fs, `changed, `orgClust, `chain, `data, `currClust, `csect, `ci, `fptr, `fsize,
               `err, `buf, `dsect, `dirty, `bufClust
      ensures Valid() && OthersKept() && err == old(err)
      ensures err ==> res == IntErr && fptr == old(fptr) && fsize == old(fsize) && data == old(data)
      ensures changed == (old(changed) || fptr > old(fsize))
      ensures !err ==> res == Ok && fsize == Most(old(fsize), fptr) && old(data) <= data
      ensures !err && !canWrite ==> fptr == Least(ofs, old(fsize)) && data == old(data)
      ensures !err && canWrite ==> fptr == ofs || (fptr < ofs && Free(fs.link) == 0 && fptr == 512 * |data|)
    {
      if err { return IntErr; }
      var ok := SeekIn(if ofs > fsize && !canWrite then fsize else ofs);
      err := !ok;
      res := if ok then Ok else IntErr;
    }

    method SeekIn(ofs: nat) returns (ok: bool)
      requires Valid() && (canWrite || ofs <= fsize) && ofs < 0x1_0000_0000
      modifies fs, `changed, `orgClust, `chain, `data, `currClust, `csect, `ci, `fptr, `fsize,
               `buf, `dsect, `dirty, `bufClust
      ensures ok && Valid() && OthersKept() && fsize == Most(old(fsize), fptr) && old(data) <= data
      ensures changed == (old(changed) || fptr > old(fsize))
      ensures fptr == ofs || (canWrite && fptr < ofs && Free(fs.link) == 0 && fptr == 512 * |data|)
      ensures !canWrite ==> data == old(data)
    {
      ok := SeekTo(ofs);
      if !ok { return; }
      InFile();
      if fptr > fsize {
        fsize := fptr;
        changed := true;
      }
    }

    method SeekTo(ofs: nat) returns (ok: bool)
      requires Valid() && (canWrite || ofs <= fsize)
      modifies fs, `orgClust, `chain, `data, `currClust, `csect, `ci, `fptr, `buf, `dsect, `dirty, `bufClust
      ensures ok && Core() && Placed() && OthersKept() && old(data) <= data
      ensures fptr == ofs || (canWrite && fptr < ofs && Free(fs.link) == 0 && fptr == 512 * |data|)
      ensures !canWrite ==> data == old(data)
      ensures (dirty ==> old(dirty)) && (orgClust == old(orgClust) || (old(data) == [] && fptr > 0))
    {
      AtMost128();
      var ifptr := fptr;
      fptr := 0;
      csect := 255;
      var nsect;
      ok, nsect := MoveTo(ofs, ifptr);
      ghost var disk := fs.disk;
      if ok { ShowSector(nsect); }
      SameSince(fs.g, mine, fs.dirs, old(fs.disk), disk, fs.disk);
    }

    /* ---- truncating ---- */

    // remove_chain from the first cluster on; the file's bytes are where they were.
    method RemoveOwn() returns (ok: bool)
      requires Core() && chain != []
      modifies fs
      ensures ok && OnVolume() && BytesOk() && OthersKept() && fs.link == Freed(old(fs.link), chain)
    {
      Parts();
      ghost var v, link := Look(), fs.link;
      OwnClusters(link, others, orgClust, chain);
      ok := fs.RemoveChain(orgClust, chain);
      TableMoved(fs.g, link, mine, fs.dirs, bufClust, v, fs.disk, chain, data);
    }

    // The whole chain is removed.
    method RemoveAll() returns (ok: bool)
      requires Core() && chain != []
      modifies fs, `orgClust, `chain, `data
      ensures ok && Core() && OthersKept() && orgClust == 0 && chain == [] && data == []
      ensures Free(fs.link) == Free(old(fs.link)) + |old(chain)|
    {
      Parts();
      ghost var link := fs.link;
      OwnClusters(link, others, orgClust, chain);
      AllFreed(link, others, orgClust, chain, mine);
      ok := RemoveOwn();
      Shrunk(fs.g, Look(), chain, data, 0);
      orgClust := 0;
      chain, data := [], [];
      Whole();
    }

    // What follows the current cluster is removed.
    method RemoveRest() returns (ok: bool)
      requires Core() && ci < |chain| && currClust == chain[ci]
      modifies fs, `chain, `data
      ensures ok && Core() && OthersKept() && chain == old(chain)[..ci + 1]
      ensures Runs(ci + 1, fs.g.csize) <= |old(data)| && data == old(data)[..Runs(ci + 1, fs.g.csize)]
      ensures Free(fs.link) == Free(old(fs.link)) + |old(chain)| - (ci + 1)
    {
      var ncl := Follow();
      Parts();
      OwnClusters(fs.link, others, orgClust, chain);
      ghost var v := Look();
      Shrunk(fs.g, v, chain, data, ci + 1);
      ok := ncl != 1;
      if ok && ncl < fs.g.maxClust {
        ghost var disk := fs.disk;
        ok := CutAfter(ncl);
        SameSince(fs.g, mine, fs.dirs, old(fs.disk), disk, fs.disk);
      } else {
        assert chain[..ci + 1] == chain && data[..Runs(ci + 1, fs.g.csize)] == data;
      }
    }

    method CutAfter(ncl: nat) returns (ok: bool)
      requires Core() && ci + 1 < |chain| && currClust == chain[ci] && ncl == chain[ci + 1]
      modifies fs, `chain, `data
      ensures ok && Core() && OthersKept() && chain == old(chain)[..ci + 1]
      ensures Runs(ci + 1, fs.g.csize) <= |old(data)| && data == old(data)[..Runs(ci + 1, fs.g.csize)]
      ensures Free(fs.link) == Free(old(fs.link)) + |old(chain)| - (ci + 1)
    {
      Parts();
      ghost var link, k := fs.link, ci + 1;
      OwnClusters(link, others, orgClust, chain);
      CutLink(link, others, orgClust, chain, k, fs.Eoc(), mine);
      ok := GiveUp(ncl, chain[k..]);
      Shrunk(fs.g, Look(), chain, data, k);
      chain, data := chain[..k], data[..Runs(k, fs.g.csize)];
      Whole();
    }

    // End the chain at the current cluster, and free the rest; the file's bytes are where they were.
    method GiveUp(ncl: nat, ghost rest: seq<nat>) returns (ok: bool)
      requires Core() && ci < |chain| && currClust == chain[ci] && IsCluster(fs.link, currClust)
      requires fs.link[currClust] != 0
      requires IsChain(fs.link[currClust := fs.Eoc()], rest) && rest[0] == ncl
      modifies fs
      ensures ok && OnVolume() && BytesOk() && OthersKept()
      ensures fs.link == Freed(old(fs.link)[currClust := fs.Eoc()], rest)
    {
      Parts();
      ghost var v, link := Look(), fs.link;
      OwnClusters(link, others, orgClust, chain);
      ok := RemoveLinks(ncl, rest);
      TableMoved(fs.g, link, mine, fs.dirs, bufClust, v, fs.disk, chain, data);
    }

    // put_fat and remove_chain on the volume
    method RemoveLinks(ncl: nat, ghost rest: seq<nat>) returns (ok: bool)
      requires fs.Valid() && IsCluster(fs.link, currClust) && fs.link[currClust] != 0
      requires IsChain(fs.link[currClust := fs.Eoc()], rest) && rest[0] == ncl
      modifies fs
      ensures ok && fs.Valid() && fs.DataKept() && fs.dirs == old(fs.dirs)
      ensures fs.link == Freed(old(fs.link)[currClust := fs.Eoc()], rest)
      ensures old(fs.Tracked()) ==> fs.Tracked()
    {
      EocStored(fs.g.t);
      FreeAfter(fs.link, |fs.link|, currClust, fs.Eoc());
      ok := fs.PutFat(currClust, 0x0FFF_FFFF);
      if ok {
        ok := fs.RemoveChain(ncl, rest);
      }
    }

    // There are clusters where there are bytes.
    lemma Cover()
      requires Core() && Placed() && fsize > 0
      ensures chain != []
    {
      Parts();
    }

    method Shorten() returns (ok: bool)
      requires Valid() && fsize > fptr && chain != []
      modifies fs, `changed, `orgClust, `chain, `data, `fsize
      ensures ok && Valid() && OthersKept() && fsize == fptr && Content() == old(Content())[..fptr] && changed
      ensures chain == old(chain)[..if fptr == 0 then 0 else ci + 1]
      ensures Free(fs.link) == Free(old(fs.link)) + |old(chain)| - |chain|
    {
      fsize := fptr;
      changed := true;
      if fptr == 0 {
        ok := RemoveAll();
      } else {
        ok := RemoveRest();
        FlatPrefix(data, old(data));
        RunsUp(ci, ci + 1, fs.g.csize);
      }
    }

    // f_truncate: the file ends at the position, and keeps no cluster behind it.
    method Truncate() returns (res: Result)
      requires Valid()
      modifies fs, `err, `changed, `orgClust, `chain, `data, `fsize
      ensures Valid() && OthersKept() && err == old(err) && fptr == old(fptr)
      ensures changed == (old(changed) || (!err && canWrite && old(fsize) > fptr))
      ensures err ==> res == IntErr && Content() == old(Content())
      ensures !err && !canWrite ==> res == Denied && Content() == old(Content())
      ensures !err && canWrite ==> res == Ok && Content() == old(Content())[..fptr]
      ensures !err && canWrite && old(fsize) > fptr ==>
                && chain == old(chain)[..if fptr == 0 then 0 else ci + 1]
                && Free(fs.link) == Free(old(fs.link)) + |old(chain)| - |chain|
    {
      if err { return IntErr; }
      if !canWrite { return Denied; }
      var ok := true;
      InFile();
      if fsize > fptr {
        Cover();
        ok := Shorten();
      }
      err := !ok;
      res := if ok then Ok else IntErr;
    }

    /* ---- synchronizing ---- */

    // The part of f_sync after the buffer has been written
    method SaveEntry(time: nat)
      requires Core() && Placed() && fptr <= fsize && !dirty && time < 0x1_0000_0000
      requires dirSect in fs.dirs && dirSect >= fs.g.fatEnd && dirOff + 32 <= 512
      modifies fs`disk, fs`win, fs`winsect, fs`wflag, fs`fsiFlag, fs`dirs, `changed
      ensures Valid() && !changed && SameOutside(fs.g, mine, fs.dirs, old(fs.disk), fs.disk) && !fs.wflag
      ensures dirSect in old(fs.dirs) && fs.dirs == old(fs.dirs)[dirSect := fs.dirs[dirSect]]
      ensures EntryChanged(old(fs.dirs[dirSect]), fs.dirs[dirSect], dirOff, time)
    {
      Parts();
      ghost var v := Look();
      OwnClusters(fs.link, others, orgClust, chain);
      fs.SaveEntry(dirSect, dirOff, orgClust, fsize, time);
      TableMoved(fs.g, fs.link, mine, fs.dirs, bufClust, v, fs.disk, chain, data);
      changed := false;
    }

    // f_sync: the buffer, the directory entry and the window are written to the disk, and then the file does not
    // count as changed. If it does not before, nothing is done.
    method Sync(time: nat)
      requires Valid() && time < 0x1_0000_0000
      modifies fs`disk, fs`win, fs`winsect, fs`wflag, fs`fsiFlag, fs`dirs, `changed, `dirty
      ensures Valid() && !changed && RestKept()
      ensures old(!changed) ==> fs.dirs == old(fs.dirs) && fs.disk == old(fs.disk) && fs.wflag == old(fs.wflag)
      ensures old(changed) ==>
                && !fs.wflag && dirSect in old(fs.dirs) && fs.dirs == old(fs.dirs)[dirSect := fs.dirs[dirSect]]
                && EntryChanged(old(fs.dirs[dirSect]), fs.dirs[dirSect], dirOff, time)
    {
      if changed {
        Flush();
        ghost var disk := fs.disk;
        SaveEntry(time);
        SameSince(fs.g, mine, fs.dirs, old(fs.disk), disk, fs.disk);
      }
    }

    // After every operation the current cluster is the one that the byte before the position is in,
    // counted from the beginning of the chain, and csect goes with it.
    lemma CurrentCluster()
      requires Valid() && fptr > 0
      ensures CurrentIs(fs.g.csize * 512, chain, fptr - 1, currClust, csect)
    {
      SomeSectors();
      PlacedAt(fs.g.csize, chain, ci, fptr, currClust, csect);
    }

    // The bytes of the file
    ghost function Content(): seq<Byte>
      requires fsize <= 512 * |data|
      reads `data, `fsize
    {
      Flat(data)[..fsize]
    }
  }

  // In the middle of a sector, the buffer is that sector's.
  lemma StillInBuffer(b: nat, fptr: nat, csect: nat)
    requires fptr % 512 != 0 && 512 * (b + csect - 1) < fptr <= 512 * (b + csect)
    ensures fptr < 512 * (b + csect)
  {
  }

  lemma PartOfFront<T>(s: seq<T>, n: nat, a: nat, b: nat)
    requires a <= b <= n <= |s|
    ensures s[..n][a..b] == s[a..b]
  {
  }

  lemma Piece<T>(s: seq<T>, a: nat, n: nat)
    requires a + n <= |s|
    ensures s[..a] + s[a..][..n] == s[..a + n]
  {
  }

  lemma Joined<T>(s: seq<T>, a: nat, b: nat, c: nat)
    requires a <= b <= c <= |s|
    ensures s[a..b] + s[b..c] == s[a..c]
  {
  }

  function Most(a: nat, b: nat): nat {
    if a < b then b else a
  }

  function Least(a: int, b: int): int {
    if a < b then a else b
  }

  // The sector that rest bytes end in
  lemma SectorOf(p: nat, b: nat, rest: nat, csize: nat)
    requires p == 512 * b && 0 < rest <= 512 * csize
    ensures var n := if rest % 512 == 0 then rest / 512 else rest / 512 + 1;
            1 <= n <= csize && 512 * (b + n - 1) < p + rest <= 512 * (b + n) && (p + rest) % 512 == rest % 512
  {
    var q, r := rest / 512, rest % 512;
    assert rest == 512 * q + r;
    assert p + rest == 512 * (b + q) + r;
  }

  // Clusters given up remain the file's to take.
  lemma MineFreed(link: seq<nat>, chain: seq<nat>, kept: seq<nat>, gone: seq<nat>, mine: set<nat>)
    requires MineIs(link, chain, mine) && forall c :: c in chain <==> c in kept || c in gone
    ensures MineIs(Freed(link, gone), kept, mine)
  {
    forall c: nat
      ensures c in mine <==> IsCluster(Freed(link, gone), c) && (Freed(link, gone)[c] == 0 || c in kept)
    {
    }
  }

  // Freeing all of the file's chain
  lemma AllFreed(link: seq<nat>, others: map<nat, seq<nat>>, org: nat, chain: seq<nat>, mine: set<nat>)
    requires ChainsAre(link, others, org, chain) && MineIs(link, chain, mine) && org != 0
    ensures ChainsAre(Freed(link, chain), others, 0, []) && MineIs(Freed(link, chain), [], mine)
    ensures Free(Freed(link, chain)) == Free(link) + |chain|
  {
    var all := AllChains(others, org, chain);
    OwnClusters(link, others, org, chain);
    FreeChain(link, all, org);
    NoZero(link, all);
    FreedCount(link, chain);
    MineFreed(link, chain, [], chain, mine);
    assert all - {org} == others;
  }

  // Cutting the file's chain after k clusters
  lemma CutLink(link: seq<nat>, others: map<nat, seq<nat>>, org: nat, chain: seq<nat>, k: nat, eoc: nat, mine: set<nat>)
    requires ChainsAre(link, others, org, chain) && MineIs(link, chain, mine) && 1 <= k < |chain| && eoc >= |link|
    requires forall i | 0 <= i < |chain| :: IsCluster(link, chain[i])
    ensures IsCluster(link, chain[k - 1])
    ensures var cut := link[chain[k - 1] := eoc];
            && IsChain(cut, chain[k..]) && link[chain[k - 1]] != 0
            && ChainsAre(Freed(cut, chain[k..]), others, org, chain[..k])
            && MineIs(Freed(cut, chain[k..]), chain[..k], mine)
            && Free(Freed(cut, chain[k..])) == Free(link) + |chain| - k
  {
    var all := AllChains(others, org, chain);
    CutChain(link, all, org, k, eoc);
    assert all[org := chain[..k]] == AllChains(others, org, chain[..k]);
    var cut := link[chain[k - 1] := eoc];
    InUse(link, chain, k - 1);
    FreeAfter(link, |link|, chain[k - 1], eoc);
    FreedCount(cut, chain[k..]);
    CutMine(link, chain, k, eoc, mine);
  }

  lemma CutMine(link: seq<nat>, chain: seq<nat>, k: nat, eoc: nat, mine: set<nat>)
    requires MineIs(link, chain, mine) && 1 <= k < |chain| && IsCluster(link, chain[k - 1]) && eoc > 0
    ensures MineIs(Freed(link[chain[k - 1] := eoc], chain[k..]), chain[..k], mine)
  {
    var c := chain[k - 1];
    assert c in chain;
    InParts(chain, k);
    MineFreed(link[c := eoc], chain, chain[..k], chain[k..], mine);
  }

  lemma InParts<T>(s: seq<T>, k: nat)
    requires k <= |s|
    ensures forall x :: x in s <==> x in s[..k] || x in s[k..]
  {
    assert s == s[..k] + s[k..];
  }

  // x with the bits below a power of two cleared
  function ClearLow(x: nat, m: nat): nat
    requires m > 0
  {
    x - x % m
  }

  // Byte x of a file with clusters of bcs bytes is in cluster curr, and in its sector before csect.
  predicate CurrentIs(bcs: nat, ch: seq<nat>, x: nat, curr: nat, csect: nat) {
    bcs > 0 && x / bcs < |ch| && curr == ch[x / bcs] && csect == x % bcs / 512 + 1
  }

  lemma PlacedAt(csize: nat, ch: seq<nat>, ci: nat, fptr: nat, curr: nat, csect: nat)
    requires Position(csize, ch, ci, fptr, curr, csect) && fptr > 0 && csize > 0
    ensures CurrentIs(csize * 512, ch, fptr - 1, curr, csect)
  {
    PlaceOf(csize, ci, fptr - 1, csect);
  }

  lemma PlaceOf(csize: nat, ci: nat, x: nat, csect: nat)
    requires 1 <= csect <= csize && 512 * (Runs(ci, csize) + csect - 1) <= x < 512 * (Runs(ci, csize) + csect)
    ensures var bcs := csize * 512; bcs > 0 && x / bcs == ci && x % bcs / 512 + 1 == csect
  {
    var bcs, r := csize * 512, x - 512 * Runs(ci, csize);
    RunsProduct(ci, csize);
    Scaled(ci, csize);
    Quotient(x, bcs, ci, r);
    InSector(csect - 1, r);
  }

  // Which cluster of a file a byte is in
  lemma ClusterOf(csize: nat, ci: nat, x: nat, y: nat)
    requires csize > 0 && 512 * Runs(ci, csize) <= x < 512 * Runs(ci, csize) + 512 * csize
    ensures var bcs := csize * 512;
            bcs > 0 && x / bcs == ci && ClearLow(x, bcs) == 512 * Runs(ci, csize)
            && (y / bcs >= ci ==> y >= 512 * Runs(ci, csize))
  {
    RunsProduct(ci, csize);
    var bcs := csize * 512;
    Scaled(ci, csize);
    Quotient(x, bcs, ci, x - 512 * Runs(ci, csize));
    if y / bcs >= ci { Quotient(y, bcs, y / bcs, y % bcs); NoLess(ci, y / bcs, bcs); }
  }

  lemma Scaled(ci: nat, csize: nat)
    ensures 512 * (ci * csize) == ci * (csize * 512)
  {
  }

  // A difference of 32-bit sector numbers
  function Minus32(a: nat, b: nat): int {
    (a + 0x1_0000_0000 - b) % 0x1_0000_0000
  }

  lemma AmongRead(g: Geometry, mine: set<nat>, bc: nat, v: View, link: seq<nat>, ch: seq<nat>, k: nat, i: nat, n: nat)
    requires Sized(g) && |link| == g.maxClust && k < |ch| && IsCluster(link, ch[k]) && i + n <= g.csize && n > 0
    requires BufferOk(g, mine, bc, v)
    requires MineIs(link, ch, mine)
    ensures var s := First(g, ch[k]) + i; Minus32(v.dsect, s) < n <==> s <= v.dsect < s + n
  {
    ClusterFits(g, ch[k]);
    if v.dsect != 0 { ClusterFits(g, bc); }
  }

  // Sectors of one of the file's clusters are no directory's.
  lemma RunOutside(g: Geometry, mine: set<nat>, c: nat, dirs: Directories, s: nat, n: nat)
    requires AllClear(g, mine, dirs) && c in mine && c >= 2 && First(g, c) <= s && s + n <= First(g, c) + g.csize
    ensures forall d | d in dirs :: !(s <= d < s + n)
  {
    forall d | d in dirs
      ensures !(s <= d < s + n)
    {
      assert !InCluster(g, c, d);
    }
  }

  lemma BufferRefilled(g: Geometry, mine: set<nat>, bc: nat, v: View, s: nat, ss: seq<Sector>, buf: Sector)
    requires BufferOk(g, mine, bc, v) && !v.dirty && buf == if s <= v.dsect < s + |ss| then ss[v.dsect - s] else v.buf
    ensures BufferOk(g, mine, bc, View(Written(v.disk, s, ss), buf, v.dsect, false))
  {
    WrittenAt(v.disk, s, ss, v.dsect);
  }

  lemma RunKept(g: Geometry, mine: set<nat>, c: nat, dirs: Directories, disk: map<nat, Sector>, s: nat, ss: seq<Sector>)
    requires c in mine && c >= 2 && First(g, c) <= s && s + |ss| <= First(g, c) + g.csize
    ensures SameOutside(g, mine, dirs, disk, Written(disk, s, ss))
  {
    forall t: nat | t >= g.fatEnd && t !in dirs && Outside(g, mine, t)
      ensures At(Written(disk, s, ss), t) == At(disk, t)
    {
      assert !InCluster(g, c, t);
      WrittenAt(disk, s, ss, t);
    }
  }

  // The buffer holds its sector of the file.
  lemma BufferIs(g: Geometry, mine: set<nat>, bc: nat, v: View, ch: seq<nat>, data: seq<Sector>, k: nat, i: nat)
    requires DataIs(g, v, ch, data) && k < |ch| && i < g.csize && BufferOk(g, mine, bc, v)
    requires v.dsect == First(g, ch[k]) + i
    requires v.dsect != 0
    ensures Runs(k, g.csize) + i < |data| && v.buf == data[Runs(k, g.csize) + i]
  {
    HoldsAt(g, v, ch, data, k, i);
  }

  lemma InSector(q: nat, p: nat)
    requires 512 * q <= p < 512 * (q + 1)
    ensures p % 512 == p - 512 * q && p / 512 == q
  {
  }

  // On a sector boundary, the position is the end of the sector before.
  lemma OnBoundary(csize: nat, ch: seq<nat>, ci: nat, fptr: nat, curr: nat, csect: nat)
    requires Position(csize, ch, ci, fptr, curr, csect) && fptr % 512 == 0
    ensures fptr > 0 ==> fptr == 512 * (Runs(ci, csize) + csect)
  {
  }

  // There are more clusters if there is more of the file.
  lemma Behind(csize: nat, n: nat, ci: nat, fptr: nat, csect: nat)
    requires csect >= csize && fptr < 512 * Runs(n, csize)
    requires (fptr > 0 ==> ci < n && csect <= csize && fptr == 512 * (Runs(ci, csize) + csect))
    ensures if fptr == 0 then n > 0 else ci + 1 < n
  {
  }
}
