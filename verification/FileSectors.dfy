// Where the bytes of a file are: its clusters' sectors, with the sector buffer of the open file laid
// over the disk.
module FileSectors {
  import opened FatEntries
  import opened Sectors
  import opened FatVolume

  predicate PowerOfTwo(n: nat) {
    n == 1 || n == 2 || n == 4 || n == 8 || n == 16 || n == 32 || n == 64 || n == 128
  }

  ghost predicate Sized(g: Geometry) {
    g.Ok() && PowerOfTwo(g.csize) && g.database + Runs(g.maxClust - 2, g.csize) <= 0x1_0000_0000
  }

  function First(g: Geometry, c: nat): nat
    requires c >= 2
  {
    g.database + Runs(c - 2, g.csize)
  }

  predicate InCluster(g: Geometry, c: nat, s: nat)
    requires c >= 2
  {
    First(g, c) <= s < First(g, c) + g.csize
  }

  // Clusters do not overlap, and lie behind the table.
  lemma ClustersApart(g: Geometry, c: nat, d: nat, s: nat)
    requires c >= 2 && d >= 2 && InCluster(g, c, s) && InCluster(g, d, s)
    ensures c == d
  {
    if c < d { RunsUp(c - 2, d - 2, g.csize); }
    if d < c { RunsUp(d - 2, c - 2, g.csize); }
  }

  lemma ClusterFits(g: Geometry, c: nat)
    requires Sized(g) && 2 <= c < g.maxClust
    ensures g.fatEnd <= First(g, c) && First(g, c) + g.csize <= 0x1_0000_0000
    ensures 0 < First(g, c)
  {
    RunsUp(0, g.nFats, g.sectsFat);
    RunsUp(c - 2, g.maxClust - 2, g.csize);
  }

  // clust2sect, in 32 bits
  function ClusterToSector(g: Geometry, clst: nat): nat {
    if clst < 2 || clst - 2 >= g.maxClust - 2 then 0 else ((clst - 2) * g.csize + g.database) % 0x1_0000_0000
  }

  lemma ToSector(g: Geometry, c: nat)
    requires Sized(g) && 2 <= c < g.maxClust
    ensures ClusterToSector(g, c) == First(g, c) != 0
  {
    ClusterFits(g, c);
    RunsProduct(c - 2, g.csize);
  }

  // It answers 0 exactly if that is no cluster.
  lemma NoSector(g: Geometry, c: nat)
    requires Sized(g)
    ensures ClusterToSector(g, c) == 0 <==> c < 2 || c >= g.maxClust
  {
    if 2 <= c < g.maxClust { ToSector(g, c); }
  }

  /* ---- the file's sectors ---- */

  // The disk, and the buffer of sector dsect
  datatype View = View(disk: map<nat, Sector>, buf: Sector, dsect: nat, dirty: bool)

  function Seen(v: View, s: nat): Sector {
    Overlaid(v.disk, v.buf, v.dsect, v.dirty, s)
  }

  predicate Clusters(ch: seq<nat>) {
    forall k | 0 <= k < |ch| :: ch[k] >= 2
  }

  predicate Distinct(ch: seq<nat>) {
    forall j, k | 0 <= j < k < |ch| :: ch[j] != ch[k]
  }

  predicate SectorIs(v: View, s: nat, data: seq<Sector>, q: nat) {
    q < |data| && Seen(v, s) == data[q]
  }

  // Sector i of cluster k of the chain holds its part of the data.
  predicate Holds(g: Geometry, v: View, ch: seq<nat>, data: seq<Sector>, k: nat, i: nat)
    requires Clusters(ch) && k < |ch|
  {
    SectorIs(v, First(g, ch[k]) + i, data, Runs(k, g.csize) + i)
  }

  // data is what the chain holds.
  ghost predicate DataIs(g: Geometry, v: View, ch: seq<nat>, data: seq<Sector>) {
    && Clusters(ch) && |data| == Runs(|ch|, g.csize)
    && forall k: nat, i: nat {:trigger Holds(g, v, ch, data, k, i)} | k < |ch| && i < g.csize ::
         Holds(g, v, ch, data, k, i)
  }

  lemma HoldsAt(g: Geometry, v: View, ch: seq<nat>, data: seq<Sector>, k: nat, i: nat)
    requires DataIs(g, v, ch, data) && k < |ch| && i < g.csize
    ensures SectorIs(v, First(g, ch[k]) + i, data, Runs(k, g.csize) + i)
  {
    assert Holds(g, v, ch, data, k, i);
  }

  lemma Within(csize: nat, n: nat, k: nat, i: nat)
    requires k < n && i < csize
    ensures Runs(k, csize) + i < Runs(n, csize)
  {
    RunsUp(k, n, csize);
  }

  predicate SameAt(g: Geometry, v: View, v': View, c: nat, i: nat)
    requires c >= 2
  {
    Seen(v', First(g, c) + i) == Seen(v, First(g, c) + i)
  }

  // Only what is seen matters.
  lemma SeenSame(g: Geometry, v: View, v': View, ch: seq<nat>, data: seq<Sector>)
    requires DataIs(g, v, ch, data)
    requires forall k: nat, i: nat {:trigger SameAt(g, v, v', ch[k], i)} | k < |ch| && i < g.csize ::
               SameAt(g, v, v', ch[k], i)
    ensures DataIs(g, v', ch, data)
  {
    forall k: nat, i: nat | k < |ch| && i < g.csize
      ensures Holds(g, v', ch, data, k, i)
    {
      assert Holds(g, v, ch, data, k, i);
      assert SameAt(g, v, v', ch[k], i);
    }
  }

  // Writing the buffer back changes nothing.
  lemma Flushed(g: Geometry, v: View, ch: seq<nat>, data: seq<Sector>)
    requires DataIs(g, v, ch, data) && v.dirty
    ensures DataIs(g, View(v.disk[v.dsect := v.buf], v.buf, v.dsect, false), ch, data)
  {
    SeenSame(g, v, View(v.disk[v.dsect := v.buf], v.buf, v.dsect, false), ch, data);
  }

  // A clean buffer may be given to another sector.
  lemma Rebuffered(g: Geometry, v: View, ch: seq<nat>, data: seq<Sector>, buf: Sector, dsect: nat)
    requires DataIs(g, v, ch, data) && !v.dirty
    ensures DataIs(g, View(v.disk, buf, dsect, false), ch, data)
  {
    SeenSame(g, v, View(v.disk, buf, dsect, false), ch, data);
  }

  // Changes of the table do not reach the file.
  lemma TableChanged(g: Geometry, dirs: Directories, v: View, disk: map<nat, Sector>, ch: seq<nat>, data: seq<Sector>)
    requires DataIs(g, v, ch, data) && SameBehind(g, dirs, v.disk, disk) && Sized(g)
    requires forall k | 0 <= k < |ch| :: ch[k] < g.maxClust && NotIn(g, ch[k], dirs)
    ensures DataIs(g, v.(disk := disk), ch, data)
  {
    var v' := v.(disk := disk);
    forall k: nat, i: nat | k < |ch| && i < g.csize
      ensures SameAt(g, v, v', ch[k], i)
    {
      ClusterFits(g, ch[k]);
      assert InCluster(g, ch[k], First(g, ch[k]) + i);
      assert At(disk, First(g, ch[k]) + i) == At(v.disk, First(g, ch[k]) + i);
    }
    SeenSame(g, v, v', ch, data);
  }

  // No directory has a sector in cluster c.
  predicate NotIn(g: Geometry, c: nat, dirs: Directories)
    requires c >= 2
  {
    forall s | s in dirs :: !InCluster(g, c, s)
  }

  /* ---- runs of sectors ---- */

  // What is read of the disk, with the dirty buffer put in its place if it is among the sectors read
  function Patched(v: View, s: nat, n: nat): (r: seq<Sector>)
    ensures |r| == n
  {
    var raw := SectorsAt(v.disk, s, n);
    if v.dirty && s <= v.dsect < s + n then raw[v.dsect - s := v.buf] else raw
  }

  lemma PatchedAt(v: View, s: nat, n: nat, j: nat)
    requires j < n
    ensures Patched(v, s, n)[j] == Seen(v, s + j)
  {
    SectorsAtAt(v.disk, s, n, j);
  }

  // Reading n sectors of a cluster directly gives the sectors of the file.
  lemma ReadRun(g: Geometry, v: View, ch: seq<nat>, data: seq<Sector>, k: nat, i: nat, n: nat, s: nat, q: nat)
    requires DataIs(g, v, ch, data) && k < |ch| && i + n <= g.csize
    requires s == First(g, ch[k]) + i && q == Runs(k, g.csize) + i
    ensures q + n <= |data| && Patched(v, s, n) == data[q..q + n]
  {
    RunsUp(k, |ch|, g.csize);
    forall j: nat | j < n
      ensures Patched(v, s, n)[j] == data[q + j]
    {
      HoldsAt(g, v, ch, data, k, i + j);
      PatchedAt(v, s, n, j);
    }
  }

  /* ---- changing the file ---- */

  // data with other sectors from q on
  function Put(data: seq<Sector>, q: nat, ss: seq<Sector>): (r: seq<Sector>)
    requires q + |ss| <= |data|
    ensures |r| == |data|
  {
    data[..q] + ss + data[q + |ss|..]
  }

  // A change is seen in these sectors from s on, and nowhere else.
  predicate ChangeAt(v: View, v': View, s: nat, ss: seq<Sector>, t: nat) {
    Seen(v', t) == if s <= t < s + |ss| then ss[t - s] else Seen(v, t)
  }

  ghost predicate Change(v: View, v': View, s: nat, ss: seq<Sector>) {
    forall t: nat {:trigger ChangeAt(v, v', s, ss, t)} :: ChangeAt(v, v', s, ss, t)
  }

  lemma SectorChanged(v: View, v': View, s: nat, ss: seq<Sector>, t: nat, data: seq<Sector>, q: nat, p: nat)
    requires q + |ss| <= |data| && ChangeAt(v, v', s, ss, t) && SectorIs(v, t, data, p)
    requires if s <= t < s + |ss| then p == q + (t - s) else !(q <= p < q + |ss|)
    ensures SectorIs(v', t, Put(data, q, ss), p)
  {
  }

  lemma RunHolds(g: Geometry, v: View, v': View, ch: seq<nat>, data: seq<Sector>, k: nat, i: nat, ss: seq<Sector>,
                 s: nat, q: nat, k': nat, i': nat, t: nat, p: nat)
    requires Clusters(ch) && Distinct(ch) && k < |ch| && i + |ss| <= g.csize
    requires s == First(g, ch[k]) + i && q == Runs(k, g.csize) + i && q + |ss| <= |data|
    requires ChangeAt(v, v', s, ss, t) && SectorIs(v, t, data, p)
    requires k' < |ch| && i' < g.csize && t == First(g, ch[k']) + i' && p == Runs(k', g.csize) + i'
    ensures SectorIs(v', t, Put(data, q, ss), p)
  {
    if k' != k { OtherCluster(g, ch, k, i, |ss|, k', i', s, q, t, p); }
    SectorChanged(v, v', s, ss, t, data, q, p);
  }

  // Where the sectors are of one cluster, the file changes there and nowhere else.
  lemma RunChanged(g: Geometry, v: View, v': View, ch: seq<nat>, data: seq<Sector>, k: nat, i: nat, ss: seq<Sector>,
                   s: nat, q: nat)
    requires DataIs(g, v, ch, data) && Distinct(ch) && k < |ch| && i + |ss| <= g.csize
    requires s == First(g, ch[k]) + i && q == Runs(k, g.csize) + i && Change(v, v', s, ss)
    ensures q + |ss| <= |data| && DataIs(g, v', ch, Put(data, q, ss))
  {
    RunsUp(k, |ch|, g.csize);
    forall k': nat, i': nat | k' < |ch| && i' < g.csize
      ensures Holds(g, v', ch, Put(data, q, ss), k', i')
    {
      HoldsAt(g, v, ch, data, k', i');
      assert ChangeAt(v, v', s, ss, First(g, ch[k']) + i');
      RunHolds(g, v, v', ch, data, k, i, ss, s, q, k', i', First(g, ch[k']) + i', Runs(k', g.csize) + i');
    }
  }

  lemma OtherCluster(g: Geometry, ch: seq<nat>, k: nat, i: nat, n: nat, k': nat, i': nat, s: nat, q: nat, t: nat,
                     p: nat)
    requires Clusters(ch) && Distinct(ch) && k < |ch| && k' < |ch| && k != k' && i + n <= g.csize && i' < g.csize
    requires s == First(g, ch[k]) + i && q == Runs(k, g.csize) + i
    requires t == First(g, ch[k']) + i' && p == Runs(k', g.csize) + i'
    ensures !(s <= t < s + n) && !(q <= p < q + n)
  {
    if s <= t < s + n {
      ClustersApart(g, ch[k], ch[k'], t);
    }
    if k < k' { RunsUp(k, k', g.csize); } else { RunsUp(k', k, g.csize); }
  }

  // Writing sectors directly; the buffer is clean and whatever it is now.
  lemma WriteRun(g: Geometry, v: View, ch: seq<nat>, data: seq<Sector>, k: nat, i: nat, ss: seq<Sector>, buf: Sector,
                 s: nat, q: nat)
    requires DataIs(g, v, ch, data) && Distinct(ch) && !v.dirty && k < |ch| && i + |ss| <= g.csize
    requires s == First(g, ch[k]) + i && q == Runs(k, g.csize) + i
    ensures q + |ss| <= |data| && DataIs(g, View(Written(v.disk, s, ss), buf, v.dsect, false), ch, Put(data, q, ss))
  {
    var v' := View(Written(v.disk, s, ss), buf, v.dsect, false);
    forall t: nat
      ensures ChangeAt(v, v', s, ss, t)
    {
      WrittenAt(v.disk, s, ss, t);
    }
    RunChanged(g, v, v', ch, data, k, i, ss, s, q);
  }

  // Giving the buffer to a sector of the file with new contents, to be written later
  lemma BufferPut(g: Geometry, v: View, ch: seq<nat>, data: seq<Sector>, k: nat, i: nat, buf: Sector, s: nat, q: nat)
    requires DataIs(g, v, ch, data) && Distinct(ch) && k < |ch| && i < g.csize
    requires s == First(g, ch[k]) + i && q == Runs(k, g.csize) + i && (!v.dirty || v.dsect == s)
    ensures q < |data| && DataIs(g, View(v.disk, buf, s, true), ch, Put(data, q, [buf]))
  {
    var v' := View(v.disk, buf, s, true);
    forall t: nat
      ensures ChangeAt(v, v', s, [buf], t)
    {
    }
    RunChanged(g, v, v', ch, data, k, i, [buf], s, q);
  }

  // A cluster is added: its sectors follow the data.
  lemma Grown(g: Geometry, v: View, ch: seq<nat>, data: seq<Sector>, c: nat)
    requires DataIs(g, v, ch, data) && c >= 2
    ensures DataIs(g, v, ch + [c], data + Patched(v, First(g, c), g.csize))
  {
    var ch', data' := ch + [c], data + Patched(v, First(g, c), g.csize);
    forall k: nat, i: nat | k < |ch'| && i < g.csize
      ensures Holds(g, v, ch', data', k, i)
    {
      if k < |ch| { HoldsAt(g, v, ch, data, k, i); } else { PatchedAt(v, First(g, c), g.csize, i); }
    }
  }

  // What a chain holds on the disk
  function DiskData(g: Geometry, disk: map<nat, Sector>, ch: seq<nat>): seq<Sector>
    requires Clusters(ch)
  {
    if ch == [] then [] else DiskData(g, disk, ch[..|ch| - 1]) + SectorsAt(disk, First(g, ch[|ch| - 1]), g.csize)
  }

  lemma {:induction false} OnDisk(g: Geometry, v: View, ch: seq<nat>)
    requires Clusters(ch) && !v.dirty
    ensures DataIs(g, v, ch, DiskData(g, v.disk, ch))
  {
    if ch != [] {
      var rest, c := ch[..|ch| - 1], ch[|ch| - 1];
      OnDisk(g, v, rest);
      Grown(g, v, rest, DiskData(g, v.disk, rest), c);
      assert ch == rest + [c];
    }
  }

  lemma Shrunk(g: Geometry, v: View, ch: seq<nat>, data: seq<Sector>, n: nat)
    requires DataIs(g, v, ch, data) && n <= |ch|
    ensures Runs(n, g.csize) <= |data| && DataIs(g, v, ch[..n], data[..Runs(n, g.csize)])
  {
    if n < |ch| { RunsUp(n, |ch|, g.csize); }
    var ch', data' := ch[..n], data[..Runs(n, g.csize)];
    forall k: nat, i: nat | k < |ch'| && i < g.csize
      ensures Holds(g, v, ch', data', k, i)
    {
      Within(g.csize, n, k, i);
      HoldsAt(g, v, ch, data, k, i);
    }
  }

  /* ---- sectors and bytes ---- */

  function Flat(ss: seq<Sector>): (r: seq<Byte>)
    ensures |r| == 512 * |ss|
  {
    if ss == [] then [] else Flat(ss[..|ss| - 1]) + ss[|ss| - 1]
  }

  function Chop(bytes: seq<Byte>, n: nat): (ss: seq<Sector>)
    requires 512 * n <= |bytes|
    ensures |ss| == n
  {
    seq(n, j requires 0 <= j < n => Slice(bytes, j))
  }

  lemma {:induction false} FlatChop(bytes: seq<Byte>, n: nat)
    requires 512 * n <= |bytes|
    ensures Flat(Chop(bytes, n)) == bytes[..512 * n]
  {
    if n > 0 {
      FlatChop(bytes, n - 1);
      assert Chop(bytes, n)[..n - 1] == Chop(bytes, n - 1);
      assert Chop(bytes, n)[n - 1] == Slice(bytes, n - 1);
    }
  }

  lemma {:induction false} FlatJoin(a: seq<Sector>, b: seq<Sector>)
    ensures Flat(a + b) == Flat(a) + Flat(b)
    decreases |b|
  {
    if b == [] {
      assert a + b == a;
    } else {
      FlatJoin(a, b[..|b| - 1]);
      assert (a + b)[..|a + b| - 1] == a + b[..|b| - 1];
      assert Flat(a) + (Flat(b[..|b| - 1]) + b[|b| - 1]) == Flat(a) + Flat(b[..|b| - 1]) + b[|b| - 1];
    }
  }

  lemma Split3<T>(a: seq<T>, b: seq<T>, c: seq<T>)
    ensures (a + b + c)[..|a|] == a && (a + b + c)[|a|..|a| + |b|] == b && (a + b + c)[|a| + |b|..] == c
  {
  }

  lemma ThreeParts<T>(s: seq<T>, q: nat, n: nat)
    requires q + n <= |s|
    ensures s == s[..q] + s[q..q + n] + s[q + n..]
  {
  }

  // The bytes are those of q sectors, of n more, and of the rest.
  lemma FlatPart(data: seq<Sector>, q: nat, n: nat)
    requires q + n <= |data|
    ensures Flat(data) == Flat(data[..q]) + Flat(data[q..q + n]) + Flat(data[q + n..])
    ensures Flat(data)[..512 * q] == Flat(data[..q])
    ensures Flat(data)[512 * q..512 * (q + n)] == Flat(data[q..q + n])
    ensures Flat(data)[512 * (q + n)..] == Flat(data[q + n..])
  {
    var a, b, c := data[..q], data[q..q + n], data[q + n..];
    ThreeParts(data, q, n);
    FlatJoin(a, b);
    FlatJoin(a + b, c);
    Split3(Flat(a), Flat(b), Flat(c));
  }

  lemma FlatOne(s: Sector)
    ensures Flat([s]) == s
  {
    assert [s][..0] == [];
  }

  lemma FlatSector(data: seq<Sector>, q: nat, p: nat)
    requires q < |data| && p == 512 * q
    ensures p + 512 <= |Flat(data)| && Flat(data)[p..p + 512] == data[q]
  {
    FlatPart(data, q, 1);
    assert data[q..q + 1] == [data[q]];
    FlatOne(data[q]);
  }

  // Part of a sector is part of the bytes.
  lemma FlatBytes(data: seq<Sector>, q: nat, p: nat, r: nat, n: nat)
    requires q < |data| && r + n <= 512 && p == 512 * q
    ensures p + 512 <= |Flat(data)| && Flat(data)[p + r..p + r + n] == data[q][r..r + n]
  {
    FlatSector(data, q, p);
    PartOf(Flat(data), p, data[q], r, n);
  }

  lemma PartOf<T>(bytes: seq<T>, p: nat, s: seq<T>, r: nat, n: nat)
    requires p + |s| <= |bytes| && bytes[p..p + |s|] == s && r + n <= |s|
    ensures bytes[p + r..p + r + n] == s[r..r + n]
  {
    var a, b := bytes[p + r..p + r + n], s[r..r + n];
    forall x | 0 <= x < n
      ensures a[x] == b[x]
    {
      assert b[x] == bytes[p..p + |s|][r + x];
    }
  }

  lemma FlatPut(data: seq<Sector>, q: nat, ss: seq<Sector>, p: nat, e: nat)
    requires q + |ss| <= |data| && p == 512 * q && e == p + 512 * |ss|
    ensures p <= e <= |Flat(data)| && Flat(Put(data, q, ss)) == Flat(data)[..p] + Flat(ss) + Flat(data)[e..]
  {
    FlatEnds(data, q, |ss|, p, e);
    FlatThree(data[..q], ss, data[q + |ss|..]);
  }

  lemma FlatEnds(data: seq<Sector>, q: nat, n: nat, p: nat, e: nat)
    requires q + n <= |data| && p == 512 * q && e == p + 512 * n
    ensures p <= e <= |Flat(data)| && Flat(data[..q]) == Flat(data)[..p] && Flat(data[q + n..]) == Flat(data)[e..]
  {
    FlatPart(data, q, n);
    assert 512 * (q + n) == e;
  }

  lemma FlatThree(a: seq<Sector>, b: seq<Sector>, c: seq<Sector>)
    ensures Flat(a + b + c) == Flat(a) + Flat(b) + Flat(c)
  {
    FlatJoin(a, b);
    FlatJoin(a + b, c);
  }

  // A byte that was not among the n written at pos is as before.
  ghost predicate ByteKept(bytes: seq<Byte>, bytes': seq<Byte>, pos: nat, n: nat, x: nat) {
    x < |bytes| && x < |bytes'| && !(pos <= x < pos + n) ==> bytes'[x] == bytes[x]
  }

  // Bytes w were written at pos; of the others, those below lim are as before.
  ghost predicate Wrote(bytes: seq<Byte>, bytes': seq<Byte>, pos: nat, w: seq<Byte>, lim: nat) {
    forall k: nat {:trigger WroteIs(k, bytes, bytes', pos, w, lim)} | k == 0 :: WroteIs(k, bytes, bytes', pos, w, lim)
  }

  ghost predicate WroteIs(k: nat, bytes: seq<Byte>, bytes': seq<Byte>, pos: nat, w: seq<Byte>, lim: nat) {
    && lim <= |bytes| <= |bytes'| && pos + |w| <= |bytes'| && bytes'[pos..pos + |w|] == w
    && forall x: nat {:trigger ByteKept(bytes, bytes', pos, |w|, x)} | x < lim :: ByteKept(bytes, bytes', pos, |w|, x)
  }

  lemma WroteSplice(bytes: seq<Byte>, bytes': seq<Byte>, pos: nat, w: seq<Byte>)
    requires pos + |w| <= |bytes| && bytes' == bytes[..pos] + w + bytes[pos + |w|..]
    ensures Wrote(bytes, bytes', pos, w, |bytes|)
  {
  }

  lemma WroteLess(bytes: seq<Byte>, bytes': seq<Byte>, pos: nat, w: seq<Byte>, lim: nat, lim': nat)
    requires Wrote(bytes, bytes', pos, w, lim) && lim' <= lim
    ensures Wrote(bytes, bytes', pos, w, lim')
  {
    assert WroteIs(0, bytes, bytes', pos, w, lim);
    forall x: nat | x < lim' ensures ByteKept(bytes, bytes', pos, |w|, x) {
      assert x < lim;
    }
  }

  // Writing on where writing stopped
  lemma WroteOn(b0: seq<Byte>, b1: seq<Byte>, b2: seq<Byte>, pos: nat, w1: seq<Byte>, w2: seq<Byte>, lim: nat,
                lim': nat)
    requires Wrote(b0, b1, pos, w1, lim) && Wrote(b1, b2, pos + |w1|, w2, lim') && lim <= lim' && pos + |w1| <= lim'
    ensures Wrote(b0, b2, pos, w1 + w2, lim)
  {
    var n := |w1|;
    assert WroteIs(0, b0, b1, pos, w1, lim) && WroteIs(0, b1, b2, pos + |w1|, w2, lim');
    forall x: nat | x < lim
      ensures ByteKept(b0, b2, pos, |w1 + w2|, x)
    {
      assert ByteKept(b0, b1, pos, n, x) && ByteKept(b1, b2, pos + n, |w2|, x);
    }
    forall x | 0 <= x < |w1 + w2|
      ensures b2[pos..pos + |w1 + w2|][x] == (w1 + w2)[x]
    {
      if x < n {
        assert ByteKept(b1, b2, pos + n, |w2|, pos + x);
        assert b1[pos..pos + n][x] == w1[x];
      } else {
        assert b2[pos + n..pos + n + |w2|][x - n] == w2[x - n];
      }
    }
    assert b2[pos..pos + |w1 + w2|] == w1 + w2;
  }

  lemma FlatPrefix(a: seq<Sector>, b: seq<Sector>)
    requires a <= b
    ensures Flat(a) <= Flat(b)
  {
    FlatJoin(a, b[|a|..]);
    assert b == a + b[|a|..];
  }

  lemma WroteNothing(b0: seq<Byte>, b1: seq<Byte>, pos: nat, lim: nat)
    requires b0 <= b1 && lim <= |b0| && pos <= |b1|
    ensures Wrote(b0, b1, pos, [], lim)
  {
  }

  // Growing the file before writing
  lemma WroteGrown(b0: seq<Byte>, b1: seq<Byte>, b2: seq<Byte>, pos: nat, w: seq<Byte>, lim: nat)
    requires b0 <= b1 && lim <= |b0| && Wrote(b1, b2, pos, w, lim)
    ensures Wrote(b0, b2, pos, w, lim)
  {
    assert WroteIs(0, b1, b2, pos, w, lim);
    forall x: nat | x < lim
      ensures ByteKept(b0, b2, pos, |w|, x)
    {
      assert ByteKept(b1, b2, pos, |w|, x);
    }
  }

  // Writing whole sectors
  lemma WroteRun(data: seq<Sector>, q: nat, wbuff: seq<Byte>, cc: nat, pos: nat)
    requires 512 * cc <= |wbuff| && q + cc <= |data| && pos == 512 * q
    ensures Wrote(Flat(data), Flat(Put(data, q, Chop(wbuff, cc))), pos, wbuff[..512 * cc], 512 * |data|)
  {
    var w := wbuff[..512 * cc];
    FlatPut(data, q, Chop(wbuff, cc), pos, pos + |w|);
    FlatChop(wbuff, cc);
    WroteSplice(Flat(data), Flat(Put(data, q, Chop(wbuff, cc))), pos, w);
  }

  // Writing into the buffer of sector q at its byte r; what the buffer was before does not matter at
  // the growing edge.
  lemma WroteInto(data: seq<Sector>, q: nat, buf: Sector, r: nat, w: seq<Byte>, pos: nat, lim: nat)
    requires q < |data| && pos == 512 * q + r && r + |w| <= 512 && lim <= 512 * |data|
    requires buf == data[q] || (r == 0 && lim <= pos)
    ensures Wrote(Flat(data), Flat(Put(data, q, [Patch(buf, r, w)])), pos, w, lim)
  {
    var b, p := Patch(buf, r, w), 512 * q;
    FlatPutOne(data, q, b, p);
    FlatSector(data, q, p);
    IntoBytes(Flat(data), Flat(Put(data, q, [b])), p, data[q], buf, r, w, pos, lim);
  }

  lemma FlatPutOne(data: seq<Sector>, q: nat, b: Sector, p: nat)
    requires q < |data| && p == 512 * q
    ensures p + 512 <= |Flat(data)| && Flat(Put(data, q, [b])) == Flat(data)[..p] + b + Flat(data)[p + 512..]
  {
    FlatPut(data, q, [b], p, p + 512);
    FlatOne(b);
  }

  lemma IntoBytes(f: seq<Byte>, f': seq<Byte>, p: nat, s: Sector, buf: Sector, r: nat, w: seq<Byte>, pos: nat, lim: nat)
    requires p + 512 <= |f| && f[p..p + 512] == s && r + |w| <= 512 && f' == f[..p] + Patch(buf, r, w) + f[p + 512..]
    requires pos == p + r && lim <= |f| && (buf == s || (r == 0 && lim <= pos))
    ensures Wrote(f, f', pos, w, lim)
  {
    var b := Patch(buf, r, w);
    Around(f, f', p, s, b);
    PatchedPart(f', p, buf, r, w);
    forall x: nat | x < lim
      ensures ByteKept(f, f', pos, |w|, x)
    {
      if p <= x < p + 512 { assert f'[x] == b[x - p] && f[x] == s[x - p]; }
    }
  }

  function Patch(buf: Sector, r: nat, w: seq<Byte>): Sector
    requires r + |w| <= 512
  {
    buf[..r] + w + buf[r + |w|..]
  }

  lemma Around(f: seq<Byte>, f': seq<Byte>, p: nat, s: Sector, s': Sector)
    requires p + 512 <= |f| && f[p..p + 512] == s && f' == f[..p] + s' + f[p + 512..]
    ensures |f'| == |f| && f'[p..p + 512] == s'
    ensures forall x {:trigger f'[x]} | 0 <= x < |f| :: f'[x] == if p <= x < p + 512 then s'[x - p] else f[x]
    ensures forall x {:trigger f[x]} | p <= x < p + 512 :: f[x] == s[x - p]
  {
    forall x | p <= x < p + 512
      ensures f[x] == s[x - p]
    {
      assert f[p..p + 512][x - p] == f[x];
    }
    assert f'[p..p + 512] == s';
  }

  lemma PatchedPart(f: seq<Byte>, p: nat, buf: Sector, r: nat, w: seq<Byte>)
    requires p + 512 <= |f| && r + |w| <= 512 && f[p..p + 512] == Patch(buf, r, w)
    ensures f[p + r..p + r + |w|] == w
  {
    PartOf(f, p, Patch(buf, r, w), r, |w|);
    assert Patch(buf, r, w)[r..r + |w|] == w;
  }

  // c with w put in at pos, which may make it longer
  function Overwritten(c: seq<Byte>, pos: nat, w: seq<Byte>): (r: seq<Byte>)
    requires pos <= |c|
    ensures |r| == if pos + |w| < |c| then |c| else pos + |w|
  {
    c[..pos] + w + if pos + |w| < |c| then c[pos + |w|..] else []
  }

  lemma WroteContent(bytes: seq<Byte>, bytes': seq<Byte>, pos: nat, w: seq<Byte>, size: nat)
    requires Wrote(bytes, bytes', pos, w, size) && pos <= size
    ensures var size' := if pos + |w| < size then size else pos + |w|;
            size <= |bytes| && size' <= |bytes'| && bytes'[..size'] == Overwritten(bytes[..size], pos, w)
  {
    assert WroteIs(0, bytes, bytes', pos, w, size);
    var size' := if pos + |w| < size then size else pos + |w|;
    var r := Overwritten(bytes[..size], pos, w);
    forall x | 0 <= x < size'
      ensures bytes'[x] == r[x]
    {
      assert ByteKept(bytes, bytes', pos, |w|, x);
      if pos <= x < pos + |w| { assert bytes'[pos..pos + |w|][x - pos] == w[x - pos]; }
    }
  }
}
