// A small cache of disk sectors with stamps for replacement.
module SectorCache {
  import opened Words

  const CACHE_SIZE: nat := 8

  type Data = seq<bv8>

  datatype Entry = Entry(data: Data, valid: bool, sector: nat, stamp: nat, drive: nat)

  // What a cache entry is for
  datatype Key = Key(drive: nat, sector: nat)

  function KeyOf(e: Entry): Key {
    Key(e.drive, e.sector)
  }

  // Entry e is given up when [sector, top) of drive drv is.
  predicate Covered(e: Entry, drv: nat, sector: nat, top: nat) {
    e.valid && e.drive == drv && sector <= e.sector < top
  }

  // sector + count in the 32 bits of the code
  function TopOf(sector: nat, count: nat): nat {
    (sector + count) % W32
  }

  function Invalidated(e: Entry, drv: nat, sector: nat, count: nat): Entry {
    if Covered(e, drv, sector, TopOf(sector, count)) then e.(valid := false) else e
  }

  // Invalidation reaches every sector it is meant for exactly if the sum does not wrap around. (The
  // last sector of the 32-bit space is never invalidated.)
  lemma InvalidatesAll(drv: nat, sector: nat, count: nat)
    requires sector < W32 && count < 256
    ensures (forall e: Entry | e.sector < W32 && e.drive == drv && sector <= e.sector < sector + count ::
               !Invalidated(e, drv, sector, count).valid)
            <==> (count == 0 || sector + count < W32)
  {
    if count > 0 && sector + count >= W32 {
      var last := Entry([], true, W32 - 1, 0, drv);
      assert Invalidated(last, drv, sector, count).valid;
    }
  }

  // Position of the last use of a key in the history of uses, counted from 1; 0 if there is none
  ghost function LastUse(history: seq<Key>, k: Key): (t: nat)
    ensures t <= |history|
  {
    if history == [] then 0
    else if history[|history| - 1] == k then |history|
    else LastUse(history[..|history| - 1], k)
  }

  lemma UseNow(history: seq<Key>, k: Key, other: Key)
    ensures LastUse(history + [k], other) == if other == k then |history| + 1 else LastUse(history, other)
  {
    assert (history + [k])[..|history|] == history;
  }

  // At most one valid entry for each sector
  ghost predicate Unique(s: seq<Entry>) {
    forall i, j | 0 <= i < j < |s| && s[i].valid && s[j].valid :: KeyOf(s[i]) != KeyOf(s[j])
  }

  // Stamps tell, up to the wrap-around of the counter, when an entry was used last.
  ghost predicate Stamped(s: seq<Entry>, history: seq<Key>) {
    forall i | 0 <= i < |s| && s[i].valid ::
      0 < LastUse(history, KeyOf(s[i])) && s[i].stamp == LastUse(history, KeyOf(s[i])) % W32
  }

  ghost predicate CacheOk(s: seq<Entry>, accessCounter: nat, history: seq<Key>) {
    |s| == CACHE_SIZE && accessCounter == |history| % W32 && Unique(s) && Stamped(s, history)
  }

  ghost predicate Caches(s: seq<Entry>, k: Key) {
    exists i :: 0 <= i < |s| && s[i].valid && KeyOf(s[i]) == k
  }

  // Entry i is used: it gets the newest stamp.
  lemma Touched(s: seq<Entry>, s': seq<Entry>, history: seq<Key>, i: nat, k: Key)
    requires i < |s| && Unique(s') && Stamped(s, history)
    requires |s'| == |s| && s' == s[i := s'[i]] && s'[i].valid && KeyOf(s'[i]) == k
    requires s'[i].stamp == (|history| + 1) % W32
    ensures Stamped(s', history + [k])
  {
    forall j | 0 <= j < |s'| && s'[j].valid
      ensures 0 < LastUse(history + [k], KeyOf(s'[j])) && s'[j].stamp == LastUse(history + [k], KeyOf(s'[j])) % W32
    {
      UseNow(history, k, KeyOf(s'[j]));
    }
  }

  class Cache {
    const slots: array<Entry>
    var accessCounter: nat
    ghost var history: seq<Key>

    ghost predicate Valid()
      reads this, slots
    {
      CacheOk(slots[..], accessCounter, history)
    }

    constructor ()
      ensures Valid() && fresh(slots) && history == [] && forall i | 0 <= i < CACHE_SIZE :: !slots[i].valid
    {
      slots := new Entry[CACHE_SIZE](i => Entry([], false, 0, 0, 0));
      accessCounter := 0;
      history := [];
    }

    method Stamp(ghost k: Key) returns (s: nat)
      requires accessCounter == |history| % W32
      modifies this`accessCounter, this`history
      ensures history == old(history) + [k] && accessCounter == |history| % W32 && s == accessCounter
    {
      accessCounter := (accessCounter + 1) % W32;
      history := history + [k];
      s := accessCounter;
    }

    // _libelmcache_read_from_cache: a hit is a use.
    method Read(drv: nat, sector: nat) returns (hit: bool, buff: Data)
      requires Valid()
      modifies this`accessCounter, this`history, slots
      ensures Valid()
      ensures hit <==> Caches(old(slots[..]), Key(drv, sector))
      ensures hit ==> exists i ::
                && 0 <= i < CACHE_SIZE && old(slots[i]).valid && KeyOf(old(slots[i])) == Key(drv, sector)
                && buff == old(slots[i]).data
                && slots[..] == old(slots[..])[i := old(slots[i]).(stamp := accessCounter)]
      ensures hit ==> history == old(history) + [Key(drv, sector)] && Caches(slots[..], Key(drv, sector))
      ensures !hit ==> history == old(history) && slots[..] == old(slots[..])
    {
      hit, buff := false, [];
      for i := 0 to CACHE_SIZE
        invariant forall j | 0 <= j < i :: !slots[j].valid || KeyOf(slots[j]) != Key(drv, sector)
      {
        if slots[i].valid && slots[i].drive == drv && slots[i].sector == sector {
          var s := Stamp(Key(drv, sector));
          slots[i] := slots[i].(stamp := s);
          assert slots[..] == old(slots[..])[i := old(slots[i]).(stamp := s)];
          Touched(old(slots[..]), slots[..], old(history), i, Key(drv, sector));
          return true, slots[i].data;
        }
      }
    }

    // _libelmcache_add_to_cache: a free entry is used if there is one, and otherwise, as long as the
    // stamps have not wrapped around, the least recently used. Only if all entries have the largest
    // stamp is nothing done.
    method Add(drv: nat, sector: nat, buff: Data)
      requires Valid() && !Caches(slots[..], Key(drv, sector))
      modifies this`accessCounter, this`history, slots
      ensures Valid()
      ensures (exists v ::
                 && Victim(old(slots[..]), old(history), v)
                 && slots[..] == old(slots[..])[v := Entry(buff, true, sector, accessCounter, drv)]
                 && history == old(history) + [Key(drv, sector)])
              || (slots[..] == old(slots[..]) && history == old(history) && AllNewest(slots[..]))
      ensures Caches(slots[..], Key(drv, sector)) || AllNewest(slots[..])
    {
      var v := Oldest();
      if v < 0 { return; }
      var s := Stamp(Key(drv, sector));
      slots[v] := Entry(buff, true, sector, s, drv);
      assert slots[..] == old(slots[..])[v := Entry(buff, true, sector, s, drv)];
      assert slots[..][v].valid && KeyOf(slots[..][v]) == Key(drv, sector);
      Touched(old(slots[..]), slots[..], old(history), v, Key(drv, sector));
    }

    // The search for an entry to use: the first free one, or the one with the least stamp
    method Oldest() returns (v: int)
      requires Valid()
      ensures v >= 0 ==> Victim(slots[..], history, v)
      ensures v < 0 ==> AllNewest(slots[..])
    {
      var oldest := -1;
      var oldestStamp := W32 - 1;
      for i := 0 to CACHE_SIZE
        invariant -1 <= oldest < i
        invariant forall j | 0 <= j < i :: slots[j].valid && oldestStamp <= slots[j].stamp
        invariant forall j | 0 <= j < oldest :: oldestStamp < slots[j].stamp
        invariant oldestStamp == if oldest == -1 then W32 - 1 else slots[oldest].stamp
      {
        if !slots[i].valid {
          return i;
        } else if slots[i].stamp < oldestStamp {
          oldest, oldestStamp := i, slots[i].stamp;
        }
      }
      v := oldest;
      if v >= 0 { LeastStamp(slots[..], history, v); }
    }

    // _libelmcache_invalidate_cache
    method Invalidate(drv: nat, sector: nat, count: nat)
      requires Valid()
      modifies slots
      ensures Valid()
      ensures forall i | 0 <= i < CACHE_SIZE :: slots[i] == Invalidated(old(slots[i]), drv, sector, count)
    {
      var top := (sector + count) % W32;
      for i := 0 to CACHE_SIZE
        invariant forall j | 0 <= j < i :: slots[j] == Invalidated(old(slots[j]), drv, sector, count)
        invariant forall j | i <= j < CACHE_SIZE :: slots[j] == old(slots[j])
      {
        if slots[i].valid && slots[i].drive == drv && slots[i].sector >= sector && slots[i].sector < top {
          slots[i] := slots[i].(valid := false);
        }
      }
    }
  }

  ghost predicate AllNewest(s: seq<Entry>) {
    forall j | 0 <= j < |s| :: s[j].valid && s[j].stamp == W32 - 1
  }

  // Entry v is the first that is free, or there is none and v is the first with the least stamp: the least recently
  // used, if stamps still tell.
  ghost predicate Victim(s: seq<Entry>, history: seq<Key>, v: int) {
    0 <= v < |s| && (forall j | 0 <= j < v :: s[j].valid) && (s[v].valid ==>
      && (forall j | 0 <= j < |s| :: s[j].valid && s[v].stamp <= s[j].stamp)
      && (forall j | 0 <= j < v :: s[v].stamp < s[j].stamp)
      && (|history| < W32 ==> forall j | 0 <= j < |s| && j != v ::
                                LastUse(history, KeyOf(s[v])) < LastUse(history, KeyOf(s[j]))))
  }

  lemma {:induction false} UseTells(history: seq<Key>, k: Key)
    ensures LastUse(history, k) > 0 ==> history[LastUse(history, k) - 1] == k
  {
    if history != [] && history[|history| - 1] != k { UseTells(history[..|history| - 1], k); }
  }

  lemma LeastStamp(s: seq<Entry>, history: seq<Key>, v: nat)
    requires Unique(s) && Stamped(s, history) && v < |s|
    requires forall j | 0 <= j < |s| :: s[j].valid && s[v].stamp <= s[j].stamp < W32
    requires forall j | 0 <= j < v :: s[v].stamp < s[j].stamp
    ensures Victim(s, history, v)
  {
    if |history| < W32 {
      forall j | 0 <= j < |s| && j != v
        ensures LastUse(history, KeyOf(s[v])) < LastUse(history, KeyOf(s[j]))
      {
        UseTells(history, KeyOf(s[v]));
        UseTells(history, KeyOf(s[j]));
        assert KeyOf(s[v]) != KeyOf(s[j]);
      }
    }
  }
}
