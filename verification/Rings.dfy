// Link fields of free chunks, and the circular doubly-linked lists threaded through them.
module Rings {
  // One map per link field, keyed by chunk address (or list-header address).
  datatype Links = Links(fd: map<int, int>, bk: map<int, int>, child0: map<int, int>, child1: map<int, int>,
                         parent: map<int, int>, index: map<int, int>)

  // A word of memory; words never written hold no information and read as 0 here.
  function Rd(m: map<int, int>, a: int): int {
    if a in m then m[a] else 0
  }

  ghost predicate NoDup(s: seq<int>) {
    forall i, j | 0 <= i < j < |s| :: s[i] != s[j]
  }

  ghost function Elems(s: seq<int>): set<int> {
    set a | a in s
  }

  function After(s: seq<int>, k: nat): int
    requires k < |s|
  {
    if k + 1 < |s| then s[k + 1] else s[0]
  }

  function Before(s: seq<int>, k: nat): int
    requires k < |s|
  {
    if k > 0 then s[k - 1] else s[|s| - 1]
  }

  // s is a circular list: fd goes forward, bk goes back.
  ghost predicate RingOk(fd: map<int, int>, bk: map<int, int>, s: seq<int>) {
    forall k | 0 <= k < |s| :: Rd(fd, s[k]) == After(s, k) && Rd(bk, s[k]) == Before(s, k)
  }

  // Insertion behind the first element, as both bin kinds do it.
  function RingInserted(s: seq<int>, x: int): seq<int>
    requires s != []
  {
    [s[0], x] + s[1..]
  }

  lemma RingInsertedElems(s: seq<int>, x: int)
    requires s != [] && NoDup(s) && x !in s
    ensures NoDup(RingInserted(s, x))
    ensures Elems(RingInserted(s, x)) == Elems(s) + {x}
  {
    var r := RingInserted(s, x);
    assert forall k | 2 <= k < |r| :: r[k] == s[k - 1];
    forall a | a in s
      ensures a in r
    {
      var k :| 0 <= k < |s| && s[k] == a;
      assert r[if k == 0 then 0 else k + 1] == a;
    }
  }

  lemma RingInsert(fd: map<int, int>, bk: map<int, int>, s: seq<int>, x: int, fd': map<int, int>, bk': map<int, int>)
    requires s != [] && NoDup(s) && x !in s
    requires RingOk(fd, bk, s)
    requires fd' == fd[s[0] := x][x := Rd(fd, s[0])] && bk' == bk[Rd(fd, s[0]) := x][x := s[0]]
    ensures RingOk(fd', bk', RingInserted(s, x))
    ensures forall a | a !in s && a != x :: Rd(fd', a) == Rd(fd, a) && Rd(bk', a) == Rd(bk, a)
  {
    var r := RingInserted(s, x);
    assert Rd(fd, s[0]) == After(s, 0);
    forall k | 0 <= k < |r|
      ensures Rd(fd', r[k]) == After(r, k) && Rd(bk', r[k]) == Before(r, k)
    {
      if k != 1 {
        var i := if k == 0 then 0 else k - 1;
        assert r[k] == s[i];
        assert Rd(fd, s[i]) == After(s, i) && Rd(bk, s[i]) == Before(s, i);
      }
    }
  }

  // Removal of the element at k; removing the head makes its predecessor the new head.
  function RingRemoved(s: seq<int>, k: nat): seq<int>
    requires k < |s|
  {
    if k == 0 && |s| > 1 then [s[|s| - 1]] + s[1..|s| - 1] else s[..k] + s[k + 1..]
  }

  lemma RingRemovedElems(s: seq<int>, k: nat)
    requires k < |s| && NoDup(s)
    ensures NoDup(RingRemoved(s, k))
    ensures Elems(RingRemoved(s, k)) == Elems(s) - {s[k]}
    ensures |RingRemoved(s, k)| == |s| - 1
  {
    var r := RingRemoved(s, k);
    forall a | a in s && a != s[k]
      ensures a in r
    {
      var j :| 0 <= j < |s| && s[j] == a;
      if k == 0 {
        assert r[if j == |s| - 1 then 0 else j] == a;
      } else {
        assert r[if j < k then j else j - 1] == a;
      }
    }
  }

  // The links of the element at i after the element at k has been bypassed
  lemma Bypass(fd: map<int, int>, bk: map<int, int>, s: seq<int>, k: nat, i: nat)
    requires k < |s| && i < |s| && i != k && NoDup(s) && RingOk(fd, bk, s)
    ensures var f, b := After(s, k), Before(s, k);
            Rd(fd[b := f], s[i]) == (if After(s, i) == s[k] then f else After(s, i)) &&
            Rd(bk[f := b], s[i]) == (if Before(s, i) == s[k] then b else Before(s, i))
  {
    assert Rd(fd, s[i]) == After(s, i) && Rd(bk, s[i]) == Before(s, i);
  }

  lemma RingRemove(fd: map<int, int>, bk: map<int, int>, s: seq<int>, k: nat, fd': map<int, int>, bk': map<int, int>)
    requires k < |s| && 2 <= |s| && NoDup(s) && RingOk(fd, bk, s)
    requires fd' == fd[Rd(bk, s[k]) := Rd(fd, s[k])] && bk' == bk[Rd(fd, s[k]) := Rd(bk, s[k])]
    ensures RingOk(fd', bk', RingRemoved(s, k))
    ensures forall a | a !in s :: Rd(fd', a) == Rd(fd, a) && Rd(bk', a) == Rd(bk, a)
  {
    assert Rd(fd, s[k]) == After(s, k) && Rd(bk, s[k]) == Before(s, k);
    var r := RingRemoved(s, k);
    forall j | 0 <= j < |r|
      ensures Rd(fd', r[j]) == After(r, j) && Rd(bk', r[j]) == Before(r, j)
    {
      if k == 0 { RemoveHeadAt(fd, bk, s, j); } else { RemoveInnerAt(fd, bk, s, k, j); }
    }
  }

  lemma RemoveHeadAt(fd: map<int, int>, bk: map<int, int>, s: seq<int>, j: nat)
    requires 2 <= |s| && NoDup(s) && RingOk(fd, bk, s) && j < |s| - 1
    ensures var r, f, b := RingRemoved(s, 0), After(s, 0), Before(s, 0);
            Rd(fd[b := f], r[j]) == After(r, j) && Rd(bk[f := b], r[j]) == Before(r, j)
  {
    Bypass(fd, bk, s, 0, if j == 0 then |s| - 1 else j);
  }

  lemma NeighboursAfterRemoval(s: seq<int>, k: nat, j: nat)
    requires 0 < k < |s| && NoDup(s) && j < |s| - 1
    ensures var r, i := RingRemoved(s, k), if j < k then j else j + 1;
            r[j] == s[i] &&
            After(r, j) == (if After(s, i) == s[k] then After(s, k) else After(s, i)) &&
            Before(r, j) == (if Before(s, i) == s[k] then Before(s, k) else Before(s, i))
  {
    var r, i := RingRemoved(s, k), if j < k then j else j + 1;
    assert forall m | 0 <= m < k :: r[m] == s[m];
    assert forall m | k <= m < |r| :: r[m] == s[m + 1];
    assert s[i] != s[k];
    if i + 1 < |s| && i + 1 != k { assert s[i + 1] != s[k]; }
    if i > 0 && i - 1 != k { assert s[i - 1] != s[k]; }
    assert s[0] != s[k];
    if k < |s| - 1 { assert s[|s| - 1] != s[k]; }
  }

  lemma RemoveInnerAt(fd: map<int, int>, bk: map<int, int>, s: seq<int>, k: nat, j: nat)
    requires 0 < k < |s| && NoDup(s) && RingOk(fd, bk, s) && j < |s| - 1
    ensures var r, f, b := RingRemoved(s, k), After(s, k), Before(s, k);
            Rd(fd[b := f], r[j]) == After(r, j) && Rd(bk[f := b], r[j]) == Before(r, j)
  {
    NeighboursAfterRemoval(s, k, j);
    Bypass(fd, bk, s, k, if j < k then j else j + 1);
  }

  // The code tells "last one in the ring but the header" by equal neighbours.
  lemma NeighboursEqual(s: seq<int>, k: nat)
    requires k < |s| && NoDup(s)
    ensures After(s, k) == Before(s, k) <==> |s| <= 2
  {
  }

  lemma RingFrame(fd: map<int, int>, bk: map<int, int>, s: seq<int>, fd': map<int, int>, bk': map<int, int>)
    requires RingOk(fd, bk, s)
    requires forall a | a in s :: Rd(fd', a) == Rd(fd, a) && Rd(bk', a) == Rd(bk, a)
    ensures RingOk(fd', bk', s)
  {
    forall k | 0 <= k < |s|
      ensures Rd(fd', s[k]) == After(s, k) && Rd(bk', s[k]) == Before(s, k)
    {
      assert s[k] in s;
    }
  }
}
