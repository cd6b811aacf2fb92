// A file allocation table as links between clusters: the chains it holds, and its free clusters.
// link[c] is the entry of cluster c; clusters are numbered from 2 to below |link|.
module ClusterChains {
  predicate IsCluster(link: seq<nat>, c: nat) {
    2 <= c < |link|
  }

  // A chain follows the links from its first cluster to one whose entry ends it.
  predicate IsChain(link: seq<nat>, ch: seq<nat>) {
    && |ch| >= 1
    && (forall i | 0 <= i < |ch| :: IsCluster(link, ch[i]))
    && (forall i | 0 <= i < |ch| - 1 :: link[ch[i]] == ch[i + 1])
    && link[ch[|ch| - 1]] >= |link|
  }

  predicate Disjoint(a: seq<nat>, b: seq<nat>) {
    forall i, j | 0 <= i < |a| && 0 <= j < |b| :: a[i] != b[j]
  }

  // Chain s is the one that begins at cluster s.
  predicate HasChain(link: seq<nat>, chains: map<nat, seq<nat>>, s: nat)
    requires s in chains
  {
    IsChain(link, chains[s]) && chains[s][0] == s
  }

  predicate Apart(chains: map<nat, seq<nat>>, s: nat, t: nat)
    requires s in chains && t in chains
  {
    s == t || Disjoint(chains[s], chains[t])
  }

  ghost predicate Owned(chains: map<nat, seq<nat>>, c: nat) {
    exists s | s in chains :: c in chains[s]
  }

  // The table is a set of disjoint chains without cycles: every cluster in use is on one of them.
  ghost predicate Forest(link: seq<nat>, chains: map<nat, seq<nat>>) {
    && (forall s {:trigger HasChain(link, chains, s)} | s in chains :: HasChain(link, chains, s))
    && (forall s, t {:trigger Apart(chains, s, t)} | s in chains && t in chains :: Apart(chains, s, t))
    && (forall c: nat {:trigger Owned(chains, c)} | IsCluster(link, c) && link[c] != 0 :: Owned(chains, c))
  }

  // Free clusters among those below n
  function FreeBelow(link: seq<nat>, n: nat): (k: nat)
    requires n <= |link|
    ensures n > 2 ==> k <= n - 2
    ensures n <= 2 ==> k == 0
  {
    if n <= 2 then 0 else FreeBelow(link, n - 1) + if link[n - 1] == 0 then 1 else 0
  }

  function Free(link: seq<nat>): nat {
    FreeBelow(link, |link|)
  }

  lemma Next(link: seq<nat>, ch: seq<nat>, i: nat)
    requires IsChain(link, ch) && i + 1 < |ch|
    ensures IsCluster(link, ch[i]) && link[ch[i]] == ch[i + 1] && IsCluster(link, ch[i + 1])
  {
  }

  // No cluster is twice on a chain: what follows a cluster is always as long.
  lemma {:induction false} NoCycle(link: seq<nat>, ch: seq<nat>, i: nat, j: nat)
    requires IsChain(link, ch) && i < j < |ch|
    ensures ch[i] != ch[j]
    decreases |ch| - j
  {
    if ch[i] == ch[j] {
      Next(link, ch, i);
      if j < |ch| - 1 {
        Next(link, ch, j);
        NoCycle(link, ch, i + 1, j + 1);
      }
    }
  }

  // The clusters of a chain are not free.
  lemma InUse(link: seq<nat>, ch: seq<nat>, i: nat)
    requires IsChain(link, ch) && i < |ch|
    ensures link[ch[i]] >= 2
  {
    if i < |ch| - 1 { assert IsCluster(link, ch[i + 1]); } else { assert IsCluster(link, ch[0]); }
  }

  // A chain goes by its first cluster: two chains from one cluster are the same.
  lemma {:induction false} SameChain(link: seq<nat>, a: seq<nat>, b: seq<nat>)
    requires IsChain(link, a) && IsChain(link, b) && a[0] == b[0]
    ensures a == b
  {
    if |a| > 1 { Next(link, a, 0); }
    if |b| > 1 { Next(link, b, 0); }
    if |a| > 1 && |b| > 1 {
      Tail(link, a);
      Tail(link, b);
      SameChain(link, a[1..], b[1..]);
      assert a == [a[0]] + a[1..] && b == [b[0]] + b[1..];
    }
  }

  lemma Tail(link: seq<nat>, ch: seq<nat>)
    requires IsChain(link, ch) && |ch| > 1
    ensures IsChain(link, ch[1..]) && ch[1..][0] == link[ch[0]]
  {
    assert forall i | 0 <= i < |ch[1..]| - 1 :: link[ch[1..][i]] == ch[1..][i + 1] by {
      forall i | 0 <= i < |ch[1..]| - 1
        ensures link[ch[1..][i]] == ch[1..][i + 1]
      {
        assert link[ch[i + 1]] == ch[i + 2];
      }
    }
  }

  // Changing entries that are not on it leaves a chain alone.
  lemma Untouched(link: seq<nat>, link': seq<nat>, ch: seq<nat>)
    requires IsChain(link, ch) && |link'| == |link|
    requires forall i | 0 <= i < |ch| :: link'[ch[i]] == link[ch[i]]
    ensures IsChain(link', ch)
  {
  }

  /* ---- a free cluster is taken ---- */

  lemma StartChain(link: seq<nat>, chains: map<nat, seq<nat>>, n: nat, eoc: nat)
    requires Forest(link, chains) && IsCluster(link, n) && link[n] == 0 && eoc >= |link|
    ensures Forest(link[n := eoc], chains[n := [n]])
  {
    var link' := link[n := eoc];
    var chains' := chains[n := [n]];
    Unowned(link, chains, n);
    forall s | s in chains'
      ensures HasChain(link', chains', s)
    {
      if s != n { KeptChain(link, link', chains, s, {n}); }
    }
    forall s, t | s in chains' && t in chains'
      ensures Apart(chains', s, t)
    {
      if s in chains && t in chains { assert Apart(chains, s, t); }
    }
    forall c: nat | IsCluster(link', c) && link'[c] != 0
      ensures Owned(chains', c)
    {
      if c == n { assert c in chains'[n]; } else { StillOwned(link, chains, chains', c, n); }
    }
  }

  lemma GrowChain(link: seq<nat>, chains: map<nat, seq<nat>>, s: nat, n: nat, eoc: nat)
    requires Forest(link, chains) && IsCluster(link, n) && link[n] == 0 && eoc >= |link| && s in chains
    ensures HasChain(link, chains, s)
    ensures var ch := chains[s]; Forest(link[n := eoc][ch[|ch| - 1] := n], chains[s := ch + [n]])
  {
    assert HasChain(link, chains, s);
    var ch := chains[s];
    var last := ch[|ch| - 1];
    var link' := link[n := eoc][last := n];
    var chains' := chains[s := ch + [n]];
    Unowned(link, chains, n);
    forall t | t in chains'
      ensures HasChain(link', chains', t)
    {
      if t != s {
        assert Apart(chains, s, t);
        KeptChain(link, link', chains, t, {n, last});
      } else {
        Longer(link, ch, n, eoc);
      }
    }
    forall a, b | a in chains' && b in chains'
      ensures Apart(chains', a, b)
    {
      assert Apart(chains, a, b);
    }
    forall c: nat | IsCluster(link', c) && link'[c] != 0
      ensures Owned(chains', c)
    {
      if c == n { assert c == chains'[s][|ch|]; } else if link[c] != 0 { StillOwned(link, chains, chains', c, s); }
    }
  }

  lemma Longer(link: seq<nat>, ch: seq<nat>, n: nat, eoc: nat)
    requires IsChain(link, ch) && IsCluster(link, n) && link[n] == 0 && eoc >= |link|
    ensures IsChain(link[n := eoc][ch[|ch| - 1] := n], ch + [n])
  {
    var link' := link[n := eoc][ch[|ch| - 1] := n];
    var ch' := ch + [n];
    forall i | 0 <= i < |ch|
      ensures link'[ch'[i]] == ch'[i + 1]
    {
      InUse(link, ch, i);
      if i < |ch| - 1 { NoCycle(link, ch, i, |ch| - 1); }
    }
    InUse(link, ch, |ch| - 1);
  }

  // A free cluster is on no chain.
  lemma Unowned(link: seq<nat>, chains: map<nat, seq<nat>>, n: nat)
    requires Forest(link, chains) && IsCluster(link, n) && link[n] == 0
    ensures n !in chains && forall s | s in chains :: n !in chains[s]
  {
    forall s | s in chains
      ensures n != s && n !in chains[s]
    {
      assert HasChain(link, chains, s);
      forall i | 0 <= i < |chains[s]|
        ensures chains[s][i] != n
      {
        InUse(link, chains[s], i);
      }
    }
  }

  lemma KeptChain(link: seq<nat>, link': seq<nat>, chains: map<nat, seq<nat>>, s: nat, changed: set<nat>)
    requires s in chains && HasChain(link, chains, s) && |link'| == |link|
    requires forall c | 0 <= c < |link| && c !in changed :: link'[c] == link[c]
    requires forall c | c in changed :: c !in chains[s]
    ensures HasChain(link', chains, s)
  {
    forall i | 0 <= i < |chains[s]|
      ensures link'[chains[s][i]] == link[chains[s][i]]
    {
      assert chains[s][i] in chains[s];
      assert IsCluster(link, chains[s][i]);
    }
    Untouched(link, link', chains[s]);
  }

  // Chains have only grown, but for chain s, which still has c if it had it.
  lemma StillOwned(link: seq<nat>, chains: map<nat, seq<nat>>, chains': map<nat, seq<nat>>, c: nat, s: nat)
    requires Forest(link, chains) && IsCluster(link, c) && link[c] != 0
    requires forall t | t in chains && t != s :: t in chains' && chains'[t] == chains[t]
    requires s in chains && c in chains[s] ==> s in chains' && c in chains'[s]
    ensures Owned(chains', c)
  {
    assert Owned(chains, c);
    var t :| t in chains && c in chains[t];
    assert t in chains' && c in chains'[t];
  }

  /* ---- clusters are freed ---- */

  // The table after the entries of these clusters were cleared
  function Freed(link: seq<nat>, ch: seq<nat>): (r: seq<nat>)
    ensures |r| == |link|
    ensures forall c | 0 <= c < |link| :: r[c] == if c in ch then 0 else link[c]
  {
    seq(|link|, c requires 0 <= c < |link| => if c in ch then 0 else link[c])
  }

  // The way from cluster start on: each of p leads to the next, none is met twice, and next is where it gets to.
  ghost predicate Walked(link: seq<nat>, start: nat, p: seq<nat>, next: nat) {
    && (forall i | 0 <= i < |p| :: IsCluster(link, p[i]) && link[p[i]] >= 2)
    && (forall i, j | 0 <= i < j < |p| :: p[i] != p[j])
    && (forall i | 0 <= i < |p| - 1 :: link[p[i]] == p[i + 1])
    && if p == [] then next == start else p[0] == start && next == link[p[|p| - 1]]
  }

  // It ends behind the last cluster, at one that is free or has been on the way, or at a bad one.
  ghost predicate WalkEnds(link: seq<nat>, p: seq<nat>, next: nat, ok: bool) {
    if next >= |link| || next in p || link[next] == 0 then ok else link[next] == 1 && !ok
  }

  // The clusters on the way are freed, whatever table it is.
  ghost predicate Removed(link: seq<nat>, start: nat, ok: bool, link': seq<nat>) {
    exists p: seq<nat>, next: nat ::
      Walked(link, start, p, next) && WalkEnds(link, p, next, ok) && link' == Freed(link, p)
  }

  lemma NoneFreed(link: seq<nat>)
    ensures Freed(link, []) == link
  {
  }

  lemma Further(link: seq<nat>, start: nat, p: seq<nat>, c: nat)
    requires Walked(link, start, p, c) && IsCluster(link, c)
    ensures Freed(link, p)[c] == if c in p then 0 else link[c]
    ensures c !in p && link[c] >= 2 ==>
              Walked(link, start, p + [c], link[c]) && Freed(link, p + [c]) == Freed(link, p)[c := 0]
  {
    OneMoreFreed(link, p, c);
    if c !in p && link[c] >= 2 { OneMoreStep(link, start, p, c); }
  }

  lemma OneMoreFreed(link: seq<nat>, p: seq<nat>, c: nat)
    requires c < |link|
    ensures Freed(link, p + [c]) == Freed(link, p)[c := 0]
  {
  }

  lemma OneMoreStep(link: seq<nat>, start: nat, p: seq<nat>, c: nat)
    requires Walked(link, start, p, c) && IsCluster(link, c) && c !in p && link[c] >= 2
    ensures Walked(link, start, p + [c], link[c])
  {
    var q := p + [c];
    forall i | 0 <= i < |q| - 1
      ensures link[q[i]] == q[i + 1]
    {
      assert q[i] == p[i];
      if i + 1 < |p| { assert q[i + 1] == p[i + 1]; }
    }
  }

  // Where there is a chain, that is all of it.
  lemma ChainWalked(link: seq<nat>, ch: seq<nat>, p: seq<nat>, next: nat, ok: bool)
    requires IsChain(link, ch) && Walked(link, ch[0], p, next) && WalkEnds(link, p, next, ok)
    ensures ok && p == ch
  {
    var n := |p|;
    AlongChain(link, ch, p, next, n);
    if n < |ch| {
      InUse(link, ch, n);
      forall k | 0 <= k < n
        ensures p[k] != ch[n]
      {
        NoCycle(link, ch, k, n);
        assert p[k] == p[..n][k] == ch[k];
      }
    }
  }

  lemma {:induction false} AlongChain(link: seq<nat>, ch: seq<nat>, p: seq<nat>, next: nat, n: nat)
    requires IsChain(link, ch) && Walked(link, ch[0], p, next) && n <= |p|
    ensures n <= |ch| && p[..n] == ch[..n]
    ensures if n < |ch| then (if n < |p| then p[n] else next) == ch[n] else n == |p| && next >= |link|
  {
    if n > 0 {
      AlongChain(link, ch, p, next, n - 1);
      assert link[p[n - 1]] == link[ch[n - 1]];
      assert n - 1 < |ch| - 1 ==> link[ch[n - 1]] == ch[n - 1 + 1];
      assert n < |p| ==> link[p[n - 1]] == p[n - 1 + 1] && IsCluster(link, p[n]);
      assert p[..n] == p[..n - 1] + [p[n - 1]] && ch[..n] == ch[..n - 1] + [ch[n - 1]];
    }
  }

  lemma FreeChain(link: seq<nat>, chains: map<nat, seq<nat>>, s: nat)
    requires Forest(link, chains) && s in chains
    ensures Forest(Freed(link, chains[s]), chains - {s})
  {
    var link' := Freed(link, chains[s]);
    var chains' := chains - {s};
    forall t | t in chains'
      ensures HasChain(link', chains', t)
    {
      OtherChain(link, chains, s, t);
      assert HasChain(link, chains, t);
      Untouched(link, link', chains[t]);
    }
    forall a, b | a in chains' && b in chains'
      ensures Apart(chains', a, b)
    {
      assert Apart(chains, a, b);
    }
    forall c: nat | IsCluster(link', c) && link'[c] != 0
      ensures Owned(chains', c)
    {
      StillOwned(link, chains, chains', c, s);
    }
  }

  lemma OtherChain(link: seq<nat>, chains: map<nat, seq<nat>>, s: nat, t: nat)
    requires Forest(link, chains) && s in chains && t in chains && s != t
    ensures forall i | 0 <= i < |chains[t]| :: chains[t][i] !in chains[s]
  {
    assert Apart(chains, s, t);
  }

  // The rest of a chain after its first k clusters
  lemma CutChain(link: seq<nat>, chains: map<nat, seq<nat>>, s: nat, k: nat, eoc: nat)
    requires Forest(link, chains) && s in chains && 1 <= k < |chains[s]| && eoc >= |link|
    ensures HasChain(link, chains, s)
    ensures var ch := chains[s];
            && IsChain(link[ch[k - 1] := eoc], ch[k..])
            && Forest(Freed(link[ch[k - 1] := eoc], ch[k..]), chains[s := ch[..k]])
  {
    assert HasChain(link, chains, s);
    var ch := chains[s];
    var cut := link[ch[k - 1] := eoc];
    var link' := Freed(cut, ch[k..]);
    var chains' := chains[s := ch[..k]];
    Pieces(link, ch, k, eoc);
    forall t | t in chains'
      ensures HasChain(link', chains', t)
    {
      if t != s {
        OtherChain(link, chains, s, t);
        assert HasChain(link, chains, t);
        Untouched(link, link', chains[t]);
      }
    }
    forall a, b | a in chains' && b in chains'
      ensures Apart(chains', a, b)
    {
      assert Apart(chains, a, b);
    }
    forall c: nat | IsCluster(link', c) && link'[c] != 0
      ensures Owned(chains', c)
    {
      if c in ch {
        assert ch == ch[..k] + ch[k..];
        assert c in chains'[s];
      } else {
        StillOwned(link, chains, chains', c, s);
      }
    }
  }

  // Cut after k clusters, both pieces are chains; freeing the second leaves the first.
  lemma Pieces(link: seq<nat>, ch: seq<nat>, k: nat, eoc: nat)
    requires IsChain(link, ch) && 1 <= k < |ch| && eoc >= |link|
    ensures IsChain(link[ch[k - 1] := eoc], ch[k..])
    ensures IsChain(Freed(link[ch[k - 1] := eoc], ch[k..]), ch[..k])
  {
    var cut := link[ch[k - 1] := eoc];
    forall i, j | 0 <= i < j < |ch|
      ensures ch[i] != ch[j]
    {
      NoCycle(link, ch, i, j);
    }
    var rest := ch[k..];
    forall i | 0 <= i < |rest| - 1
      ensures cut[rest[i]] == rest[i + 1]
    {
      assert link[ch[k + i]] == ch[k + i + 1];
    }
    assert forall i | 0 <= i < k :: ch[i] !in rest;
  }

  /* ---- counting ---- */

  lemma {:induction false} FreeAfter(link: seq<nat>, n: nat, c: nat, v: nat)
    requires n <= |link| && IsCluster(link, c)
    ensures FreeBelow(link[c := v], n) ==
              FreeBelow(link, n) + (if c < n && link[c] != 0 && v == 0 then 1 else 0)
                                  - (if c < n && link[c] == 0 && v != 0 then 1 else 0)
    decreases n
  {
    if n > 2 { FreeAfter(link, n - 1, c, v); }
  }

  lemma {:induction false} NoneFree(link: seq<nat>, n: nat)
    requires n <= |link|
    ensures FreeBelow(link, n) == 0 <==> forall c | 2 <= c < n :: link[c] != 0
  {
    if n > 2 { NoneFree(link, n - 1); }
  }

  lemma FreedStep(link: seq<nat>, ch: seq<nat>)
    requires |ch| >= 1 && ch[0] < |link|
    ensures Freed(link, ch) == Freed(link[ch[0] := 0], ch[1..])
  {
    assert forall c :: c in ch <==> c == ch[0] || c in ch[1..];
  }

  // Freeing a chain adds its length to the free clusters.
  lemma {:induction false} FreedCount(link: seq<nat>, ch: seq<nat>)
    requires IsChain(link, ch)
    ensures Free(Freed(link, ch)) == Free(link) + |ch|
    decreases |ch|
  {
    InUse(link, ch, 0);
    FreeAfter(link, |link|, ch[0], 0);
    var link' := link[ch[0] := 0];
    if |ch| == 1 {
      assert Freed(link, ch) == link';
    } else {
      forall i | 0 <= i < |ch[1..]|
        ensures link'[ch[1..][i]] == link[ch[1..][i]]
      {
        NoCycle(link, ch, 0, i + 1);
      }
      Tail(link, ch);
      Untouched(link, link', ch[1..]);
      FreedCount(link', ch[1..]);
      FreedStep(link, ch);
    }
  }

  /* ---- what create_chain does, and that it keeps the chains ---- */

  // Going up from scl, and on from 2 after the last cluster, c comes before n.
  predicate Before(scl: nat, n: nat, c: nat) {
    if scl < n then scl < c < n else c > scl || c < n
  }

  function SearchFrom(link: seq<nat>, hint: nat, clst: nat): nat {
    if clst != 0 then clst else if hint == 0 || hint >= |link| then 1 else hint
  }

  function Taken(link: seq<nat>, clst: nat, n: nat, eoc: nat): (r: seq<nat>)
    requires n < |link| && clst < |link|
    ensures |r| == |link|
  {
    if clst == 0 then link[n := eoc] else link[n := eoc][clst := n]
  }

  // Cluster n is the first after scl that is free or has the mark of a bad one.
  ghost predicate FirstStop(link: seq<nat>, scl: nat, n: nat) {
    && IsCluster(link, n) && link[n] < 2
    && forall c: nat | IsCluster(link, c) && Before(scl, n, c) :: link[c] >= 2
  }

  // r is the answer to a request to stretch a chain at clst, or to begin one if that is 0, and link'
  // the table afterwards: the cluster that follows already, the first free one that the search
  // meets, 0 if there is none, 1 if it meets a bad one before, or if there is no chain at clst.
  ghost predicate Created(link: seq<nat>, hint: nat, clst: nat, r: nat, link': seq<nat>, eoc: nat) {
    if clst != 0 && (!IsCluster(link, clst) || link[clst] < 2) then r == 1 && link' == link
    else if clst != 0 && link[clst] < |link| then r == link[clst] && link' == link
    else
      var scl := SearchFrom(link, hint, clst);
      || (r == 0 && link' == link && forall c: nat | IsCluster(link, c) :: link[c] >= 2)
      || (r == 1 && link' == link && exists n: nat :: FirstStop(link, scl, n) && link[n] == 1)
      || (FirstStop(link, scl, r) && link[r] == 0 && link' == Taken(link, clst, r, eoc))
  }

  // There is no entry 1 where the table is a set of chains.
  lemma NotDamaged(link: seq<nat>, chains: map<nat, seq<nat>>, c: nat)
    requires Forest(link, chains) && IsCluster(link, c)
    ensures link[c] == 0 || link[c] >= 2
  {
    if link[c] != 0 {
      assert Owned(chains, c);
      var s :| s in chains && c in chains[s];
      assert HasChain(link, chains, s);
      var i :| 0 <= i < |chains[s]| && chains[s][i] == c;
      InUse(link, chains[s], i);
    }
  }

  // Asked for a new chain, create_chain says that the volume is full exactly if no cluster is free;
  // otherwise there is one more chain, of one cluster.
  lemma CreatedChain(link: seq<nat>, chains: map<nat, seq<nat>>, hint: nat, r: nat, link': seq<nat>, eoc: nat)
    requires Forest(link, chains) && Created(link, hint, 0, r, link', eoc) && eoc >= |link| >= 2
    ensures r == 0 <==> Free(link) == 0
    ensures r == 0 ==> link' == link
    ensures r != 0 ==> IsCluster(link, r) && link[r] == 0 && link' == Taken(link, 0, r, eoc)
    ensures r != 0 ==> r !in chains && Forest(link', chains[r := [r]]) && Free(link') == Free(link) - 1
  {
    NoneFree(link, |link|);
    if r == 1 {
      var c: nat :| IsCluster(link, c) && link[c] == 1;
      NotDamaged(link, chains, c);
    } else if r != 0 {
      StartChain(link, chains, r, eoc);
      Unowned(link, chains, r);
      FreeAfter(link, |link|, r, eoc);
    }
  }

  // Asked to go on from cluster number i of chain s, it returns the next one if there is one, and
  // else makes the chain one longer, or says that no cluster is free.
  lemma CreatedNext(link: seq<nat>, chains: map<nat, seq<nat>>, hint: nat, s: nat, i: nat, r: nat, link': seq<nat>,
                    eoc: nat)
    requires Forest(link, chains) && s in chains && i < |chains[s]| && eoc >= |link|
    requires Created(link, hint, chains[s][i], r, link', eoc)
    ensures HasChain(link, chains, s)
    ensures var ch := chains[s];
            if i + 1 < |ch| then r == ch[i + 1] && link' == link
            else if Free(link) == 0 then r == 0 && link' == link
            else && IsCluster(link, r) && link[r] == 0 && link' == Taken(link, ch[i], r, eoc)
                 && Forest(link', chains[s := ch + [r]]) && Free(link') == Free(link) - 1
  {
    assert HasChain(link, chains, s);
    var ch := chains[s];
    InUse(link, ch, i);
    NoneFree(link, |link|);
    if i + 1 < |ch| {
      Next(link, ch, i);
    } else if r == 1 {
      var c: nat :| IsCluster(link, c) && link[c] == 1;
      NotDamaged(link, chains, c);
    } else if r != 0 {
      GrowChain(link, chains, s, r, eoc);
      FreeAfter(link, |link|, r, eoc);
      FreeAfter(link[r := eoc], |link|, ch[i], r);
    }
  }

  /* ---- the raw count of f_getfree ---- */

  // Zero entries among the first n, those of clusters 0 and 1 included
  function Zeros(link: seq<nat>, n: nat): (k: nat)
    requires n <= |link|
    ensures k <= n
  {
    if n == 0 then 0 else Zeros(link, n - 1) + if link[n - 1] == 0 then 1 else 0
  }

  lemma {:induction false} ZerosAndFree(link: seq<nat>, n: nat)
    requires 2 <= n <= |link|
    ensures Zeros(link, n) == FreeBelow(link, n) + (if link[0] == 0 then 1 else 0) + (if link[1] == 0 then 1 else 0)
  {
    if n > 2 { ZerosAndFree(link, n - 1); } else { assert Zeros(link, 1) == if link[0] == 0 then 1 else 0; }
  }

  // The raw count is right exactly where the two reserved entries are not zero.
  lemma RawCountRight(link: seq<nat>)
    requires |link| >= 2
    ensures Zeros(link, |link|) == Free(link) <==> link[0] != 0 && link[1] != 0
  {
    ZerosAndFree(link, |link|);
  }
}
