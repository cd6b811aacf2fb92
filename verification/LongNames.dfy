// Long file names in directory entries: thirteen characters an entry, the last part of the name first.
module LongNames {
  import opened FatEntries

  type WChar = c: nat | c < 0x1_0000

  const MAX_LFN := 255

  /* ---- a directory entry ---- */

  type Entry32 = d: seq<Byte> | |d| == 32
    witness [0, 0, 0, 0, 0, 0, 0, 0, 0, 0, 0, 0, 0, 0, 0, 0, 0, 0, 0, 0, 0, 0, 0, 0, 0, 0, 0, 0, 0, 0, 0, 0]

  // Where character s of an entry is
  function Ofs(s: nat): nat {
    if s < 5 then 1 + 2 * s else if s < 11 then 14 + 2 * (s - 5) else 28 + 2 * (s - 11)
  }

  // The same as a table
  const LFN_OFS: seq<nat> := [1, 3, 5, 7, 9, 14, 16, 18, 20, 22, 24, 28, 30]

  lemma Offsets(s: nat)
    requires s < 13
    ensures LFN_OFS[s] == Ofs(s)
  {
  }

  function CharAt(d: Entry32, s: nat): WChar
    requires s < 13
  {
    Word(d[Ofs(s)], d[Ofs(s) + 1])
  }

  // The bits of the order byte: & 0x40, & 0xBF and & 0x3F
  predicate IsLast(ord: Byte) {
    ord / 64 % 2 == 1
  }

  function Unmarked(ord: Byte): nat {
    if IsLast(ord) then ord - 64 else ord
  }

  function Low6(ord: Byte): nat {
    ord % 64
  }

  /* ---- the parts of a name ---- */

  // A name has neither terminators nor fillers in it.
  predicate IsName(n: seq<WChar>) {
    forall i | 0 <= i < |n| :: n[i] != 0 && n[i] != 0xFFFF
  }

  // Character s of part k: of the name, its terminator, or filler
  function PartChar(n: seq<WChar>, k: nat, s: nat): WChar {
    var i := 13 * k + s;
    if i < |n| then n[i] else if i == |n| then 0 else 0xFFFF
  }

  function PartCount(n: seq<WChar>): nat {
    (|n| + 12) / 13
  }

  // Entry d holds part k of the name, tied to a short name by sum.
  predicate IsPart(d: Entry32, n: seq<WChar>, k: nat, sum: Byte) {
    && k < PartCount(n) <= 20
    && d[0] == k + 1 + (if k + 1 == PartCount(n) then 64 else 0)
    && d[11] == 0x0F && d[13] == sum
    && forall s | 0 <= s < 13 :: CharAt(d, s) == PartChar(n, k, s)
  }

  // The buffer begins with the name and its terminator; what follows may be anything.
  ghost predicate Holds(buf: seq<WChar>, n: seq<WChar>) {
    |n| < |buf| && buf[..|n|] == n && buf[|n|] == 0
  }

  lemma Counting(n: seq<WChar>, k: nat)
    requires k < PartCount(n)
    ensures 13 * k < |n| && (k + 1 == PartCount(n) <==> |n| <= 13 * (k + 1))
    ensures |n| <= 255 ==> PartCount(n) <= 20
  {
  }

  // The bytes of an entry that are not characters, but for the order: attribute, type, sum, cluster
  function Fixed(d: Entry32): seq<Byte> {
    [d[11], d[12], d[13], d[26], d[27]]
  }

  // ST_WORD of character s
  method PutChar(dir: array<Byte>, s: nat, wc: WChar)
    requires dir.Length == 32 && s < 13
    modifies dir
    ensures CharAt(dir[..], s) == wc
    ensures forall t | 0 <= t < 13 && t != s :: CharAt(dir[..], t) == old(CharAt(dir[..], t))
    ensures Fixed(dir[..]) == old(Fixed(dir[..]))
  {
    Offsets(s);
    dir[LFN_OFS[s]], dir[LFN_OFS[s] + 1] := wc % 256, wc / 256;
  }

  // LD_WORD of character s
  method LoadChar(dir: Entry32, s: nat) returns (c: WChar)
    requires s < 13
    ensures c == CharAt(dir, s)
  {
    Offsets(s);
    c := Word(dir[LFN_OFS[s]], dir[LFN_OFS[s] + 1]);
  }

  // fit_lfn
  method FitLfn(lfnbuf: array<WChar>, dir: array<Byte>, ord: Byte, sum: Byte, ghost n: seq<WChar>)
    requires dir.Length == 32 && lfnbuf.Length == MAX_LFN + 1 && Holds(lfnbuf[..], n) && IsName(n)
    requires 1 <= ord <= PartCount(n)
    modifies dir
    ensures IsPart(dir[..], n, ord - 1, sum) && Fixed(dir[..]) == [0x0F, 0, sum, 0, 0]
  {
    Counting(n, ord - 1);
    dir[13] := sum;
    dir[11] := 0x0F;
    dir[12] := 0;
    dir[26], dir[27] := 0, 0;
    var i: nat := (ord - 1) * 13;
    ghost var k := ord - 1;
    var s, wc := 0, 0;
    while true
      invariant 0 <= s < 13
      invariant if 13 * k + s <= |n| then i == 13 * k + s && wc != 0xFFFF else wc == 0xFFFF
      invariant Fixed(dir[..]) == [0x0F, 0, sum, 0, 0]
      invariant forall t | 0 <= t < s :: CharAt(dir[..], t) == PartChar(n, k, t)
      decreases 13 - s
    {
      if wc != 0xFFFF {
        wc := lfnbuf[i];
        i := i + 1;
      }
      PutChar(dir, s, wc);
      if wc == 0 { wc := 0xFFFF; }
      s := s + 1;
      if s >= 13 { break; }
    }
    dir[0] := if wc == 0xFFFF || lfnbuf[i] == 0 then ord + 0x40 else ord;
  }

  // What reading part k back needs room for: the buffer takes MAX_LFN characters, and the terminator
  // of a part that is not full is followed by another.
  predicate RoomFor(n: seq<WChar>, k: nat) {
    if |n| < 13 * (k + 1) then |n| + 1 < MAX_LFN
    else if |n| == 13 * (k + 1) then |n| < MAX_LFN else 13 * (k + 1) <= MAX_LFN
  }

  /* ---- any entry ---- */

  // The first terminator from character s on, 13 if there is none
  function TermFrom(d: Entry32, s: nat): (t: nat)
    requires s <= 13
    ensures s <= t <= 13 && (forall x | s <= x < t :: CharAt(d, x) != 0) && (t < 13 ==> CharAt(d, t) == 0)
    decreases 13 - s
  {
    if s == 13 || CharAt(d, s) == 0 then s else TermFrom(d, s + 1)
  }

  // How many characters an entry has, its terminator included
  function Used(d: Entry32): (u: nat)
    ensures 1 <= u <= 13
  {
    if TermFrom(d, 0) < 13 then TermFrom(d, 0) + 1 else 13
  }

  // No character of the entry is a terminator.
  predicate IsFull(d: Entry32) {
    TermFrom(d, 0) == 13
  }

  // What follows a terminator is filler.
  predicate FilledUp(d: Entry32) {
    forall s | Used(d) <= s < 13 :: CharAt(d, s) == 0xFFFF
  }

  // The loops over an entry are before character s, and have taken n characters; more says that there has been no
  // terminator yet.
  ghost predicate Scan(d: Entry32, s: nat, n: nat, more: bool) {
    forall k: nat {:trigger ScanIs(k, d, s, n, more)} | k == 0 :: ScanIs(k, d, s, n, more)
  }

  predicate ScanIs(k: nat, d: Entry32, s: nat, n: nat, more: bool) {
    && s <= 13
    && if more then n == s && forall x | 0 <= x < s :: CharAt(d, x) != 0
       else n == Used(d) <= s && !IsFull(d) && forall x | Used(d) <= x < s :: CharAt(d, x) == 0xFFFF
  }

  lemma ScanNext(d: Entry32, s: nat, n: nat, more: bool)
    requires Scan(d, s, n, more) && s < 13
    ensures more ==> n == s < Used(d) && Scan(d, s + 1, n + 1, CharAt(d, s) != 0)
    ensures !more ==> n == Used(d) && if CharAt(d, s) == 0xFFFF then Scan(d, s + 1, n, false) else !FilledUp(d)
  {
    assert ScanIs(0, d, s, n, more);
    if more && CharAt(d, s) == 0 { assert TermFrom(d, 0) == s; }
  }

  lemma ScanEnd(d: Entry32, n: nat, more: bool)
    requires Scan(d, 13, n, more)
    ensures n == Used(d) && FilledUp(d) && (more <==> IsFull(d))
  {
    assert ScanIs(0, d, 13, n, more);
  }

  // Where the characters of an entry go in the buffer
  function PickPlace(d: Entry32): int {
    13 * (Low6(d[0]) - 1)
  }

  predicate TakenAt(buf: seq<WChar>, d: Entry32, place: nat, s: nat)
    requires s < 13 && place + s < |buf|
  {
    buf[place + s] == CharAt(d, s)
  }

  lemma StillTaken(buf: seq<WChar>, buf': seq<WChar>, d: Entry32, place: nat, n: nat)
    requires n <= 13 && (n > 0 ==> place + n <= |buf| == |buf'|)
    requires forall j | place <= j < place + n :: buf'[j] == buf[j]
    requires forall x | 0 <= x < n :: TakenAt(buf, d, place, x)
    ensures forall x | 0 <= x < n :: TakenAt(buf', d, place, x)
  {
    forall x | 0 <= x < n
      ensures TakenAt(buf', d, place, x)
    {
      assert TakenAt(buf, d, place, x);
    }
  }

  // An entry can be taken into the buffer, with the terminator behind it if it is the last of a name.
  predicate Fits(d: Entry32) {
    PickPlace(d) + Used(d) + (if IsLast(d[0]) then 1 else 0) <= MAX_LFN && FilledUp(d)
  }

  // It is in the buffer.
  predicate Picked(buf: seq<WChar>, d: Entry32)
    requires |buf| == MAX_LFN + 1 && Low6(d[0]) >= 1 && Fits(d)
  {
    && (forall s | 0 <= s < Used(d) :: TakenAt(buf, d, PickPlace(d), s))
    && (IsLast(d[0]) ==> buf[PickPlace(d) + Used(d)] == 0)
  }

  // One turn of the loop of pick_lfn, at character s
  method PickNext(lfnbuf: array<WChar>, dir: Entry32, s: nat, wc: WChar, i: nat, ghost start: nat)
    returns (ok: bool, wc': WChar, i': nat)
    requires lfnbuf.Length == MAX_LFN + 1 && s < 13 && start <= i <= start + s && Scan(dir, s, i - start, wc != 0)
    requires i <= MAX_LFN || i == start
    modifies lfnbuf
    ensures i <= i' <= i + 1 && i' <= start + Used(dir) && (i' <= MAX_LFN || i' == start)
    ensures if ok then Scan(dir, s + 1, i' - start, wc' != 0) && (i' == i || TakenAt(lfnbuf[..], dir, start, i - start))
            else start + Used(dir) > MAX_LFN || !FilledUp(dir)
    ensures forall j | 0 <= j < lfnbuf.Length && !(i <= j < i') :: lfnbuf[j] == old(lfnbuf[j])
  {
    wc', i' := wc, i;
    var uc := LoadChar(dir, s);
    ScanNext(dir, s, i - start, wc != 0);
    if wc != 0 {
      if i >= MAX_LFN { return false, wc, i; }
      lfnbuf[i] := uc;
      wc' := uc;
      i' := i + 1;
    } else {
      if uc != 0xFFFF { return false, wc, i; }
    }
    ok := true;
  }

  // The loop of pick_lfn: the characters up to the terminator
  method PickChars(lfnbuf: array<WChar>, dir: Entry32, start: nat) returns (ok: bool, i: nat)
    requires lfnbuf.Length == MAX_LFN + 1
    modifies lfnbuf
    ensures ok <==> start + Used(dir) <= MAX_LFN && FilledUp(dir)
    ensures ok ==> i == start + Used(dir) && forall s | 0 <= s < Used(dir) :: TakenAt(lfnbuf[..], dir, start, s)
    ensures forall j | 0 <= j < lfnbuf.Length && !(start <= j < start + Used(dir)) :: lfnbuf[j] == old(lfnbuf[j])
  {
    i := start;
    var s, wc: WChar := 0, 1;
    while true
      invariant 0 <= s < 13 && start <= i <= start + s && i <= start + Used(dir) && Scan(dir, s, i - start, wc != 0)
      invariant i <= MAX_LFN || i == start
      invariant forall x | 0 <= x < i - start :: TakenAt(lfnbuf[..], dir, start, x)
      invariant forall j | 0 <= j < lfnbuf.Length && !(start <= j < i) :: lfnbuf[j] == old(lfnbuf[j])
      decreases 13 - s
    {
      ghost var buf, n := lfnbuf[..], i - start;
      ok, wc, i := PickNext(lfnbuf, dir, s, wc, i, start);
      if !ok { return; }
      StillTaken(buf, lfnbuf[..], dir, start, n);
      s := s + 1;
      if s >= 13 { break; }
    }
    ScanEnd(dir, i - start, wc != 0);
  }

  // pick_lfn
  method PickLfn(lfnbuf: array<WChar>, dir: Entry32) returns (ok: bool)
    requires lfnbuf.Length == MAX_LFN + 1 && Low6(dir[0]) >= 1
    modifies lfnbuf
    ensures ok <==> Fits(dir)
    ensures ok ==> Picked(lfnbuf[..], dir)
    ensures forall j | 0 <= j < PickPlace(dir) && j < lfnbuf.Length :: lfnbuf[j] == old(lfnbuf[j])
    ensures forall j | PickPlace(dir) + 13 <= j < lfnbuf.Length && !IsLast(dir[0]) :: lfnbuf[j] == old(lfnbuf[j])
  {
    var i;
    ok, i := PickChars(lfnbuf, dir, (Low6(dir[0]) - 1) * 13);
    if !ok { return; }
    if IsLast(dir[0]) {
      if i >= MAX_LFN { return false; }
      ghost var buf := lfnbuf[..];
      lfnbuf[i] := 0;
      StillTaken(buf, lfnbuf[..], dir, PickPlace(dir), Used(dir));
    }
  }

  /* ---- comparing ---- */

  // Upper-casing takes no character but the terminator to it.
  ghost predicate Casing(up: WChar -> WChar) {
    forall c: WChar :: up(c) == 0 <==> c == 0
  }

  // Character s of part k agrees with the buffer.
  predicate SameChar(up: WChar -> WChar, buf: seq<WChar>, n: seq<WChar>, k: nat, s: nat)
    requires |buf| == MAX_LFN + 1
  {
    var i := 13 * k + s;
    i < MAX_LFN && up(PartChar(n, k, s)) == up(buf[i])
  }

  // Part k agrees, and the buffer ends where the name does.
  ghost predicate PartMatches(up: WChar -> WChar, buf: seq<WChar>, n: seq<WChar>, k: nat)
    requires |buf| == MAX_LFN + 1
  {
    && (forall s: nat {:trigger SameChar(up, buf, n, k, s)} | s < 13 && 13 * k + s <= |n| :: SameChar(up, buf, n, k, s))
    && (|n| == 13 * (k + 1) && |n| < |buf| ==> buf[|n|] == 0)
  }

  predicate AgreesAt(up: WChar -> WChar, buf: seq<WChar>, d: Entry32, place: nat, s: nat)
    requires s < 13 && place + s < |buf|
  {
    up(CharAt(d, s)) == up(buf[place + s])
  }

  // The characters of an entry agree with the buffer, and if it is the last of a name, both end there.
  predicate Matches(up: WChar -> WChar, buf: seq<WChar>, d: Entry32)
    requires |buf| == MAX_LFN + 1 && Unmarked(d[0]) >= 1
  {
    var place := 13 * (Unmarked(d[0]) - 1);
    && place + Used(d) <= MAX_LFN && FilledUp(d)
    && (forall s | 0 <= s < Used(d) :: AgreesAt(up, buf, d, place, s))
    && (IsLast(d[0]) && IsFull(d) ==> buf[place + 13] == 0)
  }

  // One turn of the loop of cmp_lfn, at character s
  method CmpNext(lfnbuf: array<WChar>, dir: Entry32, up: WChar -> WChar, s: nat, wc: WChar, i: nat, ghost start: nat)
    returns (go: bool, wc': WChar, i': nat)
    requires lfnbuf.Length == MAX_LFN + 1 && Casing(up) && s < 13 && start <= i <= start + s
    requires Scan(dir, s, i - start, wc != 0) && (i <= MAX_LFN || i == start)
    ensures i <= i' <= i + 1 && (i' <= MAX_LFN || i' == start)
    ensures if go then Scan(dir, s + 1, i' - start, wc' != 0)
                       && (i' == i || AgreesAt(up, lfnbuf[..], dir, start, i - start))
            else start + Used(dir) > MAX_LFN || !FilledUp(dir)
                 || (i - start < Used(dir) && i < MAX_LFN && !AgreesAt(up, lfnbuf[..], dir, start, i - start))
  {
    wc', i' := wc, i;
    var uc := LoadChar(dir, s);
    ScanNext(dir, s, i - start, wc != 0);
    if wc != 0 {
      wc' := up(uc);
      if i >= MAX_LFN || wc' != up(lfnbuf[i]) { return false, wc', i; }
      i' := i + 1;
    } else {
      if uc != 0xFFFF { return false, wc', i; }
    }
    go := true;
  }

  // What the loop has found out tells whether the entry agrees.
  lemma Agreed(up: WChar -> WChar, buf: seq<WChar>, d: Entry32, place: nat, n: nat, more: bool)
    requires |buf| == MAX_LFN + 1 && Unmarked(d[0]) >= 1 && place == 13 * (Unmarked(d[0]) - 1)
    requires Scan(d, 13, n, more) && n <= 13 && place + n <= MAX_LFN
    requires forall x | 0 <= x < n :: AgreesAt(up, buf, d, place, x)
    ensures Matches(up, buf, d) <==> !(IsLast(d[0]) && more && buf[place + n] != 0)
  {
    ScanEnd(d, n, more);
  }

  // An entry with a character that differs does not.
  lemma Differs(up: WChar -> WChar, buf: seq<WChar>, d: Entry32, n: nat)
    requires |buf| == MAX_LFN + 1 && Unmarked(d[0]) >= 1
    requires var place := 13 * (Unmarked(d[0]) - 1);
             place + Used(d) > MAX_LFN || !FilledUp(d)
             || (n < Used(d) && place + n < MAX_LFN && !AgreesAt(up, buf, d, place, n))
    ensures !Matches(up, buf, d)
  {
  }

  // cmp_lfn
  method CmpLfn(lfnbuf: array<WChar>, dir: Entry32, up: WChar -> WChar) returns (same: bool)
    requires lfnbuf.Length == MAX_LFN + 1 && Unmarked(dir[0]) >= 1 && Casing(up)
    ensures same <==> Matches(up, lfnbuf[..], dir)
  {
    var start: nat := (Unmarked(dir[0]) - 1) * 13;
    var i: nat := start;
    var s, wc: WChar := 0, 1;
    while true
      invariant 0 <= s < 13 && start <= i <= start + s && Scan(dir, s, i - start, wc != 0)
      invariant i <= MAX_LFN || i == start
      invariant forall x | 0 <= x < i - start :: AgreesAt(up, lfnbuf[..], dir, start, x)
      decreases 13 - s
    {
      ghost var n := i - start;
      same, wc, i := CmpNext(lfnbuf, dir, up, s, wc, i, start);
      if !same {
        Differs(up, lfnbuf[..], dir, n);
        return;
      }
      s := s + 1;
      if s >= 13 { break; }
    }
    ScanEnd(dir, i - start, wc != 0);
    Agreed(up, lfnbuf[..], dir, start, i - start, wc != 0);
    if IsLast(dir[0]) && wc != 0 && lfnbuf[i] != 0 { return false; }
  }

  predicate SameUpper(up: WChar -> WChar, a: seq<WChar>, b: seq<WChar>) {
    |a| == |b| && forall i | 0 <= i < |a| :: up(a[i]) == up(b[i])
  }

  // All parts agree exactly if the names are equal in upper case; a name that fills the buffer is not
  // found.
  lemma AllPartsMatch(up: WChar -> WChar, buf: seq<WChar>, m: seq<WChar>, n: seq<WChar>)
    requires |buf| == MAX_LFN + 1 && Holds(buf, m) && IsName(m) && IsName(n) && Casing(up) && 1 <= |n| <= MAX_LFN
    ensures (forall k: nat | k < PartCount(n) :: PartMatches(up, buf, n, k)) <==> SameUpper(up, m, n) && |n| < MAX_LFN
  {
    if forall k: nat | k < PartCount(n) :: PartMatches(up, buf, n, k) {
      forall i | 0 <= i < |n|
        ensures i < MAX_LFN && up(n[i]) == up(buf[i]) && buf[i] != 0
      {
        CharMatches(up, buf, n, i);
      }
      EndMatches(up, buf, n);
      assert |m| >= |n|;
      assert |m| <= |n|;
      forall i | 0 <= i < |n|
        ensures up(m[i]) == up(n[i])
      {
        assert buf[..|m|][i] == buf[i];
      }
    } else if SameUpper(up, m, n) && |n| < MAX_LFN {
      forall k: nat | k < PartCount(n)
        ensures PartMatches(up, buf, n, k)
      {
        OnePartMatches(up, buf, m, n, k);
      }
    }
  }

  lemma CharMatches(up: WChar -> WChar, buf: seq<WChar>, n: seq<WChar>, i: nat)
    requires |buf| == MAX_LFN + 1 && i < |n|
    requires forall k: nat | k < PartCount(n) :: PartMatches(up, buf, n, k)
    ensures i < MAX_LFN && up(n[i]) == up(buf[i])
  {
    var k, s := i / 13, i % 13;
    assert k < PartCount(n);
    assert PartMatches(up, buf, n, k);
    assert SameChar(up, buf, n, k, s);
  }

  lemma EndMatches(up: WChar -> WChar, buf: seq<WChar>, n: seq<WChar>)
    requires |buf| == MAX_LFN + 1 && 1 <= |n| <= MAX_LFN && Casing(up)
    requires forall k: nat | k < PartCount(n) :: PartMatches(up, buf, n, k)
    ensures |n| < MAX_LFN && buf[|n|] == 0
  {
    var k := PartCount(n) - 1;
    assert PartMatches(up, buf, n, k);
    if |n| < 13 * (k + 1) {
      assert SameChar(up, buf, n, k, |n| - 13 * k);
    }
  }

  lemma OnePartMatches(up: WChar -> WChar, buf: seq<WChar>, m: seq<WChar>, n: seq<WChar>, k: nat)
    requires |buf| == MAX_LFN + 1 && Holds(buf, m) && SameUpper(up, m, n) && |n| < MAX_LFN && k < PartCount(n)
    ensures PartMatches(up, buf, n, k)
  {
    forall s: nat | s < 13 && 13 * k + s <= |n|
      ensures SameChar(up, buf, n, k, s)
    {
      var i := 13 * k + s;
      if i < |n| { assert buf[..|m|][i] == buf[i]; }
    }
  }

  /* ---- a name in a directory ---- */

  // The entries of a name stand in the directory with the last part first.
  predicate IsRun(es: seq<Entry32>, n: seq<WChar>, sum: Byte) {
    |es| == PartCount(n) && forall j | 0 <= j < |es| :: IsPart(es[j], n, |es| - 1 - j, sum)
  }

  // The entries that dir_register writes before the short one, into places that held anything
  method WriteName(lfnbuf: array<WChar>, places: seq<Entry32>, sum: Byte, ghost n: seq<WChar>)
    returns (es: seq<Entry32>)
    requires lfnbuf.Length == MAX_LFN + 1 && Holds(lfnbuf[..], n) && IsName(n) && 1 <= |n|
    requires |places| == PartCount(n)
    ensures IsRun(es, n, sum)
  {
    var len := NameLength(lfnbuf, n);
    var ne := (len + 25) / 13 - 1;
    Counting(n, 0);
    var dir := new Byte[32];
    es := [];
    while ne > 0
      invariant 0 <= ne <= PartCount(n) <= 20 && |es| == PartCount(n) - ne
      invariant forall j | 0 <= j < |es| :: IsPart(es[j], n, PartCount(n) - 1 - j, sum)
      invariant fresh(dir)
    {
      forall x | 0 <= x < 32 { dir[x] := places[|es|][x]; }
      FitLfn(lfnbuf, dir, ne, sum, n);
      es := es + [dir[..]];
      ne := ne - 1;
    }
  }

  method NameLength(lfnbuf: array<WChar>, ghost n: seq<WChar>) returns (len: nat)
    requires lfnbuf.Length == MAX_LFN + 1 && Holds(lfnbuf[..], n) && IsName(n)
    ensures len == |n|
  {
    len := 0;
    CharsHeld(lfnbuf[..], n);
    while lfnbuf[len] != 0
      invariant len <= |n|
      decreases |n| - len
    {
      len := len + 1;
    }
  }

  lemma CharsHeld(buf: seq<WChar>, n: seq<WChar>)
    requires Holds(buf, n)
    ensures forall i | 0 <= i < |n| :: buf[i] == n[i]
  {
    forall i | 0 <= i < |n|
      ensures buf[i] == n[i]
    {
      assert buf[..|n|][i] == buf[i];
    }
  }

  /* ---- any directory ---- */

  // AM_LFN, and entries without valid data: deleted ones and volume labels
  predicate IsLong(d: Entry32) {
    d[11] % 64 == 0x0F
  }

  predicate IsVoid(d: Entry32) {
    d[0] == 0xE5 || (Has(d, 8) && !IsLong(d))
  }

  predicate Has(d: Entry32, attribute: nat)
    requires attribute > 0
  {
    d[11] / attribute % 2 == 1
  }

  // The attributes read-only (1), hidden (2), system (4) and volume (8) together, without directory (16) and archive
  // (32), mark a long entry; and volume is told by the lower six bits.
  lemma Attributes(d: Entry32)
    ensures IsLong(d) <==> Has(d, 1) && Has(d, 2) && Has(d, 4) && Has(d, 8) && !Has(d, 16) && !Has(d, 32)
    ensures Has(d, 8) <==> d[11] % 64 / 8 % 2 == 1
  {
    SixBits(d[11]);
  }

  lemma SixBits(x: Byte)
    ensures x % 64 == x % 2 + 2 * (x / 2 % 2) + 4 * (x / 4 % 2) + 8 * (x / 8 % 2)
                      + 16 * (x / 16 % 2) + 32 * (x / 32 % 2)
    ensures x % 64 / 8 % 2 == x / 8 % 2
  {
    ThreeBits(x);
    ThreeBits(x / 8);
    Parts64(x);
  }

  lemma ThreeBits(x: nat)
    ensures x % 8 == x % 2 + 2 * (x / 2 % 2) + 4 * (x / 4 % 2)
  {
    assert x / 4 == x / 2 / 2;
  }

  lemma Parts64(x: nat)
    ensures x % 64 == x % 8 + 8 * (x / 8 % 8) && x % 64 / 8 == x / 8 % 8
    ensures x / 8 / 2 == x / 16 && x / 8 / 4 == x / 32 && x / 8 % 8 % 2 == x / 8 % 2
  {
    var y := x / 8;
    var z, low := y / 8, x % 8 + 8 * (y % 8);
    assert x == 64 * z + low;
    Rest64(z, low);
    assert low / 8 == y % 8;
    LowBit(y);
  }

  lemma Rest64(z: nat, t: nat)
    requires t < 64
    ensures (64 * z + t) % 64 == t
  {
  }

  lemma LowBit(y: nat)
    ensures y % 8 % 2 == y % 2
  {
    assert y == 2 * (4 * (y / 8)) + y % 8;
  }

  // The sum of a short name by which long entries are tied to it: each time the sum so far is rotated
  function SumOf(b: seq<Byte>): Byte {
    if b == [] then 0
    else var sum := SumOf(b[..|b| - 1]); (sum / 2 + sum % 2 * 128 + b[|b| - 1]) % 256
  }

  // (sum >> 1) + (sum << 7) + b, as a byte
  lemma Rotated(sum: Byte, b: Byte)
    ensures (sum / 2 + sum * 128 + b) % 256 == (sum / 2 + sum % 2 * 128 + b) % 256
  {
    var q, r := sum / 2, sum / 2 + sum % 2 * 128 + b;
    assert sum == 2 * q + sum % 2;
    assert sum / 2 + sum * 128 + b == 256 * q + r;
    Shifted256(q, r);
  }

  lemma Shifted256(q: nat, r: nat)
    ensures (256 * q + r) % 256 == r % 256
  {
  }

  // sum_sfn
  method SumSfn(dir: Entry32) returns (sum: Byte)
    ensures sum == SumOf(dir[..11])
  {
    sum := 0;
    var n := 11;
    while n > 0
      invariant n <= 11 && sum == SumOf(dir[..11 - n])
    {
      assert dir[..11 - (n - 1)][..11 - n] == dir[..11 - n];
      Rotated(sum, dir[11 - n]);
      sum := (sum / 2 + sum * 128 + dir[11 - n]) % 256;
      n := n - 1;
    }
  }

  // What a long entry has to stand: the comparison with a name, or room in the buffer
  datatype Test = Same(up: WChar -> WChar, buf: seq<WChar>) | Room

  predicate Passes(t: Test, d: Entry32)
    requires Low6(d[0]) >= 1 && (t.Same? ==> |t.buf| == MAX_LFN + 1)
  {
    if t.Same? then Matches(t.up, t.buf, d) else Fits(d)
  }

  // The order bytes of long entries are such that there is a place in the buffer for them.
  predicate Ordered(es: seq<Entry32>) {
    forall j | 0 <= j < |es| && IsLong(es[j]) :: Low6(es[j][0]) >= 1
  }

  ghost predicate Fair(es: seq<Entry32>, t: Test) {
    Ordered(es) && (t.Same? ==> |t.buf| == MAX_LFN + 1)
  }

  // Entry j continues the name that entry j0 begins, the last part of it.
  predicate LinkAt(es: seq<Entry32>, j0: nat, j: nat, t: Test)
    requires Fair(es, t) && j0 <= j < |es|
  {
    && IsLong(es[j]) && !IsVoid(es[j]) && (IsLast(es[j][0]) <==> j == j0)
    && Unmarked(es[j][0]) == Unmarked(es[j0][0]) - (j - j0) && es[j][13] == es[j0][13] && Passes(t, es[j])
  }

  // So do all entries from there to before entry i.
  ghost predicate Partial(es: seq<Entry32>, j0: nat, i: nat, t: Test)
    requires Fair(es, t)
  {
    j0 < i <= |es| && forall j {:trigger LinkAt(es, j0, j, t)} | j0 <= j < i :: LinkAt(es, j0, j, t)
  }

  // A whole name stands right before entry i, tied to it by the sum.
  ghost predicate RunBefore(es: seq<Entry32>, i: nat, t: Test, sum: Byte)
    requires Fair(es, t)
  {
    exists j0: nat {:trigger Partial(es, j0, i, t)} ::
      Partial(es, j0, i, t) && Unmarked(es[j0][0]) == i - j0 && es[j0][13] == sum
  }

  // The search is in the name that begins at entry st, or in none.
  ghost predicate Tracks(es: seq<Entry32>, i: nat, t: Test, st: int, ord: nat, sum: nat)
    requires Fair(es, t)
  {
    if st < 0 then ord == 0xFF && forall j0: nat {:trigger Partial(es, j0, i, t)} :: !Partial(es, j0, i, t)
    else Partial(es, st, i, t) && ord == Unmarked(es[st][0]) - (i - st) && sum == es[st][13]
  }

  lemma BeginsName(es: seq<Entry32>, j0: nat, j: nat, i: nat, t: Test)
    requires Fair(es, t) && Partial(es, j0, i, t) && j0 <= j < i
    ensures (IsLast(es[j][0]) <==> j == j0) && IsLong(es[j]) && !IsVoid(es[j])
  {
    assert LinkAt(es, j0, j, t);
  }

  // There is only one beginning.
  lemma OneBeginning(es: seq<Entry32>, j0: nat, j1: nat, i: nat, t: Test)
    requires Fair(es, t) && Partial(es, j0, i, t) && Partial(es, j1, i, t)
    ensures j0 == j1
  {
    var j := if j0 < j1 then j1 else j0;
    BeginsName(es, j0, j, i, t);
    BeginsName(es, j1, j, i, t);
  }

  // At entry i, a short one, the numbers tell whether a name has ended there.
  lemma Told(es: seq<Entry32>, i: nat, t: Test, st: int, ord: nat, sum: nat, own: Byte)
    requires Fair(es, t) && i <= |es| && Tracks(es, i, t, st, ord, sum)
    ensures RunBefore(es, i, t, own) <==> ord == 0 && sum == own
  {
    if RunBefore(es, i, t, own) {
      var j0: nat :| Partial(es, j0, i, t) && Unmarked(es[j0][0]) == i - j0 && es[j0][13] == own;
      if st >= 0 { OneBeginning(es, j0, st, i, t); }
    }
  }

  // No name goes on past an entry that is not a long one.
  lemma Ended(es: seq<Entry32>, i: nat, t: Test, sum: nat)
    requires Fair(es, t) && i < |es| && (IsVoid(es[i]) || !IsLong(es[i]))
    ensures Tracks(es, i + 1, t, -1, 0xFF, sum)
  {
    var n := i + 1;
    forall j0: nat {:trigger Partial(es, j0, n, t)}
      ensures !Partial(es, j0, n, t)
    {
      if Partial(es, j0, n, t) { BeginsName(es, j0, i, n, t); }
    }
  }

  lemma GoesOn(es: seq<Entry32>, i: nat, t: Test, st: int, ord: nat, sum: nat) returns (st': int)
    requires Fair(es, t) && i < |es| && Tracks(es, i, t, st, ord, sum) && IsLong(es[i]) && !IsVoid(es[i])
    ensures var first := IsLast(es[i][0]);
            var (c, o, u) :=
              if first then (Unmarked(es[i][0]), Unmarked(es[i][0]), es[i][13]) else (es[i][0], ord, sum);
            var ok := c == o && u == es[i][13] && Passes(t, es[i]);
            && (ok ==> o >= 1) && Tracks(es, i + 1, t, st', if ok then o - 1 else 0xFF, u)
            && (ok ==> st' == if first then i else st) && (!ok ==> st' < 0)
  {
    var first := IsLast(es[i][0]);
    if first && Passes(t, es[i]) {
      st' := i;
      assert LinkAt(es, i, i, t);
    } else if !first && es[i][0] == ord && sum == es[i][13] && Passes(t, es[i]) {
      NotReset(es[i][0]);
      st' := st;
      assert LinkAt(es, st, i, t);
    } else {
      st' := -1;
      var n := i + 1;
      forall j0: nat {:trigger Partial(es, j0, n, t)}
        ensures !Partial(es, j0, n, t)
      {
        if Partial(es, j0, n, t) { NotGone(es, j0, i, t, st, ord, sum); }
      }
    }
  }

  lemma NotReset(c: Byte)
    requires !IsLast(c)
    ensures c != 0xFF
  {
  }

  // If a name goes on past entry i, that entry was as expected.
  lemma NotGone(es: seq<Entry32>, j0: nat, i: nat, t: Test, st: int, ord: nat, sum: nat)
    requires Fair(es, t) && Partial(es, j0, i + 1, t) && Tracks(es, i, t, st, ord, sum) && IsLong(es[i])
    ensures Passes(t, es[i]) && (!IsLast(es[i][0]) ==> es[i][0] == ord && sum == es[i][13])
  {
    assert LinkAt(es, j0, i, t);
    if !IsLast(es[i][0]) {
      assert Partial(es, j0, i, t);
      OneBeginning(es, j0, st, i, t);
    }
  }

  // Entry i is what is looked for: its long name is the one in the buffer, or its short name is fn, if that is
  // all there is to the name.
  ghost predicate Wanted(es: seq<Entry32>, i: nat, up: WChar -> WChar, buf: seq<WChar>, fn: seq<Byte>, loss: bool)
    requires Fair(es, Same(up, buf))
  {
    && i < |es| && !IsVoid(es[i]) && !IsLong(es[i])
    && (RunBefore(es, i, Same(up, buf), SumOf(es[i][..11])) || (!loss && es[i][..11] == fn))
  }

  // dir_find: the first entry before the end of the table that is the one looked for; -1 if there is none
  method DirFind(es: seq<Entry32>, lfnbuf: array<WChar>, up: WChar -> WChar, fn: seq<Byte>, loss: bool)
    returns (r: int)
    requires lfnbuf.Length == MAX_LFN + 1 && Ordered(es) && Casing(up)
    ensures -1 <= r < |es| && forall j | 0 <= j < |es| && (r < 0 || j < r) ::
              Wanted(es, j, up, lfnbuf[..], fn, loss) ==> r < 0 && exists k :: 0 <= k <= j && es[k][0] == 0
    ensures r >= 0 ==>
              Wanted(es, r, up, lfnbuf[..], fn, loss) && forall k | 0 <= k <= r :: es[k][0] != 0
  {
    ghost var t := Same(up, lfnbuf[..]);
    ghost var st := -1;
    var ord: nat, sum: nat := 0xFF, 0xFF;
    r := 0;
    while r < |es|
      invariant 0 <= r <= |es| && Tracks(es, r, t, st, ord, sum)
      invariant forall j | 0 <= j < r :: es[j][0] != 0 && !Wanted(es, j, up, lfnbuf[..], fn, loss)
    {
      var c: nat, a: nat := es[r][0], es[r][11] % 64;
      Attributes(es[r]);
      if c == 0 { return -1; }
      if c == 0xE5 || (a / 8 % 2 == 1 && a != 0x0F) {
        ord := 0xFF;
        Ended(es, r, t, sum);
        st := -1;
      } else if a == 0x0F {
        ghost var st' := GoesOn(es, r, t, st, ord, sum);
        if IsLast(c) {
          sum := es[r][13];
          c := Unmarked(c);
          ord := c;
        }
        var ok := false;
        if c == ord && sum == es[r][13] {
          ok := CmpLfn(lfnbuf, es[r], up);
        }
        ord := if ok then ord - 1 else 0xFF;
        st := st';
      } else {
        var own := SumSfn(es[r]);
        Told(es, r, t, st, ord, sum, own);
        if ord == 0 && sum == own { return; }
        ord := 0xFF;
        if !loss && es[r][..11] == fn { return; }
        Ended(es, r, t, sum);
        st := -1;
      }
      r := r + 1;
    }
    r := -1;
  }

  // The entries of the name that begins at entry st are in the buffer.
  ghost predicate Collected(es: seq<Entry32>, st: nat, i: nat, buf: seq<WChar>)
    requires Ordered(es) && |buf| == MAX_LFN + 1
  {
    && st <= i <= |es|
    && forall j | st <= j < i :: IsLong(es[j]) && Fits(es[j]) && Picked(buf, es[j])
  }

  // dir_read: the next short entry, -1 at the end of the table. It has a long name if one stands right before it
  // that fits into the buffer, and then that is in the buffer.
  method DirRead(es: seq<Entry32>, lfnbuf: array<WChar>) returns (r: int, long: bool, ghost st: int)
    requires lfnbuf.Length == MAX_LFN + 1 && Ordered(es)
    modifies lfnbuf
    ensures -1 <= r < |es| && forall j | 0 <= j < |es| && (r < 0 || j < r) ::
              !IsVoid(es[j]) && !IsLong(es[j]) ==> r < 0 && exists k :: 0 <= k <= j && es[k][0] == 0
    ensures r >= 0 ==> !IsVoid(es[r]) && !IsLong(es[r]) && forall k | 0 <= k <= r :: es[k][0] != 0
    ensures long <==> r >= 0 && RunBefore(es, r, Room, SumOf(es[r][..11]))
    ensures long ==> 0 <= st < r && Partial(es, st, r, Room) && Unmarked(es[st][0]) == r - st
                     && Collected(es, st, r, lfnbuf[..])
  {
    st := -1;
    var ord: nat, sum: nat := 0xFF, 0xFF;
    r := 0;
    while r < |es|
      invariant 0 <= r <= |es| && Tracks(es, r, Room, st, ord, sum)
      invariant forall j | 0 <= j < r :: es[j][0] != 0 && (IsVoid(es[j]) || IsLong(es[j]))
      invariant st >= 0 ==> Collected(es, st, r, lfnbuf[..])
    {
      var c: nat, a: nat := es[r][0], es[r][11] % 64;
      Attributes(es[r]);
      if c == 0 { return -1, false, st; }
      if c == 0xE5 || (a / 8 % 2 == 1 && a != 0x0F) {
        ord := 0xFF;
        Ended(es, r, Room, sum);
        st := -1;
      } else if a == 0x0F {
        ghost var st' := GoesOn(es, r, Room, st, ord, sum);
        if IsLast(c) {
          sum := es[r][13];
          c := Unmarked(c);
          ord := c;
        }
        var ok := false;
        if c == ord && sum == es[r][13] {
          ghost var buf := lfnbuf[..];
          ok := PickLfn(lfnbuf, es[r]);
          if ok && st' != r { StillCollected(es, st, r, buf, lfnbuf[..]); }
        }
        ord := if ok then ord - 1 else 0xFF;
        st := st';
      } else {
        var own := SumSfn(es[r]);
        Told(es, r, Room, st, ord, sum, own);
        return r, ord == 0 && sum == own, st;
      }
      r := r + 1;
    }
    r, long := -1, false;
  }

  // An earlier part is put in front of those that are there already.
  lemma StillCollected(es: seq<Entry32>, st: nat, i: nat, buf: seq<WChar>, buf': seq<WChar>)
    requires Ordered(es) && |buf| == |buf'| == MAX_LFN + 1 && Partial(es, st, i + 1, Room) && st < i
    requires Collected(es, st, i, buf)
    requires forall j | PickPlace(es[i]) + 13 <= j < |buf| :: buf'[j] == buf[j]
    ensures Collected(es, st, i, buf')
  {
    forall j | st <= j < i
      ensures Picked(buf', es[j])
    {
      PlacesRise(es, st, j, i);
      StillTaken(buf, buf', es[j], PickPlace(es[j]), Used(es[j]));
    }
  }

  // One part before another in the directory is one behind it in the buffer.
  lemma {:induction false} PlacesRise(es: seq<Entry32>, st: nat, j: nat, i: nat)
    requires Ordered(es) && Partial(es, st, i + 1, Room) && st <= j <= i
    ensures Low6(es[j][0]) == Low6(es[i][0]) + (i - j)
    decreases i - j
  {
    if j < i {
      PlacesRise(es, st, j + 1, i);
      assert LinkAt(es, st, j, Room) && LinkAt(es, st, j + 1, Room);
      OneLess(es[j][0], es[j + 1][0]);
    }
  }

  lemma OneLess(a: Byte, b: Byte)
    requires Unmarked(b) == Unmarked(a) - 1 && Low6(a) >= 1 && Low6(b) >= 1
    ensures Low6(a) == Low6(b) + 1
  {
    LowBits(a);
    LowBits(b);
  }

  lemma LowBits(c: Byte)
    ensures Low6(c) < 64 && (Unmarked(c) == Low6(c) || Unmarked(c) == Low6(c) + 128)
  {
  }

  /* ---- a name that has been written ---- */

  // What an entry that holds part k of a name has to stand
  lemma PartTested(up: WChar -> WChar, buf: seq<WChar>, n: seq<WChar>, k: nat, d: Entry32, sum: Byte)
    requires |buf| == MAX_LFN + 1 && IsName(n) && IsPart(d, n, k, sum)
    ensures IsLong(d) && !IsVoid(d) && Unmarked(d[0]) == Low6(d[0]) == k + 1
    ensures Matches(up, buf, d) <==> PartMatches(up, buf, n, k)
    ensures Fits(d) <==> RoomFor(n, k)
  {
    PartOrder(n, k, d, sum);
    PartUsed(n, k, d, sum);
    if PartMatches(up, buf, n, k) { PartAgrees(up, buf, n, k, d, sum); }
    if Matches(up, buf, d) { PartSame(up, buf, n, k, d, sum); }
  }

  lemma PartOrder(n: seq<WChar>, k: nat, d: Entry32, sum: Byte)
    requires IsName(n) && IsPart(d, n, k, sum)
    ensures IsLong(d) && !IsVoid(d) && Unmarked(d[0]) == Low6(d[0]) == k + 1
    ensures IsLast(d[0]) <==> k + 1 == PartCount(n)
  {
    Counting(n, k);
  }

  lemma PartUsed(n: seq<WChar>, k: nat, d: Entry32, sum: Byte)
    requires IsName(n) && IsPart(d, n, k, sum)
    ensures FilledUp(d) && (IsFull(d) <==> |n| >= 13 * (k + 1))
    ensures Used(d) == if |n| >= 13 * (k + 1) then 13 else |n| - 13 * k + 1
    ensures forall s | 0 <= s < 13 :: CharAt(d, s) == PartChar(n, k, s)
  {
    Counting(n, k);
    var t := TermFrom(d, 0);
    if t < 13 { assert CharAt(d, t) == PartChar(n, k, t); }
    if |n| < 13 * (k + 1) { assert CharAt(d, |n| - 13 * k) == 0; }
  }

  lemma PartAgrees(up: WChar -> WChar, buf: seq<WChar>, n: seq<WChar>, k: nat, d: Entry32, sum: Byte)
    requires |buf| == MAX_LFN + 1 && IsName(n) && IsPart(d, n, k, sum) && PartMatches(up, buf, n, k)
    ensures Unmarked(d[0]) >= 1 && Matches(up, buf, d)
  {
    PartOrder(n, k, d, sum);
    PartUsed(n, k, d, sum);
    Counting(n, k);
    assert SameChar(up, buf, n, k, Used(d) - 1);
    forall s | 0 <= s < Used(d)
      ensures AgreesAt(up, buf, d, 13 * k, s)
    {
      assert SameChar(up, buf, n, k, s);
    }
  }

  lemma PartSame(up: WChar -> WChar, buf: seq<WChar>, n: seq<WChar>, k: nat, d: Entry32, sum: Byte)
    requires |buf| == MAX_LFN + 1 && IsName(n) && IsPart(d, n, k, sum) && Unmarked(d[0]) >= 1 && Matches(up, buf, d)
    ensures PartMatches(up, buf, n, k)
  {
    PartOrder(n, k, d, sum);
    PartUsed(n, k, d, sum);
    Counting(n, k);
    forall s: nat | s < 13 && 13 * k + s <= |n|
      ensures SameChar(up, buf, n, k, s)
    {
      assert AgreesAt(up, buf, d, 13 * k, s);
    }
  }

  // The name n stands right before entry i.
  ghost predicate Stands(es: seq<Entry32>, i: nat, n: seq<WChar>, sum: Byte) {
    && PartCount(n) <= i <= |es|
    && forall k: nat {:trigger PartStands(es, i, n, sum, k)} | k < PartCount(n) :: PartStands(es, i, n, sum, k)
  }

  predicate PartStands(es: seq<Entry32>, i: nat, n: seq<WChar>, sum: Byte, k: nat)
    requires k < i <= |es|
  {
    IsPart(es[i - 1 - k], n, k, sum)
  }

  // It does where its entries have been written.
  lemma RunStands(es: seq<Entry32>, run: seq<Entry32>, rest: seq<Entry32>, n: seq<WChar>, sum: Byte)
    requires IsRun(run, n, sum)
    ensures Stands(es + run + rest, |es| + |run|, n, sum)
  {
    var all, i := es + run + rest, |es| + |run|;
    forall k: nat | k < PartCount(n)
      ensures PartStands(all, i, n, sum, k)
    {
      assert all[i - 1 - k] == run[|run| - 1 - k];
    }
  }

  lemma StandsAt(es: seq<Entry32>, i: nat, n: seq<WChar>, sum: Byte, k: nat)
    requires Stands(es, i, n, sum) && k < PartCount(n)
    ensures IsPart(es[i - 1 - k], n, k, sum)
  {
    assert PartStands(es, i, n, sum, k);
  }

  // The entry of part k stands the test.
  predicate PassesAt(es: seq<Entry32>, i: nat, t: Test, k: nat)
    requires (t.Same? ==> |t.buf| == MAX_LFN + 1) && k < i <= |es|
  {
    Low6(es[i - 1 - k][0]) >= 1 && Passes(t, es[i - 1 - k])
  }

  ghost predicate AllPass(es: seq<Entry32>, i: nat, t: Test, n: nat)
    requires (t.Same? ==> |t.buf| == MAX_LFN + 1) && n <= i <= |es|
  {
    forall k: nat | k < n :: PassesAt(es, i, t, k)
  }

  // Entry i - 1 - k has order k + 1, and the first of them the mark of the last part.
  lemma PartMarks(es: seq<Entry32>, i: nat, n: seq<WChar>, sum: Byte, k: nat)
    requires Stands(es, i, n, sum) && k < PartCount(n)
    ensures var d := es[i - 1 - k];
            && Unmarked(d[0]) == Low6(d[0]) == k + 1 && (IsLast(d[0]) <==> k + 1 == PartCount(n)) && d[13] == sum
            && IsLong(d) && !IsVoid(d)
  {
    StandsAt(es, i, n, sum, k);
  }

  lemma LinkOf(es: seq<Entry32>, i: nat, t: Test, n: seq<WChar>, sum: Byte, k: nat)
    requires Fair(es, t) && Stands(es, i, n, sum) && k < PartCount(n)
    ensures LinkAt(es, i - PartCount(n), i - 1 - k, t) <==> PassesAt(es, i, t, k)
  {
    PartMarks(es, i, n, sum, k);
    PartMarks(es, i, n, sum, PartCount(n) - 1);
  }

  lemma SameFirst(es: seq<Entry32>, i: nat, t: Test, n: seq<WChar>, sum: Byte, j0: nat)
    requires Fair(es, t) && 1 <= |n| && Stands(es, i, n, sum) && Partial(es, j0, i, t)
    ensures j0 == i - PartCount(n)
  {
    var first := i - PartCount(n);
    PartMarks(es, i, n, sum, PartCount(n) - 1);
    if j0 < first {
      BeginsName(es, j0, first, i, t);
    } else {
      BeginsName(es, j0, j0, i, t);
      PartMarks(es, i, n, sum, i - 1 - j0);
    }
  }

  // There it is found, if its sum is right and all its parts stand the test.
  lemma StandsTested(es: seq<Entry32>, i: nat, t: Test, n: seq<WChar>, sum: Byte, own: Byte)
    requires Fair(es, t) && 1 <= |n| && Stands(es, i, n, sum)
    ensures RunBefore(es, i, t, own) <==> own == sum && AllPass(es, i, t, PartCount(n))
  {
    var first := i - PartCount(n);
    PartMarks(es, i, n, sum, PartCount(n) - 1);
    if AllPass(es, i, t, PartCount(n)) {
      forall j | first <= j < i
        ensures LinkAt(es, first, j, t)
      {
        LinkOf(es, i, t, n, sum, i - 1 - j);
        assert PassesAt(es, i, t, i - 1 - j);
      }
      assert Partial(es, first, i, t);
    }
    if RunBefore(es, i, t, own) {
      var j0: nat :| Partial(es, j0, i, t) && Unmarked(es[j0][0]) == i - j0 && es[j0][13] == own;
      SameFirst(es, i, t, n, sum, j0);
      forall k: nat | k < PartCount(n)
        ensures PassesAt(es, i, t, k)
      {
        LinkOf(es, i, t, n, sum, k);
        assert LinkAt(es, j0, i - 1 - k, t);
      }
    }
  }

  // dir_find finds a written name exactly by names that are equal in upper case; one that fills the buffer is
  // not found.
  lemma FoundByName(es: seq<Entry32>, i: nat, up: WChar -> WChar, buf: seq<WChar>, m: seq<WChar>, n: seq<WChar>,
                    sum: Byte)
    requires |buf| == MAX_LFN + 1 && Ordered(es) && Holds(buf, m) && IsName(m) && IsName(n) && Casing(up)
    requires 1 <= |n| <= MAX_LFN && Stands(es, i, n, sum)
    ensures RunBefore(es, i, Same(up, buf), sum) <==> SameUpper(up, m, n) && |n| < MAX_LFN
  {
    StandsTested(es, i, Same(up, buf), n, sum, sum);
    PassesByName(es, i, up, buf, n, sum);
    AllPartsMatch(up, buf, m, n);
  }

  lemma PassesByName(es: seq<Entry32>, i: nat, up: WChar -> WChar, buf: seq<WChar>, n: seq<WChar>, sum: Byte)
    requires |buf| == MAX_LFN + 1 && IsName(n) && Stands(es, i, n, sum)
    ensures AllPass(es, i, Same(up, buf), PartCount(n)) <==>
              forall k: nat | k < PartCount(n) :: PartMatches(up, buf, n, k)
  {
    forall k: nat | k < PartCount(n)
      ensures PassesAt(es, i, Same(up, buf), k) <==> PartMatches(up, buf, n, k)
    {
      PartPasses(es, i, up, buf, n, sum, k);
    }
  }

  lemma PartPasses(es: seq<Entry32>, i: nat, up: WChar -> WChar, buf: seq<WChar>, n: seq<WChar>, sum: Byte, k: nat)
    requires |buf| == MAX_LFN + 1 && IsName(n) && Stands(es, i, n, sum) && k < PartCount(n)
    ensures PassesAt(es, i, Same(up, buf), k) <==> PartMatches(up, buf, n, k)
    ensures PassesAt(es, i, Room, k) <==> RoomFor(n, k)
  {
    StandsAt(es, i, n, sum, k);
    PartTested(up, buf, n, k, es[i - 1 - k], sum);
  }

  // dir_read brings a written name back exactly if it is two characters shorter than the buffer.
  lemma ReadBack(es: seq<Entry32>, i: nat, buf: seq<WChar>, n: seq<WChar>, sum: Byte, st: nat)
    requires |buf| == MAX_LFN + 1 && Ordered(es) && IsName(n) && 1 <= |n| <= MAX_LFN && Stands(es, i, n, sum)
    ensures RunBefore(es, i, Room, sum) <==> |n| + 2 <= MAX_LFN
    ensures Partial(es, st, i, Room) && Collected(es, st, i, buf) ==> Holds(buf, n)
  {
    StandsTested(es, i, Room, n, sum, sum);
    forall k: nat | k < PartCount(n)
      ensures PassesAt(es, i, Room, k) <==> RoomFor(n, k)
    {
      PartPasses(es, i, c => c, buf, n, sum, k);
    }
    RoomForAll(n);
    if Partial(es, st, i, Room) && Collected(es, st, i, buf) {
      SameFirst(es, i, Room, n, sum, st);
      AllHeld(es, i, buf, n, sum);
    }
  }

  // There is room for all parts if there is for the last.
  lemma RoomForAll(n: seq<WChar>)
    requires 1 <= |n| <= MAX_LFN
    ensures (forall k: nat | k < PartCount(n) :: RoomFor(n, k)) <==> |n| + 2 <= MAX_LFN
  {
    var last := PartCount(n) - 1;
    Counting(n, last);
    if |n| + 2 > MAX_LFN { assert !RoomFor(n, last); }
  }

  lemma AllHeld(es: seq<Entry32>, i: nat, buf: seq<WChar>, n: seq<WChar>, sum: Byte)
    requires |buf| == MAX_LFN + 1 && Ordered(es) && IsName(n) && 1 <= |n| <= MAX_LFN && Stands(es, i, n, sum)
    requires Collected(es, i - PartCount(n), i, buf)
    ensures Holds(buf, n)
  {
    forall x | 0 <= x < |n|
      ensures buf[x] == n[x]
    {
      HeldAt(es, i, buf, n, sum, x);
    }
    var k := PartCount(n) - 1;
    StandsAt(es, i, n, sum, k);
    PartTested(c => c, buf, n, k, es[i - 1 - k], sum);
    PartUsed(n, k, es[i - 1 - k], sum);
    Counting(n, k);
    if |n| < 13 * (k + 1) { assert TakenAt(buf, es[i - 1 - k], 13 * k, |n| - 13 * k); }
    assert buf[..|n|] == n;
  }

  lemma HeldAt(es: seq<Entry32>, i: nat, buf: seq<WChar>, n: seq<WChar>, sum: Byte, x: nat)
    requires |buf| == MAX_LFN + 1 && Ordered(es) && IsName(n) && x < |n| <= MAX_LFN && Stands(es, i, n, sum)
    requires Collected(es, i - PartCount(n), i, buf)
    ensures buf[x] == n[x]
  {
    var k, s := x / 13, x % 13;
    assert x == 13 * k + s && k < PartCount(n);
    var d := es[i - 1 - k];
    StandsAt(es, i, n, sum, k);
    PartTested(c => c, buf, n, k, d, sum);
    PartUsed(n, k, d, sum);
    assert TakenAt(buf, d, 13 * k, s);
  }
}
