// Short names in directory entries: making one from a long name, and printing it with its case.
module ShortNames {
  import opened Words
  import opened FatEntries
  import opened LongNames

  /* ---- characters ---- */

  predicate IsUpper(c: nat) {
    'A' as nat <= c <= 'Z' as nat
  }

  predicate IsLower(c: nat) {
    'a' as nat <= c <= 'z' as nat
  }

  function ToUpper(c: nat): nat {
    if IsLower(c) then c - 0x20 else c
  }

  predicate OneOf(c: nat, s: string) {
    exists i | 0 <= i < |s| :: s[i] as nat == c
  }

  // What may not be in a long name: these and delete; and what is replaced in a short one
  predicate NotLong(c: nat) {
    OneOf(c, "\"*:<>?|") || c == 0x7F
  }

  predicate NotShort(c: nat) {
    OneOf(c, "+,;[=]")
  }

  // Their codes
  lemma Codepoints(c: nat)
    ensures NotLong(c) <==> c in [0x22, 0x2A, 0x3A, 0x3C, 0x3E, 0x3F, 0x7C, 0x7F]
    ensures NotShort(c) <==> c in [0x2B, 0x2C, 0x3B, 0x5B, 0x3D, 0x5D]
  {
    var l, s := "\"*:<>?|", "+,;[=]";
    assert l[0] as nat == 0x22 && l[1] as nat == 0x2A && l[2] as nat == 0x3A && l[3] as nat == 0x3C;
    assert l[4] as nat == 0x3E && l[5] as nat == 0x3F && l[6] as nat == 0x7C;
    assert s[0] as nat == 0x2B && s[1] as nat == 0x2C && s[2] as nat == 0x3B;
    assert s[3] as nat == 0x5B && s[4] as nat == 0x3D && s[5] as nat == 0x5D;
  }

  // A character that stands in a short name as it is, but for its case
  predicate Plain(c: nat) {
    0x20 < c < 0x80 && c != 0x2E && c != 0x2F && c != 0x5C && !NotLong(c) && !NotShort(c)
  }

  predicate AllPlain(s: seq<WChar>) {
    forall i | 0 <= i < |s| :: Plain(s[i])
  }

  // A name of the form body.ext or body, of plain characters
  predicate Is83(lfn: seq<WChar>, body: seq<WChar>, ext: seq<WChar>) {
    && 1 <= |body| <= 8 && |ext| <= 3 && AllPlain(body) && AllPlain(ext)
    && lfn == if ext == [] then body else body + [0x2E] + ext
  }

  // The letter cases met: 2 for a capital, 1 for a small letter
  function Cases(s: seq<WChar>): (b: nat)
    ensures b < 4
  {
    if s == [] then 0 else Meet(Cases(s[..|s| - 1]), s[|s| - 1])
  }

  function Meet(b: nat, c: nat): (r: nat)
    ensures b < 4 ==> r < 4
    ensures r / 4 == b / 4
  {
    if IsUpper(c) then (if b % 4 < 2 then b + 2 else b) else if IsLower(c) then (if b % 2 < 1 then b + 1 else b) else b
  }

  predicate OneCase(s: seq<WChar>) {
    Cases(s) != 3
  }

  /* ---- flags ---- */

  // NS_LOSS 1, NS_LFN 2, NS_LAST 4, NS_BODY 8, NS_EXT 16
  datatype Flags = Flags(loss: bool, long: bool, last: bool, lowBody: bool, lowExt: bool)

  type Short = s: seq<Byte> | |s| == 11 witness [0, 0, 0, 0, 0, 0, 0, 0, 0, 0, 0]

  // s in capitals, filled up with spaces
  function Padded(s: seq<WChar>, n: nat): (r: seq<nat>)
    requires |s| <= n
    ensures |r| == n && forall i | 0 <= i < n :: r[i] == if i < |s| then ToUpper(s[i]) else 0x20
  {
    seq(n, i requires 0 <= i < n => if i < |s| then ToUpper(s[i]) else 0x20)
  }

  /* ---- what a short name is to be ---- */

  // The code page: from it to Unicode, back (0: there is no such character), and its upper half in capitals
  datatype Codes = Codes(uni: WChar -> WChar, oem: WChar -> WChar, cvt: seq<Byte>)
  {
    ghost predicate Ok() {
      && |cvt| == 128 && (forall c: WChar | c < 0x80 :: uni(c) == c) && (forall c: WChar :: uni(c) != 0xFFFF)
      && forall c: WChar :: oem(c) == 0 || 0x80 <= oem(c) < 0x100
    }

    // The character in the code page, 0 if there is none
    function Conv(c: WChar): Byte
      requires Ok()
    {
      if c < 0x80 then c else if oem(c) == 0 then 0 else cvt[oem(c) - 0x80]
    }

    // A character that an underscore stands for
    predicate Replaced(c: WChar)
      requires Ok()
    {
      Conv(c) == 0 || NotShort(Conv(c))
    }

    // What is stored for a character
    function ShortByte(c: WChar): Byte
      requires Ok()
    {
      if Replaced(c) then 0x5F else ToUpper(Conv(c))
    }

    // The cases met
    function CasesIn(s: seq<WChar>): (b: nat)
      requires Ok()
      ensures b < 4
    {
      if s == [] then 0 else
        var b := CasesIn(s[..|s| - 1]);
        if Replaced(s[|s| - 1]) then b else Meet(b, Conv(s[|s| - 1]))
    }

    predicate HasReplaced(s: seq<WChar>)
      requires Ok()
    {
      exists k :: 0 <= k < |s| && Replaced(s[k])
    }

    // The first n characters are stored, and filled up with spaces.
    function Stored(s: seq<WChar>, n: nat): (r: seq<Byte>)
      requires Ok()
      ensures |r| == n
    {
      seq(n, k requires 0 <= k < n => if k < |s| then ShortByte(s[k]) else 0x20)
    }

    // Of a part of a name, something is left out of n characters, or is stored as another one.
    predicate Loses(s: seq<WChar>, n: nat)
      requires Ok()
    {
      |Kept(s)| > n || Kept(s) != s || HasReplaced(First(Kept(s), n))
    }
  }

  predicate SpaceOrDot(c: nat) {
    c == 0x20 || c == 0x2E
  }

  // s without its spaces and dots
  function Kept(s: seq<WChar>): (k: seq<WChar>)
    ensures |k| <= |s|
  {
    if s == [] then []
    else Kept(s[..|s| - 1]) + if SpaceOrDot(s[|s| - 1]) then [] else [s[|s| - 1]]
  }

  function First(s: seq<WChar>, n: nat): seq<WChar> {
    if |s| <= n then s else s[..n]
  }

  predicate HasHigh(s: seq<WChar>) {
    exists k :: 0 <= k < |s| && s[k] >= 0x80
  }

  // s from its first character on that is not a space or a dot: how many come before that
  function Leading(s: seq<WChar>): (n: nat)
    ensures n <= |s| && (n < |s| ==> !SpaceOrDot(s[n]))
  {
    if s == [] || !SpaceOrDot(s[0]) then 0 else 1 + Leading(s[1..])
  }

  lemma {:induction false} LeadingIs(s: seq<WChar>, n: nat)
    requires n < |s| && (forall k | 0 <= k < n :: SpaceOrDot(s[k])) && !SpaceOrDot(s[n])
    ensures Leading(s) == n
  {
    if n > 0 { LeadingIs(s[1..], n - 1); }
  }

  // s up to its last character that is not a space or a dot
  function Stripped(s: seq<WChar>): (r: seq<WChar>)
    ensures r <= s && (r != [] ==> !SpaceOrDot(r[|r| - 1]))
  {
    if s == [] || !SpaceOrDot(s[|s| - 1]) then s else Stripped(s[..|s| - 1])
  }

  // The index behind the last dot, 0 if there is none
  function BehindDot(s: seq<WChar>): (n: nat)
    ensures n <= |s| && (n > 0 ==> s[n - 1] == 0x2E)
  {
    if s == [] then 0 else if s[|s| - 1] == 0x2E then |s| else BehindDot(s[..|s| - 1])
  }

  lemma {:induction false} BehindDotIs(s: seq<WChar>, n: nat)
    requires n <= |s| && (n > 0 ==> s[n - 1] == 0x2E) && forall k | n <= k < |s| :: s[k] != 0x2E
    ensures BehindDot(s) == n
  {
    if n < |s| { BehindDotIs(s[..|s| - 1], n); }
  }

  // Where the parts of a name lie, if the body begins at st, and the extension, where there is one, at di
  predicate Places(s: seq<WChar>, st: nat, di: nat) {
    st <= |s| && di <= |s| && (di > 0 ==> s[di - 1] == 0x2E) && (st < |s| ==> !SpaceOrDot(s[st]))
  }

  function BodyFrom(s: seq<WChar>, st: nat, di: nat): seq<WChar>
    requires Places(s, st, di)
  {
    if di > st then s[st..di - 1] else s[st..]
  }

  function ExtFrom(s: seq<WChar>, st: nat, di: nat): seq<WChar>
    requires Places(s, st, di)
  {
    if di > st then s[di..] else []
  }

  // The parts of a name: the body begins behind leading spaces and dots, the extension behind the last dot.
  function BodyOf(s: seq<WChar>): seq<WChar> {
    BodyFrom(s, Leading(s), BehindDot(s))
  }

  function ExtOf(s: seq<WChar>): seq<WChar> {
    ExtFrom(s, Leading(s), BehindDot(s))
  }

  // The mark of a deleted entry is not to come about by a name.
  function Unmarked(fn: Short): Short {
    if fn[0] == 0xE5 then fn[0 := 0x05] else fn
  }

  function ShortOf(s: seq<WChar>, code: Codes): Short
    requires code.Ok()
  {
    Unmarked(code.Stored(Kept(BodyOf(s)), 8) + code.Stored(Kept(ExtOf(s)), 3))
  }

  // The short name tells less than the name, of which something precedes the parts if strip.
  predicate LostOf(body: seq<WChar>, ext: seq<WChar>, strip: bool, code: Codes)
    requires code.Ok()
  {
    strip || code.Loses(body, 8) || code.Loses(ext, 3)
  }

  predicate Lost(s: seq<WChar>, code: Codes)
    requires code.Ok()
  {
    LostOf(BodyOf(s), ExtOf(s), Leading(s) != 0, code)
  }

  // A long entry is needed where something is lost, or comes from the upper half of the code page, or a part has
  // letters of both cases. Else the flags tell which of the parts are in small letters.
  function FlagsFor(body: seq<WChar>, ext: seq<WChar>, strip: bool, code: Codes, last: bool): Flags
    requires code.Ok()
  {
    var b, e := First(Kept(body), 8), First(Kept(ext), 3);
    var loss := LostOf(body, ext, strip, code);
    var long := loss || HasHigh(b) || HasHigh(e) || code.CasesIn(b) == 3 || code.CasesIn(e) == 3;
    Flags(loss, long, last, !long && code.CasesIn(b) == 1, !long && code.CasesIn(e) == 1)
  }

  function FlagsOf(s: seq<WChar>, code: Codes, last: bool): Flags
    requires code.Ok()
  {
    FlagsFor(BodyOf(s), ExtOf(s), Leading(s) != 0, code, last)
  }

  /* ---- making a short name ---- */

  // What becomes of a character: the byte to store, what it adds to the cases met, and the flags
  method PutChar(w0: WChar, b0: nat, code: Codes) returns (w: Byte, b: nat, lossy: bool, long: bool)
    requires code.Ok()
    ensures w == code.ShortByte(w0) && b == (if code.Replaced(w0) then b0 else Meet(b0, code.Conv(w0)))
    ensures lossy == code.Replaced(w0) && long == (lossy || w0 >= 0x80)
  {
    var c := w0;
    b, lossy, long := b0, false, false;
    if c >= 0x80 {
      c := code.oem(c);
      if c != 0 { c := code.cvt[c - 0x80]; }
      long := true;
    }
    Codepoints(c);
    if c == 0 || c in [0x2B, 0x2C, 0x3B, 0x5B, 0x3D, 0x5D] {
      c := 0x5F;
      lossy, long := true, true;
    } else if 0x41 <= c <= 0x5A {
      if b % 4 < 2 { b := b + 2; }
    } else if 0x61 <= c <= 0x7A {
      if b % 2 < 1 { b := b + 1; }
      c := c - 0x20;
    }
    w := c;
  }

  // The part s of a name is stored so far: without its spaces and dots, no more than n characters.
  ghost predicate Filled(s: seq<WChar>, n: nat, code: Codes, fn: seq<Byte>, b: nat, lossy: bool, long: bool, i: nat)
    requires code.Ok()
  {
    && i == |Kept(s)| <= n && fn == code.Stored(Kept(s), n) && b == code.CasesIn(Kept(s))
    && (lossy <==> Kept(s) != s || code.HasReplaced(Kept(s))) && (long <==> lossy || HasHigh(Kept(s)))
  }

  // The part s of a name is stored, as far as it fits.
  ghost predicate Done(s: seq<WChar>, n: nat, code: Codes, fn: seq<Byte>, b: nat, lossy: bool, long: bool)
    requires code.Ok()
  {
    var f := First(Kept(s), n);
    && fn == code.Stored(Kept(s), n) && b == code.CasesIn(f)
    && (lossy <==> code.Loses(s, n)) && (long <==> lossy || HasHigh(f))
  }

  lemma KeptStep(s: seq<WChar>, w: WChar)
    ensures Kept(s + [w]) == Kept(s) + if SpaceOrDot(w) then [] else [w]
  {
    assert (s + [w])[..|s|] == s;
  }

  lemma Dropping(s: seq<WChar>, w: WChar, n: nat, code: Codes, fn: seq<Byte>, b: nat, lossy: bool, long: bool, i: nat)
    requires code.Ok() && Filled(s, n, code, fn, b, lossy, long, i) && SpaceOrDot(w)
    ensures Filled(s + [w], n, code, fn, b, true, true, i)
  {
    KeptStep(s, w);
    assert Kept(s + [w]) == Kept(s);
    assert |Kept(s + [w])| < |s + [w]|;
  }

  lemma Storing(s: seq<WChar>, w: WChar, n: nat, code: Codes, fn: seq<Byte>, b: nat, lossy: bool, long: bool, i: nat)
    requires code.Ok() && Filled(s, n, code, fn, b, lossy, long, i) && !SpaceOrDot(w) && i < n
    ensures var r := code.Replaced(w);
            Filled(s + [w], n, code, fn[i := code.ShortByte(w)], if r then b else Meet(b, code.Conv(w)), lossy || r,
                   long || r || w >= 0x80, i + 1)
  {
    var k := Kept(s);
    KeptStep(s, w);
    assert (k + [w])[..|k|] == k;
    assert k + [w] == s + [w] <==> k == s by {
      if k + [w] == s + [w] { assert (s + [w])[..|s|] == s; }
    }
    assert code.HasReplaced(k + [w]) <==> code.HasReplaced(k) || code.Replaced(w) by { OneMore(k, w, code); }
    assert HasHigh(k + [w]) <==> HasHigh(k) || w >= 0x80 by { OneMore(k, w, code); }
  }

  lemma OneMore(k: seq<WChar>, w: WChar, code: Codes)
    requires code.Ok()
    ensures code.HasReplaced(k + [w]) <==> code.HasReplaced(k) || code.Replaced(w)
    ensures HasHigh(k + [w]) <==> HasHigh(k) || w >= 0x80
  {
    var r := k + [w];
    assert r[|k|] == w && forall j | 0 <= j < |k| :: r[j] == k[j];
  }

  lemma Complete(s: seq<WChar>, n: nat, code: Codes, fn: seq<Byte>, b: nat, lossy: bool, long: bool, i: nat)
    requires code.Ok() && Filled(s, n, code, fn, b, lossy, long, i)
    ensures Done(s, n, code, fn, b, lossy, long)
  {
  }

  // One character too many
  lemma Overflow(s: seq<WChar>, w: WChar, rest: seq<WChar>, n: nat, code: Codes, fn: seq<Byte>, b: nat, lossy: bool,
                 long: bool)
    requires code.Ok() && Filled(s, n, code, fn, b, lossy, long, n) && !SpaceOrDot(w)
    ensures Done(s + [w] + rest, n, code, fn, b, true, true)
  {
    KeptStep(s, w);
    KeptPrefix(s + [w], rest);
    var k := Kept(s + [w] + rest);
    assert k[..n] == Kept(s);
    assert code.Stored(k, n) == code.Stored(Kept(s), n) by {
      assert forall j | 0 <= j < n :: k[j] == Kept(s)[j];
    }
  }

  lemma {:induction false} KeptPrefix(s: seq<WChar>, rest: seq<WChar>)
    ensures Kept(s) <= Kept(s + rest)
  {
    if rest == [] {
      assert s + rest == s;
    } else {
      var n := |rest| - 1;
      KeptPrefix(s, rest[..n]);
      assert s + rest == (s + rest[..n]) + [rest[n]];
      KeptStep(s + rest[..n], rest[n]);
    }
  }

  // The extension begins behind the last dot; 0 if there is none.
  method ExtStart(lfn: seq<WChar>) returns (di: nat)
    ensures di == BehindDot(lfn)
  {
    di := |lfn|;
    assert lfn[..|lfn|] == lfn;
    while di != 0 && lfn[di - 1] != 0x2E
      invariant di <= |lfn| && BehindDot(lfn) == BehindDot(lfn[..di])
    {
      assert lfn[..di][..di - 1] == lfn[..di - 1];
      di := di - 1;
    }
  }

  // What a part of the name has made of the short name, the case bits and the flags
  datatype Part = Part(fn: seq<Byte>, b: nat, lossy: bool, long: bool)

  const NOTHING: Part := Part([0x20, 0x20, 0x20], 0, false, false)

  function Spoiled(p: Part): Part {
    p.(lossy := true, long := true)
  }

  function Extended(p: Part, w: WChar, i: nat, code: Codes): Part
    requires code.Ok() && i < |p.fn|
  {
    var r := code.Replaced(w);
    Part(p.fn[i := code.ShortByte(w)], if r then p.b else Meet(p.b, code.Conv(w)), p.lossy || r,
         p.long || r || w >= 0x80)
  }

  ghost predicate PartFilled(s: seq<WChar>, n: nat, code: Codes, p: Part, i: nat)
    requires code.Ok()
  {
    forall k: nat {:trigger FilledIs(k, s, n, code, p, i)} | k == 0 :: FilledIs(k, s, n, code, p, i)
  }

  ghost predicate FilledIs(k: nat, s: seq<WChar>, n: nat, code: Codes, p: Part, i: nat)
    requires code.Ok()
  {
    k == 0 ==> Filled(s, n, code, p.fn, p.b, p.lossy, p.long, i)
  }

  ghost predicate PartDone(s: seq<WChar>, n: nat, code: Codes, p: Part)
    requires code.Ok()
  {
    forall k: nat {:trigger DoneIs(k, s, n, code, p)} | k == 0 :: DoneIs(k, s, n, code, p)
  }

  ghost predicate DoneIs(k: nat, s: seq<WChar>, n: nat, code: Codes, p: Part)
    requires code.Ok()
  {
    k == 0 ==> Done(s, n, code, p.fn, p.b, p.lossy, p.long)
  }

  // Where the loop of create_name is, with character number si next: in the body, or in the extension
  ghost predicate InBody(lfn: seq<WChar>, st: nat, di: nat, code: Codes, p: Part, si: nat, i: nat)
    requires code.Ok()
  {
    && Places(lfn, st, di) && st <= si <= st + |BodyFrom(lfn, st, di)| && i <= 8
    && PartFilled(lfn[st..si], 8, code, p, i)
  }

  ghost predicate InExt(lfn: seq<WChar>, st: nat, di: nat, code: Codes, p: Part, q: Part, si: nat, i: nat)
    requires code.Ok()
  {
    && Places(lfn, st, di) && st < di <= si && 8 <= i <= 11 && si <= |lfn|
    && PartDone(BodyFrom(lfn, st, di), 8, code, p) && PartFilled(lfn[di..si], 3, code, q, i - 8)
  }

  ghost predicate Where(lfn: seq<WChar>, st: nat, di: nat, code: Codes, p: Part, q: Part, ni: nat, si: nat, i: nat)
    requires code.Ok()
  {
    forall k: nat {:trigger WhereIs(k, lfn, st, di, code, p, q, ni, si, i)} | k == 0 ::
      WhereIs(k, lfn, st, di, code, p, q, ni, si, i)
  }

  ghost predicate WhereIs(k: nat, lfn: seq<WChar>, st: nat, di: nat, code: Codes, p: Part, q: Part, ni: nat, si: nat,
                          i: nat)
    requires code.Ok()
  {
    if ni == 8 then InBody(lfn, st, di, code, p, si, i) else InExt(lfn, st, di, code, p, q, si, i)
  }

  lemma Open(lfn: seq<WChar>, st: nat, di: nat, code: Codes, p: Part, q: Part, ni: nat, si: nat, i: nat)
    requires code.Ok() && Where(lfn, st, di, code, p, q, ni, si, i)
    ensures if ni == 8 then InBody(lfn, st, di, code, p, si, i) else InExt(lfn, st, di, code, p, q, si, i)
  {
    assert WhereIs(0, lfn, st, di, code, p, q, ni, si, i);
  }

  ghost predicate Finished(lfn: seq<WChar>, st: nat, di: nat, code: Codes, p: Part, q: Part)
    requires code.Ok()
  {
    Places(lfn, st, di) && PartDone(BodyFrom(lfn, st, di), 8, code, p) && PartDone(ExtFrom(lfn, st, di), 3, code, q)
  }

  lemma NextOf(lfn: seq<WChar>, from: nat, si: nat)
    requires from <= si < |lfn|
    ensures lfn[from..si + 1] == lfn[from..si] + [lfn[si]]
  {
  }

  lemma Around(lfn: seq<WChar>, from: nat, si: nat, to: nat)
    requires from <= si < to <= |lfn|
    ensures lfn[from..si] + [lfn[si]] + lfn[si + 1..to] == lfn[from..to]
  {
  }

  // A character of a part is left out, or stored.
  lemma PartChar(s: seq<WChar>, w: WChar, n: nat, code: Codes, p: Part, i: nat)
    requires code.Ok() && PartFilled(s, n, code, p, i)
    ensures SpaceOrDot(w) ==> PartFilled(s + [w], n, code, Spoiled(p), i)
    ensures !SpaceOrDot(w) && i < n ==> i < |p.fn| && PartFilled(s + [w], n, code, Extended(p, w, i, code), i + 1)
  {
    assert FilledIs(0, s, n, code, p, i);
    if SpaceOrDot(w) {
      Dropping(s, w, n, code, p.fn, p.b, p.lossy, p.long, i);
    } else if i < n {
      Storing(s, w, n, code, p.fn, p.b, p.lossy, p.long, i);
    }
  }

  lemma PartWhole(s: seq<WChar>, n: nat, code: Codes, p: Part, i: nat)
    requires code.Ok() && PartFilled(s, n, code, p, i)
    ensures PartDone(s, n, code, p)
  {
    assert FilledIs(0, s, n, code, p, i);
    Complete(s, n, code, p.fn, p.b, p.lossy, p.long, i);
  }

  lemma PartOver(s: seq<WChar>, w: WChar, rest: seq<WChar>, n: nat, code: Codes, p: Part)
    requires code.Ok() && PartFilled(s, n, code, p, n) && !SpaceOrDot(w)
    ensures PartDone(s + [w] + rest, n, code, Spoiled(p))
  {
    assert FilledIs(0, s, n, code, p, n);
    Overflow(s, w, rest, n, code, p.fn, p.b, p.lossy, p.long);
  }

  lemma NoExtYet(lfn: seq<WChar>, st: nat, di: nat, code: Codes)
    requires code.Ok() && di <= |lfn|
    ensures PartFilled(lfn[di..di], 3, code, NOTHING, 0) && PartDone([], 3, code, NOTHING)
  {
    assert lfn[di..di] == [];
  }

  lemma BodyPlace(lfn: seq<WChar>, st: nat, di: nat)
    requires Places(lfn, st, di)
    ensures st + |BodyFrom(lfn, st, di)| <= |lfn| && lfn[st..st + |BodyFrom(lfn, st, di)|] == BodyFrom(lfn, st, di)
  {
  }

  // Between the body and the end of the name there is only the last dot.
  lemma BodyGoesOn(lfn: seq<WChar>, st: nat, di: nat, si: nat)
    requires Places(lfn, st, di) && st <= si <= st + |BodyFrom(lfn, st, di)| && si < |lfn| && si + 1 != di
    ensures si < st + |BodyFrom(lfn, st, di)|
  {
  }

  // The end of the name
  lemma AtEnd(lfn: seq<WChar>, st: nat, di: nat, code: Codes, p: Part, q: Part, ni: nat, i: nat)
    requires code.Ok() && Where(lfn, st, di, code, p, q, ni, |lfn|, i) && (ni == 8 ==> q == NOTHING)
    ensures Finished(lfn, st, di, code, p, q)
  {
    Open(lfn, st, di, code, p, q, ni, |lfn|, i);
    if ni == 8 {
      assert lfn[st..|lfn|] == BodyFrom(lfn, st, di);
      PartWhole(BodyFrom(lfn, st, di), 8, code, p, i);
      NoExtYet(lfn, st, di, code);
    } else {
      assert lfn[di..|lfn|] == ExtFrom(lfn, st, di);
      PartWhole(ExtFrom(lfn, st, di), 3, code, q, i - 8);
    }
  }

  // The last dot
  lemma AtDot(lfn: seq<WChar>, st: nat, di: nat, code: Codes, p: Part, q: Part, si: nat, i: nat)
    requires code.Ok() && Where(lfn, st, di, code, p, q, 8, si, i) && si < |lfn| && si + 1 == di
    ensures Where(lfn, st, di, code, p, NOTHING, 11, si + 1, 8)
  {
    Open(lfn, st, di, code, p, q, 8, si, i);
    assert lfn[st..si] == BodyFrom(lfn, st, di);
    PartWhole(BodyFrom(lfn, st, di), 8, code, p, i);
    NoExtYet(lfn, st, di, code);
  }

  // A ninth character
  lemma BodyFull(lfn: seq<WChar>, st: nat, di: nat, code: Codes, p: Part, q: Part, si: nat)
    requires code.Ok() && Where(lfn, st, di, code, p, q, 8, si, 8) && si < |lfn| && si + 1 != di
    requires !SpaceOrDot(lfn[si])
    ensures if si + 1 > di then Finished(lfn, st, di, code, Spoiled(p), NOTHING)
            else Where(lfn, st, di, code, Spoiled(p), NOTHING, 11, di, 8)
  {
    Open(lfn, st, di, code, p, q, 8, si, 8);
    var end := st + |BodyFrom(lfn, st, di)|;
    BodyGoesOn(lfn, st, di, si);
    BodyPlace(lfn, st, di);
    Around(lfn, st, si, end);
    PartOver(lfn[st..si], lfn[si], lfn[si + 1..end], 8, code, p);
    NoExtYet(lfn, st, di, code);
  }

  // From the body to the extension, if there is one
  lemma Turned(lfn: seq<WChar>, st: nat, di: nat, code: Codes, p: Part, q: Part, si: nat, i: nat) returns (p': Part)
    requires code.Ok() && Where(lfn, st, di, code, p, q, 8, si, i) && si < |lfn| && i <= 8
    requires si + 1 == di || (i == 8 && !SpaceOrDot(lfn[si]))
    ensures p' == if si + 1 == di then p else Spoiled(p)
    ensures if si + 1 > di then Finished(lfn, st, di, code, p', NOTHING)
            else Where(lfn, st, di, code, p', NOTHING, 11, di, 8)
  {
    if si + 1 == di {
      p' := p;
      AtDot(lfn, st, di, code, p, q, si, i);
    } else {
      p' := Spoiled(p);
      BodyFull(lfn, st, di, code, p, q, si);
    }
  }

  // A fourth character of the extension
  lemma ExtFull(lfn: seq<WChar>, st: nat, di: nat, code: Codes, p: Part, q: Part, si: nat)
    requires code.Ok() && Where(lfn, st, di, code, p, q, 11, si, 11) && si < |lfn| && !SpaceOrDot(lfn[si])
    ensures Finished(lfn, st, di, code, p, Spoiled(q))
  {
    Open(lfn, st, di, code, p, q, 11, si, 11);
    Around(lfn, di, si, |lfn|);
    assert lfn[di..|lfn|] == ExtFrom(lfn, st, di);
    PartOver(lfn[di..si], lfn[si], lfn[si + 1..|lfn|], 3, code, q);
  }

  // A character left out
  lemma Dropped(lfn: seq<WChar>, st: nat, di: nat, code: Codes, p: Part, q: Part, ni: nat, si: nat, i: nat)
    returns (p': Part, q': Part)
    requires code.Ok() && Where(lfn, st, di, code, p, q, ni, si, i) && (ni == 8 || ni == 11) && si < |lfn|
    requires SpaceOrDot(lfn[si]) && (lfn[si] == 0x2E ==> si + 1 != di)
    ensures Where(lfn, st, di, code, p', q', ni, si + 1, i)
    ensures p' == (if ni == 8 then Spoiled(p) else p) && q' == if ni == 8 then q else Spoiled(q)
  {
    p', q' := p, q;
    Open(lfn, st, di, code, p, q, ni, si, i);
    var from := if ni == 8 then st else di;
    NextOf(lfn, from, si);
    if ni == 8 {
      BodyGoesOn(lfn, st, di, si);
      PartChar(lfn[from..si], lfn[si], 8, code, p, i);
      p' := Spoiled(p);
    } else {
      PartChar(lfn[from..si], lfn[si], 3, code, q, i - 8);
      q' := Spoiled(q);
    }
  }

  lemma MeetLow(high: nat, low: nat, c: nat)
    requires low < 4
    ensures Meet(4 * high + low, c) == 4 * high + Meet(low, c)
  {
    Mod4(4 * high + low, high, low);
    Mod2(4 * high + low, 2 * high + low / 2, low % 2);
    Mod4(low, 0, low);
  }

  function Bits(p: Part, q: Part, ni: nat): nat {
    if ni == 8 then p.b else 4 * p.b + q.b
  }

  // A character stored in the body, or in the extension
  lemma AddedToBody(lfn: seq<WChar>, st: nat, di: nat, code: Codes, p: Part, q: Part, si: nat, i: nat)
    requires code.Ok() && Where(lfn, st, di, code, p, q, 8, si, i) && si < |lfn| && i < 8
    requires !SpaceOrDot(lfn[si]) && si + 1 != di && |p.fn| == 8
    ensures Where(lfn, st, di, code, Extended(p, lfn[si], i, code), q, 8, si + 1, i + 1)
  {
    Open(lfn, st, di, code, p, q, 8, si, i);
    NextOf(lfn, st, si);
    BodyGoesOn(lfn, st, di, si);
    PartChar(lfn[st..si], lfn[si], 8, code, p, i);
  }

  lemma AddedToExt(lfn: seq<WChar>, st: nat, di: nat, code: Codes, p: Part, q: Part, si: nat, i: nat)
    requires code.Ok() && Where(lfn, st, di, code, p, q, 11, si, i) && si < |lfn| && i < 11
    requires !SpaceOrDot(lfn[si]) && |q.fn| == 3
    ensures 8 <= i && Where(lfn, st, di, code, p, Extended(q, lfn[si], i - 8, code), 11, si + 1, i + 1)
  {
    Open(lfn, st, di, code, p, q, 11, si, i);
    NextOf(lfn, di, si);
    PartChar(lfn[di..si], lfn[si], 3, code, q, i - 8);
  }

  lemma Added(lfn: seq<WChar>, st: nat, di: nat, code: Codes, p: Part, q: Part, ni: nat, si: nat, i: nat)
    returns (p': Part, q': Part)
    requires code.Ok() && Where(lfn, st, di, code, p, q, ni, si, i) && (ni == 8 || ni == 11) && si < |lfn| && i < ni
    requires !SpaceOrDot(lfn[si]) && si + 1 != di && |p.fn| == 8 && |q.fn| == 3 && q.b < 4
    ensures Where(lfn, st, di, code, p', q', ni, si + 1, i + 1)
    ensures if ni == 8 then p' == Extended(p, lfn[si], i, code) && q' == q
            else 8 <= i && p' == p && q' == Extended(q, lfn[si], i - 8, code)
    ensures Bits(p', q', ni)
            == if code.Replaced(lfn[si]) then Bits(p, q, ni) else Meet(Bits(p, q, ni), code.Conv(lfn[si]))
  {
    p', q' := p, q;
    if ni == 8 {
      AddedToBody(lfn, st, di, code, p, q, si, i);
      p' := Extended(p, lfn[si], i, code);
    } else {
      AddedToExt(lfn, st, di, code, p, q, si, i);
      q' := Extended(q, lfn[si], i - 8, code);
      MeetLow(p.b, q.b, code.Conv(lfn[si]));
    }
  }

  // The variables of the loop say what body and extension have made of them.
  ghost predicate Agrees(p: Part, q: Part, fn: seq<Byte>, b: nat, ni: nat, lossy: bool, long: bool) {
    && |p.fn| == 8 && |q.fn| == 3 && p.b < 4 && q.b < 4 && fn == p.fn + q.fn && b == Bits(p, q, ni)
    && (ni == 8 ==> q == NOTHING) && lossy == (p.lossy || q.lossy) && long == (p.long || q.long)
  }

  // A character is stored.
  method StoreChar(lfn: seq<WChar>, ghost st: nat, ghost di: nat, si: nat, fn: Short, b: nat, ghost ni: nat, i: nat,
                   lossy: bool, long: bool, code: Codes, ghost p: Part, ghost q: Part)
    returns (fn': Short, b': nat, lossy': bool, long': bool, ghost p': Part, ghost q': Part)
    requires code.Ok() && (ni == 8 || ni == 11) && i < ni && Agrees(p, q, fn, b, ni, lossy, long) && si < |lfn|
    requires Where(lfn, st, di, code, p, q, ni, si, i) && !SpaceOrDot(lfn[si]) && si + 1 != di
    ensures Where(lfn, st, di, code, p', q', ni, si + 1, i + 1) && Agrees(p', q', fn', b', ni, lossy', long')
  {
    var c, lo, lg;
    c, b', lo, lg := PutChar(lfn[si], b, code);
    lossy', long' := lossy || lo, long || lg;
    fn' := fn[i := c];
    p', q' := Added(lfn, st, di, code, p, q, ni, si, i);
  }

  // The loop that fills the short name. lfn is the long name, without spaces and dots at its end.
  method FillShort(lfn: seq<WChar>, st: nat, di: nat, code: Codes)
    returns (fn: Short, b: nat, ni: nat, lossy: bool, long: bool, ghost p: Part, ghost q: Part)
    requires code.Ok() && Places(lfn, st, di)
    ensures Finished(lfn, st, di, code, p, q) && (ni == 8 || ni == 11) && Agrees(p, q, fn, b, ni, lossy, long)
  {
    fn := [0x20, 0x20, 0x20, 0x20, 0x20, 0x20, 0x20, 0x20, 0x20, 0x20, 0x20];
    p, q := Start(lfn, st, di, code);
    var si, i: nat := st, 0;
    b, ni, lossy, long := 0, 8, false, false;
    while true
      invariant si <= |lfn| && (ni == 8 || ni == 11) && i <= ni && Agrees(p, q, fn, b, ni, lossy, long)
      invariant Where(lfn, st, di, code, p, q, ni, si, i)
      decreases |lfn| - si
    {
      if si == |lfn| {
        AtEnd(lfn, st, di, code, p, q, ni, i);
        break;
      }
      var w := lfn[si];
      si := si + 1;
      if w == 0x20 || (w == 0x2E && si != di) {
        p, q := Dropped(lfn, st, di, code, p, q, ni, si - 1, i);
        lossy, long := true, true;
        continue;
      }
      if i >= ni || si == di {
        if ni == 11 {
          InExtNow(lfn, st, di, code, p, q, si - 1, i);
          ExtFull(lfn, st, di, code, p, q, si - 1);
          q := Spoiled(q);
          lossy, long := true, true;
          break;
        }
        p := Turned(lfn, st, di, code, p, q, si - 1, i);
        if si != di { lossy, long := true, true; }
        if si > di { break; }
        si := di;
        i := 8;
        ni := 11;
        b := b * 4 % 256;
        continue;
      }
      fn, b, lossy, long, p, q := StoreChar(lfn, st, di, si - 1, fn, b, ni, i, lossy, long, code, p, q);
      i := i + 1;
    }
  }

  lemma Start(lfn: seq<WChar>, st: nat, di: nat, code: Codes) returns (p: Part, q: Part)
    requires code.Ok() && Places(lfn, st, di)
    ensures p == Part([0x20, 0x20, 0x20, 0x20, 0x20, 0x20, 0x20, 0x20], 0, false, false) && q == NOTHING
    ensures Where(lfn, st, di, code, p, q, 8, st, 0)
  {
    p, q := Part([0x20, 0x20, 0x20, 0x20, 0x20, 0x20, 0x20, 0x20], 0, false, false), NOTHING;
    assert lfn[st..st] == [];
  }

  // In the extension there is no dot to come.
  lemma InExtNow(lfn: seq<WChar>, st: nat, di: nat, code: Codes, p: Part, q: Part, si: nat, i: nat)
    requires code.Ok() && Where(lfn, st, di, code, p, q, 11, si, i)
    ensures si + 1 != di
  {
    Open(lfn, st, di, code, p, q, 11, si, i);
  }

  // The flags, from the cases of body and extension
  function FromCases(h: nat, l: nat, lossy: bool, long: bool, last: bool): Flags {
    var long' := long || h == 3 || l == 3;
    Flags(lossy, long', last, !long' && h == 1, !long' && l == 1)
  }

  // They are two bits each.
  lemma CaseBits(p: Part, q: Part, b: nat, ni: nat)
    requires p.b < 4 && q.b < 4 && b == Bits(p, q, ni) && (ni == 8 ==> q.b == 0)
    ensures var b' := if ni == 8 then b * 4 % 256 else b; b' / 4 % 4 == p.b && b' % 4 == q.b
  {
    Bits4(p.b, q.b);
  }

  lemma Bits4(h: nat, l: nat)
    requires h < 4 && l < 4
    ensures (4 * h + l) / 4 % 4 == h && (4 * h + l) % 4 == l && h * 4 % 256 == 4 * h
  {
  }

  // What the loop leaves is what it should be.
  lemma ShortIs(body: seq<WChar>, ext: seq<WChar>, code: Codes, last: bool, strip: bool, p: Part, q: Part)
    requires code.Ok() && PartDone(body, 8, code, p) && PartDone(ext, 3, code, q)
    ensures p.fn + q.fn == code.Stored(Kept(body), 8) + code.Stored(Kept(ext), 3)
    ensures FromCases(p.b, q.b, p.lossy || q.lossy || strip, p.long || q.long || strip, last)
            == FlagsFor(body, ext, strip, code, last)
  {
    assert DoneIs(0, body, 8, code, p) && DoneIs(0, ext, 3, code, q);
  }

  method FirstByte(fn0: Short) returns (fn: Short)
    ensures fn == Unmarked(fn0)
  {
    fn := fn0;
    if fn[0] == 0xE5 { fn := fn[0 := 0x05]; }
  }

  method FlagBits(b0: nat, ni: nat, lossy: bool, long: bool, last: bool, ghost p: Part, ghost q: Part)
    returns (flags: Flags)
    requires p.b < 4 && q.b < 4 && b0 == Bits(p, q, ni) && (ni == 8 ==> q.b == 0)
    ensures flags == FromCases(p.b, q.b, lossy, long, last)
  {
    var b := b0;
    CaseBits(p, q, b, ni);
    if ni == 8 { b := b * 4 % 256; }
    flags := FromCases(b / 4 % 4, b % 4, lossy, long, last);
  }

  // create_name from the short name on
  method MakeShort(lfn: seq<WChar>, last: bool, code: Codes) returns (fn: Short, flags: Flags)
    requires code.Ok() && lfn != [] && !SpaceOrDot(lfn[|lfn| - 1])
    ensures fn == ShortOf(lfn, code) && flags == FlagsOf(lfn, code, last)
  {
    var si := 0;
    while lfn[si] == 0x20 || lfn[si] == 0x2E
      invariant si < |lfn| && forall k | 0 <= k < si :: SpaceOrDot(lfn[k])
      decreases |lfn| - si
    {
      si := si + 1;
    }
    LeadingIs(lfn, si);
    var strip := si != 0;
    var di := ExtStart(lfn);
    var b, ni, lossy, long;
    ghost var p, q;
    fn, b, ni, lossy, long, p, q := FillShort(lfn, si, di, code);
    ShortIs(BodyOf(lfn), ExtOf(lfn), code, last, strip, p, q);
    fn := FirstByte(fn);
    flags := FlagBits(b, ni, lossy || strip, long || strip, last, p, q);
  }

  /* ---- the entry, and printing it ---- */

  // The entry that dir_register makes: the name, and the flags of letter case
  method Register(fn: Short, flags: Flags) returns (dir: Entry32)
    ensures dir[..11] == fn && dir[12] == (if flags.lowBody then 8 else 0) + (if flags.lowExt then 16 else 0)
    ensures dir[11] == 0 && forall i | 13 <= i < 32 :: dir[i] == 0
  {
    dir := fn + [0, 0, 0, 0, 0, 0, 0, 0, 0, 0, 0, 0, 0, 0, 0, 0, 0, 0, 0, 0, 0];
    dir := dir[12 := (if flags.lowBody then 8 else 0) + (if flags.lowExt then 16 else 0)];
  }

  // The case of a printed character
  function Printed(c: nat, low: bool): nat {
    if low && IsUpper(c) then c + 0x20 else c
  }

  // Bytes from..to of the entry are this part of a name, in one case.
  ghost predicate HoldsPart(dir: Entry32, from: nat, to: nat, part: seq<WChar>, low: bool) {
    && from <= to <= 32 && |part| <= to - from && AllPlain(part) && OneCase(part)
    && dir[from..to] == Padded(part, to - from) && (low <==> Cases(part) == 1)
  }

  lemma {:induction false} NoOtherCase(s: seq<WChar>, i: nat)
    requires i < |s|
    ensures IsUpper(s[i]) ==> Cases(s) >= 2
    ensures IsLower(s[i]) ==> Cases(s) % 2 == 1
  {
    var n := |s| - 1;
    if i < n { NoOtherCase(s[..n], i); }
  }

  lemma PartByte(dir: Entry32, from: nat, to: nat, part: seq<WChar>, i: nat, low: bool)
    requires HoldsPart(dir, from, to, part, low) && from <= i < to
    ensures if i - from < |part| then dir[i] > 0x20 && Printed(dir[i], low) == part[i - from] else dir[i] == 0x20
  {
    assert dir[from..to][i - from] == dir[i];
    if i - from < |part| { NoOtherCase(part, i - from); }
  }

  // What is printed of bytes from..to of an entry: up to a space; in a body 0x05 stands for 0xE5
  function PartText(dir: Entry32, from: nat, to: nat, low: bool, isBody: bool): seq<nat>
    requires from <= to <= 32
    decreases 32 - from
  {
    if from == to || dir[from] == 0x20 then []
    else [Printed(if isBody && dir[from] == 0x05 then 0xE5 else dir[from], low)]
         + PartText(dir, from + 1, to, low, isBody)
  }

  // The printed name: the flags of the entry tell which part is in small letters.
  function NameText(dir: Entry32): seq<nat> {
    var body := PartText(dir, 0, 8, dir[12] / 8 % 2 == 1, true);
    if dir[8] == 0x20 then body else body + [0x2E] + PartText(dir, 8, 11, dir[12] / 16 % 2 == 1, false)
  }

  // One more character has been printed.
  lemma PrintedOn(dir: Entry32, p: seq<nat>, i: nat, to: nat, low: bool, isBody: bool)
    requires i < to <= 32
    ensures dir[i] == 0x20 ==> PartText(dir, i, to, low, isBody) == []
    ensures dir[i] != 0x20 ==>
              var c := if isBody && dir[i] == 0x05 then 0xE5 else dir[i];
              p + PartText(dir, i, to, low, isBody)
              == p + [Printed(c, low)] + PartText(dir, i + 1, to, low, isBody)
  {
  }

  method PrintPart(dir: Entry32, from: nat, to: nat, low: bool, isBody: bool) returns (p: seq<nat>)
    requires from <= to <= 32
    ensures p == PartText(dir, from, to, low, isBody)
  {
    p := [];
    var i := from;
    ghost var text := PartText(dir, from, to, low, isBody);
    while i < to
      invariant from <= i <= to && text == p + PartText(dir, i, to, low, isBody)
    {
      PrintedOn(dir, p, i, to, low, isBody);
      var c: nat := dir[i];
      if c == 0x20 { break; }
      if isBody && c == 0x05 { c := 0xE5; }
      p := p + [Printed(c, low)];
      i := i + 1;
    }
  }

  // get_fileinfo: the name as it is printed
  method GetInfo(dir: Entry32) returns (p: seq<nat>)
    ensures p == NameText(dir)
  {
    var nt: nat := dir[12];
    p := PrintPart(dir, 0, 8, nt / 8 % 2 == 1, true);
    if dir[8] != 0x20 {
      var e := PrintPart(dir, 8, 11, nt / 16 % 2 == 1, false);
      p := p + [0x2E] + e;
    }
  }

  // A part of a name in one case is printed as it is.
  lemma {:induction false} PartPrinted(dir: Entry32, from: nat, to: nat, part: seq<WChar>, low: bool, isBody: bool,
                                       i: nat)
    requires HoldsPart(dir, from, to, part, low) && from <= i <= to && i - from <= |part|
    ensures PartText(dir, i, to, low, isBody) == part[i - from..]
    decreases 32 - i
  {
    if i < to {
      NextPrinted(dir, from, to, part, low, isBody, i);
      if i - from < |part| {
        PartPrinted(dir, from, to, part, low, isBody, i + 1);
        OffTheFront(part, i - from);
      }
    }
  }

  lemma NextPrinted(dir: Entry32, from: nat, to: nat, part: seq<WChar>, low: bool, isBody: bool, i: nat)
    requires HoldsPart(dir, from, to, part, low) && from <= i < to && i - from <= |part|
    ensures PartText(dir, i, to, low, isBody)
            == if i - from < |part| then [part[i - from]] + PartText(dir, i + 1, to, low, isBody) else []
  {
    PartByte(dir, from, to, part, i, low);
  }

  lemma OffTheFront(s: seq<WChar>, i: nat)
    requires i < |s|
    ensures s[i..] == [s[i]] + s[i + 1..]
  {
  }

  lemma NamePrinted(dir: Entry32, body: seq<WChar>, ext: seq<WChar>)
    requires HoldsPart(dir, 0, 8, body, dir[12] / 8 % 2 == 1) && HoldsPart(dir, 8, 11, ext, dir[12] / 16 % 2 == 1)
    ensures NameText(dir) == if ext == [] then body else body + [0x2E] + ext
  {
    PartPrinted(dir, 0, 8, body, dir[12] / 8 % 2 == 1, true, 0);
    PartPrinted(dir, 8, 11, ext, dir[12] / 16 % 2 == 1, false, 8);
    PartByte(dir, 8, 11, ext, 8, dir[12] / 16 % 2 == 1);
  }

  // Where a segment of a path ends
  predicate EndsSegment(c: nat) {
    c < ' ' as nat || c == '/' as nat || c == '\\' as nat
  }

  // The characters of the segment that the path begins with
  function SegmentOf(path: seq<Byte>): (s: seq<Byte>)
    ensures |s| <= |path| && (path != [] && EndsSegment(path[|path| - 1]) ==> |s| < |path|)
  {
    if path == [] || EndsSegment(path[0]) then [] else [path[0]] + SegmentOf(path[1..])
  }

  // The segment in Unicode
  function Unicode(s: seq<Byte>, code: Codes): (r: seq<WChar>)
    ensures |r| == |s|
  {
    if s == [] then [] else Unicode(s[..|s| - 1], code) + [code.uni(s[|s| - 1])]
  }

  lemma {:induction false} InSegment(path: seq<Byte>, k: nat)
    requires k <= |SegmentOf(path)| < |path|
    ensures EndsSegment(path[k]) <==> k == |SegmentOf(path)|
    ensures k < |SegmentOf(path)| ==> SegmentOf(path)[k] == path[k]
  {
    if k > 0 { InSegment(path[1..], k - 1); }
  }

  lemma {:induction false} UnicodeAt(s: seq<Byte>, code: Codes, k: nat)
    requires k < |s|
    ensures Unicode(s, code)[k] == code.uni(s[k])
  {
    if k < |s| - 1 { UnicodeAt(s[..|s| - 1], code, k); }
  }

  // The character exists and may be in a long name.
  predicate Allowed(c: WChar) {
    c != 0 && !(c < 0x80 && NotLong(c))
  }

  // A segment that is not too long, all of allowed characters
  predicate Acceptable(s: seq<WChar>) {
    |s| <= MAX_LFN && forall k | 0 <= k < |s| :: Allowed(s[k])
  }

  // The characters of the segment, in Unicode; what cannot be in a long name is refused.
  method TakeSegment(path: seq<Byte>, code: Codes) returns (ok: bool, lfn: seq<WChar>, si: nat)
    requires path != [] && path[|path| - 1] == 0 && code.Ok()
    ensures ok <==> Acceptable(Unicode(SegmentOf(path), code))
    ensures ok ==> lfn == Unicode(SegmentOf(path), code) && si == |lfn| + 1 <= |path|
  {
    ghost var seg := SegmentOf(path);
    ghost var uni := Unicode(seg, code);
    assert |seg| < |path|;
    lfn, si := [], 0;
    while true
      invariant si <= |seg| && |lfn| == si <= MAX_LFN && lfn == uni[..si]
      invariant forall k | 0 <= k < si :: Allowed(uni[k])
      decreases |path| - si
    {
      var w: WChar := path[si];
      InSegment(path, si);
      si := si + 1;
      if w < 0x20 || w == 0x2F || w == 0x5C { break; }
      if |lfn| >= MAX_LFN { return false, lfn, si; }
      w := code.uni(w);
      UnicodeAt(seg, code, si - 1);
      if w == 0 { return false, lfn, si; }
      Codepoints(w);
      if w < 0x80 && w in [0x22, 0x2A, 0x3A, 0x3C, 0x3E, 0x3F, 0x7C, 0x7F] { return false, lfn, si; }
      lfn := lfn + [w];
    }
    ok := true;
  }

  datatype NameResult =
    | Named(fn: Short, flags: Flags, lfn: seq<WChar>)
    | DotEntry(dots: nat, last: bool)
    | InvalidName

  // What create_name makes of the segment s
  function NameOf(s: seq<WChar>, last: bool, code: Codes): NameResult
    requires code.Ok()
  {
    if !Acceptable(s) then InvalidName
    else if s == [0x2E] then DotEntry(1, last)
    else if s == [0x2E, 0x2E] then DotEntry(2, last)
    else if Stripped(s) == [] then InvalidName
    else Named(ShortOf(Stripped(s), code), FlagsOf(Stripped(s), code, last), Stripped(s))
  }

  // Spaces and dots at the end are taken off.
  method Strip(lfn: seq<WChar>) returns (r: seq<WChar>)
    ensures r == Stripped(lfn)
  {
    var di := |lfn|;
    assert lfn[..|lfn|] == lfn;
    while di > 0 && (lfn[di - 1] == 0x20 || lfn[di - 1] == 0x2E)
      invariant 0 <= di <= |lfn| && Stripped(lfn) == Stripped(lfn[..di])
    {
      assert lfn[..di][..di - 1] == lfn[..di - 1];
      di := di - 1;
    }
    r := lfn[..di];
  }

  // create_name
  method CreateName(path: seq<Byte>, code: Codes) returns (res: NameResult)
    requires path != [] && path[|path| - 1] == 0 && code.Ok()
    ensures |SegmentOf(path)| < |path|
    ensures res == NameOf(Unicode(SegmentOf(path), code), path[|SegmentOf(path)|] < 0x20, code)
  {
    var ok, lfn, si := TakeSegment(path, code);
    if !ok { return InvalidName; }
    var last := path[si - 1] < 0x20;
    if lfn == [0x2E] { return DotEntry(1, last); }
    if lfn == [0x2E, 0x2E] { return DotEntry(2, last); }
    lfn := Strip(lfn);
    if lfn == [] { return InvalidName; }
    var fn, flags := MakeShort(lfn, last, code);
    res := Named(fn, flags, lfn);
  }

  /* ---- what the flags mean ---- */

  // Nothing is lost exactly of names that are of the form body.ext or body, with no more than 8 and 3 characters,
  // none of which is a space or a dot or stored as another one. The short name then is their padded form.
  lemma NothingLost(s: seq<WChar>, code: Codes)
    requires code.Ok() && s != [] && !SpaceOrDot(s[|s| - 1])
    ensures !Lost(s, code) <==> exists body, ext :: Fits83(s, body, ext, code)
    ensures !Lost(s, code) ==>
              Fits83(s, BodyOf(s), ExtOf(s), code)
              && ShortOf(s, code) == Unmarked(code.Stored(BodyOf(s), 8) + code.Stored(ExtOf(s), 3))
    ensures FlagsOf(s, code, false).loss == Lost(s, code) && (Lost(s, code) ==> FlagsOf(s, code, false).long)
  {
    if !Lost(s, code) {
      FitsWhole(s, code);
    }
    if body, ext :| Fits83(s, body, ext, code) {
      PartsOf83(s, body, ext, code);
    }
  }

  // s is body.ext, or body, and all of it is stored.
  ghost predicate Fits83(s: seq<WChar>, body: seq<WChar>, ext: seq<WChar>, code: Codes)
    requires code.Ok()
  {
    && 1 <= |body| <= 8 && |ext| <= 3 && s == (if ext == [] then body else body + [0x2E] + ext)
    && AsItIs(body, code) && AsItIs(ext, code)
  }

  predicate AsItIs(s: seq<WChar>, code: Codes)
    requires code.Ok()
  {
    forall k | 0 <= k < |s| :: !SpaceOrDot(s[k]) && !code.Replaced(s[k])
  }

  lemma {:induction false} KeepsAll(s: seq<WChar>)
    ensures Kept(s) == s <==> forall k | 0 <= k < |s| :: !SpaceOrDot(s[k])
  {
    if s != [] {
      var n := |s| - 1;
      KeepsAll(s[..n]);
      assert s == s[..n] + [s[n]];
      if Kept(s) == s { assert forall k | 0 <= k < |s| :: !SpaceOrDot(Kept(s)[k]); }
    }
  }

  lemma Rejoined(s: seq<WChar>, di: nat)
    requires Places(s, 0, di) && s != [] && !SpaceOrDot(s[|s| - 1])
    ensures var body, ext := BodyFrom(s, 0, di), ExtFrom(s, 0, di);
            body != [] && s == if ext == [] then body else body + [0x2E] + ext
  {
    if di > 0 {
      assert s == s[0..di - 1] + [0x2E] + s[di..];
    } else {
      assert s[0..] == s;
    }
  }

  lemma FitsWhole(s: seq<WChar>, code: Codes)
    requires code.Ok() && s != [] && !SpaceOrDot(s[|s| - 1]) && !Lost(s, code)
    ensures Fits83(s, BodyOf(s), ExtOf(s), code) && Kept(BodyOf(s)) == BodyOf(s) && Kept(ExtOf(s)) == ExtOf(s)
  {
    var body, ext := BodyOf(s), ExtOf(s);
    KeepsAll(body);
    KeepsAll(ext);
    Rejoined(s, BehindDot(s));
  }

  lemma Sides(body: seq<WChar>, ext: seq<WChar>)
    ensures var s := body + [0x2E] + ext; s[0..|body|] == body && s[|body| + 1..] == ext
  {
  }

  // The parts of such a name are found.
  lemma PartsOf83(s: seq<WChar>, body: seq<WChar>, ext: seq<WChar>, code: Codes)
    requires code.Ok() && Fits83(s, body, ext, code)
    ensures BodyOf(s) == body && ExtOf(s) == ext && !Lost(s, code) && Kept(body) == body && Kept(ext) == ext
  {
    KeepsAll(body);
    KeepsAll(ext);
    FindParts(s, body, ext, code);
  }

  lemma FindParts(s: seq<WChar>, body: seq<WChar>, ext: seq<WChar>, code: Codes)
    requires code.Ok() && Fits83(s, body, ext, code)
    ensures BodyOf(s) == body && ExtOf(s) == ext && Leading(s) == 0
  {
    assert s[0] == body[0];
    if ext == [] {
      BehindDotIs(s, 0);
      assert s[0..] == body;
    } else {
      assert forall k | |body| + 1 <= k < |s| :: s[k] == ext[k - |body| - 1];
      BehindDotIs(s, |body| + 1);
      Sides(body, ext);
    }
  }

  // Of plain characters, the short name has the capitals, and the flags tell the cases.
  lemma PlainName(s: seq<WChar>, body: seq<WChar>, ext: seq<WChar>, code: Codes, last: bool)
    requires code.Ok() && Is83(s, body, ext)
    ensures ShortOf(s, code) == Padded(body, 8) + Padded(ext, 3)
    ensures var f := FlagsOf(s, code, last);
            && !f.loss && f.last == last && (f.long <==> !(OneCase(body) && OneCase(ext)))
            && (!f.long ==> f.lowBody == (Cases(body) == 1) && f.lowExt == (Cases(ext) == 1))
  {
    PlainPart(body, 8, code);
    PlainPart(ext, 3, code);
    PartsOf83(s, body, ext, code);
    PlainFirst(body, ext);
  }

  lemma PlainFirst(body: seq<WChar>, ext: seq<WChar>)
    requires 1 <= |body| <= 8 && |ext| <= 3 && AllPlain(body) && AllPlain(ext)
    ensures var fn := Padded(body, 8) + Padded(ext, 3); fn[0] < 0x80
  {
    assert Plain(body[0]);
  }

  lemma PlainPart(s: seq<WChar>, n: nat, code: Codes)
    requires code.Ok() && AllPlain(s) && |s| <= n
    ensures AsItIs(s, code) && code.Stored(s, n) == Padded(s, n) && code.CasesIn(s) == Cases(s) && !HasHigh(s)
  {
    SameCases(s, code);
  }

  lemma {:induction false} SameCases(s: seq<WChar>, code: Codes)
    requires code.Ok() && AllPlain(s)
    ensures code.CasesIn(s) == Cases(s)
  {
    if s != [] { SameCases(s[..|s| - 1], code); }
  }

  // A plain name with each part in one case needs no long entry, and is printed as it was.
  method RoundTrip(path: seq<Byte>, code: Codes, ghost body: seq<WChar>, ghost ext: seq<WChar>)
    returns (res: NameResult, printed: seq<nat>)
    requires path != [] && path[|path| - 1] == 0 && code.Ok() && Is83(SegmentOf(path), body, ext)
    ensures res.Named? && res.lfn == SegmentOf(path) && !res.flags.loss
    ensures res.flags.long <==> !(OneCase(body) && OneCase(ext))
    ensures !res.flags.long ==> printed == SegmentOf(path)
  {
    res := CreateName(path, code);
    PlainSegment(SegmentOf(path), body, ext, code);
    PlainName(SegmentOf(path), body, ext, code, path[|SegmentOf(path)|] < 0x20);
    var dir := Register(res.fn, res.flags);
    printed := GetInfo(dir);
    if !res.flags.long {
      EntryHolds(res.fn, dir, res.flags, body, ext);
      NamePrinted(dir, body, ext);
    }
  }

  lemma PlainChars(s: seq<WChar>, body: seq<WChar>, ext: seq<WChar>)
    requires Is83(s, body, ext)
    ensures 1 <= |s| <= 12 && s[0] != 0x2E && !SpaceOrDot(s[|s| - 1])
    ensures forall k | 0 <= k < |s| :: s[k] < 0x80 && Allowed(s[k])
  {
    assert Plain(body[0]) && Plain(if ext == [] then body[|body| - 1] else ext[|ext| - 1]);
    forall k | 0 <= k < |s|
      ensures s[k] < 0x80 && Allowed(s[k])
    {
      assert k == |body| || Plain(if k < |body| then body[k] else ext[k - |body| - 1]);
    }
  }

  lemma PlainSegment(s: seq<Byte>, body: seq<WChar>, ext: seq<WChar>, code: Codes)
    requires code.Ok() && Is83(s, body, ext)
    ensures Unicode(s, code) == s && Acceptable(s) && Stripped(s) == s && s != [0x2E] && s != [0x2E, 0x2E]
  {
    PlainChars(s, body, ext);
    forall k | 0 <= k < |s|
      ensures Unicode(s, code)[k] == s[k]
    {
      UnicodeAt(s, code, k);
    }
  }

  lemma EntryHolds(fn: Short, dir: Entry32, flags: Flags, body: seq<WChar>, ext: seq<WChar>)
    requires |body| <= 8 && |ext| <= 3 && AllPlain(body) && AllPlain(ext) && OneCase(body) && OneCase(ext)
    requires fn == Padded(body, 8) + Padded(ext, 3) && dir[..11] == fn
    requires dir[12] == (if flags.lowBody then 8 else 0) + (if flags.lowExt then 16 else 0)
    requires flags.lowBody == (Cases(body) == 1) && flags.lowExt == (Cases(ext) == 1)
    ensures HoldsPart(dir, 0, 8, body, dir[12] / 8 % 2 == 1) && HoldsPart(dir, 8, 11, ext, dir[12] / 16 % 2 == 1)
  {
    NtBits(flags.lowBody, flags.lowExt);
    TwoParts(dir, Padded(body, 8), Padded(ext, 3));
  }

  lemma NtBits(body: bool, ext: bool)
    ensures var nt := (if body then 8 else 0) + (if ext then 16 else 0);
            (nt / 8 % 2 == 1 <==> body) && (nt / 16 % 2 == 1 <==> ext)
  {
  }

  lemma TwoParts(dir: Entry32, a: seq<nat>, b: seq<nat>)
    requires |a| == 8 && |b| == 3 && dir[..11] == a + b
    ensures dir[0..8] == a && dir[8..11] == b
  {
    assert dir[0..8] == dir[..11][..8] && dir[8..11] == dir[..11][8..];
  }
}
