// The entries of a file allocation table as its bytes hold them: 12, 16 or 28 bits wide.
module FatEntries {
  type Byte = b: nat | b < 256

  datatype FatType = Fat12 | Fat16 | Fat32

  // Entries are values below this.
  function Width(t: FatType): nat {
    match t
    case Fat12 => 0x1000
    case Fat16 => 0x1_0000
    case Fat32 => 0x1000_0000
  }

  // What of a value is kept in an entry
  function Masked(t: FatType, v: nat): (m: nat)
    ensures m < Width(t)
    ensures v < Width(t) ==> m == v
  {
    match t
    case Fat12 => v % 0x1000
    case Fat16 => v % 0x1_0000
    case Fat32 => v % 0x1000_0000
  }

  // Where the entry of cluster c begins, and how many bytes it touches
  function Pos(t: FatType, c: nat): nat {
    match t
    case Fat12 => c + c / 2
    case Fat16 => 2 * c
    case Fat32 => 4 * c
  }

  function Span(t: FatType): nat {
    if t.Fat32? then 4 else 2
  }

  predicate Inside(t: FatType, size: nat, c: nat) {
    Pos(t, c) + Span(t) <= size
  }

  // LD_WORD and LD_DWORD
  function Word(lo: Byte, hi: Byte): (w: nat)
    ensures w < 0x1_0000
  {
    lo + 256 * hi
  }

  function Dword(b0: Byte, b1: Byte, b2: Byte, b3: Byte): (d: nat)
    ensures d < 0x1_0000_0000
  {
    b0 + 0x100 * b1 + 0x1_0000 * b2 + 0x100_0000 * b3
  }

  // LD_DWORD with the upper four bits masked
  function Dword28(b0: Byte, b1: Byte, b2: Byte, b3: Byte): (d: nat)
    ensures d < 0x1000_0000
  {
    Dword(b0, b1, b2, b3 % 16)
  }

  lemma MaskedDword(b0: Byte, b1: Byte, b2: Byte, b3: Byte)
    ensures Dword(b0, b1, b2, b3) % 0x1000_0000 == Dword28(b0, b1, b2, b3)
  {
    assert b3 == 16 * (b3 / 16) + b3 % 16;
    Rest28(Dword(b0, b1, b2, b3), b3 / 16, Dword28(b0, b1, b2, b3));
  }

  lemma Rest28(v: nat, q: nat, r: nat)
    requires v == 0x1000_0000 * q + r && r < 0x1000_0000
    ensures v % 0x1000_0000 == r
  {
  }

  function ByteOf(v: nat, k: nat): Byte
    requires k < 4
  {
    match k
    case 0 => v % 256
    case 1 => v / 0x100 % 256
    case 2 => v / 0x1_0000 % 256
    case _ => v / 0x100_0000 % 256
  }

  // The value of an entry
  function Entry(t: FatType, fat: seq<Byte>, c: nat): (e: nat)
    requires Inside(t, |fat|, c)
    ensures e < Width(t)
  {
    var p := Pos(t, c);
    match t
    case Fat12 =>
      var w := Word(fat[p], fat[p + 1]);
      if c % 2 == 1 then w / 16 else w % 0x1000
    case Fat16 => Word(fat[p], fat[p + 1])
    case Fat32 => Dword28(fat[p], fat[p + 1], fat[p + 2], fat[p + 3])
  }

  lemma Low12Bits(lo: Byte, hi: Byte)
    ensures Word(lo, hi) % 0x1000 == lo + 256 * (hi % 16)
  {
    assert hi == 16 * (hi / 16) + hi % 16;
  }

  lemma High12Bits(lo: Byte, hi: Byte)
    ensures Word(lo, hi) / 16 == lo / 16 + 16 * hi
  {
    assert lo == 16 * (lo / 16) + lo % 16;
  }

  lemma DwordDigits(a: Byte, b: Byte, c: Byte, d: Byte)
    ensures var e := Dword(a, b, c, d);
            e % 256 == a && e / 0x100 % 256 == b && e / 0x1_0000 % 256 == c && e / 0x100_0000 == d
  {
    var e := Dword(a, b, c, d);
    assert e / 0x100 == b + 0x100 * c + 0x1_0000 * d;
    assert e / 0x1_0000 == c + 0x100 * d;
  }

  lemma Over16(x: nat, y: nat)
    requires x < 16
    ensures (x + 16 * y) % 16 == x && (x + 16 * y) / 16 == y
  {
  }

  lemma Over256(x: nat, y: nat)
    requires x < 256
    ensures (x + 256 * y) % 256 == x && (x + 256 * y) / 256 == y
  {
  }

  // Which bytes, and which halves of bytes, hold which digits of an entry, the least significant first
  lemma Digits12(fat: seq<Byte>, c: nat)
    requires Inside(Fat12, |fat|, c)
    ensures var (e, p) := (Entry(Fat12, fat, c), 3 * (c / 2));
            if c % 2 == 0 then e % 256 == fat[p] && e / 256 == fat[p + 1] % 16
            else e % 16 == fat[p + 1] / 16 && e / 16 == fat[p + 2]
  {
    assert Pos(Fat12, c) == 3 * (c / 2) + c % 2;
    if c % 2 == 0 {
      Low12Bits(fat[Pos(Fat12, c)], fat[Pos(Fat12, c) + 1]);
      Over256(fat[3 * (c / 2)], fat[3 * (c / 2) + 1] % 16);
    } else {
      High12Bits(fat[Pos(Fat12, c)], fat[Pos(Fat12, c) + 1]);
      Over16(fat[3 * (c / 2) + 1] / 16, fat[3 * (c / 2) + 2]);
    }
  }

  lemma Digits16(fat: seq<Byte>, c: nat)
    requires Inside(Fat16, |fat|, c)
    ensures var e := Entry(Fat16, fat, c); e % 256 == fat[2 * c] && e / 256 == fat[2 * c + 1]
  {
  }

  lemma Digits32(fat: seq<Byte>, c: nat)
    requires Inside(Fat32, |fat|, c)
    ensures var e := Entry(Fat32, fat, c);
            && e % 256 == fat[4 * c] && e / 0x100 % 256 == fat[4 * c + 1]
            && e / 0x1_0000 % 256 == fat[4 * c + 2] && e / 0x100_0000 == fat[4 * c + 3] % 16
  {
    DwordDigits(fat[4 * c], fat[4 * c + 1], fat[4 * c + 2], fat[4 * c + 3] % 16);
  }

  // The two bytes that a 12-bit entry shares with its neighbours: what shifting v up by four bits and
  // keeping a nibble of the old byte leaves in a byte
  function Low12(odd: bool, b: Byte, v: nat): Byte {
    if odd then b % 16 + 16 * (v % 16) else v % 256
  }

  function High12(odd: bool, b: Byte, v: nat): Byte {
    if odd then v / 16 % 256 else b / 16 * 16 + v / 256 % 16
  }

  // The table with v stored for cluster c
  function Stored(t: FatType, fat: seq<Byte>, c: nat, v: nat): (r: seq<Byte>)
    requires Inside(t, |fat|, c)
    ensures |r| == |fat|
  {
    var p := Pos(t, c);
    match t
    case Fat12 => fat[p := Low12(c % 2 == 1, fat[p], v)][p + 1 := High12(c % 2 == 1, fat[p + 1], v)]
    case Fat16 => fat[p := ByteOf(v, 0)][p + 1 := ByteOf(v, 1)]
    case Fat32 => fat[p := ByteOf(v, 0)][p + 1 := ByteOf(v, 1)][p + 2 := ByteOf(v, 2)][p + 3 := ByteOf(v, 3)]
  }

  lemma DwordOf(v: nat)
    ensures Dword(ByteOf(v, 0), ByteOf(v, 1), ByteOf(v, 2), ByteOf(v, 3)) == v % 0x1_0000_0000
  {
    var v1, v2, v3 := v / 0x100, v / 0x1_0000, v / 0x100_0000;
    Halves(v);
    assert v == 0x100 * v1 + v % 0x100 && v1 == 0x100 * v2 + v1 % 0x100;
    assert v2 == 0x100 * v3 + v2 % 0x100 && v3 == 0x100 * (v3 / 0x100) + v3 % 0x100;
    Remainder(v, v3 / 0x100, Dword(ByteOf(v, 0), ByteOf(v, 1), ByteOf(v, 2), ByteOf(v, 3)));
  }

  lemma DwordSmall(v: nat)
    requires v < 0x1_0000_0000
    ensures Dword(ByteOf(v, 0), ByteOf(v, 1), ByteOf(v, 2), ByteOf(v, 3)) == v
  {
    DwordOf(v);
    Remainder(v, 0, v);
  }

  lemma Halves(v: nat)
    ensures v / 0x1_0000 == v / 0x100 / 0x100 && v / 0x100_0000 == v / 0x1_0000 / 0x100
  {
  }

  lemma Remainder(v: nat, q: nat, r: nat)
    requires v == 0x1_0000_0000 * q + r && r < 0x1_0000_0000
    ensures v % 0x1_0000_0000 == r
  {
  }

  lemma WordOf(v: nat)
    ensures Word(ByteOf(v, 0), ByteOf(v, 1)) == v % 0x1_0000
  {
    assert v == 0x1_0000 * (v / 0x100 / 0x100) + Word(ByteOf(v, 0), ByteOf(v, 1));
  }

  lemma TopBits(v: nat)
    ensures v % 0x1_0000_0000 % 0x1000_0000 == v % 0x1000_0000
  {
    var q, a := v / 0x1_0000_0000, v % 0x1_0000_0000;
    assert v == 0x1_0000_0000 * q + a && a == 0x1000_0000 * (a / 0x1000_0000) + a % 0x1000_0000;
    Mod28(v, 16 * q + a / 0x1000_0000, a % 0x1000_0000);
  }

  lemma Mod28(v: nat, q: nat, r: nat)
    requires v == 0x1000_0000 * q + r && r < 0x1000_0000
    ensures v % 0x1000_0000 == r
  {
  }

  lemma Own12(odd: bool, b: Byte, d: Byte, v: nat)
    ensures var w := Word(Low12(odd, b, v), High12(odd, d, v)); (if odd then w / 16 else w % 0x1000) == v % 0x1000
  {
    if odd { OwnOdd(b, d, v); } else { OwnEven(b, d, v); }
  }

  lemma OwnOdd(b: Byte, d: Byte, v: nat)
    ensures Word(Low12(true, b, v), High12(true, d, v)) / 16 == v % 0x1000
  {
    LowNibble(v);
    Div16(Word(Low12(true, b, v), High12(true, d, v)), v % 16 + 16 * (v / 16 % 256), b % 16);
  }

  lemma OwnEven(b: Byte, d: Byte, v: nat)
    ensures Word(Low12(false, b, v), High12(false, d, v)) % 0x1000 == v % 0x1000
  {
    LowByte(v);
    Mod12(Word(Low12(false, b, v), High12(false, d, v)), d / 16, v % 256 + 256 * (v / 256 % 16));
  }

  lemma Div16(v: nat, q: nat, r: nat)
    requires v == 16 * q + r && r < 16
    ensures v / 16 == q
  {
  }

  lemma Mod12(v: nat, q: nat, r: nat)
    requires v == 0x1000 * q + r && r < 0x1000
    ensures v % 0x1000 == r
  {
  }

  lemma LowNibble(v: nat)
    ensures v % 0x1000 == v % 16 + 16 * (v / 16 % 256)
  {
    var x := v / 16;
    assert x == 256 * (x / 256) + x % 256;
    Mod12(v, x / 256, v % 16 + 16 * (x % 256));
  }

  lemma LowByte(v: nat)
    ensures v % 0x1000 == v % 256 + 256 * (v / 256 % 16)
  {
    var y := v / 256;
    assert y == 16 * (y / 16) + y % 16;
    Mod12(v, y / 16, v % 256 + 256 * (y % 16));
  }

  // The neighbour that shares the low byte keeps its high nibble, the one that shares the high byte
  // its low nibble.
  lemma Shared12(b: Byte, v: nat)
    ensures Low12(true, b, v) % 16 == b % 16 && High12(false, b, v) / 16 == b / 16
  {
  }

  // Storing changes the one entry and no other.
  lemma StoredEntry(t: FatType, fat: seq<Byte>, c: nat, v: nat)
    requires Inside(t, |fat|, c)
    ensures Entry(t, Stored(t, fat, c, v), c) == Masked(t, v)
  {
    match t
    case Fat12 => Own12(c % 2 == 1, fat[Pos(t, c)], fat[Pos(t, c) + 1], v);
    case Fat16 => WordOf(v);
    case Fat32 =>
      MaskedDword(ByteOf(v, 0), ByteOf(v, 1), ByteOf(v, 2), ByteOf(v, 3));
      DwordOf(v);
      TopBits(v);
  }

  lemma Halving(c: nat, d: nat)
    requires c < d
    ensures c + c / 2 + 1 <= d + d / 2
    ensures c % 2 == 1 || c + 1 < d ==> c + c / 2 + 1 < d + d / 2
    ensures c % 2 == 0 && d == c + 1 ==> c + c / 2 + 1 == d + d / 2
  {
  }

  lemma OtherEntry12(fat: seq<Byte>, c: nat, v: nat, d: nat)
    requires Inside(Fat12, |fat|, c) && Inside(Fat12, |fat|, d) && d != c
    ensures Entry(Fat12, Stored(Fat12, fat, c, v), d) == Entry(Fat12, fat, d)
  {
    var p, q := Pos(Fat12, c), Pos(Fat12, d);
    if c < d { Halving(c, d); } else { Halving(d, c); }
    if p + 1 == q {
      Shared12(fat[q], v);
      Upper(High12(false, fat[q], v), fat[q], fat[q + 1]);
    } else if q + 1 == p {
      Shared12(fat[p], v);
      Lower(fat[q], Low12(true, fat[p], v), fat[p]);
    }
  }

  lemma Upper(b: Byte, b': Byte, hi: Byte)
    requires b / 16 == b' / 16
    ensures Word(b, hi) / 16 == Word(b', hi) / 16
  {
  }

  lemma Lower(lo: Byte, b: Byte, b': Byte)
    requires b % 16 == b' % 16
    ensures Word(lo, b) % 0x1000 == Word(lo, b') % 0x1000
  {
    Mod12(Word(lo, b), b / 16, 256 * (b % 16) + lo);
    Mod12(Word(lo, b'), b' / 16, 256 * (b' % 16) + lo);
  }

  lemma OtherEntry(t: FatType, fat: seq<Byte>, c: nat, v: nat, d: nat)
    requires Inside(t, |fat|, c) && Inside(t, |fat|, d) && d != c
    ensures Entry(t, Stored(t, fat, c, v), d) == Entry(t, fat, d)
  {
    if t.Fat12? { OtherEntry12(fat, c, v, d); }
  }
}
