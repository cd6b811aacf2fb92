// SHA-1 over a message that arrives in pieces. The compression function is that of the engine, and
// is left open here.
module Sha1 {
  import opened Words

  const W64: nat := 0x1_0000_0000_0000_0000
  const BLOCKSIZE: nat := 32

  type Byte = b: nat | b < 256
  type Word = w: nat | w < W32
  type State = s: seq<Word> | |s| == 5 witness [0, 0, 0, 0, 0]

  const INITIAL: State := [0x6745_2301, 0xEFCD_AB89, 0x98BA_DCFE, 0x1032_5476, 0xC3D2_E1F0]

  // The compression function over all whole 64-byte blocks of m
  ghost function Fold(f: (State, seq<Byte>) -> State, st: State, m: seq<Byte>): State
    decreases |m|
  {
    if |m| < 64 then st else Fold(f, f(st, m[..64]), m[64..])
  }

  lemma {:induction false} FoldConcat(f: (State, seq<Byte>) -> State, st: State, a: seq<Byte>, b: seq<Byte>)
    requires |a| % 64 == 0
    ensures Fold(f, st, a + b) == Fold(f, Fold(f, st, a), b)
    decreases |a|
  {
    if a == [] {
      assert a + b == b;
    } else {
      assert (a + b)[..64] == a[..64];
      assert (a + b)[64..] == a[64..] + b;
      FoldConcat(f, f(st, a[..64]), a[64..], b);
    }
  }

  // The bytes of m that do not fill a block yet
  function Rest(m: seq<Byte>): (r: seq<Byte>)
    ensures |r| == |m| % 64
  {
    m[|m| - |m| % 64..]
  }

  function Whole(m: seq<Byte>): (r: seq<Byte>)
    ensures |r| % 64 == 0 && r + Rest(m) == m
  {
    assert m[..|m| - |m| % 64] + Rest(m) == m;
    m[..|m| - |m| % 64]
  }

  // The 64-bit count of bits, in two words
  ghost predicate Counts(low: nat, high: nat, n: nat) {
    low < W32 && high < W32 && exists q: nat :: CountsWith(low, high, n, q)
  }

  ghost predicate CountsWith(low: nat, high: nat, n: nat, q: nat) {
    8 * n == q * W64 + high * W32 + low
  }

  lemma SplitBits(len: nat)
    requires len < W32
    ensures 8 * len == len / 0x2000_0000 * W32 + U32(8 * len)
  {
  }

  lemma Carry(low: nat, lo: nat)
    requires low < W32 && lo < W32
    ensures low + lo == (if U32(low + lo) < lo then W32 else 0) + U32(low + lo)
  {
  }

  lemma HighWord(high: nat, carry: nat, hi: nat) returns (over: nat)
    requires high < W32 && carry <= 1
    ensures high + carry + hi == over * W32 + U32(U32(high + carry) + hi)
  {
    var inner := (high + carry) / W32;
    over := inner + (U32(high + carry) + hi) / W32;
  }

  lemma Combine(q: nat, over: nat, a: nat, b: nat)
    ensures (q + over) * W64 + a * W32 + b == q * W64 + (over * W32 + a) * W32 + b
  {
  }

  lemma AddToCount(low: nat, high: nat, n: nat, len: nat, low': nat, high': nat)
    requires Counts(low, high, n) && len < W32
    requires low' == U32(low + U32(8 * len))
    requires high' == U32(U32(high + if low' < U32(8 * len) then 1 else 0) + len / 0x2000_0000)
    ensures Counts(low', high', n + len)
  {
    var q: nat :| CountsWith(low, high, n, q);
    SplitBits(len);
    Carry(low, U32(8 * len));
    var over := HighWord(high, if low' < U32(8 * len) then 1 else 0, len / 0x2000_0000);
    Combine(q, over, high', low');
    assert CountsWith(low', high', n + len, q + over);
  }

  // (count[0] >> 3) & 63
  lemma Offset(low: nat, high: nat, n: nat)
    requires Counts(low, high, n)
    ensures low / 8 % 64 == n % 64
  {
    var q: nat :| CountsWith(low, high, n, q);
    OffsetWithin(low, q * 0x0080_0000_0000_0000 + high * 0x0080_0000, n);
  }

  lemma OffsetWithin(low: nat, k: nat, n: nat)
    requires 8 * n == 512 * k + low
    ensures low / 8 % 64 == n % 64
  {
    var r: nat := n - 64 * k;
    assert low == 8 * r;
    assert low / 8 == r;
    Shift64(k, r);
  }

  lemma Shift64(k: nat, r: nat)
    ensures (64 * k + r) % 64 == r % 64
  {
  }

  // A stretch of whole blocks
  predicate WholeBlocks(i: int, j: int) {
    (j - i) % 64 == 0
  }

  /* ---- the 32-bit arithmetic of the burst loops ---- */

  // Calls longer than this, together with what is buffered, are not hashed as they should be.
  const LONGEST: nat := W32 - 1985

  // Where a loop over bursts of n blocks makes its k-th test, if it begins at i
  function TestAt(i: nat, n: nat, k: nat): nat {
    if k == 0 then i else TestAt(i, n, k - 1) + 64 * n
  }

  // The sum that is compared there, as the code has it
  function Compared(i: nat, n: nat): nat {
    U32(i + 63 + (n - 1) * 64)
  }

  // The test at i says whether n blocks are left.
  predicate TestRight(i: nat, n: nat, len: nat) {
    Compared(i, n) < len <==> i + 64 * n <= len
  }

  // The loop gets to its k-th test.
  ghost predicate Reached(i: nat, n: nat, len: nat, k: nat) {
    forall m {:trigger TestAt(i, n, m)} | 0 <= m < k :: Compared(TestAt(i, n, m), n) < len
  }

  // With j bytes in the buffer, a call with len bytes tells rightly whether a block is complete, and
  // its first loop takes a burst only where one is left.
  ghost predicate DecidesRight(j: nat, len: nat)
    requires j < 64
  {
    && (U32(j + len) > 63 <==> j + len > 63)
    && (j + len > 63 ==>
          forall k: nat {:trigger TestAt(64 - j, BLOCKSIZE, k)} | Reached(64 - j, BLOCKSIZE, len, k) ::
            TestRight(TestAt(64 - j, BLOCKSIZE, k), BLOCKSIZE, len))
  }

  lemma {:induction false} TestValue(i: nat, k: nat)
    ensures TestAt(i, BLOCKSIZE, k) == i + 2048 * k
  {
    if k > 0 { TestValue(i, k - 1); }
  }

  // In a call that is short enough, the first loop never gets to where the sum would wrap around.
  lemma FirstLoop(j: nat, len: nat, k: nat)
    requires j < 64 <= j + len <= LONGEST && TestAt(64 - j, BLOCKSIZE, k) <= len
    ensures TestAt(64 - j, BLOCKSIZE, k) + 2048 <= W32
  {
    TestValue(64 - j, k);
    assert W32 == 2048 * 0x20_0000;
  }

  lemma {:induction false} ReachedInside(j: nat, len: nat, k: nat)
    requires j < 64 <= j + len <= LONGEST && Reached(64 - j, BLOCKSIZE, len, k)
    ensures TestAt(64 - j, BLOCKSIZE, k) <= len
  {
    if k > 0 {
      ReachedInside(j, len, k - 1);
      FirstLoop(j, len, k - 1);
      assert Compared(TestAt(64 - j, BLOCKSIZE, k - 1), BLOCKSIZE) < len;
    }
  }

  // Otherwise it gets there, and takes a burst that lies behind the data.
  lemma TooLong(j: nat, len: nat, k: nat)
    requires j < 64 && LONGEST < j + len && len < W32 && k == 0x1F_FFFF
    ensures Reached(64 - j, BLOCKSIZE, len, k) && !TestRight(TestAt(64 - j, BLOCKSIZE, k), BLOCKSIZE, len)
  {
    TestValue(64 - j, k);
    forall m {:trigger TestAt(64 - j, BLOCKSIZE, m)} | 0 <= m < k
      ensures Compared(TestAt(64 - j, BLOCKSIZE, m), BLOCKSIZE) < len
    {
      TestValue(64 - j, m);
    }
    var i := TestAt(64 - j, BLOCKSIZE, k);
    assert i + 2047 == W32 + (63 - j);
    assert Compared(i, BLOCKSIZE) == 63 - j;
  }

  // A call with 2^32 - 1 bytes on an empty buffer goes wrong.
  lemma BurstWraps(len: nat)
    requires len == W32 - 1
    ensures !DecidesRight(0, len)
  {
    ExactlyUpToLongest(0, len);
  }

  // Exactly the calls up to LONGEST are decided rightly.
  lemma ExactlyUpToLongest(j: nat, len: nat)
    requires j < 64 && len < W32
    ensures DecidesRight(j, len) <==> j + len <= LONGEST
  {
    if LONGEST < j + len {
      var k := 0x1F_FFFF;
      TooLong(j, len, k);
    } else if j + len > 63 {
      forall k: nat {:trigger TestAt(64 - j, BLOCKSIZE, k)} | Reached(64 - j, BLOCKSIZE, len, k)
        ensures TestRight(TestAt(64 - j, BLOCKSIZE, k), BLOCKSIZE, len)
      {
        ReachedInside(j, len, k);
        FirstLoop(j, len, k);
      }
    }
  }

  // No test of a loop that begins at i is made where the sum wraps around.
  ghost predicate Fits(i: nat, n: nat, len: nat) {
    forall k: nat {:trigger TestAt(i, n, k)} | TestAt(i, n, k) <= len :: TestAt(i, n, k) + 64 * n <= W32
  }

  class Context {
    const compress: (State, seq<Byte>) -> State
    var state: State
    var count0: Word
    var count1: Word
    const buffer: array<Byte>

    // All that has been hashed so far
    ghost var message: seq<Byte>

    ghost predicate Valid()
      reads this, buffer
    {
      && buffer.Length == 64
      && Counts(count0, count1, |message|)
      && state == Fold(compress, INITIAL, Whole(message))
      && buffer[..|Rest(message)|] == Rest(message)
    }

    // SHA1Init
    constructor (compress: (State, seq<Byte>) -> State)
      ensures Valid() && message == [] && this.compress == compress && fresh(buffer)
    {
      this.compress := compress;
      state, count0, count1, message := INITIAL, 0, 0, [];
      buffer := new Byte[64](_ => 0);
      new;
      assert CountsWith(0, 0, 0, 0);
    }

    // SHA1Transforml: the engine takes n blocks at once.
    method Transform(blocks: seq<Byte>, n: nat)
      requires 1 <= n <= BLOCKSIZE && |blocks| == 64 * n
      modifies `state
      ensures state == Fold(compress, old(state), blocks)
    {
      for i := 0 to n
        invariant Fold(compress, old(state), blocks) == Fold(compress, state, blocks[64 * i..])
      {
        assert blocks[64 * i..][..64] == blocks[64 * i..64 * i + 64];
        assert blocks[64 * i..][64..] == blocks[64 * (i + 1)..];
        state := compress(state, blocks[64 * i..64 * i + 64]);
      }
    }

    // One of the loops of SHA1Update: bursts of n blocks while more than that is left
    method Bursts(data: seq<Byte>, i: nat, n: nat) returns (i': nat)
      requires 1 <= n <= BLOCKSIZE && i <= |data| && Fits(i, n, |data|)
      modifies `state
      ensures i <= i' <= |data| < i' + 64 * n && WholeBlocks(i, i')
      ensures state == Fold(compress, old(state), data[i..i'])
    {
      i' := i;
      ghost var k := 0;
      assert data[i..i'] == [];
      while Compared(i', n) < |data|
        invariant i <= i' <= |data| && WholeBlocks(i, i') && i' == TestAt(i, n, k)
        invariant state == Fold(compress, old(state), data[i..i'])
        decreases |data| - i'
      {
        var next := i' + 64 + (n - 1) * 64;
        Transform(data[i'..next], n);
        BlocksWhole(i', n);
        JoinRuns(compress, old(state), data, i, i', next);
        i' := next;
        k := k + 1;
      }
    }

    // memcpy(&buffer[at], src, |src|)
    method Copy(at: nat, src: seq<Byte>)
      requires buffer.Length == 64 && at + |src| <= 64
      modifies buffer
      ensures buffer[..] == old(buffer[..at]) + src + old(buffer[at + |src|..])
      ensures buffer[..at + |src|] == old(buffer[..at]) + src
    {
      for k := 0 to |src|
        invariant buffer[..] == old(buffer[..at]) + src[..k] + old(buffer[at + k..])
      {
        buffer[at + k] := src[k];
      }
    }

    method Count(len: nat)
      requires len < W32 && Counts(count0, count1, |message|)
      modifies `count0, `count1
      ensures Counts(count0, count1, |message| + len)
    {
      var bits := U32(8 * len);
      var low := U32(count0 + bits);
      var high := U32(count1 + if low < bits then 1 else 0);
      high := U32(high + len / 0x2000_0000);
      AddToCount(count0, count1, |message|, len, low, high);
      count0, count1 := low, high;
    }

    // The bursts: first 32 blocks at a time, then 16, 8 and 1
    method AllBursts(data: seq<Byte>, i: nat) returns (i': nat)
      requires 1 <= i <= 64 && i <= |data| && |data| + 64 - i <= LONGEST
      modifies `state
      ensures i <= i' <= |data| < i' + 64 && WholeBlocks(i, i')
      ensures state == Fold(compress, old(state), data[i..i'])
    {
      ghost var st := state;
      forall k: nat {:trigger TestAt(i, BLOCKSIZE, k)} | TestAt(i, BLOCKSIZE, k) <= |data|
        ensures TestAt(i, BLOCKSIZE, k) + 2048 <= W32
      {
        FirstLoop(64 - i, |data|, k);
      }
      var a := Bursts(data, i, BLOCKSIZE);
      var b := Bursts(data, a, BLOCKSIZE / 2);
      JoinRuns(compress, st, data, i, a, b);
      var c := Bursts(data, b, BLOCKSIZE / 4);
      JoinRuns(compress, st, data, i, b, c);
      i' := Bursts(data, c, 1);
      JoinRuns(compress, st, data, i, c, i');
    }

    // SHA1Update: however the message is cut into calls, the context holds its digest so far.
    method Update(data: seq<Byte>)
      requires Valid() && |Rest(message)| + |data| <= LONGEST
      modifies this, buffer
      ensures Valid() && message == old(message) + data
    {
      var j := Position();
      Count(|data|);
      SmallU32(j + |data|);
      if U32(j + |data|) > 63 {
        var i := Blocks(data, j);
        Keep(0, data[i..], data);
      } else {
        FewBytes(message, data);
        Keep(j, data, data);
      }
    }

    // The bytes that are left over go into the buffer.
    method Keep(j: nat, tail: seq<Byte>, ghost data: seq<Byte>)
      requires buffer.Length == 64 && j + |tail| < 64
      requires Counts(count0, count1, |message| + |data|)
      requires state == Fold(compress, INITIAL, Whole(message + data)) && Rest(message + data) == buffer[..j] + tail
      modifies buffer, `message
      ensures Valid() && message == old(message) + data
    {
      Copy(j, tail);
      message := message + data;
    }

    // j = (count[0] >> 3) & 63
    method Position() returns (j: nat)
      requires Valid()
      ensures j == |Rest(message)|
    {
      Offset(count0, count1, |message|);
      j := count0 / 8 % 64;
    }

    // The part of SHA1Update for a piece that completes a block: i bytes of it are hashed.
    method Blocks(data: seq<Byte>, j: nat) returns (i: nat)
      requires buffer.Length == 64 && j == |Rest(message)| && |data| >= 64 - j && j + |data| <= LONGEST
      requires state == Fold(compress, INITIAL, Whole(message)) && buffer[..j] == Rest(message)
      modifies `state, buffer
      ensures i <= |data| < i + 64 && Rest(message + data) == data[i..]
      ensures state == Fold(compress, INITIAL, Whole(message + data))
    {
      i := 64 - j;
      Copy(j, data[..i]);
      FilledBlock(message, data, buffer[..], j);
      Transform(buffer[..], 1);
      var next := AllBursts(data, i);
      ManyBlocks(compress, message, data, i, next, buffer[..]);
      i := next;
    }

    // SHA1Final: the padding of section 4 of FIPS PUB 180-1, then the state as bytes. The context is
    // wiped.
    method Final() returns (digest: seq<Byte>)
      requires Valid()
      modifies this, buffer
      ensures IsDigest(compress, old(message), digest) && Wiped()
    {
      ghost var m := message;
      var finalcount := CountBytes();
      Update([0x80]);
      ghost var k := 0;
      while count0 / 8 % 64 != 56
        invariant Valid() && message == m + [0x80] + Zeros(k) && k <= ZeroPad(|m|)
        decreases ZeroPad(|m|) - k
      {
        PadOnce(m, k);
        k := k + 1;
      }
      PadEnds(m, k);
      Update(finalcount);
      PaddedWhole(m);
      digest := StateBytes();
      Wipe();
    }

    // The digest, byte by byte: of each word of the state the most significant byte first
    method StateBytes() returns (digest: seq<Byte>)
      ensures Spells(digest, state)
    {
      digest := [];
      for i := 0 to 20
        invariant |digest| == i && forall j | 0 <= j < i :: ByteIs(digest, state, j)
      {
        ghost var before := digest;
        digest := digest + [ByteAt(state[i / 4], 3 - i % 4)];
        assert forall j | 0 <= j < i :: ByteIs(before, state, j) && digest[j] == before[j];
      }
      SpelledOut(digest, state);
    }

    // One zero byte of the padding
    method PadOnce(ghost m: seq<Byte>, ghost k: nat)
      requires Valid() && message == m + [0x80] + Zeros(k) && k <= ZeroPad(|m|) && count0 / 8 % 64 != 56
      modifies this, buffer
      ensures Valid() && message == m + [0x80] + Zeros(k + 1) && k < ZeroPad(|m|)
    {
      Offset(count0, count1, |message|);
      assert |message| == |m| + 1 + k;
      MorePadding(|m|, k);
      Update([0]);
      OneMoreZero(m + [0x80], k);
    }

    lemma PadEnds(m: seq<Byte>, k: nat)
      requires Valid() && message == m + [0x80] + Zeros(k) && k <= ZeroPad(|m|) && count0 / 8 % 64 == 56
      ensures k == ZeroPad(|m|)
    {
      Offset(count0, count1, |message|);
      EnoughPadding(|m|, k);
    }

    // finalcount: the count of bits, most significant byte first
    method CountBytes() returns (b: seq<Byte>)
      requires Valid()
      ensures b == LengthBytes(|message|)
    {
      b := [];
      for i := 0 to 8
        invariant |b| == i && forall k {:trigger b[k]} | 0 <= k < i :: b[k] == CountByte(count0, count1, k)
      {
        b := b + [CountByte(count0, count1, i)];
      }
      assert b == WordBytes(count1) + WordBytes(count0);
      LengthOf(count0, count1, |message|);
    }

    // Nothing is left of the message.
    ghost predicate Wiped()
      reads this, buffer
    {
      && buffer[..] == Zeros(64) && count0 == 0 && count1 == 0 && state == compress([0, 0, 0, 0, 0], Zeros(64))
    }

    method Wipe()
      requires buffer.Length == 64
      modifies this, buffer
      ensures Wiped()
    {
      for i := 0 to 64
        invariant forall k | 0 <= k < i :: buffer[k] == 0
      {
        buffer[i] := 0;
      }
      assert buffer[..] == Zeros(64);
      state, count0, count1 := [0, 0, 0, 0, 0], 0, 0;
      assert Zeros(64)[..64] == Zeros(64);
      Transform(buffer[..], 1);
    }
  }

  // (w >> (8 * k)) & 255
  function ByteAt(w: Word, k: nat): Byte
    requires k < 4
  {
    match k
    case 0 => w % 256
    case 1 => w / 0x100 % 256
    case 2 => w / 0x1_0000 % 256
    case _ => w / 0x100_0000 % 256
  }

  // Byte k of the two words of the count, most significant byte first
  function CountByte(low: Word, high: Word, k: nat): Byte
    requires k < 8
  {
    ByteAt(if k >= 4 then low else high, 3 - k % 4)
  }

  function WordBytes(w: Word): (b: seq<Byte>)
    ensures |b| == 4
  {
    [ByteAt(w, 3), ByteAt(w, 2), ByteAt(w, 1), ByteAt(w, 0)]
  }

  // The value of bytes, most significant first
  function BigEndian(b: seq<Byte>): nat {
    if b == [] then 0 else 256 * BigEndian(b[..|b| - 1]) + b[|b| - 1]
  }

  // The length of an n-byte message in bits, as a 64-bit number
  function LengthBytes(n: nat): (b: seq<Byte>)
    ensures |b| == 8
  {
    var bits := 8 * n % W64;
    WordBytes(bits / W32) + WordBytes(bits % W32)
  }

  lemma BigEndianAppend(b: seq<Byte>, x: Byte)
    ensures BigEndian(b + [x]) == 256 * BigEndian(b) + x
  {
    assert (b + [x])[..|b|] == b;
  }

  lemma BigEndianWord(b: seq<Byte>, w: Word)
    ensures BigEndian(b + WordBytes(w)) == BigEndian(b) * W32 + w
  {
    var x3, x2, x1, x0 := ByteAt(w, 3), ByteAt(w, 2), ByteAt(w, 1), ByteAt(w, 0);
    BigEndianAppend(b, x3);
    BigEndianAppend(b + [x3], x2);
    BigEndianAppend(b + [x3] + [x2], x1);
    BigEndianAppend(b + [x3] + [x2] + [x1], x0);
    assert b + WordBytes(w) == b + [x3] + [x2] + [x1] + [x0];
    WordOfBytes(w);
  }

  lemma WordOfBytes(w: Word)
    ensures w == 0x100_0000 * ByteAt(w, 3) + 0x1_0000 * ByteAt(w, 2) + 0x100 * ByteAt(w, 1) + ByteAt(w, 0)
  {
    var a := w / 0x100;
    var b := a / 0x100;
    DivTwice(w, 0x100, 0x100);
    DivTwice(w, 0x1_0000, 0x100);
    assert w == 0x100 * a + w % 0x100;
    assert a == 0x100 * b + a % 0x100;
    assert b == 0x100 * (b / 0x100) + b % 0x100;
  }

  lemma DivTwice(w: nat, m: nat, n: nat)
    requires (m == 0x100 || m == 0x1_0000) && n == 0x100
    ensures w / (m * n) == w / m / n
  {
    var q := w / m;
    assert w == m * q + w % m && q == n * (q / n) + q % n;
  }

  // Four bytes for each word of the state, most significant first
  predicate Spells(digest: seq<Byte>, st: State) {
    |digest| == 20 && forall k | 0 <= k < 5 :: BigEndian(digest[4 * k..4 * k + 4]) == st[k]
  }

  // Byte j is what it is to be.
  predicate ByteIs(digest: seq<Byte>, st: State, j: nat)
    requires j < |digest| <= 20
  {
    digest[j] == ByteAt(st[j / 4], 3 - j % 4)
  }

  lemma SpelledOut(digest: seq<Byte>, st: State)
    requires |digest| == 20 && forall j | 0 <= j < 20 :: ByteIs(digest, st, j)
    ensures Spells(digest, st)
  {
    forall k | 0 <= k < 5
      ensures BigEndian(digest[4 * k..4 * k + 4]) == st[k]
    {
      SpelledWord(digest, st, k);
      assert digest[4 * k..4 * k + 4] == [] + WordBytes(st[k]);
      BigEndianWord([], st[k]);
    }
  }

  lemma SpelledWord(digest: seq<Byte>, st: State, k: nat)
    requires |digest| == 20 && k < 5 && forall j | 0 <= j < 20 :: ByteIs(digest, st, j)
    ensures digest[4 * k..4 * k + 4] == WordBytes(st[k])
  {
    SpelledByte(digest, st, k, 0);
    SpelledByte(digest, st, k, 1);
    SpelledByte(digest, st, k, 2);
    SpelledByte(digest, st, k, 3);
  }

  lemma SpelledByte(digest: seq<Byte>, st: State, k: nat, i: nat)
    requires |digest| == 20 && k < 5 && i < 4 && ByteIs(digest, st, 4 * k + i)
    ensures digest[4 * k + i] == ByteAt(st[k], 3 - i)
  {
    assert (4 * k + i) / 4 == k && (4 * k + i) % 4 == i;
  }

  // The initial state, read with the least significant byte of each word first, is 01 23 45 67 and so on up to EF,
  // then FE DC and so on down to 10, and then F0 E1 D2 C3.
  lemma InitialBytes(i: nat)
    requires i < 20
    ensures ByteAt(INITIAL[i / 4], i % 4)
            == if i < 8 then 0x01 + 0x22 * i else if i < 16 then 0xFE - 0x22 * (i - 8) else 0xF0 - 0x0F * (i - 16)
  {
    InitialWord(i / 4, i % 4);
    assert i == 4 * (i / 4) + i % 4;
  }

  lemma InitialWord(k: nat, j: nat)
    requires k < 5 && j < 4
    ensures ByteAt(INITIAL[k], j) == if k < 2 then 0x01 + 0x22 * (4 * k + j)
                                     else if k < 4 then 0xFE - 0x22 * (4 * k + j - 8) else 0xF0 - 0x0F * j
  {
    match k
    case 0 => BytesOf(INITIAL[0], 0x01, 0x23, 0x45, 0x67);
    case 1 => BytesOf(INITIAL[1], 0x89, 0xAB, 0xCD, 0xEF);
    case 2 => BytesOf(INITIAL[2], 0xFE, 0xDC, 0xBA, 0x98);
    case 3 => BytesOf(INITIAL[3], 0x76, 0x54, 0x32, 0x10);
    case 4 => BytesOf(INITIAL[4], 0xF0, 0xE1, 0xD2, 0xC3);
  }

  lemma BytesOf(w: Word, a: Byte, b: Byte, c: Byte, d: Byte)
    requires w == a + 0x100 * b + 0x1_0000 * c + 0x100_0000 * d
    ensures ByteAt(w, 0) == a && ByteAt(w, 1) == b && ByteAt(w, 2) == c && ByteAt(w, 3) == d
  {
    assert w / 0x100 == b + 0x100 * c + 0x1_0000 * d;
    assert w / 0x1_0000 == c + 0x100 * d;
  }

  // The length field is the number of bits, big-endian.
  lemma LengthValue(n: nat)
    ensures BigEndian(LengthBytes(n)) == 8 * n % W64
  {
    var bits := 8 * n % W64;
    BigEndianWord([], bits / W32);
    assert [] + WordBytes(bits / W32) == WordBytes(bits / W32);
    BigEndianWord(WordBytes(bits / W32), bits % W32);
  }

  // FIPS PUB 180-1, section 4: a one bit, zeros up to 64 bits short of a block, the length
  function ZeroPad(n: nat): nat {
    (119 - n % 64) % 64
  }

  function Zeros(k: nat): seq<Byte> {
    seq(k, i => 0)
  }

  function Padded(m: seq<Byte>): seq<Byte> {
    m + [0x80] + Zeros(ZeroPad(|m|)) + LengthBytes(|m|)
  }

  // The digest spells the state that comes of the padded message.
  ghost predicate IsDigest(f: (State, seq<Byte>) -> State, m: seq<Byte>, digest: seq<Byte>) {
    Spells(digest, Fold(f, INITIAL, Padded(m)))
  }

  // The padding ends the last block, and no shorter one would.
  lemma PaddedWhole(m: seq<Byte>)
    ensures WholeBlocks(0, |Padded(m)|) && Whole(Padded(m)) == Padded(m)
  {
    assert |Padded(m)| == |m| + 1 + ZeroPad(|m|) + 8;
    PadFits(|m|);
  }

  lemma PadFits(n: nat)
    ensures (n + 1 + ZeroPad(n) + 8) % 64 == 0 && ZeroPad(n) < 64
  {
    assert n == 64 * (n / 64) + n % 64;
  }

  lemma OneMoreZero(m: seq<Byte>, k: nat)
    ensures m + Zeros(k) + [0] == m + Zeros(k + 1)
  {
    assert Zeros(k) + [0] == Zeros(k + 1);
  }

  lemma MorePadding(n: nat, k: nat)
    requires k <= ZeroPad(n) && (n + 1 + k) % 64 != 56
    ensures k < ZeroPad(n)
  {
    PadFits(n);
  }

  lemma EnoughPadding(n: nat, k: nat)
    requires k <= ZeroPad(n) && (n + 1 + k) % 64 == 56
    ensures k == ZeroPad(n)
  {
    PadFits(n);
  }

  lemma Halves(q: nat, high: nat, low: nat)
    requires high < W32 && low < W32
    ensures var bits := (q * W64 + high * W32 + low) % W64; bits / W32 == high && bits % W32 == low
  {
    assert high * W32 + low < W64;
    assert (q * W64 + (high * W32 + low)) % W64 == high * W32 + low;
  }

  lemma LengthOf(low: nat, high: nat, n: nat)
    requires Counts(low, high, n)
    ensures LengthBytes(n) == WordBytes(high) + WordBytes(low)
  {
    var q: nat :| CountsWith(low, high, n, q);
    Halves(q, high, low);
  }

  lemma BlocksWhole(i: nat, n: nat)
    ensures WholeBlocks(i, i + 64 * n)
  {
  }

  lemma JoinRuns(f: (State, seq<Byte>) -> State, st: State, data: seq<Byte>, i: nat, a: nat, b: nat)
    requires i <= a <= b <= |data| && WholeBlocks(i, a) && WholeBlocks(a, b)
    ensures Fold(f, Fold(f, st, data[i..a]), data[a..b]) == Fold(f, st, data[i..b])
    ensures WholeBlocks(i, b)
  {
    FoldConcat(f, st, data[i..a], data[a..b]);
    assert data[i..a] + data[a..b] == data[i..b];
  }

  // The rest of the message and the first bytes of the data fill a block.
  lemma FilledBlock(m: seq<Byte>, data: seq<Byte>, block: seq<Byte>, j: nat)
    requires j == |Rest(m)| && |data| >= 64 - j && |block| == 64
    requires block[..j] == Rest(m) && block[j..] == data[..64 - j]
    ensures block == Rest(m) + data[..64 - j]
  {
    assert block == block[..j] + block[j..];
  }

  lemma Stretch(i: int, j: int, k: int)
    requires WholeBlocks(i, j) && WholeBlocks(j, k)
    ensures WholeBlocks(i, k)
  {
  }

  lemma Shift(i: int, j: int, d: int)
    requires WholeBlocks(i, j)
    ensures WholeBlocks(i + d, j + d)
  {
    assert (j + d) - (i + d) == j - i;
  }

  lemma Remainder(w: nat, r: nat)
    requires WholeBlocks(0, w) && r < 64
    ensures (w + r) % 64 == r
  {
    assert w == 64 * (w / 64);
  }

  // A message falls into whole blocks and a rest in one way only.
  lemma SplitUnique(m: seq<Byte>, w: seq<Byte>, r: seq<Byte>)
    requires m == w + r && WholeBlocks(0, |w|) && |r| < 64
    ensures Whole(m) == w && Rest(m) == r
  {
    Remainder(|w|, |r|);
  }

  lemma ManyBlocks(f: (State, seq<Byte>) -> State, m: seq<Byte>, data: seq<Byte>, i: nat, next: nat, block: seq<Byte>)
    requires i == 64 - |Rest(m)| <= next <= |data| < next + 64 && WholeBlocks(i, next)
    requires block == Rest(m) + data[..i]
    ensures Fold(f, Fold(f, Fold(f, INITIAL, Whole(m)), block), data[i..next]) == Fold(f, INITIAL, Whole(m + data))
    ensures Rest(m + data) == data[next..]
  {
    var a, b := Whole(m) + block, Whole(m) + block + data[i..next];
    FoldConcat(f, INITIAL, Whole(m), block);
    Shift(0, 64, |Whole(m)|);
    Stretch(0, |Whole(m)|, |a|);
    FoldConcat(f, INITIAL, a, data[i..next]);
    Shift(i, next, |a| - i);
    Stretch(0, |a|, |b|);
    assert b + data[next..] == m + data;
    SplitUnique(m + data, b, data[next..]);
  }

  lemma FewBytes(m: seq<Byte>, data: seq<Byte>)
    requires |Rest(m)| + |data| < 64
    ensures Whole(m + data) == Whole(m) && Rest(m + data) == Rest(m) + data
  {
    assert Whole(m) + (Rest(m) + data) == m + data;
    SplitUnique(m + data, Whole(m), Rest(m) + data);
  }

  // SHA1
  method Sha1Of(f: (State, seq<Byte>) -> State, data: seq<Byte>) returns (digest: seq<Byte>)
    requires |data| <= LONGEST
    ensures IsDigest(f, data, digest)
  {
    var ctx := new Context(f);
    ctx.Update(data);
    assert ctx.message == data;
    digest := ctx.Final();
  }

  function Concat(pieces: seq<seq<Byte>>): seq<Byte> {
    if pieces == [] then [] else Concat(pieces[..|pieces| - 1]) + pieces[|pieces| - 1]
  }

  lemma ConcatStep(pieces: seq<seq<Byte>>, i: nat)
    requires i < |pieces|
    ensures Concat(pieces[..i + 1]) == Concat(pieces[..i]) + pieces[i]
  {
    assert pieces[..i + 1][..i] == pieces[..i];
  }

  // Any split of a message gives the same digest.
  method Sha1OfPieces(f: (State, seq<Byte>) -> State, pieces: seq<seq<Byte>>) returns (digest: seq<Byte>)
    requires forall i {:trigger pieces[i]} | 0 <= i < |pieces| ::
               |Rest(Concat(pieces[..i]))| + |pieces[i]| <= LONGEST
    ensures IsDigest(f, Concat(pieces), digest)
  {
    var ctx := new Context(f);
    for i := 0 to |pieces|
      invariant ctx.Valid() && fresh(ctx) && fresh(ctx.buffer) && ctx.compress == f
      invariant ctx.message == Concat(pieces[..i])
    {
      ConcatStep(pieces, i);
      ctx.Update(pieces[i]);
    }
    assert pieces[..|pieces|] == pieces;
    digest := ctx.Final();
  }
}
