// The head word of a chunk: its size, a multiple of 8, with two status bits in the low bits.
module HeadWords {
  import opened Words

  // pinuse: the chunk before is in use; cinuse: this chunk is in use
  datatype Head = Head(size: int, pinuse: bool, cinuse: bool)

  // The 32-bit word that is stored
  function Word(h: Head): int {
    h.size + (if h.pinuse then 1 else 0) + (if h.cinuse then 2 else 0)
  }

  // What chunksize, pinuse and cinuse extract from a stored word
  function OfWord(w: int): Head {
    Head(w - w % 4, w % 2 == 1, w % 4 >= 2)
  }

  // Sizes being multiples of 8, the status bits and the size share a word without loss, and setting
  // or clearing PINUSE_BIT in the word changes that bit alone.
  lemma WordRoundTrip(h: Head, w: int, k: int)
    requires h.size == 8 * k && w == Word(h)
    ensures OfWord(w) == h
    ensures OfWord(w - w % 2 + 1) == h.(pinuse := true)
    ensures OfWord(w - w % 2) == h.(pinuse := false)
  {
    LowBits(k, w - h.size);
    LowBits(k, w - h.size - w % 2);
    LowBits(k, w - h.size - w % 2 + 1);
  }

  lemma LowBits(k: int, d: int)
    requires 0 <= d < 4
    ensures (8 * k + d) % 4 == d && (8 * k + d) % 2 == d % 2
  {
    Mod4(8 * k + d, 2 * k, d);
    Mod2(8 * k + d, 4 * k + d / 2, d % 2);
  }
}
