/** How checksums are stored in logs and tables: masked, in four bytes. */
module Checksum {
  import opened Bytewise
  import opened Coding
  import Crc32c

  // The checksum of a string; only equality of checksums matters to those who store them.
  type Crc = Bytes -> Crc32c.Word

  function Encode(c: Crc32c.Word): (b: Bytes)
    ensures |b| == 4
  {
    Fixed(Crc32c.Mask(c) as nat, 4)
  }

  function Word(b: Bytes): Crc32c.Word
    requires |b| == 4
  {
    UnfixedBounds(b);
    Unfixed(b) as Crc32c.Word
  }

  function Decode(b: Bytes): Crc32c.Word
    requires |b| == 4
  {
    Crc32c.Unmask(Word(b))
  }

  lemma RoundTrip(c: Crc32c.Word)
    ensures Decode(Encode(c)) == c
  {
    hide Fixed, Unfixed, Crc32c.Mask, Crc32c.Unmask;
    FixedWidths(Crc32c.Mask(c) as nat);
    Crc32c.MaskRoundTrip(c);
    WordOfWord(Crc32c.Mask(c));
  }

  lemma WordOfWord(w: Crc32c.Word)
    ensures w as nat < BITS_32 && (w as nat) as Crc32c.Word == w
  {
  }
}
