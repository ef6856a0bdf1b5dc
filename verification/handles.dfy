/**
  The 64-bit `object_id` of the generation-checked slot map: the slot index in
  the low 32 bits and the generation count in the bits above them.

  The source works on a signed `long long` with `&`, `>>` and `|`.  Here a
  handle is an unbounded integer: `h & 0xFFFFFFFF` is `h % 2^32` (Dafny's `%` is
  Euclidean, so this is the low 32 bits of the two's-complement value even for a
  negative `h`), `h >> 32` is `h / 2^32` (an arithmetic shift rounds toward minus
  infinity, as Euclidean division by a positive divisor does), and the `|` of
  two disjoint bit fields is their sum.
 */
module Handles {

  /** Slots per chunk (`chunk_size`). */
  const ChunkSize: nat := 256

  /** 2^32: the index occupies the low 32 bits of a handle. */
  const IndexSpan: nat := 0x1_0000_0000

  /** 2^31: the free list stores indices as `int`, so every index stays below this. */
  const IndexLimit: nat := 0x8000_0000

  /** 2^31: `(generation + 1) << 32` on a signed 64-bit value is defined only below this. */
  const GenerationLimit: nat := 0x8000_0000

  /** 2^63: the bound of the signed 64-bit `object_id`. */
  const HandleLimit: nat := 0x8000_0000_0000_0000

  /** `h & 0xFFFFFFFF`. */
  function Index(h: int): (i: nat)
    ensures i < IndexSpan
    ensures 0 <= h < IndexSpan ==> i == h
  {
    h % IndexSpan
  }

  /** `h >> 32`. */
  function Generation(h: int): (g: int)
    ensures 0 <= h ==> 0 <= g
    ensures 0 <= h < IndexSpan ==> g == 0
    ensures h < HandleLimit ==> g < GenerationLimit
  {
    h / IndexSpan
  }

  /** The handle with the given index and generation. */
  function Encode(index: nat, generation: int): (h: int)
    requires index < IndexSpan
    ensures Index(h) == index && Generation(h) == generation
  {
    generation * IndexSpan + index
  }

  /** A handle is nothing but its two fields: every handle is the encoding of its own index and generation. */
  lemma EncodeDecode(h: int)
    ensures Encode(Index(h), Generation(h)) == h
  {
  }

  /** Two handles are equal exactly when both their indices and their generations are. */
  lemma HandleEquality(a: int, b: int)
    ensures a == b <==> Index(a) == Index(b) && Generation(a) == Generation(b)
  {
    EncodeDecode(a);
    EncodeDecode(b);
  }

  /**
    The tag `destroy_object` writes back into a slot:
    `(tag & 0xFFFFFFFF) | (((tag >> 32) + 1) << 32)`.
   */
  function NextGeneration(tag: int): (r: int)
    ensures Index(r) == Index(tag)
    ensures Generation(r) == Generation(tag) + 1
    ensures r == tag + IndexSpan
  {
    EncodeDecode(tag);
    Encode(Index(tag), Generation(tag) + 1)
  }

}
