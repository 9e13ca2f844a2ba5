/** Operations on 64-bit words, named so that proofs above can hide what they do to bits. */
module Words {

  function Rotl(x: bv64, k: bv64): bv64
    requires 0 < k < 64
  {
    (x << k) | (x >> (64 - k))
  }

  function Xor(x: bv64, y: bv64): bv64 {
    x ^ y
  }

  function Shl16(x: bv64): bv64 {
    x << 16
  }

  /** The sum modulo 2^64. */
  function Add(x: bv64, y: bv64): bv64 {
    x + y
  }

  // ----- What they do to a word -----

  lemma AddIs(x: bv64, y: bv64)
    ensures Add(x, y) == x + y
  {
  }

  lemma AddNothing(x: bv64)
    ensures Add(x, 0) == x == Add(0, x)
  {
  }

  /** Without a carry, addition is a union of bits. */
  lemma AddWithoutCarry(x: bv64, y: bv64)
    requires x & y == 0
    ensures Add(x, y) == x | y
  {
  }

  /** The low 48 bits move up by 16, over zeros. */
  lemma Shl16Bits(x: bv64)
    ensures Shl16(x) >> 16 == x & 0xFFFF_FFFF_FFFF
    ensures Shl16(x) & 0xFFFF == 0
  {
  }

  /** Rotation is to the left: the high bits come back as the low ones. */
  lemma Rotl24Bits(x: bv64)
    ensures Rotl(x, 24) >> 24 == x & 0xFF_FFFF_FFFF
    ensures Rotl(x, 24) & 0xFF_FFFF == x >> 40
  {
  }

  lemma Rotl37Bits(x: bv64)
    ensures Rotl(x, 37) >> 37 == x & 0x7FF_FFFF
    ensures Rotl(x, 37) & 0x1F_FFFF_FFFF == x >> 27
  {
  }

  // ----- Laws -----

  lemma Rotl24Undone(x: bv64)
    ensures Rotl(Rotl(x, 24), 40) == x
  {
  }

  lemma Rotl40Undone(x: bv64)
    ensures Rotl(Rotl(x, 40), 24) == x
  {
  }

  lemma Rotl37Undone(x: bv64)
    ensures Rotl(Rotl(x, 37), 27) == x
  {
  }

  lemma Rotl27Undone(x: bv64)
    ensures Rotl(Rotl(x, 27), 37) == x
  {
  }

  lemma XorUndone(x: bv64, y: bv64)
    ensures Xor(Xor(x, y), y) == x
  {
  }

  lemma XorCommutes(x: bv64, y: bv64)
    ensures Xor(x, y) == Xor(y, x)
  {
  }

  lemma XorIs(x: bv64, y: bv64)
    ensures Xor(x, y) == x ^ y
  {
  }

  lemma XorMiddle(x: bv64, y: bv64, z: bv64)
    ensures Xor(x, y) ^ z == x ^ Xor(y, z)
  {
  }

  lemma XorAssociates(x: bv64, y: bv64, z: bv64)
    ensures Xor(Xor(x, y), z) == Xor(x, Xor(y, z))
  {
    hide Xor;
    XorIs(Xor(x, y), z);
    XorMiddle(x, y, z);
    XorIs(x, Xor(y, z));
  }

  lemma XorPairs(x: bv64, y: bv64, z: bv64, w: bv64)
    ensures Xor(Xor(x, y), Xor(z, w)) == Xor(Xor(x, z), Xor(y, w))
  {
    hide Xor;
    XorAssociates(x, y, Xor(z, w));
    XorAssociates(y, z, w);
    XorCommutes(y, z);
    XorAssociates(z, y, w);
    XorAssociates(x, z, Xor(y, w));
  }

  lemma Shl16Xor(x: bv64, y: bv64)
    ensures Shl16(Xor(x, y)) == Xor(Shl16(x), Shl16(y))
  {
  }

  lemma Rotl24Xor(x: bv64, y: bv64)
    ensures Rotl(Xor(x, y), 24) == Xor(Rotl(x, 24), Rotl(y, 24))
  {
  }

  lemma Rotl37Xor(x: bv64, y: bv64)
    ensures Rotl(Xor(x, y), 37) == Xor(Rotl(x, 37), Rotl(y, 37))
  {
  }

  // ----- Words as numbers -----

  const WORD: nat := 0x1_0000_0000_0000_0000

  function Value(x: bv64): (n: nat)
    ensures n < WORD
  {
    x as int
  }

  lemma ValueIsInjective(x: bv64, y: bv64)
    requires Value(x) == Value(y)
    ensures x == y
  {
    assert (x as int) as bv64 == (y as int) as bv64;
  }

  /** Two digits are determined by their number. */
  lemma TwoDigits(x: nat, y: nat, u: nat, v: nat)
    requires y < WORD && v < WORD
    requires x * WORD + y == u * WORD + v
    ensures x == u && y == v
  {
  }
}
