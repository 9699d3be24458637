/** Machine words, bytes and the few word operations the cipher is built from.
    They are named functions so that proofs about structure can hide the bits. */
module Words {

  type Byte = bv8
  type Word = bv32

  function Xor(a: Word, b: Word): Word { a ^ b }

  function Add(a: Word, b: Word): Word { a + b }

  /** Byte `n` of a word, counted from the low end. */
  function OctetByte(x: Word, n: nat): Byte
    requires n < 4
  {
    ((if n == 3 then x >> 24 else if n == 2 then x >> 16 else if n == 1 then x >> 8 else x) & 0xFF) as bv8
  }

  /** The same as a table index. */
  function Octet(x: Word, n: nat): (i: nat)
    requires n < 4
    ensures i < 256
  {
    OctetByte(x, n) as int
  }

  /** Element-wise exclusive or. */
  function XorSeq(a: seq<Word>, b: seq<Word>): (r: seq<Word>)
    requires |a| == |b|
    ensures |r| == |a|
    ensures forall i :: 0 <= i < |a| ==> r[i] == Xor(a[i], b[i])
  {
    seq(|a|, i requires 0 <= i < |a| => Xor(a[i], b[i]))
  }

  lemma XorCancels(a: Word, k: Word, f: Word)
    ensures Xor(Xor(Xor(Xor(a, k), f), k), f) == a
    ensures Xor(Xor(a, k), k) == a
  {
  }

  lemma XorTurns(a: Word, b: Word, c: Word)
    ensures Xor(Xor(a, b), c) == Xor(Xor(a, c), b)
  {
    XorMoves(a, b, c);
    XorMoves(a, c, b);
    XorCommutes(b, c);
    hide Xor;
  }

  lemma XorMoves(a: Word, b: Word, c: Word)
    ensures Xor(Xor(a, b), c) == Xor(a, Xor(b, c))
  {
  }

  lemma XorCommutes(a: Word, b: Word)
    ensures Xor(a, b) == Xor(b, a)
  {
  }

  lemma XorZero(a: Word)
    ensures Xor(a, 0) == a
  {
  }

  /** Four bytes as a word, the first one highest. */
  function FromBytes(a: Byte, b: Byte, c: Byte, d: Byte): Word {
    ((a as Word) << 24) | ((b as Word) << 16) | ((c as Word) << 8) | (d as Word)
  }

  lemma FromBytesIs(a: Byte, b: Byte, c: Byte, d: Byte)
    ensures FromBytes(a, b, c, d) == a as Word * 0x1000000 + b as Word * 0x10000 + c as Word * 0x100 + d as Word
  {
  }

  /** The bytes of a word, highest first, are those it was put together from. */
  lemma OctetsOf(a: Byte, b: Byte, c: Byte, d: Byte)
    ensures var x := FromBytes(a, b, c, d);
            OctetByte(x, 3) == a && OctetByte(x, 2) == b && OctetByte(x, 1) == c && OctetByte(x, 0) == d
  {
  }

  /** The two operations of the round are those of 32-bit words, sums without their carry. */
  lemma WordOperations(a: Word, b: Word)
    ensures Add(a, b) == a + b && Xor(a, b) == a ^ b
  {
  }
}
