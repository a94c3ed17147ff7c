/** Iterated hashing with the padding of sections 5.1.1 and 5.1.2 of FIPS 180-4.
    The compression function and the initial value are parameters; SHA-1, SHA-256
    and SHA-512 are instances. */
module MerkleDamgard {
  import opened Bytes

  /** What the macro arguments of the C code fix for one hash function. All sizes are in
      bytes; lengthSize is the width of the message length at the end of the padding. */
  datatype Hash = Hash(blockSize: nat, digestSize: nat, wordSize: nat, lengthSize: nat, iv: seq<nat>,
                       compress: (seq<nat>, seq<byte>) -> seq<nat>)
  {
    ghost predicate Chaining(s: seq<nat>) {
      |s| == |iv| && forall i :: 0 <= i < |s| ==> s[i] < Pow256(wordSize)
    }

    /** Size of n words written out. */
    function EncodedSize(n: nat): nat {
      if n == 0 then 0 else EncodedSize(n - 1) + wordSize
    }

    ghost predicate Valid() {
      && 4 <= lengthSize
      && 0 < digestSize == EncodedSize(|iv|)
      && digestSize + lengthSize < blockSize   // digest and padding share one block
      && (blockSize + digestSize) * 8 < Pow256(4)
      && Chaining(iv)
      && forall s, b {:trigger compress(s, b)} :: Chaining(s) && |b| == blockSize ==> Chaining(compress(s, b))
    }

    /** Chaining value after all whole blocks of the data. */
    ghost function Absorb(s: seq<nat>, data: seq<byte>): (r: seq<nat>)
      requires Valid() && Chaining(s)
      ensures Chaining(r)
      decreases |data|
    {
      if |data| < blockSize then s else Absorb(compress(s, data[..blockSize]), data[blockSize..])
    }

    /** The bytes after the last whole block. */
    ghost function Rest(data: seq<byte>): (r: seq<byte>)
      requires Valid()
      ensures |r| < blockSize
      decreases |data|
    {
      if |data| < blockSize then data else Rest(data[blockSize..])
    }

    /** Number of zero bytes between the mark and the length. */
    function ZeroCount(n: nat): (z: nat)
      requires blockSize > 0
      ensures z < blockSize
    {
      var r := Remainder(n + 1 + lengthSize, blockSize);
      if r == 0 then 0 else blockSize - r
    }

    /** Padding of a message of n bytes. */
    function Padding(n: nat): (p: seq<byte>)
      requires blockSize > 0
      ensures |p| == 1 + ZeroCount(n) + lengthSize
    {
      [0x80] + Zeros(ZeroCount(n)) + BigEndian(8 * n, lengthSize)
    }

    /** The padding fills the last block, and with the fewest zero bytes that do so. */
    lemma {:induction false} PaddingFillsBlock(n: nat, z: nat)
      requires blockSize > 0
      ensures (n + |Padding(n)|) % blockSize == 0
      ensures (n + 1 + z + lengthSize) % blockSize == 0 ==> ZeroCount(n) <= z
    {
      var x := n + 1 + lengthSize;
      IsDivision(x, blockSize);
      MulAdd(blockSize, x / blockSize, 1);
      if x % blockSize == 0 {
        DivModUnique(x, blockSize, x / blockSize, 0);
      } else {
        DivModUnique(x + ZeroCount(n), blockSize, x / blockSize + 1, 0);
        if z < ZeroCount(n) {
          DivModUnique(x + z, blockSize, x / blockSize, x % blockSize + z);
        }
      }
    }

    /** The chaining words, written out one after the other. */
    function Encode(s: seq<nat>): (r: seq<byte>)
      ensures |r| == EncodedSize(|s|)
    {
      if s == [] then [] else Encode(s[..|s| - 1]) + BigEndian(s[|s| - 1], wordSize)
    }

    /** The words stand in order, each most significant byte first. */
    lemma {:induction false} EncodeWord(s: seq<nat>, i: nat)
      requires i < |s|
      ensures EncodedSize(i) + wordSize <= EncodedSize(|s|)
      ensures Encode(s)[EncodedSize(i)..EncodedSize(i) + wordSize] == BigEndian(s[i], wordSize)
    {
      var n := |s| - 1;
      var front, last := Encode(s[..n]), BigEndian(s[n], wordSize);
      assert Encode(s) == front + last && |front| == EncodedSize(n);
      if i < n {
        EncodeWord(s[..n], i);
        assert (front + last)[EncodedSize(i)..EncodedSize(i) + wordSize] == front[EncodedSize(i)..EncodedSize(i) + wordSize];
      }
    }

    ghost function FinalState(m: seq<byte>): (r: seq<nat>)
      requires Valid()
      ensures Chaining(r)
    {
      Absorb(iv, m + Padding(|m|))
    }

    ghost function Digest(m: seq<byte>): (r: seq<byte>)
      requires Valid()
      ensures |r| == digestSize
    {
      Encode(FinalState(m))
    }

    // ----- absorbing in pieces

    lemma {:induction false} AbsorbConcat(s: seq<nat>, a: seq<byte>, b: seq<byte>)
      requires Valid() && Chaining(s)
      ensures Absorb(s, a + b) == Absorb(Absorb(s, a), Rest(a) + b)
      ensures Rest(a + b) == Rest(Rest(a) + b)
      decreases |a|
    {
      if |a| >= blockSize {
        assert (a + b)[..blockSize] == a[..blockSize];
        assert (a + b)[blockSize..] == a[blockSize..] + b;
        AbsorbConcat(compress(s, a[..blockSize]), a[blockSize..], b);
      }
    }

    /** After one whole block, the next is one call of the compression function. */
    lemma {:induction false} AbsorbTwo(s: seq<nat>, a: seq<byte>, b: seq<byte>)
      requires Valid() && Chaining(s) && |a| == |b| == blockSize
      ensures Absorb(s, a + b) == compress(Absorb(s, a), b)
    {
      AbsorbConcat(s, a, b);
      assert Rest(a) == [] && [] + b == b;
      assert b[..blockSize] == b;
    }

    // ----- exclusive or of chaining values

    function XorWords(a: seq<nat>, b: seq<nat>): (r: seq<nat>)
      requires |a| == |b|
      ensures |r| == |a|
    {
      seq(|a|, i requires 0 <= i < |a| => Xor(a[i], b[i], 8 * wordSize))
    }

    lemma {:induction false} XorWordsChaining(a: seq<nat>, b: seq<nat>)
      requires Chaining(a) && Chaining(b)
      ensures Chaining(XorWords(a, b))
    {
      Pow2IsPow256(wordSize);
    }

    /** Combining the words and writing them once equals combining the written bytes. */
    lemma {:induction false} EncodeXor(a: seq<nat>, b: seq<nat>)
      requires |a| == |b|
      ensures Encode(XorWords(a, b)) == XorBytes(Encode(a), Encode(b))
      decreases |a|
    {
      if a != [] {
        var n := |a| - 1;
        EncodeXor(a[..n], b[..n]);
        assert XorWords(a, b)[..n] == XorWords(a[..n], b[..n]);
        BigEndianXor(a[n], b[n], wordSize);
      }
    }
  }
}
