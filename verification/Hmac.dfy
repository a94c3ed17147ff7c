/** HMAC of section 2 of RFC 2104, and the pair of hash contexts that computes it. */
module Hmac {
  import opened Bytes
  import opened MerkleDamgard

  // ----- specification

  /** The key, shortened when it is longer than a block, right-padded with zeros to one block. */
  ghost function BlockKey(h: Hash, key: seq<byte>): (r: seq<byte>)
    requires h.Valid()
    ensures |r| == h.blockSize
  {
    var k := if |key| > h.blockSize then h.Digest(key) else key;
    k + Zeros(h.blockSize - |k|)
  }

  function XorPad(pad: byte, k: seq<byte>): (r: seq<byte>)
    ensures |r| == |k|
  {
    seq(|k|, i requires 0 <= i < |k| => XorByte(pad, k[i]))
  }

  ghost function InnerKey(h: Hash, key: seq<byte>): (r: seq<byte>)
    requires h.Valid()
    ensures |r| == h.blockSize
  {
    XorPad(0x36, BlockKey(h, key))
  }

  ghost function OuterKey(h: Hash, key: seq<byte>): (r: seq<byte>)
    requires h.Valid()
    ensures |r| == h.blockSize
  {
    XorPad(0x5c, BlockKey(h, key))
  }

  /** Byte by byte: a key of at most one block, with zeros behind it, combined with 36 and 5c
      hexadecimal; a longer key counts as its digest. */
  lemma {:induction false} KeyBytes(h: Hash, key: seq<byte>, i: nat)
    requires h.Valid() && i < h.blockSize
    ensures |key| <= h.blockSize ==>
              var b: byte := if i < |key| then key[i] else 0;
              InnerKey(h, key)[i] == XorByte(0x36, b) && OuterKey(h, key)[i] == XorByte(0x5c, b)
    ensures |key| > h.blockSize ==>
              InnerKey(h, key) == InnerKey(h, h.Digest(key)) && OuterKey(h, key) == OuterKey(h, h.Digest(key))
  {
  }

  ghost function Mac(h: Hash, key: seq<byte>, m: seq<byte>): (r: seq<byte>)
    requires h.Valid()
    ensures |r| == h.digestSize
  {
    h.Digest(OuterKey(h, key) + h.Digest(InnerKey(h, key) + m))
  }

  // ----- contexts

  /** A hash context: chaining words, the bytes of an unfinished block, the bytes seen so far. */
  class HashContext {
    const hash: Hash
    var words: seq<nat>
    var pending: seq<byte>
    var total: nat

    ghost predicate Shaped()
      reads this
    {
      hash.Valid() && hash.Chaining(words)
    }

    /** The context has taken in exactly the message m since it was initialised. */
    ghost predicate Holds(m: seq<byte>)
      reads this
    {
      && hash.Valid()
      && words == hash.Absorb(hash.iv, m)
      && pending == hash.Rest(m)
      && total == |m|
    }

    constructor (hash: Hash)
      requires hash.Valid()
      ensures this.hash == hash && Holds([])
    {
      this.hash := hash;
      words, pending, total := hash.iv, [], 0;
    }

    /** A structure copy of another context. */
    constructor Copy(from: HashContext)
      ensures hash == from.hash && words == from.words && pending == from.pending && total == from.total
    {
      hash := from.hash;
      words, pending, total := from.words, from.pending, from.total;
    }

    method Init()
      requires hash.Valid()
      modifies this
      ensures Holds([])
    {
      words, pending, total := hash.iv, [], 0;
    }

    /** Takes whole blocks from the pending bytes and the data, and keeps the remainder. */
    method Update(data: seq<byte>, ghost m: seq<byte>)
      requires Holds(m)
      modifies this
      ensures Holds(m + data)
    {
      Consume(pending + data);
      total := total + |data|;
      hash.AbsorbConcat(hash.iv, m, data);
    }

    method Consume(data: seq<byte>)
      requires Shaped()
      modifies `words, `pending
      ensures words == hash.Absorb(old(words), data) && pending == hash.Rest(data)
    {
      var b := hash.blockSize;
      pending := data;
      while |pending| >= b
        invariant hash.Chaining(words)
        invariant hash.Absorb(words, pending) == hash.Absorb(old(words), data)
        invariant hash.Rest(pending) == hash.Rest(data)
        decreases |pending|
      {
        words := hash.compress(words, pending[..b]);
        pending := pending[b..];
      }
    }

    /** Pads and closes the message. Afterwards the chaining words still encode the digest. */
    method Final(ghost m: seq<byte>) returns (digest: seq<byte>)
      requires Holds(m)
      modifies this
      ensures digest == hash.Digest(m)
      ensures Shaped() && digest == hash.Encode(words)
    {
      Consume(pending + hash.Padding(total));
      hash.AbsorbConcat(hash.iv, m, hash.Padding(|m|));
      digest := hash.Encode(words);
    }

    /** The raw compression step on one block of an array. */
    method Transform(block: array<byte>)
      requires Shaped() && block.Length == hash.blockSize
      modifies `words
      ensures Shaped() && words == hash.compress(old(words), block[..])
    {
      words := hash.compress(words, block[..]);
    }

    /** Copies the chaining words only. */
    method CopyWords(from: HashContext)
      modifies `words
      ensures words == from.words
    {
      words := from.words;
    }

    method XorWith(other: HashContext)
      requires Shaped() && other.Shaped() && other.hash == hash
      modifies `words
      ensures Shaped() && words == hash.XorWords(old(words), old(other.words))
    {
      hash.XorWordsChaining(words, other.words);
      words := hash.XorWords(words, other.words);
    }

    /** Writes the chaining words to the front of an array, leaving the rest as it was. */
    method Extract(out: array<byte>)
      requires Shaped() && hash.digestSize <= out.Length
      modifies out
      ensures out[..] == hash.Encode(words) + old(out[hash.digestSize..])
    {
      var i, at, w := 0, 0, hash.wordSize;
      assert words[..0] == [];
      while i < |words|
        invariant 0 <= i <= |words| && at == |hash.Encode(words[..i])|
        invariant at <= out.Length
        invariant out[..] == hash.Encode(words[..i]) + old(out[at..])
      {
        EncodeStep(hash, words, i);
        WriteBigEndian(words[i], w, out, at);
        i, at := i + 1, at + w;
      }
      assert words[..i] == words;
    }
  }

  lemma {:induction false} EncodedSizeMono(h: Hash, a: nat, b: nat)
    requires a <= b
    ensures h.EncodedSize(a) <= h.EncodedSize(b)
    decreases b
  {
    if a < b {
      EncodedSizeMono(h, a, b - 1);
    }
  }

  lemma {:induction false} EncodeStep(h: Hash, words: seq<nat>, i: nat)
    requires h.Valid() && i < |words| == |h.iv|
    ensures h.Encode(words[..i + 1]) == h.Encode(words[..i]) + BigEndian(words[i], h.wordSize)
    ensures |h.Encode(words[..i + 1])| <= h.digestSize
  {
    assert words[..i + 1][..i] == words[..i];
    EncodedSizeMono(h, i + 1, |words|);
  }

  /** Stores the low k bytes of n, most significant first, at the given offset. */
  method WriteBigEndian(n: nat, k: nat, out: array<byte>, at: nat)
    requires at + k <= out.Length
    modifies out
    ensures out[..] == old(out[..at]) + BigEndian(n, k) + old(out[at + k..])
  {
    var i, rest := k, n;
    while i > 0
      invariant 0 <= i <= k
      invariant out[..at + i] == old(out[..at + i])
      invariant BigEndian(n, k) == BigEndian(rest, i) + out[at + i..at + k]
      invariant out[at + k..] == old(out[at + k..])
    {
      i := i - 1;
      out[at + i] := rest % 256;
      assert BigEndian(rest, i + 1) == BigEndian(rest / 256, i) + [rest % 256];
      rest := rest / 256;
    }
    assert out[..] == out[..at] + out[at..at + k] + out[at + k..];
  }

  /** Fills k with the block key, using the context to shorten a long key. */
  method PrepareKey(ctx: HashContext, key: seq<byte>, k: array<byte>)
    requires ctx.Holds([]) && k.Length == ctx.hash.blockSize
    modifies ctx, k
    ensures k[..] == BlockKey(ctx.hash, key)
  {
    var short := key;
    if |key| > ctx.hash.blockSize {
      ctx.Update(key, []);
      assert [] + key == key;
      short := ctx.Final(key);
    }
    PadKey(short, k);
  }

  method Restart(ctx: HashContext, block: seq<byte>)
    requires ctx.hash.Valid()
    modifies ctx
    ensures ctx.Holds(block)
  {
    ctx.Init();
    ctx.Update(block, []);
    assert [] + block == block;
  }

  method PadKey(key: seq<byte>, k: array<byte>)
    requires |key| <= k.Length
    modifies k
    ensures k[..] == key + Zeros(k.Length - |key|)
  {
    forall i | 0 <= i < k.Length {
      k[i] := if i < |key| then key[i] else 0;
    }
  }

  method XorKey(k: array<byte>, blkInner: array<byte>, blkOuter: array<byte>)
    requires k != blkInner && k != blkOuter && blkInner != blkOuter
    requires k.Length == blkInner.Length == blkOuter.Length
    modifies blkInner, blkOuter
    ensures blkInner[..] == XorPad(0x36, k[..]) && blkOuter[..] == XorPad(0x5c, k[..])
  {
    for i := 0 to k.Length
      invariant forall j :: 0 <= j < i ==> blkInner[j] == XorByte(0x36, k[j]) && blkOuter[j] == XorByte(0x5c, k[j])
    {
      blkInner[i] := XorByte(0x36, k[i]);
      blkOuter[i] := XorByte(0x5c, k[i]);
    }
  }

  /** The inner and outer contexts that the key has been fed into once. */
  class HmacContext {
    const inner: HashContext
    const outer: HashContext

    ghost predicate Keyed(h: Hash, key: seq<byte>, m: seq<byte>)
      reads inner, outer
    {
      && inner != outer
      && inner.hash == outer.hash == h && h.Valid()
      && inner.Holds(InnerKey(h, key) + m)
      && outer.Holds(OuterKey(h, key))
    }

    constructor (h: Hash, key: seq<byte>)
      requires h.Valid()
      ensures Keyed(h, key, []) && fresh(inner) && fresh(outer)
    {
      inner := new HashContext(h);
      outer := new HashContext(h);
      new;
      var k := new byte[h.blockSize];
      PrepareKey(inner, key, k);
      var blkInner, blkOuter := new byte[h.blockSize], new byte[h.blockSize];
      XorKey(k, blkInner, blkOuter);
      Restart(inner, blkInner[..]);
      Restart(outer, blkOuter[..]);
      assert InnerKey(h, key) + [] == InnerKey(h, key);
    }

    constructor Copy(from: HmacContext, ghost h: Hash, ghost key: seq<byte>, ghost m: seq<byte>)
      requires from.Keyed(h, key, m)
      ensures fresh(inner) && fresh(outer) && Keyed(h, key, m)
    {
      inner := new HashContext.Copy(from.inner);
      outer := new HashContext.Copy(from.outer);
    }

    method Update(data: seq<byte>, ghost h: Hash, ghost key: seq<byte>, ghost m: seq<byte>)
      requires Keyed(h, key, m)
      modifies inner
      ensures Keyed(h, key, m + data)
    {
      inner.Update(data, InnerKey(h, key) + m);
      assert InnerKey(h, key) + m + data == InnerKey(h, key) + (m + data);
    }

    /** Closes both hashes and writes the code to the front of an array. */
    method Final(out: array<byte>, ghost h: Hash, ghost key: seq<byte>, ghost m: seq<byte>)
      requires Keyed(h, key, m) && h.digestSize <= out.Length
      modifies inner, outer, out
      ensures out[..] == Mac(h, key, m) + old(out[h.digestSize..])
      ensures outer.Shaped() && outer.hash.Encode(outer.words) == Mac(h, key, m)
      ensures inner.Shaped()
    {
      var digest := inner.Final(InnerKey(h, key) + m);
      outer.Update(digest, OuterKey(h, key));
      digest := outer.Final(OuterKey(h, key) + digest);
      Store(digest, out);
    }
  }

  method Store(data: seq<byte>, out: array<byte>)
    requires |data| <= out.Length
    modifies out
    ensures out[..] == data + old(out[|data|..])
  {
    forall i | 0 <= i < |data| {
      out[i] := data[i];
    }
  }
}
