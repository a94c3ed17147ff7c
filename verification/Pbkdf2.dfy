/** The fast form of PBKDF2, and PBKDF2 of section 5.2 of RFC 8018 that it computes. */
module Pbkdf2 {
  import opened Bytes
  import opened MerkleDamgard
  import opened Hmac
  import opened OutputBlocks

  // ----- specification: section 5.2 of RFC 8018 with HMAC as the pseudorandom function

  /** Password, salt and iteration count of one derivation. */
  datatype Job = Job(h: Hash, pw: seq<byte>, salt: seq<byte>, iterations: nat)
  {
    ghost predicate Valid() {
      h.Valid() && 1 <= iterations < TWO_32
    }

    /** U_c of block i. */
    ghost function U(i: nat, c: nat): (r: seq<byte>)
      requires h.Valid() && c >= 1
      ensures |r| == h.digestSize
    {
      Mac(h, pw, if c == 1 then salt + BigEndian(i, 4) else U(i, c - 1))
    }

    /** U_1 xor ... xor U_c. */
    ghost function XorOfU(i: nat, c: nat): (r: seq<byte>)
      requires h.Valid() && c >= 1
      ensures |r| == h.digestSize
    {
      if c == 1 then U(i, 1) else XorBytes(XorOfU(i, c - 1), U(i, c))
    }

    /** The salt and the number of the block in four bytes go in first, then every result. */
    lemma {:induction false} UIs(i: nat, c: nat)
      requires h.Valid() && c >= 1
      ensures U(i, 1) == Mac(h, pw, salt + BigEndian(i, 4)) == XorOfU(i, 1)
      ensures U(i, c + 1) == Mac(h, pw, U(i, c)) && XorOfU(i, c + 1) == XorBytes(XorOfU(i, c), U(i, c + 1))
    {
    }

    /** T_i. */
    ghost function T(i: nat): (r: seq<byte>)
      requires Valid()
      ensures |r| == h.digestSize
    {
      XorOfU(i, iterations)
    }

    /** The blocks T_1, T_2, ... of the output. */
    ghost function Output(): (r: Layout)
      requires Valid()
      ensures r.Valid() && r.size == h.digestSize && forall i: nat :: r.block(i) == T(i)
    {
      Layout(h.digestSize, i => if Valid() then T(i) else [])
    }
  }

  // ----- the padding block

  /** What md_pad leaves behind the used bytes: the length is stored in four bytes only. */
  function ShortTail(blockSize: nat, used: nat, msg: nat): (r: seq<byte>)
    requires used + 4 <= blockSize
    ensures |r| == blockSize - used
  {
    (if used + 4 < blockSize then [0x80] + Zeros(blockSize - used - 5) else []) + BigEndian(8 * msg % TWO_32, 4)
  }

  method MdPad(block: array<byte>, used: nat, msg: nat)
    requires used + 4 <= block.Length
    modifies block
    ensures block[..] == old(block[..used]) + ShortTail(block.Length, used, msg)
  {
    var n := block.Length - 4;
    forall i | used <= i < n {
      block[i] := 0;
    }
    block[used] := 0x80;
    WriteBigEndian(8 * msg % TWO_32, 4, block, n);
  }

  /** The four-byte length is as good as the full field exactly when the block has room for the
      full field and the bit length fits in 32 bits. */
  lemma {:induction false} ShortTailIsPadding(h: Hash, used: nat, msg: nat)
    requires h.Valid() && used == Remainder(msg, h.blockSize) && used + 4 <= h.blockSize
    ensures ShortTail(h.blockSize, used, msg) == h.Padding(msg)
       <==> used + 1 + h.lengthSize <= h.blockSize && Remainder(8 * msg, Pow256(h.lengthSize)) < TWO_32
  {
    var b, l := h.blockSize, h.lengthSize;
    if used + 1 + l <= b {
      RemainderPlus(msg, 1 + l, b);
      var z := b - used - 1 - l;
      assert h.ZeroCount(msg) == z;
      var short, full := Zeros(l - 4) + BigEndian(8 * msg % TWO_32, 4), BigEndian(8 * msg, l);
      assert ShortTail(b, used, msg) == [0x80] + Zeros(z) + short;
      assert h.Padding(msg) == [0x80] + Zeros(z) + full;
      assert short == ShortTail(b, used, msg)[1 + z..] && full == h.Padding(msg)[1 + z..];
      ShortLength(8 * msg, l);
    }
  }

  lemma {:induction false} RemainderPlus(n: nat, k: nat, d: nat)
    requires d > 0 && Remainder(n, d) + k <= d
    ensures Remainder(n + k, d) == if Remainder(n, d) + k == d then 0 else Remainder(n, d) + k
  {
    if n >= d {
      RemainderPlus(n - d, k, d);
    }
  }

  lemma {:induction false} ShortLength(bits: nat, l: nat)
    requires l >= 4
    ensures Zeros(l - 4) + BigEndian(bits % TWO_32, 4) == BigEndian(bits, l) <==> Remainder(bits, Pow256(l)) < TWO_32
  {
    assert Pow256(4) == TWO_32;
    var short, full := Remainder(bits, Pow256(4)), Remainder(bits, Pow256(l));
    IsDivision(bits, Pow256(4));
    LowOfLow(bits, 4, l);
    assert full < TWO_32 <==> short == full;
    assert Zeros(l - 4) + BigEndian(short, 4) == BigEndian(short, l) by {
      BigEndianZero(l - 4);
      BigEndianSplit(0, short, l - 4, 4);
    }
    Pow256Mono(4, l);
    BigEndianLow(bits, l);
    IsDivision(bits, Pow256(l));
    SameField(short, full, l);
  }

  lemma {:induction false} SameField(a: nat, b: nat, l: nat)
    requires a < Pow256(l) && b < Pow256(l)
    ensures BigEndian(a, l) == BigEndian(b, l) <==> a == b
  {
    BigEndianDecodes(a, l);
    BigEndianDecodes(b, l);
    SmallMod(a, Pow256(l));
    SmallMod(b, Pow256(l));
  }

  lemma {:induction false} Pow256Mono(a: nat, b: nat)
    requires a <= b
    ensures Pow256(a) <= Pow256(b) && Pow256(b) == Pow256(a) * Pow256(b - a)
    decreases b
  {
    if a < b {
      Pow256Mono(a, b - 1);
      MulAssoc(256, Pow256(a), Pow256(b - 1 - a));
      MulAssoc(Pow256(a), 256, Pow256(b - 1 - a));
    }
  }

  lemma {:induction false} LowOfLow(n: nat, a: nat, b: nat)
    requires a <= b
    ensures Remainder(n, Pow256(a)) == Remainder(Remainder(n, Pow256(b)), Pow256(a))
  {
    Pow256Mono(a, b);
    MultipleAdds(Remainder(n, Pow256(b)), Pow256(a), Pow256(b - a) * Quotient(n, Pow256(b)));
    IsDivision(n, Pow256(b));
    MulAssoc(Pow256(a), Pow256(b - a), Quotient(n, Pow256(b)));
  }

  lemma {:induction false} MultipleAdds(r: nat, d: nat, k: nat)
    requires d > 0
    ensures d * k + r >= 0 && Remainder(d * k + r, d) == Remainder(r, d)
  {
    if k > 0 {
      MulAdd(d, k - 1, 1);
      MultipleAdds(r, d, k - 1);
    }
  }

  // ----- two compressions instead of one HMAC

  /** A message of one key block and one digest is hashed by one compression from the saved state. */
  lemma {:induction false} OneCompression(h: Hash, k: seq<byte>, u: seq<byte>)
    requires h.Valid() && |k| == h.blockSize && |u| == h.digestSize
    ensures h.FinalState(k + u) == h.compress(h.Absorb(h.iv, k), u + Tail(h))
  {
    TailIsPadding(h);
    assert k + u + Tail(h) == k + (u + Tail(h));
    h.AbsorbTwo(h.iv, k, u + Tail(h));
  }

  /** The padding that a block keeps behind its digest for the whole run. */
  function Tail(h: Hash): (r: seq<byte>)
    requires h.digestSize + 4 <= h.blockSize
  {
    ShortTail(h.blockSize, h.digestSize, h.blockSize + h.digestSize)
  }

  lemma {:induction false} TailIsPadding(h: Hash)
    requires h.Valid()
    ensures Tail(h) == h.Padding(h.blockSize + h.digestSize)
  {
    assert Pow256(4) == TWO_32;
    Pow256Mono(4, h.lengthSize);
    ShortTailIsPadding(h, h.digestSize, h.blockSize + h.digestSize);
  }

  lemma {:induction false} SmallMod(n: nat, d: nat)
    requires n < d
    ensures n % d == n
  {
  }

  // ----- the fast form, on values

  /** The chaining values that the loop over the iterations starts from, and what stands behind the
      digest in its block. */
  datatype Saved = Saved(h: Hash, inner: seq<nat>, outer: seq<nat>, tail: seq<byte>)
  {
    ghost predicate Valid() {
      h.Valid() && h.Chaining(inner) && h.Chaining(outer) && h.digestSize + |tail| == h.blockSize
    }

    /** The outer chaining value after two raw compressions. */
    ghost function Step(u: seq<byte>): (r: seq<nat>)
      requires Valid() && |u| == h.digestSize
      ensures h.Chaining(r)
    {
      h.compress(outer, h.Encode(h.compress(inner, u + tail)) + tail)
    }

    ghost function StepN(first: seq<nat>, c: nat): (r: seq<nat>)
      requires Valid() && h.Chaining(first) && c >= 1
      ensures h.Chaining(r)
    {
      if c == 1 then first else Step(h.Encode(StepN(first, c - 1)))
    }

    /** The accumulated words. */
    ghost function Sum(first: seq<nat>, c: nat): (r: seq<nat>)
      requires Valid() && h.Chaining(first) && c >= 1
      ensures h.Chaining(r)
    {
      if c == 1 then first
      else
        h.XorWordsChaining(Sum(first, c - 1), StepN(first, c));
        h.XorWords(Sum(first, c - 1), StepN(first, c))
    }

    lemma {:induction false} NextStep(first: seq<nat>, c: nat) returns (u: seq<nat>, sum: seq<nat>)
      requires Valid() && h.Chaining(first) && c >= 1
      ensures |u| == |sum| == |h.iv|
      ensures u == StepN(first, c + 1) == Step(h.Encode(StepN(first, c)))
      ensures sum == Sum(first, c + 1) == h.XorWords(Sum(first, c), u)
    {
      u, sum := StepN(first, c + 1), Sum(first, c + 1);
    }

    ghost predicate For(key: seq<byte>)
      requires h.Valid()
    {
      inner == h.Absorb(h.iv, InnerKey(h, key)) && outer == h.Absorb(h.iv, OuterKey(h, key)) && tail == Tail(h)
    }

    /** Two raw compressions from the states saved for a key are one full HMAC under that key. */
    lemma {:induction false} StepIsMac(key: seq<byte>, u: seq<byte>)
      requires Valid() && For(key) && |u| == h.digestSize
      ensures h.Encode(Step(u)) == Mac(h, key, u)
    {
      OneCompression(h, InnerKey(h, key), u);
      OneCompression(h, OuterKey(h, key), h.Digest(InnerKey(h, key) + u));
    }

    /** The whole fast loop computes T: its words, written out once, are U_1 xor ... xor U_c. */
    lemma {:induction false} FastIsT(job: Job, i: nat, first: seq<nat>, c: nat)
      requires Valid() && job.h == h && For(job.pw) && c >= 1
      requires h.Chaining(first) && h.Encode(first) == job.U(i, 1)
      ensures h.Encode(StepN(first, c)) == job.U(i, c)
      ensures h.Encode(Sum(first, c)) == job.XorOfU(i, c)
    {
      if c > 1 {
        FastIsT(job, i, first, c - 1);
        StepIsMac(job.pw, job.U(i, c - 1));
        h.EncodeXor(Sum(first, c - 1), StepN(first, c));
      }
    }
  }

  // ----- the C functions

  /** One half of a pass: a raw compression from a saved state, written back over the block. */
  method HalfPass(h: Hash, start: HashContext, ctx: HashContext, ublock: array<byte>, ghost tail: seq<byte>)
    requires start.Shaped() && start != ctx && start.hash == ctx.hash == h
    requires ublock.Length == h.blockSize && ublock[h.digestSize..] == tail
    modifies ublock, ctx
    ensures ctx.Shaped() && ctx.words == h.compress(start.words, old(ublock[..]))
    ensures ublock[..] == h.Encode(ctx.words) + tail
  {
    ctx.CopyWords(start);
    ctx.Transform(ublock);
    ctx.Extract(ublock);
  }

  ghost predicate Apart(start: HmacContext, ctx: HmacContext, result: HashContext) {
    && ctx.inner != ctx.outer && ctx.inner != result && ctx.outer != result
    && start.inner != ctx.inner && start.inner != ctx.outer && start.inner != result
    && start.outer != ctx.inner && start.outer != ctx.outer && start.outer != result
  }

  /** The block holds these words and the padding, and the result holds their sum so far. */
  ghost predicate Between(saved: Saved, u: seq<nat>, sum: seq<nat>, ublock: array<byte>, result: HashContext)
    reads ublock, result
  {
    ublock[..] == saved.h.Encode(u) + saved.tail && result.words == sum
  }

  ghost predicate SameHash(h: Hash, start: HmacContext, ctx: HmacContext, result: HashContext) {
    start.inner.hash == start.outer.hash == ctx.inner.hash == ctx.outer.hash == result.hash == h
  }

  /** The body of the loop over the iterations: the block comes to hold the next U and the same
      padding, and the words accumulate it. */
  method Pass(h: Hash, start: HmacContext, ctx: HmacContext, result: HashContext, ublock: array<byte>,
              ghost saved: Saved, ghost u: seq<nat>, ghost sum: seq<nat>)
    requires saved.Valid() && saved.h == h && |u| == |h.iv| && h.Chaining(sum)
    requires Apart(start, ctx, result) && SameHash(h, start, ctx, result)
    requires start.inner.words == saved.inner && start.outer.words == saved.outer
    requires Between(saved, u, sum, ublock, result)
    modifies ublock, ctx.inner, ctx.outer, result
    ensures Between(saved, saved.Step(h.Encode(u)), h.XorWords(sum, saved.Step(h.Encode(u))), ublock, result)
  {
    HalfPass(h, start.inner, ctx.inner, ublock, saved.tail);
    HalfPass(h, start.outer, ctx.outer, ublock, saved.tail);
    result.XorWith(ctx.outer);
  }

  /** The loop over the iterations. */
  method Passes(h: Hash, start: HmacContext, ctx: HmacContext, result: HashContext, ublock: array<byte>, iterations: nat,
                ghost saved: Saved, ghost first: seq<nat>)
    requires saved.Valid() && saved.h == h && iterations >= 1
    requires Apart(start, ctx, result) && SameHash(h, start, ctx, result)
    requires start.inner.words == saved.inner && start.outer.words == saved.outer
    requires h.Chaining(first) && Between(saved, first, first, ublock, result)
    modifies ublock, result, ctx.inner, ctx.outer
    ensures result.words == saved.Sum(first, iterations)
  {
    ghost var u, sum := first, first;
    for i := 1 to iterations
      invariant start.inner.words == saved.inner && start.outer.words == saved.outer
      invariant |u| == |sum| == |h.iv| && u == saved.StepN(first, i) && sum == saved.Sum(first, i)
      invariant Between(saved, u, sum, ublock, result)
    {
      Pass(h, start, ctx, result, ublock, saved, u, sum);
      u, sum := saved.NextStep(first, i);
    }
  }

  /** The first iteration, a full HMAC over salt and counter. */
  method FirstU(job: Job, ctx: HmacContext, counter: nat, ublock: array<byte>)
    requires job.Valid() && ctx.Keyed(job.h, job.pw, []) && ublock.Length == job.h.blockSize
    modifies ublock, ctx.inner, ctx.outer
    ensures ublock[..] == job.U(counter, 1) + Tail(job.h)
    ensures ctx.outer.Shaped() && job.h.Encode(ctx.outer.words) == job.U(counter, 1)
  {
    var h := job.h;
    var countbuf := new byte[4];
    WriteBigEndian(counter, 4, countbuf, 0);
    assert countbuf[..] == BigEndian(counter, 4);
    MdPad(ublock, h.digestSize, h.blockSize + h.digestSize);
    assert ublock[h.digestSize..] == Tail(h);
    ctx.Update(job.salt, h, job.pw, []);
    assert [] + job.salt == job.salt;
    ctx.Update(countbuf[..], h, job.pw, job.salt);
    ctx.Final(ublock, h, job.pw, job.salt + BigEndian(counter, 4));
  }

  /** One block of output: pbkdf2_f. The password is used through the prepared context only. */
  method BlockF(job: Job, start: HmacContext, counter: nat, out: array<byte>)
    requires job.Valid() && start.Keyed(job.h, job.pw, []) && out.Length == job.h.digestSize
    modifies out
    ensures out[..] == job.T(counter)
  {
    var h := job.h;
    ghost var saved := Saved(h, start.inner.words, start.outer.words, Tail(h));
    assert saved.Valid() && saved.For(job.pw) by {
      assert InnerKey(h, job.pw) + [] == InnerKey(h, job.pw);
    }
    var ublock := new byte[h.blockSize];
    var ctx := new HmacContext.Copy(start, h, job.pw, []);
    FirstU(job, ctx, counter, ublock);
    var result := new HashContext.Copy(ctx.outer);
    ghost var first := result.words;
    Passes(h, start, ctx, result, ublock, job.iterations, saved, first);
    saved.FastIsT(job, counter, first, job.iterations);
    result.Extract(out);
  }

  /** The body of the loop over the blocks. */
  method OutputBlock(job: Job, ctx: HmacContext, counter: nat, out: array<byte>)
    requires job.Valid() && ctx.Keyed(job.h, job.pw, [])
    requires 1 <= counter <= job.Output().BlocksNeeded(out.Length)
    modifies out
    ensures job.Output().Size(counter - 1) < out.Length
    ensures out[..] == job.Output().StoreBlock(old(out[..]), counter)
  {
    var block := new byte[job.h.digestSize];
    BlockF(job, ctx, counter, block);
    StoreAt(job.Output(), job.h.digestSize, block, counter, out);
  }

  method AllBlocks(job: Job, ctx: HmacContext, blocksNeeded: nat, out: array<byte>)
    requires job.Valid() && ctx.Keyed(job.h, job.pw, [])
    requires blocksNeeded == job.Output().BlocksNeeded(out.Length)
    modifies out
    ensures out[..] == job.Output().Filled(old(out[..]))
  {
    var counter := 1;
    while counter <= blocksNeeded
      invariant 1 <= counter <= blocksNeeded + 1
      invariant ctx.Keyed(job.h, job.pw, [])
      invariant out[..] == job.Output().RunBlocks(old(out[..]), UpTo(counter - 1))
    {
      OutputBlock(job, ctx, counter, out);
      job.Output().RunNext(old(out[..]), counter);
      counter := counter + 1;
    }
    job.Output().InOrder(old(out[..]), blocksNeeded);
  }

  /** The derived key fills the part of the buffer that the 32-bit block count reaches, which by
      Layout.CoversAll is the whole buffer unless it is longer than 2^32 - digest size bytes. */
  method Derive(h: Hash, pw: seq<byte>, salt: seq<byte>, iterations: nat, out: array<byte>)
    requires h.Valid() && 1 <= iterations < TWO_32 && out.Length > 0
    modifies out
    ensures out[..] == Job(h, pw, salt, iterations).Output().Filled(old(out[..]))
  {
    var job := Job(h, pw, salt, iterations);
    var blocksNeeded := CountBlocks(job.Output(), h.digestSize, out.Length);
    var ctx := new HmacContext(h, pw);
    AllBlocks(job, ctx, blocksNeeded, out);
  }

  // ----- the three instances

  function Sha1(iv: seq<nat>, compress: (seq<nat>, seq<byte>) -> seq<nat>): Hash {
    Hash(64, 20, 4, 8, iv, compress)
  }

  function Sha256(iv: seq<nat>, compress: (seq<nat>, seq<byte>) -> seq<nat>): Hash {
    Hash(64, 32, 4, 8, iv, compress)
  }

  function Sha512(iv: seq<nat>, compress: (seq<nat>, seq<byte>) -> seq<nat>): Hash {
    Hash(128, 64, 8, 16, iv, compress)
  }

  lemma {:induction false} EncodedSizeIsProduct(h: Hash, n: nat)
    ensures h.EncodedSize(n) == h.wordSize * n
  {
    if n > 0 {
      EncodedSizeIsProduct(h, n - 1);
      MulAdd(h.wordSize, n - 1, 1);
    }
  }

  /** The sizes of the three hash functions meet every demand above: all that is asked of the
      parameters is that compression maps chaining values to chaining values. */
  lemma {:induction false} InstancesValid(iv: seq<nat>, compress: (seq<nat>, seq<byte>) -> seq<nat>, h: Hash)
    requires h == Sha1(iv, compress) || h == Sha256(iv, compress) || h == Sha512(iv, compress)
    requires |iv| == if h == Sha1(iv, compress) then 5 else 8
    requires h.Chaining(iv)
    requires forall s, b {:trigger compress(s, b)} :: h.Chaining(s) && |b| == h.blockSize ==> h.Chaining(compress(s, b))
    ensures h.Valid()
  {
    EncodedSizeIsProduct(h, |iv|);
    assert Pow256(4) == TWO_32;
  }
}
