/** How the output buffer of the key derivation is cut into blocks. What a block contains is a
    parameter; only its size matters here. */
module OutputBlocks {
  import opened Bytes

  const TWO_32 := 0x1_0000_0000

  /** Blocks of one size, numbered from 1. */
  datatype Layout = Layout(size: nat, block: nat -> seq<byte>)
  {
    ghost predicate Valid() {
      && 0 < size
      && forall i :: |block(i)| == size
    }

    /** Size of l blocks. */
    function Size(l: nat): nat {
      if l == 0 then 0 else Size(l - 1) + size
    }

    lemma {:induction false} SizeIsProduct(l: nat)
      ensures Size(l) == size * l
    {
      if l > 0 {
        SizeIsProduct(l - 1);
        MulAdd(size, l - 1, 1);
      }
    }

    lemma {:induction false} SizeMono(a: nat, b: nat)
      requires a <= b
      ensures Size(a) <= Size(b)
      decreases b
    {
      if a < b {
        SizeMono(a, b - 1);
      }
    }

    /** Every position lies in exactly one block. */
    lemma {:induction false} Locate(j: nat, bound: nat) returns (c: nat, r: nat)
      requires j < Size(bound)
      ensures 1 <= c <= bound && r < size && j == Size(c - 1) + r
      decreases bound
    {
      if j < Size(bound - 1) {
        c, r := Locate(j, bound - 1);
      } else {
        c, r := bound, j - Size(bound - 1);
      }
    }

    /** T_1 || ... || T_l. */
    ghost function Concat(l: nat): (r: seq<byte>)
      requires Valid()
      ensures |r| == Size(l)
    {
      if l == 0 then [] else Concat(l - 1) + block(l)
    }

    /** The derived key of n bytes. */
    ghost function DerivedKey(n: nat): (r: seq<byte>)
      requires Valid()
      ensures |r| == n
    {
      CeilCovers(n);
      Concat(CeilDiv(n, size))[..n]
    }

    lemma {:induction false} CeilCovers(n: nat)
      requires Valid()
      ensures n <= Size(CeilDiv(n, size))
    {
      SizeIsProduct(CeilDiv(n, size));
      QuotientBounds(n + size - 1, size);
    }

    lemma {:induction false} ConcatByte(l: nat, c: nat, r: nat)
      requires Valid() && 1 <= c <= l && r < size
      ensures Size(c - 1) + r < Size(l) && Concat(l)[Size(c - 1) + r] == block(c)[r]
      decreases l
    {
      if c < l {
        ConcatByte(l - 1, c, r);
      }
    }

    // ----- the blocks of the output buffer

    /** Number of blocks the C code computes: the sum is cast to 32 bits before it is divided. */
    function BlocksNeeded(n: nat): nat
      requires Valid()
    {
      Quotient((n + size - 1) % TWO_32, size)
    }

    /** Length of the part of an n-byte buffer that those blocks reach. */
    function Covered(n: nat): (w: nat)
      requires Valid()
      ensures w <= n
    {
      var w := Size(BlocksNeeded(n));
      if w < n then w else n
    }

    /** The buffer after the body of the loop has run for one counter. */
    ghost function StoreBlock(out: seq<byte>, counter: nat): (r: seq<byte>)
      requires Valid() && counter >= 1 && Size(counter - 1) <= |out|
      ensures |r| == |out|
    {
      var offset := Size(counter - 1);
      var taken := if |out| - offset > size then size else |out| - offset;
      out[..offset] + block(counter)[..taken] + out[offset + taken..]
    }

    ghost predicate InRange(order: seq<nat>, n: nat)
      requires Valid()
    {
      forall k :: 0 <= k < |order| ==> 1 <= order[k] <= BlocksNeeded(n)
    }

    /** The buffer after the body has run once for every counter of the list, in that order. */
    ghost function RunBlocks(out: seq<byte>, order: seq<nat>): (r: seq<byte>)
      requires Valid() && InRange(order, |out|)
      ensures |r| == |out|
    {
      if order == [] then out
      else
        var last := order[|order| - 1];
        BlockInBounds(|out|, last);
        StoreBlock(RunBlocks(out, order[..|order| - 1]), last)
    }

    /** Every block of the loop starts inside the buffer, and its 32-bit offset does not wrap. */
    lemma {:induction false} BlockInBounds(n: nat, counter: nat)
      requires Valid() && 1 <= counter <= BlocksNeeded(n)
      ensures Size(counter - 1) < n && Size(counter) < TWO_32
    {
      var x := (n + size - 1) % TWO_32;
      SizeMono(counter, BlocksNeeded(n));
      SizeIsProduct(BlocksNeeded(n));
      QuotientBounds(x, size);
    }

    /** Running the counters from 1 upwards is one of the orders. */
    lemma {:induction false} RunNext(out: seq<byte>, counter: nat)
      requires Valid() && 1 <= counter <= BlocksNeeded(|out|)
      ensures Size(counter - 1) < |out|
      ensures RunBlocks(out, UpTo(counter)) == StoreBlock(RunBlocks(out, UpTo(counter - 1)), counter)
    {
      BlockInBounds(|out|, counter);
      assert UpTo(counter)[..counter - 1] == UpTo(counter - 1);
    }

    /** One store changes exactly the bytes of its own block. */
    lemma {:induction false} StoreBlockByte(out: seq<byte>, counter: nat, c: nat, r: nat)
      requires Valid() && counter >= 1 && c >= 1 && r < size
      requires Size(counter - 1) <= |out| && Size(c - 1) + r < |out|
      ensures StoreBlock(out, counter)[Size(c - 1) + r] == if c == counter then block(c)[r] else out[Size(c - 1) + r]
    {
      if c < counter {
        SizeMono(c, counter - 1);
      } else if c > counter {
        SizeMono(counter, c - 1);
      }
    }

    lemma {:induction false} RunBlocksByte(out: seq<byte>, order: seq<nat>, c: nat, r: nat)
      requires Valid() && InRange(order, |out|)
      requires c >= 1 && r < size && Size(c - 1) + r < |out|
      ensures RunBlocks(out, order)[Size(c - 1) + r] == if c in order then block(c)[r] else out[Size(c - 1) + r]
      decreases |order|
    {
      if order != [] {
        var front, last := order[..|order| - 1], order[|order| - 1];
        assert order == front + [last];
        BlockInBounds(|out|, last);
        RunBlocksByte(out, front, c, r);
        StoreBlockByte(RunBlocks(out, front), last, c, r);
      }
    }

    /** The derived key in the part of the buffer the blocks reach, the old bytes behind it. */
    ghost function Filled(out: seq<byte>): (r: seq<byte>)
      requires Valid()
      ensures |r| == |out|
    {
      DerivedKey(|out|)[..Covered(|out|)] + out[Covered(|out|)..]
    }

    /** Whatever order the counters run in, and even if one runs twice, the buffer ends up the
        same: the covered part holds the derived key, the rest is untouched. */
    lemma {:induction false} AnyOrder(out: seq<byte>, order: seq<nat>)
      requires Valid() && InRange(order, |out|)
      requires forall c :: 1 <= c <= BlocksNeeded(|out|) ==> c in order
      ensures RunBlocks(out, order) == Filled(out)
    {
      var l, n := CeilDiv(|out|, size), BlocksNeeded(|out|);
      CeilCovers(|out|);
      forall j | 0 <= j < |out|
        ensures RunBlocks(out, order)[j] == if j < Size(n) then DerivedKey(|out|)[j] else out[j]
      {
        var c, r := Locate(j, l);
        RunBlocksByte(out, order, c, r);
        ConcatByte(l, c, r);
        if c <= n {
          SizeMono(c, n);
        } else {
          SizeMono(n, c - 1);
        }
      }
    }

    lemma {:induction false} InOrder(out: seq<byte>, n: nat)
      requires Valid() && n == BlocksNeeded(|out|)
      ensures InRange(UpTo(n), |out|) && RunBlocks(out, UpTo(n)) == Filled(out)
    {
      forall c | 1 <= c <= n ensures c in UpTo(n) {
        assert UpTo(n)[c - 1] == c;
      }
      AnyOrder(out, UpTo(n));
    }

    /** The 32-bit cast is harmless exactly for outputs of at most 2^32 - digest size bytes. */
    lemma {:induction false} CoversAll(n: nat)
      requires Valid() && n > 0
      ensures Covered(n) == n <==> n + size - 1 < TWO_32
    {
      var x := n + size - 1;
      SizeIsProduct(BlocksNeeded(n));
      QuotientBounds(x % TWO_32, size);
    }

    /** The C code meets the standard, whatever the buffer held before, exactly for those lengths. */
    lemma {:induction false} MeetsStandardIff(n: nat)
      requires Valid() && n > 0
      ensures (forall out: seq<byte> :: |out| == n ==> Filled(out) == DerivedKey(n)) <==> n + size - 1 < TWO_32
    {
      CoversAll(n);
      var w, dk := Covered(n), DerivedKey(n);
      if w == n {
        forall out: seq<byte> | |out| == n ensures Filled(out) == dk {
          assert dk[..w] + out[w..] == dk;
        }
      } else {
        var other := dk[w := if dk[w] == 0 then 1 else 0];
        assert Filled(other)[w] == other[w] != dk[w];
      }
    }
  }

  /** For example, of a 2^32-byte buffer with 64-byte digests not a single byte is written. */
  lemma {:induction false} HugeOutputUntouched(layout: Layout, out: seq<byte>)
    requires layout.Valid() && layout.size == 64 && |out| == TWO_32
    ensures layout.BlocksNeeded(|out|) == 0 && layout.Filled(out) == out
  {
    assert (TWO_32 + 63) % TWO_32 == 63;
  }

  function CeilDiv(n: nat, d: nat): nat
    requires d > 0
  {
    Quotient(n + d - 1, d)
  }

  lemma {:induction false} QuotientBounds(x: nat, d: nat)
    requires d > 0
    ensures d * Quotient(x, d) <= x < d * Quotient(x, d) + d
  {
    IsDivision(x, d);
  }

  ghost function UpTo(n: nat): (r: seq<nat>)
    ensures |r| == n && forall k :: 0 <= k < n ==> r[k] == k + 1
  {
    seq(n, k => k + 1)
  }

  method CountBlocks(ghost layout: Layout, size: nat, n: nat) returns (count: nat)
    requires layout.Valid() && layout.size == size && n > 0
    ensures count == layout.BlocksNeeded(n)
  {
    count := Divide((n + size - 1) % TWO_32, size);
  }

  method Divide(n: nat, d: nat) returns (q: nat)
    requires d > 0
    ensures q == Quotient(n, d)
  {
    q := n / d;
    IsDivision(n, d);
  }

  method Offset32(ghost layout: Layout, size: nat, counter: nat) returns (offset: nat)
    requires layout.Valid() && layout.size == size && counter >= 1 && layout.Size(counter - 1) < TWO_32
    ensures offset == layout.Size(counter - 1)
  {
    layout.SizeIsProduct(counter - 1);
    var product := (counter - 1) * size;
    assert product == size * (counter - 1);
    offset := product % TWO_32;
  }

  /** Copies one block into place, with the offset computed in 32 bits as in the C code. */
  method StoreAt(ghost layout: Layout, size: nat, block: array<byte>, counter: nat, out: array<byte>)
    requires layout.Valid() && layout.size == size && block != out
    requires 1 <= counter <= layout.BlocksNeeded(out.Length) && block[..] == layout.block(counter)
    modifies out
    ensures layout.Size(counter - 1) < out.Length
    ensures out[..] == layout.StoreBlock(old(out[..]), counter)
  {
    layout.BlockInBounds(out.Length, counter);
    var offset := Offset32(layout, size, counter);
    var taken := if out.Length - offset > size then size else out.Length - offset;
    CopyInto(block, taken, out, offset);
  }

  method CopyInto(from: array<byte>, n: nat, to: array<byte>, offset: nat)
    requires from != to && n <= from.Length && offset + n <= to.Length
    modifies to
    ensures to[..] == old(to[..offset]) + from[..n] + old(to[offset + n..])
  {
    forall i | 0 <= i < n {
      to[offset + i] := from[i];
    }
  }
}
