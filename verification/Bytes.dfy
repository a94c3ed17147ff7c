/** Bytes, big-endian numbers and bitwise exclusive or, shared by the key
    derivation and by the wire protocol. */
module Bytes {
  type byte = x: int | 0 <= x < 256

  function Pow256(k: nat): (p: nat)
    ensures p > 0
  {
    if k == 0 then 1 else 256 * Pow256(k - 1)
  }

  function Pow2(k: nat): (p: nat)
    ensures p > 0
  {
    if k == 0 then 1 else 2 * Pow2(k - 1)
  }

  function Zeros(n: nat): (r: seq<byte>)
    ensures |r| == n && forall i :: 0 <= i < n ==> r[i] == 0
  {
    seq(n, _ => 0)
  }

  lemma {:induction false} Assoc(a: seq<byte>, b: seq<byte>, c: seq<byte>)
    ensures (a + b) + c == a + (b + c)
  {
  }

  // ----- big-endian numbers

  /** The low k bytes of n, most significant first: what the shift forms of the C code store. */
  function BigEndian(n: nat, k: nat): (r: seq<byte>)
    ensures |r| == k
  {
    if k == 0 then [] else BigEndian(n / 256, k - 1) + [n % 256]
  }

  function FromBigEndian(s: seq<byte>): nat
  {
    if s == [] then 0 else 256 * FromBigEndian(s[..|s| - 1]) + s[|s| - 1]
  }

  lemma {:induction false} FromBigEndianBound(s: seq<byte>)
    ensures FromBigEndian(s) < Pow256(|s|)
  {
    if s != [] {
      FromBigEndianBound(s[..|s| - 1]);
    }
  }

  /** Decoding what was encoded gives the number back, up to the width of the field. */
  lemma {:induction false} BigEndianDecodes(n: nat, k: nat)
    ensures FromBigEndian(BigEndian(n, k)) == n % Pow256(k)
  {
    if k > 0 {
      BigEndianDecodes(n / 256, k - 1);
      assert BigEndian(n, k)[..k - 1] == BigEndian(n / 256, k - 1);
      DivModSplit(n, 256, Pow256(k - 1));
    }
  }

  lemma {:induction false} BigEndianEncodes(s: seq<byte>)
    ensures BigEndian(FromBigEndian(s), |s|) == s
  {
    if s != [] {
      BigEndianEncodes(s[..|s| - 1]);
      assert s == s[..|s| - 1] + [s[|s| - 1]];
    }
  }

  /** The high and the low part of a number are stored side by side. */
  lemma {:induction false} BigEndianSplit(h: nat, l: nat, high: nat, low: nat)
    requires l < Pow256(low)
    ensures BigEndian(Pow256(low) * h + l, high + low) == BigEndian(h, high) + BigEndian(l, low)
  {
    if low > 0 {
      var p := Pow256(low - 1);
      var n := Pow256(low) * h + l;
      ShiftOut(256, p, h, l, n);
      BigEndianSplit(h, l / 256, high, low - 1);
      assert BigEndian(h, high) + BigEndian(l / 256, low - 1) + [l % 256]
          == BigEndian(h, high) + (BigEndian(l / 256, low - 1) + [l % 256]);
    } else {
      assert BigEndian(h, high) == BigEndian(h, high) + [];
    }
  }

  lemma {:induction false} ShiftOut(d: nat, p: nat, h: nat, l: nat, n: nat)
    requires d > 0 && n == (d * p) * h + l
    ensures n / d == p * h + l / d && n % d == l % d
  {
    MulAssoc(d, p, h);
    MulAdd(d, p * h, l / d);
    DivModUnique(n, d, p * h + l / d, l % d);
  }

  /** The last bytes are those of the number in a narrower field. */
  lemma {:induction false} BigEndianTail(n: nat, high: nat, low: nat)
    ensures BigEndian(n, high + low)[high..] == BigEndian(n, low)
  {
    if low > 0 {
      BigEndianTail(n / 256, high, low - 1);
    }
  }

  /** Only the low k bytes of a number matter. */
  lemma {:induction false} BigEndianLow(n: nat, k: nat)
    ensures BigEndian(n, k) == BigEndian(n % Pow256(k), k)
  {
    BigEndianDecodes(n, k);
    BigEndianEncodes(BigEndian(n, k));
  }

  lemma {:induction false} BigEndianZero(k: nat)
    ensures BigEndian(0, k) == Zeros(k)
  {
    if k > 0 {
      BigEndianZero(k - 1);
    }
  }

  // ----- the byte-swapping form

  /** Memory image of an unsigned number on a little-endian machine. */
  function LittleEndian(n: nat, k: nat): (r: seq<byte>)
    ensures |r| == k
  {
    if k == 0 then [] else [n % 256] + LittleEndian(n / 256, k - 1)
  }

  /** What a byte-swap instruction of width k computes. */
  function Bswap(n: nat, k: nat): (r: nat)
    ensures r < Pow256(k)
  {
    if k == 0 then 0
    else
      MulMono(Pow256(k - 1), n % 256, 255);
      Pow256(k - 1) * (n % 256) + Bswap(n / 256, k - 1)
  }

  /** Storing the swapped number on a little-endian machine and storing byte by byte agree. */
  lemma {:induction false} SwapFormAgrees(n: nat, k: nat)
    ensures LittleEndian(Bswap(n, k), k) == BigEndian(n, k)
  {
    if k > 0 {
      SwapFormAgrees(n / 256, k - 1);
      LittleEndianTop(n % 256, Bswap(n / 256, k - 1), k - 1);
    }
  }

  lemma {:induction false} LittleEndianTop(top: byte, low: nat, k: nat)
    requires low < Pow256(k)
    ensures LittleEndian(Pow256(k) * top + low, k + 1) == LittleEndian(low, k) + [top]
  {
    if k > 0 {
      ShiftOut(256, Pow256(k - 1), top, low, Pow256(k) * top + low);
      LittleEndianTop(top, low / 256, k - 1);
    }
  }

  // ----- exclusive or

  /** Bitwise exclusive or of two numbers of the given width. */
  function Xor(a: nat, b: nat, bits: nat): (r: nat)
    ensures r < Pow2(bits)
  {
    if bits == 0 then 0 else 2 * Xor(a / 2, b / 2, bits - 1) + if a % 2 == b % 2 then 0 else 1
  }

  function XorByte(a: byte, b: byte): (r: byte)
  {
    assert Pow2(8) == 256 by { Pow2Is256(); }
    Xor(a, b, 8)
  }

  function XorBytes(a: seq<byte>, b: seq<byte>): (r: seq<byte>)
    requires |a| == |b|
    ensures |r| == |a|
  {
    seq(|a|, i requires 0 <= i < |a| => XorByte(a[i], b[i]))
  }

  lemma {:induction false} Pow2Is256()
    ensures Pow2(8) == 256
  {
    assert Pow2(4) == 16;
  }

  lemma {:induction false} Pow2IsPow256(k: nat)
    ensures Pow2(8 * k) == Pow256(k)
  {
    if k > 0 {
      Pow2IsPow256(k - 1);
      var n := 8 * (k - 1);
      assert Pow2(n + 2) == 4 * Pow2(n);
      assert Pow2(n + 4) == 16 * Pow2(n);
      assert Pow2(n + 6) == 64 * Pow2(n);
      assert Pow2(n + 8) == 256 * Pow2(n);
    }
  }

  function Bit(n: nat, i: nat): nat {
    if i == 0 then n % 2 else Bit(n / 2, i - 1)
  }

  /** Bit i of an exclusive or is set exactly when the operands differ there. */
  lemma {:induction false} XorBit(a: nat, b: nat, bits: nat, i: nat)
    requires i < bits
    ensures Bit(Xor(a, b, bits), i) == if Bit(a, i) == Bit(b, i) then 0 else 1
  {
    if i > 0 {
      assert Xor(a, b, bits) / 2 == Xor(a / 2, b / 2, bits - 1);
      XorBit(a / 2, b / 2, bits - 1, i - 1);
    }
  }

  /** The low m bits and the bits above them are combined independently. */
  lemma {:induction false} XorSplit(ah: nat, al: nat, bh: nat, bl: nat, m: nat, n: nat)
    requires al < Pow2(m) && bl < Pow2(m)
    ensures Xor(Pow2(m) * ah + al, Pow2(m) * bh + bl, m + n) == Pow2(m) * Xor(ah, bh, n) + Xor(al, bl, m)
  {
    if m > 0 {
      var p := Pow2(m - 1);
      var a, b := Pow2(m) * ah + al, Pow2(m) * bh + bl;
      ShiftOut(2, p, ah, al, a);
      ShiftOut(2, p, bh, bl, b);
      XorSplit(ah, al / 2, bh, bl / 2, m - 1, n);
      MulAssoc(2, p, Xor(ah, bh, n));
      assert Xor(a, b, m + n) == 2 * Xor(a / 2, b / 2, m - 1 + n) + if al % 2 == bl % 2 then 0 else 1;
    }
  }

  /** Big-endian storing turns exclusive or of words into exclusive or of bytes. */
  lemma {:induction false} BigEndianXor(a: nat, b: nat, k: nat)
    ensures BigEndian(Xor(a, b, 8 * k), k) == XorBytes(BigEndian(a, k), BigEndian(b, k))
  {
    if k > 0 {
      var x, low, high := Xor(a, b, 8 * k), XorByte(a % 256, b % 256), Xor(a / 256, b / 256, 8 * (k - 1));
      assert x == low + 256 * high by {
        Pow2Is256();
        XorSplit(a / 256, a % 256, b / 256, b % 256, 8, 8 * (k - 1));
      }
      DivModUnique(x, 256, high, low);
      BigEndianXor(a / 256, b / 256, k - 1);
    }
  }

  // ----- division

  /** Quotient and remainder by repeated subtraction: these equal n / d and n % d, but keep
      division by a variable out of the proofs that only mention them. */
  function Quotient(n: nat, d: nat): nat
    requires d > 0
  {
    if n < d then 0 else Quotient(n - d, d) + 1
  }

  function Remainder(n: nat, d: nat): (r: nat)
    requires d > 0
    ensures r < d && r <= n
  {
    if n < d then n else Remainder(n - d, d)
  }

  lemma {:induction false} IsDivision(n: nat, d: nat)
    requires d > 0
    ensures Quotient(n, d) == n / d && Remainder(n, d) == n % d
    ensures n == d * Quotient(n, d) + Remainder(n, d)
  {
    if n >= d {
      IsDivision(n - d, d);
      MulAdd(d, Quotient(n - d, d), 1);
    }
    DivModUnique(n, d, Quotient(n, d), Remainder(n, d));
  }

  lemma {:induction false} MulMono(a: nat, x: nat, y: nat)
    requires x <= y
    ensures a * x <= a * y
  {
  }

  lemma {:induction false} MulAssoc(a: int, b: int, c: int)
    ensures a * (b * c) == (a * b) * c
  {
  }

  lemma {:induction false} DivModUnique(n: int, d: int, q: int, r: int)
    requires 0 <= r < d && n == d * q + r
    ensures n / d == q && n % d == r
  {
    var k := n / d - q;
    assert d * k == r - n % d;
    assert k >= 1 ==> d * k >= d;
    assert k <= -1 ==> d * k <= -d;
  }

  /** Dividing by a product is dividing by one factor and then by the other. */
  lemma {:induction false} DivModSplit(n: nat, a: nat, b: nat)
    requires a > 0 && b > 0
    ensures a * b > 0
    ensures n % (a * b) == a * (n / a % b) + n % a
    ensures n / (a * b) == n / a / b
  {
    NestedQuotient(n, a, b, n / a, n % a, n / a / b, n / a % b);
    DivModUnique(n, a * b, n / a / b, a * (n / a % b) + n % a);
  }

  lemma {:induction false} NestedQuotient(n: int, a: int, b: int, d: int, r: int, q: int, m: int)
    requires 0 <= r < a && 0 <= m < b
    requires n == a * d + r && d == b * q + m
    ensures n == (a * b) * q + (a * m + r)
    ensures 0 <= a * m + r < a * b
  {
    MulAdd(a, b * q, m);
    MulAssoc(a, b, q);
    MulAdd(a, m, b - m);
    MulPositive(a, b - m);
    MulPositive(a, m);
  }

  lemma {:induction false} MulAdd(a: int, x: int, y: int)
    ensures a * (x + y) == a * x + a * y
  {
  }

  lemma {:induction false} MulPositive(a: int, x: int)
    requires a >= 1 && x >= 0
    ensures a * x >= x && (x >= 1 ==> a * x >= a)
  {
  }
}
