/** The loops that turn a file mode into a decimal number showing its octal digits, and back. */
module Modes {
  import opened Bytes
  import opened Options

  /** The number whose decimal digits are the octal digits of n. */
  function Shown(n: nat): nat {
    if n == 0 then 0 else 10 * Shown(n / 8) + n % 8
  }

  /** Reads decimal digits as if they were octal. */
  function Read(n: nat): nat {
    if n == 0 then 0 else 8 * Read(n / 10) + n % 10
  }

  /** The two conversions are inverse to each other. */
  lemma {:induction false} ReadShown(n: nat)
    ensures Read(Shown(n)) == n
  {
    if n > 0 {
      ReadShown(n / 8);
      assert Shown(n) / 10 == Shown(n / 8) && Shown(n) % 10 == n % 8;
    }
  }

  ghost predicate OctalDigits(n: nat) {
    n > 0 ==> n % 10 < 8 && OctalDigits(n / 10)
  }

  lemma {:induction false} ShownRead(n: nat)
    requires OctalDigits(n)
    ensures Shown(Read(n)) == n
  {
    if n > 0 {
      ShownRead(n / 10);
      assert Read(n) / 8 == Read(n / 10) && Read(n) % 8 == n % 10;
    }
  }

  /** Every mode of at most seven octal digits passes the range check, and no other. */
  lemma {:induction false} ShownInRangeIff(n: nat)
    ensures Shown(n) <= 7777777 <==> n < 0x20_0000
  {
    DigitsUp(n, 7);
    assert Sevens(3) == 777 && Sevens(5) == 77777 && Sevens(7) == 7777777;
    assert Eights(3) == 512 && Eights(5) == 0x8000 && Eights(7) == 0x20_0000;
  }

  function Sevens(k: nat): nat {
    if k == 0 then 0 else 10 * Sevens(k - 1) + 7
  }

  function Eights(k: nat): nat {
    if k == 0 then 1 else 8 * Eights(k - 1)
  }

  lemma {:induction false} DigitsUp(n: nat, k: nat)
    ensures Shown(n) <= Sevens(k) <==> n < Eights(k)
    decreases k
  {
    if k == 0 {
      ReadShown(n);
    } else if n > 0 {
      DigitsUp(n / 8, k - 1);
    } else {
      EightsPositive(k);
    }
  }

  lemma {:induction false} EightsPositive(k: nat)
    ensures Eights(k) > 0
  {
    if k > 0 {
      EightsPositive(k - 1);
    }
  }

  /** Replacing the last three digits replaces the low nine bits. */
  lemma {:induction false} ReplaceThreeDigits(n: nat, low: nat)
    requires low < 1000
    ensures Read(Shown(n) / 1000 * 1000 + low) == n - n % 512 + Read(low)
  {
    ShownShift(n);
    var high := Shown(n / 512);
    ReadShift(high, low);
    ReadShown(n / 512);
  }

  lemma {:induction false} ShownShift(n: nat)
    ensures Shown(n) / 1000 == Shown(n / 512)
  {
    ShownDigit(n);
    ShownDigit(n / 8);
    ShownDigit(n / 64);
    assert n / 8 / 8 == n / 64 && n / 64 / 8 == n / 512;
  }

  lemma {:induction false} ShownDigit(n: nat)
    ensures Shown(n) / 10 == Shown(n / 8) && Shown(n) % 10 == n % 8
  {
  }

  lemma {:induction false} ReadDigit(n: nat)
    ensures Read(n) == 8 * Read(n / 10) + n % 10
  {
  }

  lemma {:induction false} ReadShift(high: nat, low: nat)
    requires low < 1000
    ensures Read(high * 1000 + low) == 512 * Read(high) + Read(low)
  {
    var n := high * 1000 + low;
    assert n % 10 == low % 10 && n / 10 == high * 100 + low / 10;
    var m := n / 10;
    assert m % 10 == low / 10 % 10 && m / 10 == high * 10 + low / 100;
    var l := m / 10;
    assert l % 10 == low / 100 && l / 10 == high;
    ReadDigit(n);
    ReadDigit(m);
    ReadDigit(l);
    ReadDigit(low);
    ReadDigit(low / 10);
    ReadDigit(low / 100);
    assert low / 10 / 10 == low / 100 && low / 100 / 10 == 0;
  }

  /** A number of at most three digits, even with an 8 or a 9 in it, reads as at most nine bits. */
  lemma {:induction false} ThreeDigitsFit(low: nat)
    requires low <= 777
    ensures Read(low) < 512
  {
    ReadDigit(low);
    ReadDigit(low / 10);
    ReadDigit(low / 100);
    assert low / 10 / 10 == low / 100 && low / 100 / 10 == 0;
  }

  // ----- the loops

  /** quotient % 8 times ten to the i, summed over the octal digits. */
  method ShowMode(mode: nat) returns (octal: nat)
    ensures octal == Shown(mode)
  {
    var quotient: nat, power: nat := mode, 1;
    octal := 0;
    while quotient != 0
      invariant octal + power * Shown(quotient) == Shown(mode)
      decreases quotient
    {
      DigitOut(power, 10, Shown(quotient / 8), quotient % 8);
      octal := octal + quotient % 8 * power;
      quotient := quotient / 8;
      power := power * 10;
    }
  }

  lemma {:induction false} DigitOut(power: int, base: int, rest: int, digit: int)
    ensures power * (base * rest + digit) == digit * power + (power * base) * rest
  {
    assert power * (base * rest + digit) == power * (base * rest) + power * digit;
    assert power * (base * rest) == (power * base) * rest;
  }

  /** Reads the decimal digits of an int as octal, keeping its sign. */
  function ReadSigned(n: int): int {
    if n < 0 then 0 - Read(-n) else Read(n)
  }

  /** Division and remainder by ten that truncate towards zero. */
  function Quot10(n: int): int {
    if n < 0 then -(-n / 10) else n / 10
  }

  function Rem10(n: int): int {
    if n < 0 then -(-n % 10) else n % 10
  }

  lemma {:induction false} SignedDigit(n: int)
    ensures ReadSigned(n) == 8 * ReadSigned(Quot10(n)) + Rem10(n)
  {
    ReadDigit(if n < 0 then -n else n);
  }

  method ReadMode(digits: int) returns (mode: int)
    ensures mode == ReadSigned(digits)
  {
    var octal: int, power: nat := digits, 1;
    mode := 0;
    while octal != 0
      invariant mode + power * ReadSigned(octal) == ReadSigned(digits)
      decreases if octal < 0 then -octal else octal
    {
      SignedDigit(octal);
      DigitOut(power, 8, ReadSigned(Quot10(octal)), Rem10(octal));
      mode := mode + Rem10(octal) * power;
      octal := Quot10(octal);
      power := power * 8;
    }
  }

  /** The owner may read, write or execute exactly as told, group and others may nothing, and
      everything above the low nine bits is as in the mode. */
  ghost predicate OwnerOnly(shown: nat, mode: nat, x: bool, w: bool, r: bool) {
    && (shown / 256 % 2 == 1 <==> r)
    && (shown / 128 % 2 == 1 <==> w)
    && (shown / 64 % 2 == 1 <==> x)
    && shown % 64 == 0 && shown / 512 == mode / 512
  }

  /** The mode that getattr reports: below 8^7 with the permissions found for the owner and none for
      anybody else, from there on as it is. */
  method ReportedMode(mode: nat, x: bool, w: bool, r: bool) returns (shown: nat)
    ensures mode < 0x20_0000 ==> OwnerOnly(shown, mode, x, w, r)
    ensures mode >= 0x20_0000 ==> shown == mode
  {
    var octal := ShowMode(mode);
    shown := mode;
    ShownInRangeIff(mode);
    if octal <= 7777777 {
      var newFileMode := 0;
      if x {
        newFileMode := newFileMode + 1;
      }
      if w {
        newFileMode := newFileMode + 2;
      }
      if r {
        newFileMode := newFileMode + 4;
      }
      octal := octal / 1000 * 1000 + newFileMode * 100;
      ReplaceThreeDigits(mode, newFileMode * 100);
      ReadHundreds(newFileMode);
      shown := ReadMode(octal);
      OwnerBits(mode, x, w, r, shown);
    }
  }

  function Bit(b: bool): nat {
    if b then 1 else 0
  }

  lemma {:induction false} OwnerBits(mode: nat, x: bool, w: bool, r: bool, m: nat)
    requires m == mode - mode % 512 + 64 * (4 * Bit(r) + 2 * Bit(w) + Bit(x))
    ensures OwnerOnly(m, mode, x, w, r)
  {
    var high, bx, bw, br := mode / 512, Bit(x), Bit(w), Bit(r);
    assert m == 512 * high + 256 * br + 128 * bw + 64 * bx;
    DivModUnique(m, 512, high, 256 * br + 128 * bw + 64 * bx);
    DivModUnique(m, 256, 2 * high + br, 128 * bw + 64 * bx);
    DivModUnique(m, 128, 4 * high + 2 * br + bw, 64 * bx);
    DivModUnique(m, 64, 8 * high + 4 * br + 2 * bw + bx, 0);
    DivModUnique(2 * high + br, 2, high, br);
    DivModUnique(4 * high + 2 * br + bw, 2, 2 * high + br, bw);
    DivModUnique(8 * high + 4 * br + 2 * bw + bx, 2, 4 * high + 2 * br + bw, bx);
  }

  lemma {:induction false} ReadHundreds(d: nat)
    requires d < 10
    ensures Read(d * 100) == 64 * d
  {
    ReadDigit(d * 100);
    ReadDigit(d * 10);
    ReadDigit(d);
  }

  type u32 = x: int | 0 <= x < 0x1_0000_0000

  /** An unsigned number stored in an int, and an int stored in an unsigned one. */
  function AsInt(n: u32): int {
    if n < 0x8000_0000 then n else n - 0x1_0000_0000
  }

  function AsUnsigned(n: int): (r: u32)
    ensures 0 <= n < 0x1_0000_0000 ==> r == n
  {
    n % 0x1_0000_0000
  }

  /** Three octal digits stand for nine bits, three for each. */
  lemma {:induction false} ThreeDigitsRead(a: nat, b: nat, c: nat)
    requires a < 8 && b < 8 && c < 8
    ensures Read(10 * (10 * a + b) + c) == 64 * a + 8 * b + c
  {
    OneDigitRead(10 * a + b, c);
    OneDigitRead(a, b);
    OneDigitRead(0, a);
  }

  lemma {:induction false} OneDigitRead(n: nat, d: nat)
    requires d < 8
    ensures Read(10 * n + d) == 8 * Read(n) + d
  {
    ReadDigit(10 * n + d);
  }

  // ----- the mode of a created file

  const FIFO := 1
  const REGULAR := 8
  const SOCKET := 12

  /** The bits that give the type of a file. */
  function Type(mode: u32): nat {
    mode / 0x1000 % 16
  }

  /** What mknod does: makes a FIFO or a node with this mode, or refuses for want of a setting, for
      the type of file, or for the number itself. */
  datatype Created = Fifo(mode: u32) | Node(mode: u32) | Denied | NotPermitted | Invalid

  /** The mode with its last three octal digits replaced by the setting, in int arithmetic. */
  function NewMode(mode: u32, setting: u32): u32 {
    AsUnsigned(ReadSigned(Shown(mode) / 1000 * 1000 + AsInt(setting)))
  }

  /** The NewFileMode setting is an unsigned number, or missing when it is none. From 2^31 on it
      turns negative in an int and slips under the bound of 777. */
  function Creation(mode: u32, setting: Option<u32>): Created {
    if mode == 0 || mode >= 0x20_0000 then Invalid
    else if setting.None? || 777 < setting.value < 0x8000_0000 then Denied
    else
      var m := NewMode(mode, setting.value);
      if Type(m) == FIFO then Fifo(m)
      else if Type(m) == REGULAR || Type(m) == SOCKET then Node(m)
      else NotPermitted
  }

  method CreatedMode(mode: u32, setting: Option<u32>) returns (c: Created)
    ensures c == Creation(mode, setting)
  {
    var octal: int := ShowMode(mode);
    ShownInRangeIff(mode);
    ReadShown(mode);
    if !(0 < octal <= 7777777) {
      return Invalid;
    }
    if setting.None? || AsInt(setting.value) > 777 {
      return Denied;
    }
    octal := octal / 1000 * 1000 + AsInt(setting.value);
    var read := ReadMode(octal);
    var m := AsUnsigned(read);
    if Type(m) == FIFO {
      return Fifo(m);
    }
    if Type(m) == REGULAR || Type(m) == SOCKET {
      return Node(m);
    }
    return NotPermitted;
  }

  lemma {:induction false} TypeBits(m: u32)
    ensures m % 0x1_0000 == 0x1000 * Type(m) + m % 0x1000
  {
  }

  /** What is refused and what is made: a number out of range, a setting that is missing or, as an
      int, above 777, and every type of file but FIFOs (01), regular files (010) and sockets (014). */
  lemma {:induction false} CreationIs(mode: u32, setting: Option<u32>)
    ensures var c := Creation(mode, setting);
            && (c == Invalid <==> mode == 0 || mode >= 0x20_0000)
            && (c == Denied <==> 0 < mode < 0x20_0000 && (setting.None? || AsInt(setting.value) > 777))
            && (c != Invalid && c != Denied ==>
                  var m := NewMode(mode, setting.value);
                  if 0x1000 <= m % 0x1_0000 < 0x2000 then c == Fifo(m)
                  else if 0x8000 <= m % 0x1_0000 < 0x9000 || 0xC000 <= m % 0x1_0000 < 0xD000 then c == Node(m)
                  else c == NotPermitted)
  {
    if setting.Some? {
      TypeBits(NewMode(mode, setting.value));
    }
  }

  lemma {:induction false} KeepsHighBits(mode: u32, setting: u32)
    requires mode < 0x20_0000 && setting <= 777
    ensures NewMode(mode, setting) == mode - mode % 512 + Read(setting)
    ensures NewMode(mode, setting) / 512 == mode / 512
  {
    ReplaceThreeDigits(mode, setting);
    ThreeDigitsFit(setting);
  }

  /** With a setting of at most 777 the type of file decides, and everything above the low nine
      bits of the mode is kept. */
  lemma {:induction false} SettingKeepsType(mode: u32, setting: u32)
    requires 0 < mode < 0x20_0000 && setting <= 777
    ensures var c, m := Creation(mode, Some(setting)), mode - mode % 512 + Read(setting);
            && m / 512 == mode / 512 && Type(m) == Type(mode)
            && (c == Fifo(m) <==> Type(mode) == FIFO)
            && (c == Node(m) <==> Type(mode) == REGULAR || Type(mode) == SOCKET)
            && (c == NotPermitted <==> Type(mode) !in {FIFO, REGULAR, SOCKET})
  {
    KeepsHighBits(mode, setting);
    SameHighBits(NewMode(mode, setting), mode);
  }

  lemma {:induction false} SameHighBits(a: u32, b: u32)
    requires a / 512 == b / 512
    ensures Type(a) == Type(b)
  {
    assert a / 0x1000 == a / 512 / 8 && b / 0x1000 == b / 512 / 8;
  }

  /** A setting from 2^31 on need not keep the type: with 2^32 - 90000 a regular file of mode
      0100644 is created as a FIFO. */
  lemma {:induction false} HugeSettingMakesFifo(mode: u32, setting: u32)
    requires mode == 0x81A4 && setting == 0x1_0000_0000 - 90000
    ensures Type(mode) == REGULAR && Creation(mode, Some(setting)) == Fifo(0x1000)
  {
    HighDigits(mode);
    NewModeIs(mode, setting, 10000);
    TenThousandRead(10000);
    CreatesFifo(mode, setting);
  }

  lemma {:induction false} NewModeIs(mode: u32, setting: u32, n: nat)
    requires Shown(mode) / 1000 * 1000 + AsInt(setting) == n
    ensures NewMode(mode, setting) == AsUnsigned(Read(n))
  {
  }

  lemma {:induction false} CreatesFifo(mode: u32, setting: u32)
    requires 0 < mode < 0x20_0000 && setting >= 0x8000_0000 && NewMode(mode, setting) == 0x1000
    ensures Creation(mode, Some(setting)) == Fifo(0x1000)
  {
  }

  lemma {:induction false} HighDigits(mode: nat)
    requires mode / 512 == 64
    ensures Shown(mode) / 1000 * 1000 == 100000
  {
    ShownShift(mode);
    ShownDigit(mode / 512);
    ShownDigit(mode / 512 / 8);
  }

  lemma {:induction false} TenThousandRead(n: nat)
    requires n == 10000
    ensures Read(n) == 0x1000
  {
    ReadShift(n / 1000, n % 1000);
    ReadDigit(n / 1000);
  }
}
