/** The fields that requests and replies are made of: how each is written to a byte stream and
    how it is read back. */
module Wire {
  import opened Bytes

  type i32 = x: int | -0x8000_0000 <= x < 0x8000_0000
  type i64 = x: int | -0x8000_0000_0000_0000 <= x < 0x8000_0000_0000_0000

  /** A character of a path as Qt holds it, without surrogates. */
  type Unit = x: int | 0 <= x < 0x1_0000

  /** Reading from a stream: not enough bytes yet, or a value and the bytes behind it. */
  datatype Parsed<+T> = More | Got(value: T, rest: seq<byte>)
  type Taker<T> = seq<byte> -> Parsed<T>

  /** A buffered write: a path, with the number of characters that its length field gives, a
      descriptor, and data with the number of bytes that its size field gives. */
  datatype Item = Item(units: nat, path: seq<byte>, fd: i32, size: i64, offset: i64, data: seq<byte>)
  datatype User = User(name: seq<byte>, uid: nat)

  datatype Kind = KI32 | KU32 | KI64 | KStr16 | KStr32 | KChunk | KBatch | KUsers
                | KFixed(size: nat) | KCounted | KEntries | KCode

  datatype Value =
    | I32(i: i32)
    | U32(n: nat)
    | I64(l: i64)
    | Str16(s: seq<byte>)                          // 16-bit length, bytes
    | Str32(s: seq<byte>)                          // 32-bit length, bytes
    | Chunk(size: i64, offset: i64, data: seq<byte>)
    | Batch(items: seq<Item>)                      // count, requests
    | Users(users: seq<User>)                      // (length, name, uid) ..., -1
    | Fixed(raw: seq<byte>)                        // a structure copied byte by byte
    | Counted(res: i32, data: seq<byte>)           // result, that many bytes if positive
    | Entries(count: i32, names: seq<seq<byte>>)   // result, that many (length, name)
    | Code(code: byte)

  function KindOf(v: Value): Kind {
    match v
    case I32(_) => KI32
    case U32(_) => KU32
    case I64(_) => KI64
    case Str16(_) => KStr16
    case Str32(_) => KStr32
    case Chunk(_, _, _) => KChunk
    case Batch(_) => KBatch
    case Users(_) => KUsers
    case Fixed(raw) => KFixed(|raw|)
    case Counted(_, _) => KCounted
    case Entries(_, _) => KEntries
    case Code(_) => KCode
  }

  // ----- integers

  function PutI32(i: i32): (r: seq<byte>)
    ensures |r| == 4
  {
    BigEndian(if i < 0 then i + 0x1_0000_0000 else i, 4)
  }

  function PutI64(l: i64): (r: seq<byte>)
    ensures |r| == 8
  {
    BigEndian(if l < 0 then l + 0x1_0000_0000_0000_0000 else l, 8)
  }

  function GetI32(b: seq<byte>): (i: i32)
    requires |b| == 4
  {
    FromBigEndianBound(b);
    assert Pow256(4) == 0x1_0000_0000;
    var n := FromBigEndian(b);
    if n < 0x8000_0000 then n else n - 0x1_0000_0000
  }

  function GetI64(b: seq<byte>): (l: i64)
    requires |b| == 8
  {
    FromBigEndianBound(b);
    Pow256Of8();
    var n := FromBigEndian(b);
    if n < 0x8000_0000_0000_0000 then n else n - 0x1_0000_0000_0000_0000
  }

  lemma {:induction false} Pow256Of8()
    ensures Pow256(8) == 0x1_0000_0000_0000_0000
  {
    assert Pow256(4) == 0x1_0000_0000;
  }

  /** An unsigned field gives a number back exactly when the number fits. */
  lemma {:induction false} UnsignedRoundTripIff(n: nat, k: nat)
    ensures FromBigEndian(BigEndian(n, k)) == n <==> n < Pow256(k)
  {
    BigEndianDecodes(n, k);
    IsDivision(n, Pow256(k));
    FromBigEndianBound(BigEndian(n, k));
    if n < Pow256(k) {
      assert n % Pow256(k) == n;
    }
  }

  lemma {:induction false} I32RoundTrip(i: i32)
    ensures GetI32(PutI32(i)) == i
  {
    assert Pow256(4) == 0x1_0000_0000;
    BigEndianDecodes(if i < 0 then i + 0x1_0000_0000 else i, 4);
  }

  lemma {:induction false} I64RoundTrip(l: i64)
    ensures GetI64(PutI64(l)) == l
  {
    var n := if l < 0 then l + 0x1_0000_0000_0000_0000 else l;
    Pow256Of8();
    UnsignedRoundTripIff(n, 8);
  }

  // ----- writing

  function Utf8Unit(u: Unit): (r: seq<byte>)
    ensures 1 <= |r| <= 3 && (|r| == 1 <==> u < 0x80)
  {
    if u < 0x80 then [u]
    else if u < 0x800 then [0xc0 + u / 0x40, 0x80 + u % 0x40]
    else [0xe0 + u / 0x1000, 0x80 + u / 0x40 % 0x40, 0x80 + u % 0x40]
  }

  /** The six, eleven or sixteen bits of the character, in one, two or three bytes. */
  lemma {:induction false} Utf8UnitIs(u: Unit)
    ensures var b := Utf8Unit(u);
            && (|b| == 1 ==> b[0] == u)
            && (|b| == 2 ==> u >= 0x80 && u + 0x3080 == 0x40 * (b[0] as int) + b[1])
            && (|b| == 3 ==> u >= 0x800 && u + 0xE2080 == 0x1000 * (b[0] as int) + 0x40 * (b[1] as int) + b[2])
            && forall i :: 0 < i < |b| ==> 0x80 <= b[i] < 0xc0
  {
  }

  function Utf8(units: seq<Unit>): (r: seq<byte>)
    ensures |r| >= |units|
  {
    if units == [] then [] else Utf8Unit(units[0]) + Utf8(units[1..])
  }

  ghost predicate Ascii(units: seq<Unit>) {
    forall i :: 0 <= i < |units| ==> units[i] < 0x80
  }

  /** The path length is counted in characters, the path is written in bytes. */
  function PutItem(r: Item): seq<byte> {
    BigEndian(r.units, 2) + (r.path + (PutI32(r.fd) + PutChunk(r.size, r.offset, r.data)))
  }

  function PutMany<T>(put: T -> seq<byte>, xs: seq<T>): seq<byte> {
    if xs == [] then [] else put(xs[0]) + PutMany(put, xs[1..])
  }

  function PutChunk(size: i64, offset: i64, data: seq<byte>): seq<byte> {
    PutI64(size) + (PutI64(offset) + data)
  }

  function PutUsers(users: seq<User>): seq<byte> {
    if users == [] then PutI32(-1)
    else BigEndian(|users[0].name|, 4) + (users[0].name + (BigEndian(users[0].uid, 4) + PutUsers(users[1..])))
  }

  function PutName(name: seq<byte>): seq<byte> {
    BigEndian(|name|, 4) + name
  }

  function Put(v: Value): seq<byte> {
    match v
    case I32(i) => PutI32(i)
    case U32(n) => BigEndian(n, 4)
    case I64(l) => PutI64(l)
    case Str16(s) => BigEndian(|s|, 2) + s
    case Str32(s) => BigEndian(|s|, 4) + s
    case Chunk(size, offset, data) => PutChunk(size, offset, data)
    case Batch(items) => BigEndian(|items|, 4) + PutMany(PutItem, items)
    case Users(users) => PutUsers(users)
    case Fixed(raw) => raw
    case Counted(res, data) => PutI32(res) + data
    case Entries(count, names) => PutI32(count) + PutMany(PutName, names)
    case Code(code) => [code]
  }

  /** Where the fields of a buffered request stand. */
  lemma {:induction false} ItemLayout(r: Item)
    ensures var b, n := PutItem(r), 2 + |r.path|;
            && |b| == n + 20 + |r.data|
            && b[..2] == BigEndian(r.units, 2) && b[2..n] == r.path && b[n..n + 4] == PutI32(r.fd)
            && b[n + 4..n + 12] == PutI64(r.size) && b[n + 12..n + 20] == PutI64(r.offset) && b[n + 20..] == r.data
  {
  }

  /** Signed numbers are written in two's complement, most significant byte first. */
  lemma {:induction false} SignedLayout(i: i32, l: i64)
    ensures FromBigEndian(PutI32(i)) == if i >= 0 then i else 0x1_0000_0000 + i
    ensures FromBigEndian(PutI64(l)) == if l >= 0 then l else 0x1_0000_0000_0000_0000 + l
  {
    assert Pow256(4) == 0x1_0000_0000;
    Pow256Of8();
    UnsignedRoundTripIff(if i < 0 then i + 0x1_0000_0000 else i, 4);
    UnsignedRoundTripIff(if l < 0 then l + 0x1_0000_0000_0000_0000 else l, 8);
  }

  // ----- reading

  /** Reads n bytes; a length that is not positive reads nothing. */
  function Take(n: int, s: seq<byte>): Parsed<seq<byte>> {
    if n <= 0 then Got([], s) else if |s| < n then More else Got(s[..n], s[n..])
  }

  function TakeI32(s: seq<byte>): Parsed<i32> {
    if |s| < 4 then More else Got(GetI32(s[..4]), s[4..])
  }

  function TakeI64(s: seq<byte>): Parsed<i64> {
    if |s| < 8 then More else Got(GetI64(s[..8]), s[8..])
  }

  function TakeNat(k: nat, s: seq<byte>): Parsed<nat> {
    if |s| < k then More else Got(FromBigEndian(s[..k]), s[k..])
  }

  function TakeStr16(s: seq<byte>): Parsed<seq<byte>> {
    var a := TakeNat(2, s);
    if a.More? then More else Take(a.value, a.rest)
  }

  /** The length is unsigned, the number of bytes that are read for it is an int. */
  function TakeStr32(s: seq<byte>): Parsed<seq<byte>> {
    var a := TakeI32(s);
    if a.More? then More else Take(a.value, a.rest)
  }

  /** The size has 64 bits, of which only the low 32 say how many bytes are read. */
  function TakeChunk(s: seq<byte>): Parsed<(i64, i64, seq<byte>)> {
    var a := TakeI64(s);
    if a.More? then More else
    var b := TakeI64(a.rest);
    if b.More? then More else
    var c := Take(GetI32(s[4..8]), b.rest);
    if c.More? then More else Got((a.value, b.value, c.value), c.rest)
  }

  function TakeItem(s: seq<byte>): Parsed<Item> {
    var b := TakeStr16(s);
    if b.More? then More else
    var c := TakeI32(b.rest);
    if c.More? then More else
    var d := TakeChunk(c.rest);
    if d.More? then More
    else Got(Item(|b.value|, b.value, c.value, d.value.0, d.value.1, d.value.2), d.rest)
  }

  /** The same field n times. */
  function TakeMany<T>(take: Taker<T>, n: int, s: seq<byte>): Parsed<seq<T>>
    decreases n
  {
    if n <= 0 then Got([], s) else
    var a := take(s);
    if a.More? then More else
    var b := TakeMany(take, n - 1, a.rest);
    if b.More? then More else Got([a.value] + b.value, b.rest)
  }

  function TakeUser(length: i32, s: seq<byte>): (r: Parsed<User>)
    ensures r.Got? ==> |r.rest| <= |s|
  {
    var b := Take(length, s);
    if b.More? then More else
    var c := TakeNat(4, b.rest);
    if c.More? then More else Got(User(b.value, c.value), c.rest)
  }

  function TakeUsers(s: seq<byte>): Parsed<seq<User>>
    decreases |s|
  {
    var a := TakeI32(s);
    if a.More? then More
    else if a.value == -1 then Got([], a.rest)
    else
      var b := TakeUser(a.value, a.rest);
      if b.More? then More else
      var c := TakeUsers(b.rest);
      if c.More? then More else Got([b.value] + c.value, c.rest)
  }

  function GetBatch(s: seq<byte>): Parsed<Value> {
    var a := TakeNat(4, s);
    if a.More? then More else
    var b := TakeMany(TakeItem, a.value, a.rest);
    if b.More? then More else Got(Batch(b.value), b.rest)
  }

  function GetCounted(s: seq<byte>): Parsed<Value> {
    var a := TakeI32(s);
    if a.More? then More else
    var b := Take(a.value, a.rest);
    if b.More? then More else Got(Counted(a.value, b.value), b.rest)
  }

  function GetEntries(s: seq<byte>): Parsed<Value> {
    var a := TakeI32(s);
    if a.More? then More else
    var b := TakeMany(TakeStr32, a.value, a.rest);
    if b.More? then More else Got(Entries(a.value, b.value), b.rest)
  }

  function Get(k: Kind, s: seq<byte>): Parsed<Value> {
    match k
    case KI32 => var a := TakeI32(s); if a.More? then More else Got(I32(a.value), a.rest)
    case KU32 => var a := TakeNat(4, s); if a.More? then More else Got(U32(a.value), a.rest)
    case KI64 => var a := TakeI64(s); if a.More? then More else Got(I64(a.value), a.rest)
    case KStr16 => var a := TakeStr16(s); if a.More? then More else Got(Str16(a.value), a.rest)
    case KStr32 => var a := TakeStr32(s); if a.More? then More else Got(Str32(a.value), a.rest)
    case KChunk =>
      var a := TakeChunk(s);
      if a.More? then More else Got(Chunk(a.value.0, a.value.1, a.value.2), a.rest)
    case KBatch => GetBatch(s)
    case KUsers => var a := TakeUsers(s); if a.More? then More else Got(Users(a.value), a.rest)
    case KFixed(size) => var a := Take(size, s); if a.More? then More else Got(Fixed(a.value), a.rest)
    case KCounted => GetCounted(s)
    case KEntries => GetEntries(s)
    case KCode => if s == [] then More else Got(Code(s[0]), s[1..])
  }

  // ----- what was written is what is read

  ghost predicate SoundItem(r: Item) {
    r.units == |r.path| < 0x1_0000 && SoundData(r.size, r.data)
  }

  ghost predicate SoundData(size: i64, data: seq<byte>) {
    size == |data| < 0x8000_0000
  }

  /** The values that the formats can carry. */
  ghost predicate Sound(v: Value) {
    match v
    case U32(n) => n < 0x1_0000_0000
    case Str16(s) => |s| < 0x1_0000
    case Str32(s) => |s| < 0x8000_0000
    case Chunk(size, offset, data) => SoundData(size, data)
    case Batch(items) => |items| < 0x1_0000_0000 && forall i :: 0 <= i < |items| ==> SoundItem(items[i])
    case Users(users) => forall i :: 0 <= i < |users| ==> |users[i].name| < 0x8000_0000 && users[i].uid < 0x1_0000_0000
    case Counted(res, data) => |data| == if res > 0 then res else 0
    case Entries(count, names) =>
      |names| == (if count > 0 then count else 0) && forall i :: 0 <= i < |names| ==> |names[i]| < 0x8000_0000
    case _ => true
  }

  lemma {:induction false} TakeAppended(b: seq<byte>, rest: seq<byte>)
    ensures Take(|b|, b + rest) == Got(b, rest)
  {
    if b == [] {
      assert b + rest == rest;
    } else {
      assert (b + rest)[..|b|] == b && (b + rest)[|b|..] == rest;
    }
  }

  lemma {:induction false} TakeI32Appended(i: i32, rest: seq<byte>)
    ensures TakeI32(PutI32(i) + rest) == Got(i, rest)
  {
    I32RoundTrip(i);
    assert (PutI32(i) + rest)[..4] == PutI32(i) && (PutI32(i) + rest)[4..] == rest;
  }

  lemma {:induction false} TakeI64Appended(l: i64, rest: seq<byte>)
    ensures TakeI64(PutI64(l) + rest) == Got(l, rest)
  {
    I64RoundTrip(l);
    assert (PutI64(l) + rest)[..8] == PutI64(l) && (PutI64(l) + rest)[8..] == rest;
  }

  lemma {:induction false} TakeNatAppended(n: nat, k: nat, rest: seq<byte>)
    requires n < Pow256(k)
    ensures TakeNat(k, BigEndian(n, k) + rest) == Got(n, rest)
  {
    UnsignedRoundTripIff(n, k);
    assert (BigEndian(n, k) + rest)[..k] == BigEndian(n, k) && (BigEndian(n, k) + rest)[k..] == rest;
  }

  lemma {:induction false} TakeStringAppended(b: seq<byte>, rest: seq<byte>)
    ensures |b| < 0x1_0000 ==> TakeStr16(BigEndian(|b|, 2) + b + rest) == Got(b, rest)
    ensures |b| < 0x8000_0000 ==> TakeStr32(BigEndian(|b|, 4) + b + rest) == Got(b, rest)
  {
    Assoc(BigEndian(|b|, 2), b, rest);
    Assoc(BigEndian(|b|, 4), b, rest);
    TakeAppended(b, rest);
    assert Pow256(2) == 0x1_0000;
    if |b| < 0x1_0000 {
      TakeNatAppended(|b|, 2, b + rest);
    }
    if |b| < 0x8000_0000 {
      TakeLength(|b|, b + rest);
    }
  }

  /** A length written in 32 bits and read as a signed number. */
  lemma {:induction false} TakeLength(n: nat, rest: seq<byte>)
    requires n < 0x8000_0000
    ensures TakeI32(BigEndian(n, 4) + rest) == Got(n, rest)
  {
    TakeI32Appended(n, rest);
  }

  lemma {:induction false} LowHalf(n: nat)
    requires n < 0x8000_0000
    ensures GetI32(PutI64(n)[4..]) == n
  {
    BigEndianTail(n, 4, 4);
    I32RoundTrip(n);
  }

  lemma {:induction false} TakeChunkAppended(size: i64, offset: i64, data: seq<byte>, rest: seq<byte>)
    requires SoundData(size, data)
    ensures TakeChunk(PutChunk(size, offset, data) + rest) == Got((size, offset, data), rest)
  {
    var tail := PutI64(offset) + data;
    LowHalf(size);
    assert (PutI64(size) + (tail + rest))[4..8] == PutI64(size)[4..];
    Assoc(PutI64(size), tail, rest);
    Assoc(PutI64(offset), data, rest);
    TakeI64Appended(size, tail + rest);
    TakeI64Appended(offset, data + rest);
    TakeAppended(data, rest);
  }

  lemma {:induction false} AsciiIsItself(units: seq<Unit>)
    requires Ascii(units)
    ensures Utf8(units) == units
  {
    if units != [] {
      AsciiIsItself(units[1..]);
    }
  }

  lemma {:induction false} NonAsciiIsLonger(units: seq<Unit>)
    requires !Ascii(units)
    ensures |Utf8(units)| > |units|
  {
    if units[0] < 0x80 {
      assert !Ascii(units[1..]) by {
        if Ascii(units[1..]) {
          forall i | 0 <= i < |units| ensures units[i] < 0x80 {
            if i > 0 {
              assert units[1..][i - 1] == units[i];
            }
          }
        }
      }
      NonAsciiIsLonger(units[1..]);
    }
  }

  /** The length sent with a buffered path is the length of its bytes exactly for ASCII paths. */
  lemma {:induction false} BulkPathLengthIff(units: seq<Unit>)
    requires |Utf8(units)| < 0x1_0000
    ensures FromBigEndian(BigEndian(|units|, 2)) == |Utf8(units)| <==> Ascii(units)
  {
    assert Pow256(2) == 0x1_0000;
    UnsignedRoundTripIff(|units|, 2);
    if Ascii(units) {
      AsciiIsItself(units);
    } else {
      NonAsciiIsLonger(units);
    }
  }

  lemma {:induction false} TakeItemAppended(r: Item, rest: seq<byte>)
    requires SoundItem(r)
    ensures TakeItem(PutItem(r) + rest) == Got(r, rest)
  {
    assert Pow256(2) == 0x1_0000;
    var c := PutChunk(r.size, r.offset, r.data);
    var b := PutI32(r.fd) + c;
    Assoc(BigEndian(r.units, 2), r.path, b);
    Assoc(BigEndian(r.units, 2) + r.path, b, rest);
    Assoc(PutI32(r.fd), c, rest);
    TakeStringAppended(r.path, b + rest);
    TakeI32Appended(r.fd, c + rest);
    TakeChunkAppended(r.size, r.offset, r.data, rest);
  }

  /** Each of these is read back, whatever follows it. */
  ghost predicate Framed<T(!new)>(put: T -> seq<byte>, take: Taker<T>, xs: seq<T>) {
    forall i, rest :: 0 <= i < |xs| ==> take(put(xs[i]) + rest) == Got(xs[i], rest)
  }

  lemma {:induction false} TakeManyAppended<T(!new)>(put: T -> seq<byte>, take: Taker<T>, xs: seq<T>, rest: seq<byte>)
    requires Framed(put, take, xs)
    ensures TakeMany(take, |xs|, PutMany(put, xs) + rest) == Got(xs, rest)
  {
    if xs == [] {
      assert PutMany(put, xs) + rest == rest;
    } else {
      var more := PutMany(put, xs[1..]);
      Assoc(put(xs[0]), more, rest);
      assert take(put(xs[0]) + (more + rest)) == Got(xs[0], more + rest);
      TakeManyAppended(put, take, xs[1..], rest);
      assert xs == [xs[0]] + xs[1..];
    }
  }

  /** The list of local users comes back whole: no length is mistaken for the end mark. */
  lemma {:induction false} TakeUsersAppended(users: seq<User>, rest: seq<byte>)
    requires Sound(Users(users))
    ensures TakeUsers(PutUsers(users) + rest) == Got(users, rest)
  {
    if users == [] {
      TakeI32Appended(-1, rest);
    } else {
      var u, more := users[0], PutUsers(users[1..]) + rest;
      var tail := u.name + (BigEndian(u.uid, 4) + more);
      var s := BigEndian(|u.name|, 4) + tail;
      assert PutUsers(users) + rest == s by {
        UsersLayout(users, rest);
      }
      assert TakeI32(s) == Got(|u.name|, tail) by {
        TakeLength(|u.name|, tail);
      }
      assert TakeUser(|u.name|, tail) == Got(u, more) by {
        TakeUserAppended(u, more);
      }
      assert TakeUsers(more) == Got(users[1..], rest) by {
        TakeUsersAppended(users[1..], rest);
      }
      UsersOf(s, |u.name|, tail, u, more, users[1..], rest);
      assert users == [u] + users[1..];
    }
  }

  lemma {:induction false} UsersLayout(users: seq<User>, rest: seq<byte>)
    requires users != []
    ensures PutUsers(users) + rest == BigEndian(|users[0].name|, 4)
              + (users[0].name + (BigEndian(users[0].uid, 4) + (PutUsers(users[1..]) + rest)))
  {
    var u, more := users[0], PutUsers(users[1..]);
    Assoc(BigEndian(|u.name|, 4), u.name + (BigEndian(u.uid, 4) + more), rest);
    Assoc(u.name, BigEndian(u.uid, 4) + more, rest);
    Assoc(BigEndian(u.uid, 4), more, rest);
  }

  lemma {:induction false} UsersOf(s: seq<byte>, n: i32, a: seq<byte>, u: User, b: seq<byte>, more: seq<User>,
                                   rest: seq<byte>)
    requires TakeI32(s) == Got(n, a) && n != -1 && TakeUser(n, a) == Got(u, b) && TakeUsers(b) == Got(more, rest)
    ensures TakeUsers(s) == Got([u] + more, rest)
  {
  }

  lemma {:induction false} TakeUserAppended(u: User, rest: seq<byte>)
    requires |u.name| < 0x8000_0000 && u.uid < 0x1_0000_0000
    ensures TakeUser(|u.name|, u.name + (BigEndian(u.uid, 4) + rest)) == Got(u, rest)
  {
    assert Pow256(4) == 0x1_0000_0000;
    TakeAppended(u.name, BigEndian(u.uid, 4) + rest);
    TakeNatAppended(u.uid, 4, rest);
  }

  lemma {:induction false} GetPutBatch(items: seq<Item>, rest: seq<byte>)
    requires Sound(Batch(items))
    ensures GetBatch(Put(Batch(items)) + rest) == Got(Batch(items), rest)
  {
    var tail := PutMany(PutItem, items) + rest;
    Assoc(BigEndian(|items|, 4), PutMany(PutItem, items), rest);
    assert TakeNat(4, BigEndian(|items|, 4) + tail) == Got(|items|, tail) by {
      assert Pow256(4) == 0x1_0000_0000;
      TakeNatAppended(|items|, 4, tail);
    }
    assert TakeMany(TakeItem, |items|, tail) == Got(items, rest) by {
      forall i, r | 0 <= i < |items| ensures TakeItem(PutItem(items[i]) + r) == Got(items[i], r) {
        TakeItemAppended(items[i], r);
      }
      TakeManyAppended(PutItem, TakeItem, items, rest);
    }
    BatchOf(BigEndian(|items|, 4) + tail, |items|, tail, items, rest);
  }

  lemma {:induction false} BatchOf(s: seq<byte>, n: nat, tail: seq<byte>, items: seq<Item>, rest: seq<byte>)
    requires TakeNat(4, s) == Got(n, tail) && TakeMany(TakeItem, n, tail) == Got(items, rest)
    ensures GetBatch(s) == Got(Batch(items), rest)
  {
  }

  lemma {:induction false} GetPutCounted(res: i32, data: seq<byte>, rest: seq<byte>)
    requires Sound(Counted(res, data))
    ensures GetCounted(Put(Counted(res, data)) + rest) == Got(Counted(res, data), rest)
  {
    Assoc(PutI32(res), data, rest);
    TakeI32Appended(res, data + rest);
    TakeAppended(data, rest);
  }

  /** The reply to readlink: the count is that of the characters, the target is written in bytes. */
  function LinkReply(target: seq<Unit>): Value
    requires |target| < 0x8000_0000
  {
    Counted(|target|, Utf8(target))
  }

  /** The client reads back the target exactly when it is ASCII; the bytes that it does not read
      stay in front of the next reply. */
  lemma {:induction false} LinkReplyIff(target: seq<Unit>, rest: seq<byte>)
    requires |target| < 0x8000_0000
    ensures var p := Get(KCounted, Put(LinkReply(target)) + rest);
            && (p == Got(LinkReply(target), rest) <==> Ascii(target))
            && p == Got(Counted(|target|, Utf8(target)[..|target|]), Utf8(target)[|target|..] + rest)
  {
    var n, b := |target|, Utf8(target);
    Assoc(PutI32(n), b, rest);
    TakeI32Appended(n, b + rest);
    TakeAppended(b[..n], b[n..] + rest);
    assert b + rest == b[..n] + (b[n..] + rest);
    if Ascii(target) {
      AsciiIsItself(target);
      assert b[..n] == b && b[n..] + rest == rest;
    } else {
      NonAsciiIsLonger(target);
    }
  }

  lemma {:induction false} GetPutEntries(count: i32, names: seq<seq<byte>>, rest: seq<byte>)
    requires Sound(Entries(count, names))
    ensures GetEntries(Put(Entries(count, names)) + rest) == Got(Entries(count, names), rest)
  {
    var tail := PutMany(PutName, names) + rest;
    Assoc(PutI32(count), PutMany(PutName, names), rest);
    TakeI32Appended(count, tail);
    assert TakeMany(TakeStr32, count, tail) == Got(names, rest) by {
      forall i, r | 0 <= i < |names| ensures TakeStr32(PutName(names[i]) + r) == Got(names[i], r) {
        TakeStringAppended(names[i], r);
      }
      TakeManyAppended(PutName, TakeStr32, names, rest);
      if count <= 0 {
        assert PutMany(PutName, names) == [] && tail == rest;
      }
    }
    EntriesOf(PutI32(count) + tail, count, tail, names, rest);
  }

  /** Reading fewer fields than were written leaves exactly the others. */
  lemma {:induction false} TakePart<T(!new)>(put: T -> seq<byte>, take: Taker<T>, xs: seq<T>, k: nat, rest: seq<byte>)
    requires k <= |xs| && Framed(put, take, xs)
    ensures TakeMany(take, k, PutMany(put, xs) + rest) == Got(xs[..k], PutMany(put, xs[k..]) + rest)
    decreases k
  {
    if k > 0 {
      var more := PutMany(put, xs[1..]);
      Assoc(put(xs[0]), more, rest);
      var s := put(xs[0]) + (more + rest);
      assert take(s) == Got(xs[0], more + rest);
      assert xs[1..][k - 1..] == xs[k..] && xs[..k] == [xs[0]] + xs[1..][..k - 1];
      assert TakeMany(take, k - 1, more + rest) == Got(xs[1..][..k - 1], PutMany(put, xs[k..]) + rest) by {
        TakePart(put, take, xs[1..], k - 1, rest);
      }
      ManyOf(take, k, s, xs[0], more + rest, xs[1..][..k - 1], PutMany(put, xs[k..]) + rest);
    } else {
      assert xs[k..] == xs && xs[..k] == [];
    }
  }

  lemma {:induction false} ManyOf<T>(take: Taker<T>, n: nat, s: seq<byte>, a: T, tail: seq<byte>, more: seq<T>, rest: seq<byte>)
    requires n > 0 && take(s) == Got(a, tail) && TakeMany(take, n - 1, tail) == Got(more, rest)
    ensures TakeMany(take, n, s) == Got([a] + more, rest)
  {
  }

  /** A directory listing that is read only up to some entry leaves the others in the stream. */
  lemma {:induction false} StoppedListingLeaves(names: seq<seq<byte>>, read: nat, rest: seq<byte>)
    requires read <= |names| && forall i :: 0 <= i < |names| ==> |names[i]| < 0x8000_0000
    ensures TakeMany(TakeStr32, read, PutMany(PutName, names) + rest) == Got(names[..read], PutMany(PutName, names[read..]) + rest)
    ensures PutMany(PutName, names[read..]) == [] <==> read == |names|
  {
    forall i, r | 0 <= i < |names| ensures TakeStr32(PutName(names[i]) + r) == Got(names[i], r) {
      TakeStringAppended(names[i], r);
    }
    TakePart(PutName, TakeStr32, names, read, rest);
  }

  lemma {:induction false} EntriesOf(s: seq<byte>, n: i32, tail: seq<byte>, names: seq<seq<byte>>, rest: seq<byte>)
    requires TakeI32(s) == Got(n, tail) && TakeMany(TakeStr32, n, tail) == Got(names, rest)
    ensures GetEntries(s) == Got(Entries(n, names), rest)
  {
  }

  lemma {:induction false} GetPutScalar(v: Value, rest: seq<byte>)
    requires Sound(v) && (v.I32? || v.U32? || v.I64? || v.Fixed? || v.Code?)
    ensures Get(KindOf(v), Put(v) + rest) == Got(v, rest)
  {
    match v
    case I32(i) => TakeI32Appended(i, rest);
    case U32(n) =>
      assert Pow256(4) == 0x1_0000_0000;
      TakeNatAppended(n, 4, rest);
    case I64(l) => TakeI64Appended(l, rest);
    case Fixed(raw) => TakeAppended(raw, rest);
    case Code(code) =>
      assert ([code] + rest)[1..] == rest;
  }

  lemma {:induction false} ChunkBack(v: Value, rest: seq<byte>)
    requires Sound(v) && v.Chunk?
    ensures Get(KindOf(v), Put(v) + rest) == Got(v, rest)
  {
    TakeChunkAppended(v.size, v.offset, v.data, rest);
  }

  lemma {:induction false} UsersBack(v: Value, rest: seq<byte>)
    requires Sound(v) && v.Users?
    ensures Get(KindOf(v), Put(v) + rest) == Got(v, rest)
  {
    TakeUsersAppended(v.users, rest);
    SameField(KUsers, Put(v) + rest, v, rest);
  }

  lemma {:induction false} SameField(k: Kind, s: seq<byte>, v: Value, rest: seq<byte>)
    requires (k == KBatch && GetBatch(s) == Got(v, rest)) || (k == KUsers && v.Users? && TakeUsers(s) == Got(v.users, rest))
    ensures Get(k, s) == Got(v, rest)
  {
  }

  lemma {:induction false} BatchBack(v: Value, rest: seq<byte>)
    requires Sound(v) && v.Batch?
    ensures Get(KindOf(v), Put(v) + rest) == Got(v, rest)
  {
    GetPutBatch(v.items, rest);
    SameField(KBatch, Put(v) + rest, v, rest);
  }

  lemma {:induction false} CountedBack(v: Value, rest: seq<byte>)
    requires Sound(v) && v.Counted?
    ensures Get(KindOf(v), Put(v) + rest) == Got(v, rest)
  {
    GetPutCounted(v.res, v.data, rest);
  }

  lemma {:induction false} EntriesBack(v: Value, rest: seq<byte>)
    requires Sound(v) && v.Entries?
    ensures Get(KindOf(v), Put(v) + rest) == Got(v, rest)
  {
    GetPutEntries(v.count, v.names, rest);
  }

  lemma {:induction false} GetPutString(v: Value, rest: seq<byte>)
    requires Sound(v) && (v.Str16? || v.Str32?)
    ensures Get(KindOf(v), Put(v) + rest) == Got(v, rest)
  {
    TakeStringAppended(v.s, rest);
  }

  /** A 16-bit length frames a string exactly when the string is shorter than 65536 bytes. */
  lemma {:induction false} ShortStringIff(b: seq<byte>, rest: seq<byte>)
    ensures Get(KStr16, Put(Str16(b)) + rest) == Got(Str16(b), rest) <==> |b| < 0x1_0000
  {
    assert Pow256(2) == 0x1_0000;
    if |b| < 0x1_0000 {
      TakeStringAppended(b, rest);
    } else {
      var s := BigEndian(|b|, 2) + b + rest;
      FromBigEndianBound(s[..2]);
    }
  }

  /** Every sound field is read back as written, and not one byte more is taken. */
  lemma {:induction false} GetPut(v: Value, rest: seq<byte>)
    requires Sound(v)
    ensures Get(KindOf(v), Put(v) + rest) == Got(v, rest)
  {
    match v
    case Chunk(_, _, _) => ChunkBack(v, rest);
    case Users(_) => UsersBack(v, rest);
    case Batch(_) => BatchBack(v, rest);
    case Counted(_, _) => CountedBack(v, rest);
    case Entries(_, _) => EntriesBack(v, rest);
    case Str16(_) => GetPutString(v, rest);
    case Str32(_) => GetPutString(v, rest);
    case _ => GetPutScalar(v, rest);
  }

  // ----- more bytes never change what has been read

  lemma {:induction false} TakeMore(n: int, s: seq<byte>, t: seq<byte>)
    requires Take(n, s).Got?
    ensures Take(n, s + t) == Got(Take(n, s).value, Take(n, s).rest + t)
  {
    if n > 0 {
      assert (s + t)[..n] == s[..n] && (s + t)[n..] == s[n..] + t;
    }
  }

  lemma {:induction false} TakeFixedMore(k: nat, s: seq<byte>, t: seq<byte>)
    requires k <= |s|
    ensures (s + t)[..k] == s[..k] && (s + t)[k..] == s[k..] + t
  {
  }

  lemma {:induction false} TakeChunkMore(s: seq<byte>, t: seq<byte>)
    requires TakeChunk(s).Got?
    ensures TakeChunk(s + t) == Got(TakeChunk(s).value, TakeChunk(s).rest + t)
  {
    TakeFixedMore(8, s, t);
    TakeFixedMore(8, s[8..], t);
    assert (s + t)[4..8] == s[4..8];
    TakeMore(GetI32(s[4..8]), s[8..][8..], t);
  }

  lemma {:induction false} TakeItemMore(s: seq<byte>, t: seq<byte>)
    requires TakeItem(s).Got?
    ensures TakeItem(s + t) == Got(TakeItem(s).value, TakeItem(s).rest + t)
  {
    TakeFixedMore(2, s, t);
    var n := FromBigEndian(s[..2]);
    TakeMore(n, s[2..], t);
    var u := Take(n, s[2..]).rest;
    TakeFixedMore(4, u, t);
    TakeChunkMore(u[4..], t);
  }

  ghost predicate Extends<T(!new)>(take: Taker<T>) {
    forall s, t :: take(s).Got? ==> take(s + t) == Got(take(s).value, take(s).rest + t)
  }

  lemma {:induction false} TakeManyMore<T(!new)>(take: Taker<T>, n: int, s: seq<byte>, t: seq<byte>)
    requires Extends(take) && TakeMany(take, n, s).Got?
    ensures TakeMany(take, n, s + t) == Got(TakeMany(take, n, s).value, TakeMany(take, n, s).rest + t)
    decreases n
  {
    if n > 0 {
      assert take(s + t) == Got(take(s).value, take(s).rest + t);
      TakeManyMore(take, n - 1, take(s).rest, t);
    }
  }

  lemma {:induction false} ItemsExtend()
    ensures Extends(TakeItem) && Extends(TakeStr32)
  {
    forall s, t | TakeItem(s).Got? ensures TakeItem(s + t) == Got(TakeItem(s).value, TakeItem(s).rest + t) {
      TakeItemMore(s, t);
    }
    forall s, t | TakeStr32(s).Got? ensures TakeStr32(s + t) == Got(TakeStr32(s).value, TakeStr32(s).rest + t) {
      TakeFixedMore(4, s, t);
      TakeMore(GetI32(s[..4]), s[4..], t);
    }
  }

  lemma {:induction false} TakeUsersMore(s: seq<byte>, t: seq<byte>)
    requires TakeUsers(s).Got?
    ensures TakeUsers(s + t) == Got(TakeUsers(s).value, TakeUsers(s).rest + t)
    decreases |s|
  {
    TakeFixedMore(4, s, t);
    var n := GetI32(s[..4]);
    if n != -1 {
      TakeMore(n, s[4..], t);
      var u := Take(n, s[4..]).rest;
      TakeFixedMore(4, u, t);
      TakeUsersMore(u[4..], t);
    }
  }

  lemma {:induction false} GetMore(k: Kind, s: seq<byte>, t: seq<byte>)
    requires Get(k, s).Got?
    ensures Get(k, s + t) == Got(Get(k, s).value, Get(k, s).rest + t)
  {
    match k
    case KI32 => TakeFixedMore(4, s, t);
    case KU32 => TakeFixedMore(4, s, t);
    case KI64 => TakeFixedMore(8, s, t);
    case KStr16 =>
      TakeFixedMore(2, s, t);
      TakeMore(FromBigEndian(s[..2]), s[2..], t);
    case KStr32 =>
      TakeFixedMore(4, s, t);
      TakeMore(GetI32(s[..4]), s[4..], t);
    case KChunk => TakeChunkMore(s, t);
    case KBatch =>
      TakeFixedMore(4, s, t);
      ItemsExtend();
      TakeManyMore(TakeItem, FromBigEndian(s[..4]), s[4..], t);
    case KUsers => TakeUsersMore(s, t);
    case KFixed(size) => TakeMore(size, s, t);
    case KCounted =>
      TakeFixedMore(4, s, t);
      TakeMore(GetI32(s[..4]), s[4..], t);
    case KEntries =>
      TakeFixedMore(4, s, t);
      ItemsExtend();
      TakeManyMore(TakeStr32, GetI32(s[..4]), s[4..], t);
    case KCode => TakeFixedMore(1, s, t);
  }

  // ----- lists of fields

  function PutAll(vs: seq<Value>): seq<byte> {
    if vs == [] then [] else Put(vs[0]) + PutAll(vs[1..])
  }

  function GetAll(ks: seq<Kind>, s: seq<byte>): Parsed<seq<Value>> {
    if ks == [] then Got([], s) else
    var a := Get(ks[0], s);
    if a.More? then More else
    var b := GetAll(ks[1..], a.rest);
    if b.More? then More else Got([a.value] + b.value, b.rest)
  }

  ghost predicate Fits(vs: seq<Value>, ks: seq<Kind>) {
    |vs| == |ks| && forall i :: 0 <= i < |vs| ==> KindOf(vs[i]) == ks[i] && Sound(vs[i])
  }

  lemma {:induction false} GetAllPutAll(vs: seq<Value>, ks: seq<Kind>, rest: seq<byte>)
    requires Fits(vs, ks)
    ensures GetAll(ks, PutAll(vs) + rest) == Got(vs, rest)
    decreases |vs|
  {
    if vs == [] {
      assert PutAll(vs) + rest == rest;
    } else {
      var s, tail := Put(vs[0]) + (PutAll(vs[1..]) + rest), PutAll(vs[1..]) + rest;
      Assoc(Put(vs[0]), PutAll(vs[1..]), rest);
      assert Get(ks[0], s) == Got(vs[0], tail) by {
        GetPut(vs[0], tail);
      }
      assert GetAll(ks[1..], tail) == Got(vs[1..], rest) by {
        GetAllPutAll(vs[1..], ks[1..], rest);
      }
      AllOf(ks, s, vs[0], tail, vs[1..], rest);
      assert vs == [vs[0]] + vs[1..];
    }
  }

  lemma {:induction false} AllOf(ks: seq<Kind>, s: seq<byte>, v: Value, tail: seq<byte>, more: seq<Value>, rest: seq<byte>)
    requires ks != [] && Get(ks[0], s) == Got(v, tail) && GetAll(ks[1..], tail) == Got(more, rest)
    ensures GetAll(ks, s) == Got([v] + more, rest)
  {
  }

  lemma {:induction false} GetAllMore(ks: seq<Kind>, s: seq<byte>, t: seq<byte>)
    requires GetAll(ks, s).Got?
    ensures GetAll(ks, s + t) == Got(GetAll(ks, s).value, GetAll(ks, s).rest + t)
    decreases |ks|
  {
    if ks != [] {
      GetMore(ks[0], s, t);
      GetAllMore(ks[1..], Get(ks[0], s).rest, t);
    }
  }

  /** While part of a message is still under way the reader waits; it never takes a part of a
      message for a whole one. */
  lemma {:induction false} NoEarlyRead(vs: seq<Value>, ks: seq<Kind>, arrived: seq<byte>, missing: seq<byte>)
    requires Fits(vs, ks) && arrived + missing == PutAll(vs)
    ensures GetAll(ks, arrived).Got? <==> missing == []
    ensures missing == [] ==> GetAll(ks, arrived) == Got(vs, [])
  {
    GetAllPutAll(vs, ks, []);
    assert PutAll(vs) + [] == PutAll(vs);
    if missing == [] {
      assert arrived == PutAll(vs);
    } else if GetAll(ks, arrived).Got? {
      GetAllMore(ks, arrived, missing);
    }
  }
}
