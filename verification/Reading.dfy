/** Reading with a time-out, as both sides do it: a read gives the bytes asked for or, when they
    never come, nothing; and what nothing is taken for. */
module Reading {
  import opened Bytes
  import opened Wire

  type Reader<T> = seq<byte> -> (T, seq<byte>)

  /** Exactly n bytes, or nothing after a time-out that has used up what was there. */
  function ReadExact(s: seq<byte>, n: int): (r: (seq<byte>, seq<byte>))
    ensures r.0 == [] || |r.0| == n
    ensures |r.0| + |r.1| <= |s|
  {
    if n <= 0 then ([], s) else if |s| < n then ([], []) else (s[..n], s[n..])
  }

  /** Decoding nothing gives zero. */
  function Number(b: seq<byte>): i32 {
    if |b| == 4 then GetI32(b) else 0
  }

  function LongNumber(b: seq<byte>): i64 {
    if |b| == 8 then GetI64(b) else 0
  }

  /** The low half of a 64-bit size. */
  function IntOfLong(b: seq<byte>): i32 {
    if |b| == 8 then GetI32(b[4..]) else 0
  }

  /** A length in 32 bits and that many bytes: a length that is not positive gives nothing. */
  function ReadMessage(s: seq<byte>): (seq<byte>, seq<byte>) {
    var (b, rest) := ReadExact(s, 4);
    ReadExact(rest, Number(b))
  }

  function ReadPath(s: seq<byte>): (seq<byte>, seq<byte>) {
    var (b, rest) := ReadExact(s, 2);
    ReadExact(rest, FromBigEndian(b))
  }

  function ReadChunk(s: seq<byte>): ((i64, i64, seq<byte>), seq<byte>) {
    var (size, s1) := ReadExact(s, 8);
    var (offset, s2) := ReadExact(s1, 8);
    var (data, s3) := ReadExact(s2, IntOfLong(size));
    ((LongNumber(size), LongNumber(offset), data), s3)
  }

  function ReadItem(s: seq<byte>): (Item, seq<byte>) {
    var (path, s1) := ReadPath(s);
    var (fd, s2) := ReadExact(s1, 4);
    var (c, s3) := ReadChunk(s2);
    (Item(|path|, path, Number(fd), c.0, c.1, c.2), s3)
  }

  /** The same field n times. */
  function ReadMany<T>(read: Reader<T>, n: nat, s: seq<byte>): (r: (seq<T>, seq<byte>))
    ensures |r.0| == n
  {
    if n == 0 then ([], s) else
    var (a, s1) := read(s);
    var (b, s2) := ReadMany(read, n - 1, s1);
    ([a] + b, s2)
  }

  /** With these values read and n more to come from s, all will be what was asked for. */
  ghost predicate Underway<T>(read: Reader<T>, all: (seq<T>, seq<byte>), done: seq<T>, n: nat, s: seq<byte>) {
    all.0 == done + ReadMany(read, n, s).0 && all.1 == ReadMany(read, n, s).1
  }

  lemma {:induction false} OneMore<T>(read: Reader<T>, all: (seq<T>, seq<byte>), done: seq<T>, n: nat, s: seq<byte>)
    requires n > 0 && Underway(read, all, done, n, s)
    ensures Underway(read, all, done + [read(s).0], n - 1, read(s).1)
  {
  }

  lemma {:induction false} OneOnly<T>(read: Reader<T>, s: seq<byte>)
    ensures ReadMany(read, 1, s) == ([read(s).0], read(s).1)
  {
    var a := read(s).0;
    assert ReadMany(read, 0, read(s).1) == ([], read(s).1) && [a] + [] == [a];
  }

  function ReadBatch(s: seq<byte>): (seq<Item>, seq<byte>) {
    var (count, s1) := ReadExact(s, 4);
    ReadMany(ReadItem, FromBigEndian(count), s1)
  }

  // ----- the list of local users

  /** The loop that reads the list of local users, for a number of passes: it ends only where it
      reads the mark -1. */
  function UsersLoop(s: seq<byte>, passes: nat): Parsed<seq<User>>
    decreases passes
  {
    if passes == 0 then More else
    var (length, s1) := ReadExact(s, 4);
    if Number(length) == -1 then Got([], s1) else
    var (name, s2) := ReadExact(s1, Number(length));
    var (uid, s3) := ReadExact(s2, 4);
    var more := UsersLoop(s3, passes - 1);
    if more.More? then More else Got([User(name, FromBigEndian(uid))] + more.value, more.rest)
  }

  /** With nothing left to read the loop goes on for ever. */
  lemma {:induction false} EmptyStreamNeverEnds(passes: nat)
    ensures UsersLoop([], passes).More?
  {
    if passes > 0 {
      EmptyStreamNeverEnds(passes - 1);
    }
  }

  /** Once a read has failed nothing is left, so a loop that ends has read a whole list. */
  lemma {:induction false} LoopReadsList(s: seq<byte>, passes: nat)
    requires UsersLoop(s, passes).Got?
    ensures UsersLoop(s, passes) == TakeUsers(s)
  {
    var (length, s1) := ReadExact(s, 4);
    if Number(length) != -1 {
      var (name, s2) := ReadExact(s1, Number(length));
      var (uid, s3) := ReadExact(s2, 4);
      if s3 == [] {
        EmptyStreamNeverEnds(passes - 1);
      }
      LoopReadsList(s3, passes - 1);
    }
  }

  lemma {:induction false} ListEndsLoop(s: seq<byte>, passes: nat)
    requires TakeUsers(s).Got? && passes > |s|
    ensures UsersLoop(s, passes) == TakeUsers(s)
    decreases passes
  {
    if GetI32(s[..4]) != -1 {
      var u := TakeUser(GetI32(s[..4]), s[4..]);
      ListEndsLoop(u.rest, passes - 1);
    }
  }

  /** One pass of the loop over a whole list. */
  lemma {:induction false} UsersHead(s: seq<byte>)
    requires TakeUsers(s).Got?
    ensures var (length, s1) := ReadExact(s, 4);
            if Number(length) == -1 then TakeUsers(s) == Got([], s1)
            else
              var (name, s2) := ReadExact(s1, Number(length));
              var (uid, s3) := ReadExact(s2, 4);
              var more := TakeUsers(s3);
              && |s3| < |s| && more.Got?
              && TakeUsers(s) == Got([User(name, FromBigEndian(uid))] + more.value, more.rest)
  {
  }

  /** The loop ends exactly when the list with its end mark is there; then it has read that. */
  lemma {:induction false} LoopEndsIff(s: seq<byte>)
    ensures (exists passes :: UsersLoop(s, passes).Got?) <==> TakeUsers(s).Got?
    ensures TakeUsers(s).Got? <==> UsersLoop(s, |s| + 1).Got?
    ensures TakeUsers(s).Got? ==> UsersLoop(s, |s| + 1) == TakeUsers(s)
  {
    if passes :| UsersLoop(s, passes).Got? {
      LoopReadsList(s, passes);
    }
    if TakeUsers(s).Got? {
      ListEndsLoop(s, |s| + 1);
    }
  }

  // ----- the arguments of requests

  ghost predicate Argument(k: Kind) {
    k.KI32? || k.KU32? || k.KI64? || k.KStr16? || k.KStr32? || k.KChunk? || k.KBatch? || k.KUsers?
  }

  /** What the worker makes of a field. The list of users is the one whose loop has ended. */
  function ReadField(k: Kind, s: seq<byte>): (Value, seq<byte>)
    requires Argument(k)
  {
    match k
    case KI32 => var (b, rest) := ReadExact(s, 4); (I32(Number(b)), rest)
    case KU32 => var (b, rest) := ReadExact(s, 4); (U32(FromBigEndian(b)), rest)
    case KI64 => var (b, rest) := ReadExact(s, 8); (I64(LongNumber(b)), rest)
    case KStr16 => var (b, rest) := ReadPath(s); (Str16(b), rest)
    case KStr32 => var (b, rest) := ReadMessage(s); (Str32(b), rest)
    case KChunk => var (c, rest) := ReadChunk(s); (Chunk(c.0, c.1, c.2), rest)
    case KBatch => var (items, rest) := ReadBatch(s); (Batch(items), rest)
    case KUsers =>
      var p := UsersLoop(s, |s| + 1);
      if p.Got? then (Users(p.value), p.rest) else (Users([]), [])
  }

  function ReadFields(ks: seq<Kind>, s: seq<byte>): (seq<Value>, seq<byte>)
    requires forall i :: 0 <= i < |ks| ==> Argument(ks[i])
  {
    if ks == [] then ([], s) else
    var (v, s1) := ReadField(ks[0], s);
    var (vs, s2) := ReadFields(ks[1..], s1);
    ([v] + vs, s2)
  }

  /** Where nothing comes every number is 0 and every text is empty. */
  lemma {:induction false} NothingReadsZero()
    ensures ReadField(KI32, []) == (I32(0), []) && ReadField(KU32, []) == (U32(0), [])
    ensures ReadField(KI64, []) == (I64(0), []) && ReadField(KStr16, []) == (Str16([]), [])
    ensures ReadField(KStr32, []) == (Str32([]), []) && ReadField(KChunk, []) == (Chunk(0, 0, []), [])
    ensures ReadField(KBatch, []) == (Batch([]), []) && ReadItem([]) == (Item(0, [], 0, 0, 0, []), [])
  {
  }

  /** A read that comes up short uses up what was there and gives nothing. */
  lemma {:induction false} ShortRead(s: seq<byte>, n: int)
    ensures n > |s| ==> ReadExact(s, n) == ([], [])
    ensures 0 <= n <= |s| ==> ReadExact(s, n).0 + ReadExact(s, n).1 == s && |ReadExact(s, n).0| == n
    ensures n < 0 ==> ReadExact(s, n) == ([], s)
  {
  }

  // ----- with the bytes at hand

  lemma {:induction false} ItemAgrees(s: seq<byte>)
    requires TakeItem(s).Got?
    ensures ReadItem(s) == (TakeItem(s).value, TakeItem(s).rest)
  {
    assert TakeStr16(s).Got?;
    var u := TakeStr16(s).rest[4..];
    assert u[..8][4..] == u[4..8];
  }

  ghost predicate Agree<T(!new)>(read: Reader<T>, take: Taker<T>) {
    forall s :: take(s).Got? ==> read(s) == (take(s).value, take(s).rest)
  }

  lemma {:induction false} ManyAgree<T(!new)>(read: Reader<T>, take: Taker<T>, n: nat, s: seq<byte>)
    requires Agree(read, take) && TakeMany(take, n, s).Got?
    ensures ReadMany(read, n, s) == (TakeMany(take, n, s).value, TakeMany(take, n, s).rest)
  {
    if n > 0 {
      ManyAgree(read, take, n - 1, take(s).rest);
    }
  }

  /** When the bytes of a field are there, exactly they are read, and the same value is found. */
  lemma {:induction false} FieldAgrees(k: Kind, s: seq<byte>)
    requires Argument(k) && Get(k, s).Got?
    ensures ReadField(k, s) == (Get(k, s).value, Get(k, s).rest)
  {
    if k.KChunk? {
      assert s[..8][4..] == s[4..8];
    } else if k.KBatch? {
      forall u | TakeItem(u).Got? ensures ReadItem(u) == (TakeItem(u).value, TakeItem(u).rest) {
        ItemAgrees(u);
      }
      ManyAgree(ReadItem, TakeItem, FromBigEndian(s[..4]), s[4..]);
    } else if k.KUsers? {
      LoopEndsIff(s);
    }
  }

  lemma {:induction false} FieldsAgree(ks: seq<Kind>, s: seq<byte>)
    requires forall i :: 0 <= i < |ks| ==> Argument(ks[i])
    requires GetAll(ks, s).Got?
    ensures ReadFields(ks, s) == (GetAll(ks, s).value, GetAll(ks, s).rest)
    decreases |ks|
  {
    if ks != [] {
      FieldAgrees(ks[0], s);
      FieldsAgree(ks[1..], Get(ks[0], s).rest);
    }
  }

  // ----- requests whose path length is not that of the path

  /** A request is read with the path that was written only if its length field gives the
      number of bytes of the path. */
  lemma {:induction false} ItemPathKept(r: Item, rest: seq<byte>)
    requires r.units <= |r.path| && SoundData(r.size, r.data)
    ensures ReadItem(PutItem(r) + rest).0.path == r.path <==> SoundItem(r)
    ensures SoundItem(r) ==> ReadItem(PutItem(r) + rest) == (r, rest)
  {
    if SoundItem(r) {
      TakeItemAppended(r, rest);
      ItemAgrees(PutItem(r) + rest);
    } else {
      var s := PutItem(r) + rest;
      assert s[..2] == BigEndian(r.units, 2);
      assert Pow256(2) == 0x1_0000;
      BigEndianDecodes(r.units, 2);
      var n := FromBigEndian(s[..2]);
      assert n <= r.units && (n == r.units ==> r.units < 0x1_0000);
      assert ReadItem(s).0.path == ReadExact(s[2..], n).0;
    }
  }

  /** What is read where the length field is 2 and the bytes taken for the size say 0. */
  lemma {:induction false} ItemOfTwo(s: seq<byte>)
    requires |s| >= 24 && FromBigEndian(s[..2]) == 2 && GetI32(s[12..16]) == 0
    ensures ReadItem(s).0.fd == GetI32(s[4..8]) && ReadItem(s).1 == s[24..]
  {
    assert s[2..][..2] == s[2..4] && s[2..][2..] == s[4..];
    assert s[4..][..4] == s[4..8] && s[4..][4..] == s[8..];
    assert s[8..][..8] == s[8..16] && s[8..16][4..] == s[12..16] && s[8..][8..] == s[16..];
    assert s[16..][8..] == s[24..];
  }

  ghost predicate Kept(put: Item -> seq<byte>, read: Reader<Item>, r: Item, rest: seq<byte>) {
    && (read(put(r) + rest).0.path == r.path <==> SoundItem(r))
    && (SoundItem(r) ==> read(put(r) + rest) == (r, rest))
  }

  ghost predicate AllSound(items: seq<Item>) {
    forall i :: 0 <= i < |items| ==> SoundItem(items[i])
  }

  lemma {:induction false} ManyKeptIff(put: Item -> seq<byte>, read: Reader<Item>, items: seq<Item>, rest: seq<byte>)
    requires forall i, t :: 0 <= i < |items| ==> Kept(put, read, items[i], t)
    ensures SamePaths(items, ReadMany(read, |items|, PutMany(put, items) + rest).0) <==> AllSound(items)
    ensures AllSound(items) ==> ReadMany(read, |items|, PutMany(put, items) + rest) == (items, rest)
  {
    if items == [] {
      assert PutMany(put, items) + rest == rest;
    } else {
      var x, more := items[0], PutMany(put, items[1..]);
      Assoc(put(x), more, rest);
      assert Kept(put, read, x, more + rest);
      ManyKeptIff(put, read, items[1..], rest);
      var (a, s1) := read(put(x) + (more + rest));
      var b := ReadMany(read, |items| - 1, s1).0;
      assert items == [x] + items[1..];
      SamePathsCons(x, items[1..], a, b);
      assert AllSound(items) <==> SoundItem(x) && AllSound(items[1..]) by {
        assert forall i :: 0 < i < |items| ==> items[1..][i - 1] == items[i];
      }
    }
  }

  /** A list of requests is read with the paths that were written exactly when every path has as
      many bytes as its length field says, and then all of it is read as written. */
  lemma {:induction false} ItemsKeptIff(items: seq<Item>, rest: seq<byte>)
    requires forall i :: 0 <= i < |items| ==> items[i].units <= |items[i].path| && SoundData(items[i].size, items[i].data)
    ensures SamePaths(items, ReadMany(ReadItem, |items|, PutMany(PutItem, items) + rest).0) <==> AllSound(items)
    ensures AllSound(items) ==> ReadMany(ReadItem, |items|, PutMany(PutItem, items) + rest) == (items, rest)
  {
    forall i, t | 0 <= i < |items| ensures Kept(PutItem, ReadItem, items[i], t) {
      ItemPathKept(items[i], t);
    }
    ManyKeptIff(PutItem, ReadItem, items, rest);
  }

  ghost predicate SamePaths(a: seq<Item>, b: seq<Item>) {
    |a| == |b| && forall i :: 0 <= i < |a| ==> a[i].path == b[i].path
  }

  lemma {:induction false} SamePathsCons(x: Item, a: seq<Item>, y: Item, b: seq<Item>)
    ensures SamePaths([x] + a, [y] + b) <==> x.path == y.path && SamePaths(a, b)
  {
    if SamePaths([x] + a, [y] + b) {
      assert ([x] + a)[0] == x && ([y] + b)[0] == y;
      forall i | 0 <= i < |a| ensures a[i].path == b[i].path {
        assert ([x] + a)[i + 1] == a[i] && ([y] + b)[i + 1] == b[i];
      }
    }
  }
}
