/** The client's write-back buffer together with the worker that replays it. */
module WriteBack {
  import opened Bytes
  import opened FdTable
  import Reading
  import Wire

  const ECOMM := 70
  const BATCH_LIMIT := 1048576

  /** Data of a write for which the length of a joined request still fits in an int. */
  const MAX_WRITE := 0x7fff_ffff - BATCH_LIMIT

  type Fd = Wire.i32
  type Name = seq<Wire.Unit>
  type Offset = x: int | 0 <= x < 0x8000_0000_0000_0000

  /** A buffered write: the path is held in characters. */
  datatype WriteRequest = WriteRequest(fd: Fd, path: Name, size: nat, offset: Offset, data: seq<byte>)

  /** How an exchange with the server ends: answered, no connection, not acknowledged, or
      acknowledged and then cut off, after the worker has carried out so many of the requests sent.
      A cut off answer is read as 0. */
  datatype Net = Up | NoSocket | NotOk | Lost(done: nat)

  // ----- a bulk request on its way

  /** What the request asks for. */
  function Asked(r: WriteRequest): Request {
    Request(r.fd, Wire.Utf8(r.path), r.size, r.offset, r.data)
  }

  function AllAsked(rs: seq<WriteRequest>): seq<Request> {
    seq(|rs|, i requires 0 <= i < |rs| => Asked(rs[i]))
  }

  /** What is written for it: the length of the path is counted in characters. */
  function ItemOf(r: WriteRequest): Wire.Item {
    Wire.Item(|r.path|, Wire.Utf8(r.path), r.fd, Wire.GetI64(BigEndian(r.size, 8)), r.offset, r.data)
  }

  function Items(rs: seq<WriteRequest>): seq<Wire.Item> {
    seq(|rs|, i requires 0 <= i < |rs| => ItemOf(rs[i]))
  }

  function Sent(rs: seq<WriteRequest>): seq<byte> {
    Wire.Put(Wire.Batch(Items(rs)))
  }

  function RequestOf(r: Wire.Item): Request {
    Request(r.fd, r.path, r.size, r.offset, r.data)
  }

  function Requests(items: seq<Wire.Item>): seq<Request> {
    seq(|items|, i requires 0 <= i < |items| => RequestOf(items[i]))
  }

  /** What the worker makes of the bytes, and those that it leaves. */
  function Received(bytes: seq<byte>): (seq<Request>, seq<byte>) {
    var (items, rest) := Reading.ReadBatch(bytes);
    (Requests(items), rest)
  }

  /** The requests that the worker has carried out when the exchange ends. */
  function Done(rs: seq<Request>, net: Net): seq<Request> {
    if net.Lost? && net.done < |rs| then rs[..net.done] else rs
  }

  ghost predicate Sized(rs: seq<WriteRequest>) {
    |rs| < 0x8000_0000 && forall i :: 0 <= i < |rs| ==> rs[i].size == |rs[i].data| < 0x8000_0000
  }

  ghost predicate Plain(path: Name) {
    Wire.Ascii(path) && |path| < 0x1_0000
  }

  lemma {:induction false} PlainIsSound(r: WriteRequest)
    requires r.size == |r.data| < 0x8000_0000
    ensures Wire.SoundItem(ItemOf(r)) <==> Plain(r.path)
    ensures RequestOf(ItemOf(r)) == Asked(r) && Wire.SoundData(ItemOf(r).size, r.data)
  {
    Wire.I64RoundTrip(r.size);
    if Wire.Ascii(r.path) {
      Wire.AsciiIsItself(r.path);
    } else {
      Wire.NonAsciiIsLonger(r.path);
    }
  }

  lemma {:induction false} CountRead(rs: seq<WriteRequest>)
    requires |rs| < 0x8000_0000
    ensures Reading.ReadBatch(Sent(rs)) == Reading.ReadMany(Reading.ReadItem, |rs|, Wire.PutMany(Wire.PutItem, Items(rs)))
  {
    var rest := Wire.PutMany(Wire.PutItem, Items(rs));
    assert Pow256(4) == 0x1_0000_0000;
    Wire.TakeNatAppended(|rs|, 4, rest);
    assert Sent(rs) == BigEndian(|rs|, 4) + rest;
  }

  /** A bulk request is carried out as asked, with no byte left over, exactly when all its paths are
      ASCII and shorter than 65536 characters. */
  lemma {:induction false} BulkAsAskedIff(rs: seq<WriteRequest>)
    requires Sized(rs)
    ensures Received(Sent(rs)) == (AllAsked(rs), []) <==> forall i :: 0 <= i < |rs| ==> Plain(rs[i].path)
  {
    var items, bytes := Items(rs), Wire.PutMany(Wire.PutItem, Items(rs));
    forall i | 0 <= i < |rs| ensures Wire.SoundItem(items[i]) <==> Plain(rs[i].path)
                             ensures RequestOf(items[i]) == Asked(rs[i]) && Wire.SoundData(items[i].size, items[i].data) {
      PlainIsSound(rs[i]);
    }
    CountRead(rs);
    assert bytes + [] == bytes;
    Reading.ItemsKeptIff(items, []);
    AskedWhenSound(rs, items, Reading.ReadMany(Reading.ReadItem, |rs|, bytes));
  }

  lemma {:induction false} AskedWhenSound(rs: seq<WriteRequest>, items: seq<Wire.Item>, got: (seq<Wire.Item>, seq<byte>))
    requires |items| == |rs| == |got.0| && forall i :: 0 <= i < |rs| ==> RequestOf(items[i]) == Asked(rs[i])
    requires Reading.SamePaths(items, got.0) <==> Reading.AllSound(items)
    requires Reading.AllSound(items) ==> got == (items, [])
    ensures (Requests(got.0), got.1) == (AllAsked(rs), []) <==> Reading.AllSound(items)
  {
    if Requests(got.0) == AllAsked(rs) {
      forall i | 0 <= i < |rs| ensures items[i].path == got.0[i].path {
        assert Requests(got.0)[i] == AllAsked(rs)[i] == RequestOf(items[i]);
      }
    }
  }

  // ----- client and server as one value

  /** Bytes that a bulk request has left in front of the worker are taken for the next operation:
      from then on no exchange succeeds. */
  datatype System = System(server: State, stray: seq<byte>, buffer: seq<WriteRequest>, bytesInBatch: nat, fdsUsed: seq<Fd>)
  {
    function Reaches(net: Net): bool {
      (net.Up? || net.Lost?) && stray == []
    }

    function Local(path: Name): Path {
      server.localPath + Wire.Utf8(path)
    }

    /** The number that the client reads: a handle if it is positive, else what the call returns. */
    function FsOpen(path: Name, create: bool, trunc: bool, outcome: OpenOutcome, net: Net): (System, int) {
      if !Reaches(net) then (this, -ECOMM)
      else
        var (t, res) := server.Open(Wire.Utf8(path), create, trunc, outcome);
        (this.(server := if Skipped(net) then server else t), if net.Lost? then 0 else res)
    }

    /** The worker went away before it carried out the one request. */
    function Skipped(net: Net): bool {
      net == Lost(0)
    }

    function Last(): WriteRequest
      requires buffer != []
    {
      buffer[|buffer| - 1]
    }

    function Consecutive(fd: Fd, offset: Offset): bool {
      buffer != [] && Last().fd == fd && Last().offset + Last().size == offset
    }

    /** Appends to the last request when the write continues it, else adds a request. */
    function Enqueue(fd: Fd, path: Name, offset: Offset, data: seq<byte>): System {
      var b :=
        if Consecutive(fd, offset) then
          buffer[..|buffer| - 1] + [Last().(data := Last().data + data, size := Last().size + |data|)]
        else buffer + [WriteRequest(fd, path, |data|, offset, data)];
      this.(buffer := b, bytesInBatch := bytesInBatch + |data|)
    }

    function WriteBuffer(net: Net): (System, int) {
      if !Reaches(net) then (this, -ECOMM)
      else
        var (rs, rest) := Received(Sent(buffer));
        var qs := Done(rs, net);
        var (t, result) := server.WriteBulk(qs, Full(qs));
        (this.(server := t, stray := if net.Lost? then [] else rest, buffer := [], bytesInBatch := 0),
         if net.Lost? then 0 else result)
    }

    /** The first write on a descriptor goes out at once, later ones are buffered. */
    function FsWrite(fd: Fd, path: Name, offset: Offset, data: seq<byte>, net: Net): (System, int) {
      if fd !in fdsUsed then
        var s := this.(fdsUsed := fdsUsed + [fd]);
        if !Reaches(net) then (s, -ECOMM)
        else
          var (t, res) := server.Write(Asked(WriteRequest(fd, path, |data|, offset, data)), Wrote(|data|));
          (s.(server := if Skipped(net) then server else t), if net.Lost? then 0 else res)
      else
        var s := Enqueue(fd, path, offset, data);
        if s.bytesInBatch > BATCH_LIMIT then
          var (t, result) := s.WriteBuffer(net);
          (t, if result == 0 then |data| else result)
        else (s, |data|)
    }

    /** Flushes, then releases; the result of the flush is dropped. */
    function FsRelease(fd: Fd, path: Name, outcome: CloseOutcome, flush: Net, net: Net): (System, int) {
      var s := WriteBuffer(flush).0;
      if !s.Reaches(net) then (s, -ECOMM)
      else
        var (t, res) := s.server.Release(Wire.Utf8(path), fd, outcome);
        (s.(server := if Skipped(net) then s.server else t), if net.Lost? then 0 else res)
    }

    // ----- what the calls answer, in every state and whatever becomes of the exchange

    /** The worker's result for the buffer: the last error of its requests, or 0. */
    function FlushResult(): (r: int)
      ensures r <= 0
    {
      var rs := Received(Sent(buffer)).0;
      server.BulkAnswers(rs, Full(rs));
      server.WriteBulk(rs, Full(rs)).1
    }

    /** A flush that does not reach the worker changes nothing and is an error; any other empties the
        buffer, and answers 0 if it is cut off. */
    lemma {:induction false} FlushAnswers(net: Net)
      ensures var (t, result) := WriteBuffer(net);
              && (!Reaches(net) ==> t == this && result == -ECOMM)
              && (Reaches(net) ==> t.buffer == [] && t.bytesInBatch == 0 && t.fdsUsed == fdsUsed)
              && (Reaches(net) ==> result == if net.Lost? then 0 else FlushResult())
    {
    }

    /** A buffered write is due for a flush when it takes the buffer over its limit. It answers its
        size exactly when no flush was due, or the flush was answered 0 or cut off; where the flush
        does not reach the worker the bytes stay in the buffer and the answer says so, and where the
        worker reports an error that is the answer. */
    lemma {:induction false} BufferedWriteAnswers(fd: Fd, path: Name, offset: Offset, data: seq<byte>, net: Net)
      requires fd in fdsUsed
      ensures var (t, res) := FsWrite(fd, path, offset, data, net);
              var due, full := bytesInBatch + |data| > BATCH_LIMIT, Enqueue(fd, path, offset, data);
              && (res == |data| <==> !due || (Reaches(net) && (net.Lost? || full.FlushResult() == 0)))
              && (!due || !Reaches(net) ==> t == full && TotalData(t.buffer) == TotalData(buffer) + |data|)
              && (due && !Reaches(net) ==> res == -ECOMM)
              && (due && Reaches(net) ==> t.buffer == [])
              && (due && Reaches(net) && net.Up? && full.FlushResult() < 0 ==> res == full.FlushResult())
    {
      var full := Enqueue(fd, path, offset, data);
      full.FlushAnswers(net);
      EnqueueTotals(fd, path, offset, data);
    }

    lemma {:induction false} EnqueueTotals(fd: Fd, path: Name, offset: Offset, data: seq<byte>)
      ensures TotalData(Enqueue(fd, path, offset, data).buffer) == TotalData(buffer) + |data|
    {
      var b := Enqueue(fd, path, offset, data).buffer;
      assert b[..|b| - 1] == if Consecutive(fd, offset) then buffer[..|buffer| - 1] else buffer;
    }

    /** A direct write leaves the buffer alone. It answers what the worker answers, 0 if it is cut
        off, and an error, with nothing written, if it does not reach the worker. */
    lemma {:induction false} DirectWriteAnswers(fd: Fd, path: Name, offset: Offset, data: seq<byte>, net: Net)
      requires fd !in fdsUsed
      ensures var (t, res) := FsWrite(fd, path, offset, data, net);
              var (w, answer) := server.Write(Request(fd, Wire.Utf8(path), |data|, offset, data), Wrote(|data|));
              && t == this.(server := t.server, fdsUsed := fdsUsed + [fd])
              && res == (if !Reaches(net) then -ECOMM else if net.Lost? then 0 else answer)
              && t.server == (if Reaches(net) && net != Lost(0) then w else server)
    {
    }

    /** A release flushes first, whatever comes of it. It answers what the worker answers, 0 if it is
        cut off, and an error, with the descriptor still in use, if it does not reach the worker. */
    lemma {:induction false} ReleaseAnswers(fd: Fd, path: Name, outcome: CloseOutcome, flush: Net, net: Net)
      ensures var (t, res), s := FsRelease(fd, path, outcome, flush, net), WriteBuffer(flush).0;
              var (w, answer) := s.server.Release(Wire.Utf8(path), fd, outcome);
              && t == s.(server := t.server)
              && res == (if !s.Reaches(net) then -ECOMM else if net.Lost? then 0 else answer)
              && t.server == (if s.Reaches(net) && net != Lost(0) then w else s.server)
    {
    }

    /** A handle that an open answers can be written and released under its path. */
    lemma {:induction false} OpenIsLive(path: Name, create: bool, trunc: bool, outcome: OpenOutcome, net: Net)
      requires outcome.Refused? ==> outcome.errno > 0
      ensures var (t, res) := FsOpen(path, create, trunc, outcome, net);
              && (res > 0 ==> res < INT_MAX && res !in server.fds && t.server.Names(res, Local(path)))
              && (res > 0 && |Local(path)| <= LINK_SIZE ==> t.Live(res, path))
              && (res > 0 <==> Reaches(net) && net.Up? && outcome.Opened? && exists j :: 1 <= j < INT_MAX && j !in server.fds)
              && (!Reaches(net) ==> t == this && res == -ECOMM)
              && (Reaches(net) && net.Lost? ==> res == 0)
    {
      server.OpenAnswers(Wire.Utf8(path), create, trunc, outcome);
    }

    // ----- buffer accounting

    ghost predicate Accounted() {
      && (forall i :: 0 <= i < |buffer| ==> buffer[i].size == |buffer[i].data|)
      && bytesInBatch == TotalSize(buffer)
    }

    lemma {:induction false} EnqueueAccounts(fd: Fd, path: Name, offset: Offset, data: seq<byte>)
      requires Accounted()
      ensures Enqueue(fd, path, offset, data).Accounted()
    {
      var b := Enqueue(fd, path, offset, data).buffer;
      assert b[..|b| - 1] == if Consecutive(fd, offset) then buffer[..|buffer| - 1] else buffer;
    }

    // ----- the joint invariant

    /** The descriptor is in use for the path, and the path is short enough for the worker's check. */
    ghost predicate Live(fd: Fd, path: Name) {
      server.Names(fd, Local(path)) && |Local(path)| <= LINK_SIZE
    }

    /** No two live descriptors name one file. */
    ghost predicate DistinctFiles() {
      Distinct(server.fds, server.open)
    }

    ghost predicate JointUpTo(limit: nat) {
      && server.FdInv() && DistinctFiles() && Accounted()
      && stray == [] && bytesInBatch <= limit && |buffer| < 0x8000_0000
      && forall i :: 0 <= i < |buffer| ==>
           buffer[i].fd in fdsUsed && Live(buffer[i].fd, buffer[i].path) && Wire.Ascii(buffer[i].path)
    }

    ghost predicate Joint() {
      JointUpTo(BATCH_LIMIT)
    }

    /** What the files will hold once the buffer has been written. */
    function Settled(): Files {
      Replay(server.localPath, server.files, buffer)
    }

    lemma {:induction false} JointIsPlain(limit: nat)
      requires JointUpTo(limit) && limit < 0x8000_0000
      ensures Sized(buffer) && forall i :: 0 <= i < |buffer| ==> Plain(buffer[i].path)
    {
      forall i | 0 <= i < |buffer| ensures buffer[i].size <= bytesInBatch && Plain(buffer[i].path) {
        PartOfTotal(buffer, i);
        Wire.AsciiIsItself(buffer[i].path);
        assert Live(buffer[i].fd, buffer[i].path);
      }
    }

    /** Every buffered request arrives as it was made and still finds its file, so a flush succeeds
        and settles the files. */
    lemma {:induction false} FlushSettles(limit: nat)
      requires JointUpTo(limit) && limit < 0x8000_0000
      ensures WriteBuffer(Up) == (this.(server := server.(files := Settled()), buffer := [], bytesInBatch := 0), 0)
    {
      JointIsPlain(limit);
      BulkAsAskedIff(buffer);
      forall i | 0 <= i < |buffer| ensures server.Check(Wire.Utf8(buffer[i].path), buffer[i].fd) == 0 {
        assert Live(buffer[i].fd, buffer[i].path);
      }
      BulkReplays(server, buffer);
    }

    lemma {:induction false} DirectWriteIs(fd: Fd, path: Name, offset: Offset, data: seq<byte>)
      requires stray == [] && Live(fd, path) && fd !in fdsUsed
      ensures FsWrite(fd, path, offset, data, Up)
           == (this.(server := server.(files := Put(server.files, Local(path), offset, data)), fdsUsed := fdsUsed + [fd]),
               |data|)
    {
    }

    /** A direct write never overtakes a buffered one on its own file. */
    lemma {:induction false} DirectWriteCommutes(fd: Fd, path: Name, offset: Offset, data: seq<byte>)
      requires Joint() && Live(fd, path) && fd !in fdsUsed
      ensures var (t, res) := FsWrite(fd, path, offset, data, Up);
              t.Joint() && res == |data| && t.Settled() == Put(Settled(), Local(path), offset, data)
    {
      DirectWriteIs(fd, path, offset, data);
      forall i | 0 <= i < |buffer| ensures Local(buffer[i].path) != Local(path) {
        assert buffer[i].fd != fd;
      }
      PutCommutes(server.localPath, server.files, buffer, Local(path), offset, data);
    }

    /** Writes on the path can be buffered: it is ASCII, and the number of requests stays within an int. */
    ghost predicate CanBuffer(path: Name) {
      Wire.Ascii(path) && |buffer| < 0x7fff_ffff
    }

    lemma {:induction false} EnqueueKeepsJoint(fd: Fd, path: Name, offset: Offset, data: seq<byte>)
      requires Joint() && Live(fd, path) && fd in fdsUsed && CanBuffer(path) && |data| <= MAX_WRITE
      ensures Enqueue(fd, path, offset, data).JointUpTo(0x7fff_ffff)
    {
      EnqueueAccounts(fd, path, offset, data);
    }

    /** A write that continues the last request is on the file of that request. */
    ghost predicate ContinuesLast(fd: Fd, path: Name, offset: Offset) {
      Consecutive(fd, offset) ==>
        Local(Last().path) == Local(path) && offset == Last().offset + |Last().data|
    }

    lemma {:induction false} LiveContinuesLast(fd: Fd, path: Name, offset: Offset)
      requires Joint() && Live(fd, path)
      ensures ContinuesLast(fd, path, offset)
    {
      if Consecutive(fd, offset) {
        assert server.Names(Last().fd, Local(Last().path));
      }
    }

    lemma {:induction false} EnqueueSettles(fd: Fd, path: Name, offset: Offset, data: seq<byte>)
      requires ContinuesLast(fd, path, offset)
      ensures Enqueue(fd, path, offset, data).Settled() == Put(Settled(), Local(path), offset, data)
    {
      if Consecutive(fd, offset) {
        ReplayExtended(server.localPath, server.files, buffer, data);
      } else {
        var b := buffer + [WriteRequest(fd, path, |data|, offset, data)];
        assert b[..|buffer|] == buffer;
      }
    }

    lemma {:induction false} WriteStep(fd: Fd, path: Name, offset: Offset, data: seq<byte>)
      requires Joint() && Live(fd, path) && |data| <= MAX_WRITE && (fd in fdsUsed ==> CanBuffer(path))
      ensures var (t, res) := FsWrite(fd, path, offset, data, Up);
              && t.Joint() && t.server.localPath == server.localPath && res == |data|
              && t.Settled() == Put(Settled(), Local(path), offset, data)
    {
      if fd !in fdsUsed {
        DirectWriteCommutes(fd, path, offset, data);
      } else {
        EnqueueKeepsJoint(fd, path, offset, data);
        LiveContinuesLast(fd, path, offset);
        EnqueueSettles(fd, path, offset, data);
        Enqueue(fd, path, offset, data).FlushSettles(0x7fff_ffff);
      }
    }

    lemma {:induction false} ReleaseStep(fd: Fd, path: Name, outcome: CloseOutcome)
      requires Joint() && server.Names(fd, Local(path))
      ensures var t := FsRelease(fd, path, outcome, Up, Up).0;
              && t.Joint() && t.server.localPath == server.localPath
              && t.buffer == [] && t.server.files == t.Settled() == Settled()
    {
      FlushSettles(BATCH_LIMIT);
      var s := WriteBuffer(Up).0;
      s.server.ReleaseKeepsFdInvIff(Wire.Utf8(path), fd, outcome);
    }

    lemma {:induction false} OpenKeepsJoint(path: Name, create: bool, trunc: bool, outcome: OpenOutcome)
      requires Joint() && CanOpen(path, create, outcome)
      ensures FsOpen(path, create, trunc, outcome, Up).0.Joint()
    {
      var t := FsOpen(path, create, trunc, outcome, Up).0;
      server.OpenKeepsFdInv(Wire.Utf8(path), create, trunc, outcome);
      FirstFreeIsLeast(server.fds, 1);
      if outcome.Opened? {
        AddDistinct(server.fds, server.open, FirstFree(server.fds, 1), outcome.realFd, Local(path));
      }
      forall i | 0 <= i < |buffer| ensures t.Live(buffer[i].fd, buffer[i].path) {
        assert Live(buffer[i].fd, buffer[i].path);
      }
    }

    /** The file that an open names is not open, so no buffered request touches it. */
    lemma {:induction false} OpenSettles(path: Name, create: bool, trunc: bool, outcome: OpenOutcome)
      requires Joint() && CanOpen(path, create, outcome)
      ensures FsOpen(path, create, trunc, outcome, Up).0.Settled()
           == OpenEffect(Settled(), Local(path), create, trunc, outcome)
    {
      var t, p := FsOpen(path, create, trunc, outcome, Up).0, Local(path);
      assert t.buffer == buffer && t.server.localPath == server.localPath;
      assert t.server.files == OpenEffect(server.files, p, create, trunc, outcome);
      OpenCommutes(server.localPath, server.files, buffer, p, create, trunc, outcome);
    }

    /** The file is not open already, and the kernel returns an unused descriptor for it. */
    ghost predicate CanOpen(path: Name, create: bool, outcome: OpenOutcome) {
      && (forall k :: k in server.fds && server.fds[k] in server.open
            ==> server.open[server.fds[k]] != Local(path))
      && (outcome.Opened? ==> outcome.realFd !in server.open)
    }
  }

  /** A client that has just started and a worker with an empty table are in a joint state. */
  lemma {:induction false} StartIsJoint(server: State)
    requires server.fds == map[]
    ensures System(server, [], [], 0, []).Joint()
  {
  }

  ghost predicate Distinct(fds: map<int, int>, open: map<int, Path>) {
    forall j, k :: j in fds && k in fds && fds[j] in open && fds[k] in open && open[fds[j]] == open[fds[k]] ==> j == k
  }

  /** One more open file keeps the files distinct, whether or not it got a fake descriptor. */
  lemma {:induction false} AddDistinct(fds: map<int, int>, open: map<int, Path>, fake: int, kfd: int, p: Path)
    requires Distinct(fds, open) && fake !in fds && kfd !in open
    requires forall k :: k in fds ==> fds[k] in open && open[fds[k]] != p
    ensures Distinct(fds, open[kfd := p]) && Distinct(fds[fake := kfd], open[kfd := p])
  {
  }

  function TotalSize(rs: seq<WriteRequest>): int {
    if rs == [] then 0 else TotalSize(rs[..|rs| - 1]) + rs[|rs| - 1].size
  }

  /** The requests carried out in order on the files alone. */
  function Replay(root: Path, files: Files, rs: seq<WriteRequest>): Files {
    if rs == [] then files
    else
      var r := rs[|rs| - 1];
      Put(Replay(root, files, rs[..|rs| - 1]), root + Wire.Utf8(r.path), r.offset, r.data)
  }

  function OpenEffect(files: Files, p: Path, create: bool, trunc: bool, outcome: OpenOutcome): Files {
    if outcome.Opened? && (trunc || (create && p !in files)) then files[p := []] else files
  }

  ghost predicate NotAmong(root: Path, rs: seq<WriteRequest>, p: Path) {
    forall i :: 0 <= i < |rs| ==> root + Wire.Utf8(rs[i].path) != p
  }

  lemma {:induction false} PutsCommute(files: Files, p: Path, o: nat, d: seq<byte>, q: Path, o': nat, d': seq<byte>)
    requires p != q
    ensures Put(Put(files, p, o, d), q, o', d') == Put(Put(files, q, o', d'), p, o, d)
  {
  }

  lemma {:induction false} PutCommutes(root: Path, files: Files, rs: seq<WriteRequest>, p: Path, offset: nat, data: seq<byte>)
    requires NotAmong(root, rs, p)
    ensures Replay(root, Put(files, p, offset, data), rs) == Put(Replay(root, files, rs), p, offset, data)
  {
    if rs != [] {
      var r := rs[|rs| - 1];
      PutCommutes(root, files, rs[..|rs| - 1], p, offset, data);
      PutsCommute(Replay(root, files, rs[..|rs| - 1]), p, offset, data, root + Wire.Utf8(r.path), r.offset, r.data);
    }
  }

  /** Extending the last request is one more write right behind it. */
  lemma {:induction false} ReplayExtended(root: Path, files: Files, rs: seq<WriteRequest>, data: seq<byte>)
    requires rs != []
    ensures var r := rs[|rs| - 1];
            Replay(root, files, rs[..|rs| - 1] + [r.(data := r.data + data, size := r.size + |data|)])
            == Put(Replay(root, files, rs), root + Wire.Utf8(r.path), r.offset + |r.data|, data)
  {
    var n, r := |rs| - 1, rs[|rs| - 1];
    assert (rs[..n] + [r.(data := r.data + data, size := r.size + |data|)])[..n] == rs[..n];
    PwriteAppend(Contents(Replay(root, files, rs[..n]), root + Wire.Utf8(r.path)), r.offset, r.data, data);
  }

  lemma {:induction false} EmptyCommutes(root: Path, files: Files, rs: seq<WriteRequest>, p: Path)
    requires NotAmong(root, rs, p)
    ensures Replay(root, files[p := []], rs) == Replay(root, files, rs)[p := []]
  {
    if rs != [] {
      EmptyCommutes(root, files, rs[..|rs| - 1], p);
    }
  }

  lemma {:induction false} ReplayKeeps(root: Path, files: Files, rs: seq<WriteRequest>, p: Path)
    requires NotAmong(root, rs, p)
    ensures p in Replay(root, files, rs) <==> p in files
  {
    if rs != [] {
      ReplayKeeps(root, files, rs[..|rs| - 1], p);
    }
  }

  lemma {:induction false} OpenCommutes(root: Path, files: Files, rs: seq<WriteRequest>, p: Path, create: bool, trunc: bool,
                                        outcome: OpenOutcome)
    requires NotAmong(root, rs, p)
    ensures Replay(root, OpenEffect(files, p, create, trunc, outcome), rs)
         == OpenEffect(Replay(root, files, rs), p, create, trunc, outcome)
  {
    ReplayKeeps(root, files, rs, p);
    EmptyCommutes(root, files, rs, p);
  }

  lemma {:induction false} BulkReplays(s: State, rs: seq<WriteRequest>)
    requires forall i :: 0 <= i < |rs| ==> s.Check(Wire.Utf8(rs[i].path), rs[i].fd) == 0
    ensures s.WriteBulk(AllAsked(rs), Full(AllAsked(rs))) == (s.(files := Replay(s.localPath, s.files, rs)), 0)
  {
    if rs != [] {
      var n := |rs| - 1;
      BulkReplays(s, rs[..n]);
      AskedPrefix(rs, n);
      LastWrite(s, Replay(s.localPath, s.files, rs[..n]), rs[n]);
      var qs, os := AllAsked(rs), Full(AllAsked(rs));
      assert s.WriteBulk(qs, os).0 == s.WriteBulk(qs[..n], os[..n]).0.Write(qs[n], os[n]).0;
    }
  }

  lemma {:induction false} LastWrite(s: State, files: Files, r: WriteRequest)
    requires s.Check(Wire.Utf8(r.path), r.fd) == 0
    ensures s.(files := files).Write(Asked(r), Wrote(|r.data|))
         == (s.(files := Put(files, s.localPath + Wire.Utf8(r.path), r.offset, r.data)), |r.data|)
  {
  }

  lemma {:induction false} AskedPrefix(rs: seq<WriteRequest>, n: nat)
    requires n < |rs|
    ensures AllAsked(rs)[..n] == AllAsked(rs[..n]) && AllAsked(rs)[n] == Asked(rs[n])
    ensures Full(AllAsked(rs))[..n] == Full(AllAsked(rs[..n])) && Full(AllAsked(rs))[n] == Wrote(|rs[n].data|)
  {
  }

  lemma {:induction false} PartOfTotal(rs: seq<WriteRequest>, i: nat)
    requires i < |rs|
    ensures rs[i].size <= TotalSize(rs)
  {
    var n := |rs| - 1;
    if i < n {
      PartOfTotal(rs[..n], i);
    } else {
      TotalNotNegative(rs[..n]);
    }
  }

  lemma {:induction false} TotalNotNegative(rs: seq<WriteRequest>)
    ensures TotalSize(rs) >= 0
  {
    if rs != [] {
      TotalNotNegative(rs[..|rs| - 1]);
    }
  }

  // ----- whole runs

  datatype Event =
    | EvOpen(path: Name, create: bool, trunc: bool, outcome: OpenOutcome)
    | EvWrite(fd: Fd, path: Name, offset: Offset, data: seq<byte>)
    | EvRelease(fd: Fd, path: Name, close: CloseOutcome)

  function Step(s: System, e: Event): System {
    match e
    case EvOpen(path, create, trunc, outcome) => s.FsOpen(path, create, trunc, outcome, Up).0
    case EvWrite(fd, path, offset, data) => s.FsWrite(fd, path, offset, data, Up).0
    case EvRelease(fd, path, close) => s.FsRelease(fd, path, close, Up, Up).0
  }

  /** The same calls with every write carried out at once. */
  function IdealStep(root: Path, files: Files, e: Event): Files {
    match e
    case EvOpen(path, create, trunc, outcome) => OpenEffect(files, root + Wire.Utf8(path), create, trunc, outcome)
    case EvWrite(fd, path, offset, data) => Put(files, root + Wire.Utf8(path), offset, data)
    case EvRelease(fd, path, close) => files
  }

  /** Opens name files that are not open; writes and releases use the path of their descriptor,
      one that the worker's check accepts where it is written, and ASCII where it is buffered; the
      worker reads the size of a write as an int. */
  ghost predicate Allowed(s: System, e: Event) {
    match e
    case EvOpen(path, create, trunc, outcome) => s.CanOpen(path, create, outcome)
    case EvWrite(fd, path, offset, data) =>
      s.Live(fd, path) && |data| <= MAX_WRITE && (fd in s.fdsUsed ==> s.CanBuffer(path))
    case EvRelease(fd, path, close) => s.server.Names(fd, s.Local(path))
  }

  ghost predicate AllowedRun(s: System, events: seq<Event>)
    decreases |events|
  {
    events != [] ==> Allowed(s, events[0]) && AllowedRun(Step(s, events[0]), events[1..])
  }

  function Run(s: System, events: seq<Event>): System
    decreases |events|
  {
    if events == [] then s else Run(Step(s, events[0]), events[1..])
  }

  function IdealRun(root: Path, files: Files, events: seq<Event>): Files
    decreases |events|
  {
    if events == [] then files else IdealRun(root, IdealStep(root, files, events[0]), events[1..])
  }

  lemma {:induction false} StepRefines(s: System, e: Event)
    requires s.Joint() && Allowed(s, e)
    ensures Step(s, e).Joint() && Step(s, e).server.localPath == s.server.localPath
    ensures Step(s, e).Settled() == IdealStep(s.server.localPath, s.Settled(), e)
  {
    match e
    case EvOpen(path, create, trunc, outcome) =>
      s.OpenKeepsJoint(path, create, trunc, outcome);
      s.OpenSettles(path, create, trunc, outcome);
    case EvWrite(fd, path, offset, data) => s.WriteStep(fd, path, offset, data);
    case EvRelease(fd, path, close) => s.ReleaseStep(fd, path, close);
  }

  /** Over every run the joint invariant holds, and what the files will hold once the buffer has
      been written is what writing every call at once would have left. */
  lemma {:induction false} RunRefines(s: System, events: seq<Event>)
    requires s.Joint() && AllowedRun(s, events)
    ensures Run(s, events).Joint()
    ensures Run(s, events).Settled() == IdealRun(s.server.localPath, s.Settled(), events)
    decreases |events|
  {
    if events != [] {
      StepRefines(s, events[0]);
      RunRefines(Step(s, events[0]), events[1..]);
    }
  }

  /** The buffer never shows after a flush: whatever the run, the files then hold what writing
      every call at once would have left, every buffered descriptor is still live and maps to the
      file its write was issued for, and the flush reports no error. */
  lemma {:induction false} BufferRefinesDirect(s: System, events: seq<Event>)
    requires s.Joint() && AllowedRun(s, events)
    ensures var t := Run(s, events);
            && t.Joint()
            && t.WriteBuffer(Up).1 == 0
            && t.WriteBuffer(Up).0.server.files == IdealRun(s.server.localPath, s.Settled(), events)
  {
    RunRefines(s, events);
    Run(s, events).FlushSettles(BATCH_LIMIT);
  }

  /** The hypothesis on opens is needed: with one file open twice, the first write on the second
      descriptor overtakes a buffered write on the first. */
  lemma {:induction false} TwoDescriptorsOneFile(s: System, j: Fd, k: Fd, path: Name)
    requires s.Live(j, path) && s.Live(k, path) && j != k && Plain(path)
    requires s.stray == [] && s.buffer == [] && s.bytesInBatch == 0 && s.fdsUsed == []
    requires Contents(s.server.files, s.Local(path)) == []
    ensures var events, p := [EvWrite(j, path, 0, [1]), EvWrite(j, path, 1, [2]), EvWrite(k, path, 1, [3])], s.Local(path);
            && Contents(Run(s, events).WriteBuffer(Up).0.server.files, p) == [1, 2]
            && Contents(IdealRun(s.server.localPath, s.server.files, events), p) == [1, 3]
  {
    var e1, e2, e3 := EvWrite(j, path, 0, [1]), EvWrite(j, path, 1, [2]), EvWrite(k, path, 1, [3]);
    var p, f := s.Local(path), s.server.files;
    SmallWrites();
    var r := WriteRequest(j, path, 1, 1, [2]);
    var s1 := s.(server := s.server.(files := f[p := [1]]), fdsUsed := [j]);
    var s2 := s1.(buffer := [r], bytesInBatch := 1);
    var s3 := s2.(server := s1.server.(files := f[p := [1]][p := [1, 3]]), fdsUsed := [j, k]);
    assert Step(s, e1) == s1;
    assert Step(s1, e2) == s2;
    assert Step(s2, e3) == s3;
    RunThree(s, e1, e2, e3);
    IdealThree(s.server.localPath, f, e1, e2, e3);
    FlushOne(s3, r);
  }

  lemma {:induction false} FlushOne(s: System, r: WriteRequest)
    requires s.stray == [] && s.buffer == [r] && s.Live(r.fd, r.path) && Plain(r.path) && r.size == |r.data| < 0x8000_0000
    ensures s.WriteBuffer(Up).0.server.files == Put(s.server.files, s.Local(r.path), r.offset, r.data)
  {
    BulkAsAskedIff([r]);
    BulkReplays(s.server, [r]);
    assert [r][..0] == [];
  }

  /** The hypothesis on buffered paths is needed: of two writes to a file named U+00E9 the second is
      lost. Its path is read one byte short, so every field behind is read one byte too early: the
      worker finds an unknown descriptor, reports an error and leaves two bytes in the stream. */
  lemma {:induction false} AccentedNameLost(s: System, fd: Fd, path: Name)
    requires fd == 1 && path == [0x2f, 0xe9] && s.Joint() && s.Live(fd, path) && s.buffer == [] && s.fdsUsed == []
    requires 0 in s.server.open ==> !(s.server.localPath <= s.server.open[0])
    requires Contents(s.server.files, s.Local(path)) == []
    ensures var events := [EvWrite(fd, path, 0, [1]), EvWrite(fd, path, 1, [2])];
            var (t, result) := Run(s, events).WriteBuffer(Up);
            && result < 0 && t.stray == [1, 2]
            && Contents(t.server.files, s.Local(path)) == [1]
            && Contents(IdealRun(s.server.localPath, s.server.files, events), s.Local(path)) == [1, 2]
  {
    var e1, e2 := EvWrite(fd, path, 0, [1]), EvWrite(fd, path, 1, [2]);
    var p, f := s.Local(path), s.server.files;
    SmallWrites();
    var r := WriteRequest(fd, path, 1, 1, [2]);
    var s1 := s.(server := s.server.(files := f[p := [1]]), fdsUsed := [fd]);
    var s2 := s1.(buffer := [r], bytesInBatch := 1);
    assert Step(s, e1) == s1;
    assert Step(s1, e2) == s2;
    RunTwo(s, e1, e2);
    IdealTwo(s.server.localPath, f, e1, e2);
    FlushMisread(s2, r);
  }

  lemma {:induction false} RunTwo(s: System, e1: Event, e2: Event)
    ensures Run(s, [e1, e2]) == Step(Step(s, e1), e2)
  {
    assert [e1, e2][1..] == [e2] && [e2][1..] == [];
    assert Run(Step(s, e1), [e2]) == Step(Step(s, e1), e2);
  }

  lemma {:induction false} IdealTwo(root: Path, files: Files, e1: Event, e2: Event)
    ensures IdealRun(root, files, [e1, e2]) == IdealStep(root, IdealStep(root, files, e1), e2)
  {
    assert [e1, e2][1..] == [e2] && [e2][1..] == [];
    var one := IdealStep(root, files, e1);
    assert IdealRun(root, one, [e2]) == IdealStep(root, one, e2);
  }

  lemma {:induction false} FlushMisread(s: System, r: WriteRequest)
    requires s.stray == [] && s.buffer == [r] && s.server.FdInv()
    requires r.fd == 1 && r.path == [0x2f, 0xe9] && r.size == 1 && r.offset == 1 && r.data == [2]
    requires 0 in s.server.open ==> !(s.server.localPath <= s.server.open[0])
    ensures var (t, result) := s.WriteBuffer(Up); t.server == s.server && result < 0 && t.stray == [1, 2]
  {
    MisreadBytes(r);
    var q := OneReceived(r);
    assert q.fd !in s.server.fds;
    OneRefused(s.server, q);
  }

  lemma {:induction false} OneRefused(s: State, q: Request)
    requires q.fd !in s.fds && (0 in s.open ==> !(s.localPath <= s.open[0]))
    ensures s.WriteBulk([q], Full([q])).0 == s && s.WriteBulk([q], Full([q])).1 < 0
  {
    assert [q][..0] == [] && Full([q])[..0] == [];
    assert s.WriteBulk([q][..0], Full([q])[..0]) == (s, 0);
  }

  lemma {:induction false} OneReceived(r: WriteRequest) returns (q: Request)
    ensures q == RequestOf(Reading.ReadItem(Wire.PutItem(ItemOf(r))).0)
    ensures Received(Sent([r])) == ([q], Reading.ReadItem(Wire.PutItem(ItemOf(r))).1)
  {
    var item := ItemOf(r);
    var b := Wire.PutItem(item);
    var (got, rest) := Reading.ReadItem(b);
    q := RequestOf(got);
    CountRead([r]);
    assert Items([r]) == [item];
    OneItem(item);
    Reading.OneOnly(Reading.ReadItem, b);
    assert Requests([got]) == [q];
  }

  lemma {:induction false} OneItem(item: Wire.Item)
    ensures Wire.PutMany(Wire.PutItem, [item]) == Wire.PutItem(item)
  {
    var b := Wire.PutItem(item);
    assert [item][1..] == [] && b + [] == b;
  }

  lemma {:induction false} MisreadBytes(r: WriteRequest)
    requires r.fd == 1 && r.path == [0x2f, 0xe9] && r.size == 1 && r.offset == 1 && r.data == [2]
    ensures Reading.ReadItem(Wire.PutItem(ItemOf(r))).0.fd < 0 && Reading.ReadItem(Wire.PutItem(ItemOf(r))).1 == [1, 2]
  {
    var b := Wire.PutItem(ItemOf(r));
    AccentedName(r.path);
    SmallNumbers(r.size, |r.path|);
    Wire.I64RoundTrip(r.size);
    assert b == [0, 2] + ([0x2f, 0xc3, 0xa9] + ([0, 0, 0, 1] + ([0, 0, 0, 0, 0, 0, 0, 1] + ([0, 0, 0, 0, 0, 0, 0, 1] + [2]))));
    assert b[..2] == [0, 2] && b[4..8] == [0xa9, 0, 0, 0] && b[12..16] == [0, 0, 0, 0] && b[24..] == [1, 2];
    ShiftedBytes(b);
  }

  lemma {:induction false} ShiftedBytes(b: seq<byte>)
    requires |b| == 26 && b[..2] == [0, 2] && b[4..8] == [0xa9, 0, 0, 0] && b[12..16] == [0, 0, 0, 0]
    ensures Reading.ReadItem(b).0.fd < 0 && Reading.ReadItem(b).1 == b[24..]
  {
    TwoBytes(b[..2]);
    FourBytes(b[4..8]);
    FourBytes(b[12..16]);
    Reading.ItemOfTwo(b);
  }

  lemma {:induction false} AccentedName(path: Name)
    requires path == [0x2f, 0xe9]
    ensures Wire.Utf8(path) == [0x2f, 0xc3, 0xa9]
  {
    assert path[1..] == [0xe9] && path[1..][1..] == [];
    assert Wire.Utf8(path[1..]) == [0xc3, 0xa9];
  }

  lemma {:induction false} SmallNumbers(one: nat, two: nat)
    requires one == 1 && two == 2
    ensures BigEndian(one, 4) == [0, 0, 0, 1] && BigEndian(one, 8) == [0, 0, 0, 0, 0, 0, 0, 1] && BigEndian(two, 2) == [0, 2]
  {
    BigEndianZero(3);
    BigEndianZero(7);
    BigEndianZero(1);
  }

  lemma {:induction false} TwoBytes(b: seq<byte>)
    requires |b| == 2
    ensures FromBigEndian(b) == 256 * (b[0] as int) + b[1]
  {
    assert b[..1][..0] == [] && FromBigEndian(b[..1]) == b[0];
  }

  lemma {:induction false} FourBytes(b: seq<byte>)
    requires |b| == 4
    ensures b[0] >= 0x80 ==> Wire.GetI32(b) < 0
    ensures b == [0, 0, 0, 0] ==> Wire.GetI32(b) == 0
  {
    TwoBytes(b[..2]);
    assert b[..3][..2] == b[..2];
    assert FromBigEndian(b[..3]) == 256 * FromBigEndian(b[..2]) + b[2];
    assert FromBigEndian(b) == 256 * FromBigEndian(b[..3]) + b[3];
  }

  lemma {:induction false} SmallWrites()
    ensures Pwrite([], 0, [1]) == [1] && Pwrite([1], 1, [2]) == [1, 2] && Pwrite([1], 1, [3]) == [1, 3]
    ensures Pwrite([1, 2], 1, [3]) == [1, 3] && Pwrite([1, 3], 1, [2]) == [1, 2]
  {
  }

  lemma {:induction false} RunThree(s: System, e1: Event, e2: Event, e3: Event)
    ensures Run(s, [e1, e2, e3]) == Step(Step(Step(s, e1), e2), e3)
  {
    assert [e1, e2, e3][1..] == [e2, e3] && [e2, e3][1..] == [e3] && [e3][1..] == [];
    assert Run(Step(Step(s, e1), e2), [e3]) == Step(Step(Step(s, e1), e2), e3);
  }

  lemma {:induction false} IdealThree(root: Path, files: Files, e1: Event, e2: Event, e3: Event)
    ensures IdealRun(root, files, [e1, e2, e3]) == IdealStep(root, IdealStep(root, IdealStep(root, files, e1), e2), e3)
  {
    assert [e1, e2, e3][1..] == [e2, e3] && [e2, e3][1..] == [e3] && [e3][1..] == [];
    var two := IdealStep(root, IdealStep(root, files, e1), e2);
    assert IdealRun(root, two, [e3]) == IdealStep(root, two, e3);
  }

  // ----- buffer accounting over every run, with any connection failures

  datatype Call =
    | CallWrite(fd: Fd, path: Name, offset: Offset, data: seq<byte>, net: Net)
    | CallRelease(fd: Fd, path: Name, close: CloseOutcome, flush: Net, net: Net)
    | CallDestroy(net: Net)
    | CallReconnect(worker: State)    // the next exchange finds a new worker

  /** The client and what has happened to the bytes that it accepted into its buffer: answered in a
      bulk request, or lost with the answer to one. */
  datatype Ledger = Ledger(s: System, accepted: nat, answered: nat, lost: nat, flushFailed: bool)
  {
    function Flushed(net: Net): Ledger {
      var t, n := s.WriteBuffer(net).0, TotalData(s.buffer);
      if !s.Reaches(net) then this.(s := t, flushFailed := true)
      else if net.Lost? then this.(s := t, lost := lost + n, flushFailed := false)
      else this.(s := t, answered := answered + n, flushFailed := false)
    }

    function Accepted(c: Call): Ledger
      requires c.CallWrite?
    {
      this.(s := s.Enqueue(c.fd, c.path, c.offset, c.data), accepted := accepted + |c.data|)
    }

    function After(c: Call): Ledger {
      match c
      case CallWrite(fd, path, offset, data, net) =>
        if fd !in s.fdsUsed then this.(s := s.FsWrite(fd, path, offset, data, net).0)
        else
          var l := Accepted(c);
          if l.s.bytesInBatch > BATCH_LIMIT then l.Flushed(net) else l
      case CallRelease(fd, path, close, flush, net) =>
        Flushed(flush).(s := s.FsRelease(fd, path, close, flush, net).0)
      case CallDestroy(net) => Flushed(net)
      case CallReconnect(worker) => this.(s := s.(server := worker, stray := []))
    }

    ghost predicate Balanced() {
      && s.Accounted()
      && accepted == answered + lost + TotalData(s.buffer)
      && (s.bytesInBatch <= BATCH_LIMIT || flushFailed)
    }

    /** A flush of buffered bytes is acknowledged and then cut off. */
    ghost predicate FlushLoses(net: Net) {
      net.Lost? && s.Reaches(net) && TotalData(s.buffer) > 0
    }

    ghost predicate Loses(c: Call) {
      match c
      case CallWrite(fd, path, offset, data, net) =>
        fd in s.fdsUsed && Accepted(c).s.bytesInBatch > BATCH_LIMIT && Accepted(c).FlushLoses(net)
      case CallRelease(fd, path, close, flush, net) => FlushLoses(flush)
      case CallDestroy(net) => FlushLoses(net)
      case CallReconnect(worker) => false
    }

    lemma {:induction false} LostGrowsIff(c: Call)
      ensures After(c).lost >= lost && (After(c).lost > lost <==> Loses(c))
    {
    }

    /** The ledger follows the client. */
    lemma {:induction false} Follows(c: Call)
      ensures After(c).s == match c
                            case CallWrite(fd, path, offset, data, net) => s.FsWrite(fd, path, offset, data, net).0
                            case CallRelease(fd, path, close, flush, net) => s.FsRelease(fd, path, close, flush, net).0
                            case CallDestroy(net) => s.WriteBuffer(net).0
                            case CallReconnect(worker) => s.(server := worker, stray := [])
    {
    }

    lemma {:induction false} EnqueueBalances(fd: Fd, path: Name, offset: Offset, data: seq<byte>)
      requires s.Accounted()
      ensures s.Enqueue(fd, path, offset, data).Accounted()
      ensures TotalData(s.Enqueue(fd, path, offset, data).buffer) == TotalData(s.buffer) + |data|
    {
      s.EnqueueAccounts(fd, path, offset, data);
      SizesAreLengths(s.buffer);
      SizesAreLengths(s.Enqueue(fd, path, offset, data).buffer);
    }

    lemma {:induction false} FlushBalances(net: Net)
      requires s.Accounted() && accepted == answered + lost + TotalData(s.buffer)
      ensures Flushed(net).Balanced()
    {
    }

    lemma {:induction false} BufferedBalances(fd: Fd, path: Name, offset: Offset, data: seq<byte>, net: Net)
      requires Balanced() && fd in s.fdsUsed
      ensures After(CallWrite(fd, path, offset, data, net)).Balanced()
    {
      EnqueueBalances(fd, path, offset, data);
      Accepted(CallWrite(fd, path, offset, data, net)).FlushBalances(net);
    }

    lemma {:induction false} CallBalances(c: Call)
      requires Balanced()
      ensures After(c).Balanced()
    {
      match c
      case CallWrite(fd, path, offset, data, net) =>
        if fd in s.fdsUsed {
          BufferedBalances(fd, path, offset, data, net);
        }
      case CallRelease(fd, path, close, flush, net) => FlushBalances(flush);
      case CallDestroy(net) => FlushBalances(net);
      case CallReconnect(_) =>
    }
  }

  function TotalData(rs: seq<WriteRequest>): nat {
    if rs == [] then 0 else TotalData(rs[..|rs| - 1]) + |rs[|rs| - 1].data|
  }

  lemma {:induction false} SizesAreLengths(rs: seq<WriteRequest>)
    requires forall i :: 0 <= i < |rs| ==> rs[i].size == |rs[i].data|
    ensures TotalSize(rs) == TotalData(rs)
  {
    if rs != [] {
      SizesAreLengths(rs[..|rs| - 1]);
    }
  }

  function RunCalls(l: Ledger, calls: seq<Call>): Ledger {
    if calls == [] then l else RunCalls(l, calls[..|calls| - 1]).After(calls[|calls| - 1])
  }

  /** Every byte accepted into the buffer was answered in a bulk request, lost with the answer to
      one, or is still there, and the buffer stays within its limit unless the last flush failed. */
  lemma {:induction false} RunBalances(l: Ledger, calls: seq<Call>)
    requires l.Balanced()
    ensures RunCalls(l, calls).Balanced()
  {
    if calls != [] {
      RunBalances(l, calls[..|calls| - 1]);
      RunCalls(l, calls[..|calls| - 1]).CallBalances(calls[|calls| - 1]);
    }
  }

  /** No flush of buffered bytes in the run was cut off after its acknowledgement. */
  ghost predicate Lossless(l: Ledger, calls: seq<Call>) {
    calls != [] ==>
      var front := calls[..|calls| - 1];
      Lossless(l, front) && !RunCalls(l, front).Loses(calls[|calls| - 1])
  }

  lemma {:induction false} LostIff(l: Ledger, calls: seq<Call>)
    ensures RunCalls(l, calls).lost >= l.lost
    ensures RunCalls(l, calls).lost == l.lost <==> Lossless(l, calls)
  {
    if calls != [] {
      LostIff(l, calls[..|calls| - 1]);
      RunCalls(l, calls[..|calls| - 1]).LostGrowsIff(calls[|calls| - 1]);
    }
  }

  /** The accepted bytes are those answered and those still buffered exactly when no flush of
      buffered bytes was cut off. */
  lemma {:induction false} NothingLostIff(l: Ledger, calls: seq<Call>)
    requires l.Balanced() && l.lost == 0
    ensures var m := RunCalls(l, calls);
            m.accepted == m.answered + TotalData(m.s.buffer) <==> Lossless(l, calls)
  {
    RunBalances(l, calls);
    LostIff(l, calls);
  }

  /** A write that fills the buffer and whose flush is cut off before the worker has carried out
      anything reports success, although its bytes and all others buffered are nowhere. */
  lemma {:induction false} LostWriteReportsSuccess(l: Ledger, fd: Fd, path: Name, offset: Offset, data: seq<byte>)
    requires l.Balanced() && l.lost == 0 && l.s.stray == []
    requires fd in l.s.fdsUsed && l.s.bytesInBatch + |data| > BATCH_LIMIT
    ensures var (t, res) := l.s.FsWrite(fd, path, offset, data, Lost(0));
            var m := RunCalls(l, [CallWrite(fd, path, offset, data, Lost(0))]);
            && res == |data| && t == m.s && t.buffer == [] && t.server == l.s.server
            && m.answered == l.answered && m.lost == TotalData(l.s.buffer) + |data| > 0
  {
    var call := CallWrite(fd, path, offset, data, Lost(0));
    assert [call][..0] == [] && RunCalls(l, []) == l;
    l.EnqueueBalances(fd, path, offset, data);
    SizesAreLengths(l.s.Enqueue(fd, path, offset, data).buffer);
    NothingDone(l.Accepted(call).s);
  }

  lemma {:induction false} NothingDone(s: System)
    requires s.stray == []
    ensures s.WriteBuffer(Lost(0)) == (s.(buffer := [], bytesInBatch := 0), 0)
  {
    var rs := Received(Sent(s.buffer)).0;
    assert Done(rs, Lost(0)) == [];
  }

  // ----- the client object

  class FuseClient {
    const server: FileWorker
    var stray: seq<byte>
    var buffer: seq<WriteRequest>
    var bytesInBatch: nat
    var fdsUsed: seq<Fd>

    function Sys(): System
      reads this, server
    {
      System(server.St(), stray, buffer, bytesInBatch, fdsUsed)
    }

    constructor (server: FileWorker)
      ensures this.server == server && Sys() == System(server.St(), [], [], 0, [])
    {
      this.server := server;
      stray, buffer, bytesInBatch, fdsUsed := [], [], 0, [];
    }

    method FsOpen(path: Name, create: bool, trunc: bool, outcome: OpenOutcome, net: Net) returns (res: int)
      modifies this, server
      ensures (Sys(), res) == old(Sys()).FsOpen(path, create, trunc, outcome, net)
    {
      if !((net.Up? || net.Lost?) && stray == []) {
        return -ECOMM;
      }
      if net == Lost(0) {
        return 0;
      }
      res := server.Open(Wire.Utf8(path), create, trunc, outcome);
      if net.Lost? {
        res := 0;
      }
    }

    /** The bytes of a bulk request, written one request after the other. */
    method SendBuffer() returns (bytes: seq<byte>)
      ensures bytes == Sent(buffer)
    {
      bytes := BigEndian(|buffer|, 4);
      for i := 0 to |buffer|
        invariant bytes + Wire.PutMany(Wire.PutItem, Items(buffer)[i..]) == Sent(buffer)
      {
        var item, more := Wire.PutItem(ItemOf(buffer[i])), Wire.PutMany(Wire.PutItem, Items(buffer)[i + 1..]);
        assert Items(buffer)[i..][1..] == Items(buffer)[i + 1..];
        Assoc(bytes, item, more);
        bytes := bytes + item;
      }
      assert bytes + [] == bytes;
    }

    method WriteBuffer(net: Net) returns (result: int)
      modifies this, server
      ensures (Sys(), result) == old(Sys()).WriteBuffer(net)
    {
      if !((net.Up? || net.Lost?) && stray == []) {
        return -ECOMM;
      }
      var bytes := SendBuffer();
      var (received, rest) := Received(bytes);
      var requests := Done(received, net);
      result := server.WriteBulk(requests, Full(requests));
      if net.Lost? {
        result := 0;
      } else {
        stray := rest;
      }
      buffer := [];
      bytesInBatch := 0;
    }

    method Enqueue(fd: Fd, path: Name, offset: Offset, data: seq<byte>)
      modifies `buffer, `bytesInBatch
      ensures Sys() == old(Sys()).Enqueue(fd, path, offset, data)
    {
      var n := |buffer| - 1;
      if |buffer| > 0 && buffer[n].fd == fd && buffer[n].offset + buffer[n].size == offset {
        buffer := buffer[..n] + [buffer[n].(data := buffer[n].data + data, size := buffer[n].size + |data|)];
      } else {
        buffer := buffer + [WriteRequest(fd, path, |data|, offset, data)];
      }
      bytesInBatch := bytesInBatch + |data|;
    }

    method FsWrite(fd: Fd, path: Name, offset: Offset, data: seq<byte>, net: Net) returns (res: int)
      modifies this, server
      ensures (Sys(), res) == old(Sys()).FsWrite(fd, path, offset, data, net)
    {
      if fd !in fdsUsed {
        fdsUsed := fdsUsed + [fd];
        if !((net.Up? || net.Lost?) && stray == []) {
          return -ECOMM;
        }
        if net == Lost(0) {
          return 0;
        }
        res := server.Write(Asked(WriteRequest(fd, path, |data|, offset, data)), Wrote(|data|));
        return if net.Lost? then 0 else res;
      }
      Enqueue(fd, path, offset, data);
      if bytesInBatch > BATCH_LIMIT {
        var result := WriteBuffer(net);
        return if result == 0 then |data| else result;
      }
      return |data|;
    }

    method FsRelease(fd: Fd, path: Name, outcome: CloseOutcome, flush: Net, net: Net) returns (res: int)
      modifies this, server
      ensures (Sys(), res) == old(Sys()).FsRelease(fd, path, outcome, flush, net)
    {
      res := WriteBuffer(flush);
      if !((net.Up? || net.Lost?) && stray == []) {
        return -ECOMM;
      }
      if net == Lost(0) {
        return 0;
      }
      res := server.Release(Wire.Utf8(path), fd, outcome);
      if net.Lost? {
        res := 0;
      }
    }
  }
}
