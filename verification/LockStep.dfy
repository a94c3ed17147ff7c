/** One connection after its handshakes: the client's calls and the worker's branches as steps
    over two byte streams that deliver in pieces of any size. */
module LockStep {
  import opened Access
  import opened Bytes
  import opened Wire

  const STAT_SIZE := 144
  const STATVFS_SIZE := 112
  const MAX_OPERATION := 21
  const OK: byte := 2
  const INVALID_RESULT := 255
  const HTTP_GET := 71
  const HTTP_POST := 80

  // ----- what each side writes and reads, operation by operation

  /** The fields a client call writes after the acknowledgement. */
  function ClientArgs(op: nat): seq<Kind> {
    match op
    case 1 => [KI32, KStr32]                                 // getattr: uid, path
    case 2 => [KI32, KStr16]                                 // readdir
    case 3 => [KI32, KStr16, KI32]                           // open: flags
    case 4 => [KI32, KStr16, KI32, KI64, KI64]               // read: fd, size, offset
    case 5 => [KI32, KStr16, KI32]                           // access: mask
    case 6 => [KI32, KStr16, KI32]                           // readlink: size
    case 7 => [KI32, KStr16, KU32]                           // mknod: mode
    case 8 => [KI32, KStr16, KU32]                           // mkdir: mode
    case 9 => [KI32, KStr16]                                 // unlink
    case 10 => [KI32, KStr16]                                // rmdir
    case 11 => [KI32, KStr16, KStr16]                        // symlink: target, link
    case 12 => [KI32, KStr16, KStr16]                        // rename: from, to
    case 13 => [KI32, KStr16, KU32]                          // chmod: mode
    case 14 => [KI32, KStr16, KU32, KU32]                    // chown: owner, group
    case 15 => [KI32, KStr16, KU32]                          // truncate: size
    case 16 => [KI32, KStr16, KI64, KI64, KI64, KI64]        // utimens: two times
    case 17 => [KI32, KStr16, KI32, KChunk]                  // write: fd, data
    case 18 => [KI32, KBatch]                                // writebulk
    case 19 => [KI32, KStr16, KI32]                          // release: fd
    case 20 => [KI32, KStr16]                                // statfs
    case _ => [KUsers]                                       // UpdateLocalUsers
  }

  /** The fields the worker's branch reads, in the order it reads them. */
  function ServerArgs(op: nat): seq<Kind> {
    if op == 21 then [KUsers]
    else if op == 18 then [KI32, KBatch]
    else
      [KI32] + (if op == 1 then [KStr32] else [KStr16]) +
      match op
      case 3 => [KI32]
      case 4 => [KI32, KI64, KI64]
      case 5 => [KI32]
      case 6 => [KI32]
      case 7 => [KU32]
      case 8 => [KU32]
      case 11 => [KStr16]
      case 12 => [KStr16]
      case 13 => [KU32]
      case 14 => [KU32, KU32]
      case 15 => [KU32]
      case 16 => [KI64, KI64, KI64, KI64]
      case 17 => [KI32, KChunk]
      case 19 => [KI32]
      case _ => []
  }

  /** The fields of the reply the worker writes, error replies included. */
  function ServerReply(op: nat): seq<Kind> {
    match op
    case 1 => [KI32, KFixed(STAT_SIZE)]
    case 2 => [KEntries]
    case 4 => [KCounted]
    case 6 => [KCounted]
    case 20 => [KFixed(STATVFS_SIZE), KI32]
    case 21 => [KCode]
    case _ => [KI32]
  }

  /** The fields of the reply the client reads. */
  function ClientReply(op: nat): seq<Kind> {
    if op == 1 then [KI32, KFixed(STAT_SIZE)]
    else if op == 2 then [KEntries]
    else if op == 4 || op == 6 then [KCounted]
    else if op == 20 then [KFixed(STATVFS_SIZE), KI32]
    else if op == 21 then [KCode]
    else [KI32]
  }

  /** Each side reads what the other writes. */
  lemma {:induction false} SameLayout(op: nat)
    requires 1 <= op <= MAX_OPERATION
    ensures ClientArgs(op) == ServerArgs(op) && ClientReply(op) == ServerReply(op)
  {
  }

  /** What a branch answers: fields of the right kinds, or the target of a link, whose length the
      worker counts in characters. */
  datatype Answer = Fields(values: seq<Value>) | Link(target: seq<Unit>)
  {
    ghost predicate Possible(op: nat) {
      if Link? then op == 6 && |target| < 0x8000_0000 else Fits(values, ServerReply(op))
    }

    function Reply(): seq<Value>
      requires Link? ==> |target| < 0x8000_0000
    {
      if Link? then [LinkReply(target)] else values
    }
  }

  function OperationOf(n: nat): (op: int)
    ensures op == -1 || 1 <= op <= MAX_OPERATION
  {
    if n == 0 || n > MAX_OPERATION then -1 else n
  }

  function ResultOf(code: byte): (r: byte)
  {
    if code > 5 && code != HTTP_GET && code != HTTP_POST then INVALID_RESULT else code
  }

  /** Codes up to 5 and the first letters of two HTTP methods stand for themselves, every other code
      for none of them. */
  lemma {:induction false} ResultCodes(code: byte)
    ensures ResultOf(code) == code <==> code in {0, 1, 2, 3, 4, 5, 71, 80, 255}
    ensures ResultOf(code) != code ==> ResultOf(code) == 255
  {
  }

  datatype Request = Request(op: nat, args: seq<Value>)
  {
    ghost predicate Valid() {
      1 <= op <= MAX_OPERATION && Fits(args, ClientArgs(op))
    }
  }

  // ----- the connection

  /** Bytes written by one side: those still under way and those the other side can read. */
  datatype Channel = Channel(flying: seq<byte>, arrived: seq<byte>)
  {
    function All(): seq<byte> {
      arrived + flying
    }

    function Write(b: seq<byte>): Channel {
      this.(flying := flying + b)
    }

    function Deliver(k: nat): Channel
      requires k <= |flying|
    {
      Channel(flying[k..], arrived + flying[..k])
    }
  }

  datatype Client = Idle | AwaitAck(req: Request) | AwaitReply(req: Request) | GaveUp
  datatype Server = Waiting | Running(op: nat) | Closed

  datatype Conn = Conn(client: Client, server: Server, up: Channel, down: Channel,
                       issued: seq<Request>, executed: seq<Request>,
                       replies: seq<seq<Value>>, results: seq<seq<Value>>)

  datatype Step =
    | Issue(req: Request)           // a call starts: its operation code is written
    | DeliverUp(k: nat)
    | DeliverDown(k: nat)
    | Acknowledge                   // the worker reads an operation code
    | SendArgs                      // the client reads the acknowledgement
    | Execute(answer: Answer, world: World)    // the worker reads the arguments, acts and replies
    | Return                        // the client reads the reply

  function ReadArgs(c: Conn): Parsed<seq<Value>>
    requires c.server.Running?
  {
    GetAll(ServerArgs(c.server.op), c.up.arrived)
  }

  function ReadReply(c: Conn): Parsed<seq<Value>>
    requires c.client.AwaitReply?
  {
    GetAll(ClientReply(c.client.req.op), c.down.arrived)
  }

  /** When the bytes a side waits for have arrived, and the permissions that the worker looks up
      are found. */
  ghost predicate Enabled(c: Conn, s: Step) {
    match s
    case Issue(req) => c.client.Idle? && req.Valid()
    case DeliverUp(k) => 0 < k <= |c.up.flying|
    case DeliverDown(k) => 0 < k <= |c.down.flying|
    case Acknowledge => c.server.Waiting? && |c.up.arrived| >= 2
    case SendArgs => c.client.AwaitAck? && c.down.arrived != []
    case Execute(answer, w) =>
      c.server.Running? && ReadArgs(c).Got? && answer.Possible(c.server.op) && !Endless(w, c.server.op, ReadArgs(c).value)
    case Return => c.client.AwaitReply? && ReadReply(c).Got?
  }

  ghost function Apply(c: Conn, s: Step): Conn
    requires Enabled(c, s)
  {
    match s
    case Issue(req) =>
      c.(client := AwaitAck(req), up := c.up.Write(BigEndian(req.op, 2)), issued := c.issued + [req])
    case DeliverUp(k) => c.(up := c.up.Deliver(k))
    case DeliverDown(k) => c.(down := c.down.Deliver(k))
    case Acknowledge =>
      var op := OperationOf(FromBigEndian(c.up.arrived[..2]));
      var d := c.(up := c.up.(arrived := c.up.arrived[2..]));
      if op == -1 then d.(server := Closed) else d.(server := Running(op), down := c.down.Write([OK]))
    case SendArgs =>
      var d := c.(down := c.down.(arrived := c.down.arrived[1..]));
      if ResultOf(c.down.arrived[0]) != OK then d.(client := GaveUp)
      else d.(client := AwaitReply(c.client.req), up := c.up.Write(PutAll(c.client.req.args)))
    case Execute(answer, _) =>
      c.(server := Waiting, up := c.up.(arrived := ReadArgs(c).rest), down := c.down.Write(PutAll(answer.Reply())),
         executed := c.executed + [Request(c.server.op, ReadArgs(c).value)], replies := c.replies + [answer.Reply()])
    case Return =>
      c.(client := Idle, down := c.down.(arrived := ReadReply(c).rest), results := c.results + [ReadReply(c).value])
  }

  // ----- the joint invariant

  ghost predicate Settled(c: Conn) {
    c.up.All() == [] && c.down.All() == [] && c.server.Waiting? && c.executed == c.issued && c.results == c.replies
  }

  ghost predicate Pending(c: Conn, req: Request) {
    req.Valid() && c.issued == c.executed + [req] && c.results == c.replies
  }

  /** In every phase the two streams hold exactly the message the phase is about, or nothing. */
  ghost predicate InStep(c: Conn) {
    match c.client
    case Idle => Settled(c)
    case AwaitAck(req) =>
      && Pending(c, req)
      && (|| (c.server == Waiting && c.up.All() == BigEndian(req.op, 2) && c.down.All() == [])
          || (c.server == Running(req.op) && c.up.All() == [] && c.down.All() == [OK]))
    case AwaitReply(req) =>
      || (Pending(c, req) && c.server == Running(req.op) && c.up.All() == PutAll(req.args) && c.down.All() == [])
      || (&& req.Valid() && c.issued == c.executed && c.server == Waiting && c.up.All() == []
          && exists reply :: Replied(c, req, reply))
    case GaveUp => false
  }

  ghost predicate Replied(c: Conn, req: Request, reply: seq<Value>) {
    Fits(reply, ServerReply(req.op)) && c.replies == c.results + [reply] && c.down.All() == PutAll(reply)
  }

  lemma {:induction false} DeliverKeepsAll(ch: Channel, k: nat)
    requires k <= |ch.flying|
    ensures ch.Deliver(k).All() == ch.All()
  {
  }

  lemma {:induction false} WriteAppends(ch: Channel, b: seq<byte>)
    ensures ch.Write(b).All() == ch.All() + b
  {
  }

  /** A side that finds a whole message has found all of the stream. */
  lemma {:induction false} WholeMessage(ch: Channel, vs: seq<Value>, ks: seq<Kind>)
    requires Fits(vs, ks) && ch.All() == PutAll(vs)
    ensures GetAll(ks, ch.arrived).Got? <==> ch.flying == []
    ensures ch.flying == [] ==> GetAll(ks, ch.arrived) == Got(vs, [])
  {
    NoEarlyRead(vs, ks, ch.arrived, ch.flying);
  }

  lemma {:induction false} OperationCode(op: nat)
    requires 1 <= op <= MAX_OPERATION
    ensures OperationOf(FromBigEndian(BigEndian(op, 2))) == op
  {
    assert Pow256(2) == 0x1_0000;
    UnsignedRoundTripIff(op, 2);
  }

  lemma {:induction false} IssueStaysInStep(c: Conn, req: Request)
    requires InStep(c) && Enabled(c, Issue(req))
    ensures InStep(Apply(c, Issue(req)))
  {
    WriteAppends(c.up, BigEndian(req.op, 2));
  }

  lemma {:induction false} DeliverStaysInStep(c: Conn, s: Step)
    requires InStep(c) && Enabled(c, s) && (s.DeliverUp? || s.DeliverDown?)
    ensures InStep(Apply(c, s))
  {
    if s.DeliverUp? {
      DeliverKeepsAll(c.up, s.k);
    } else {
      DeliverKeepsAll(c.down, s.k);
    }
    if c.client.AwaitReply? && !Pending(c, c.client.req) {
      var reply :| Replied(c, c.client.req, reply);
      assert Replied(Apply(c, s), c.client.req, reply);
    }
  }

  lemma {:induction false} AcknowledgeStaysInStep(c: Conn)
    requires InStep(c) && Enabled(c, Acknowledge)
    ensures InStep(Apply(c, Acknowledge))
  {
    var req := c.client.req;
    assert c.up.arrived == BigEndian(req.op, 2);
    assert c.up.arrived[..2] == c.up.arrived;
    OperationCode(req.op);
    WriteAppends(c.down, [OK]);
  }

  lemma {:induction false} SendArgsStaysInStep(c: Conn)
    requires InStep(c) && Enabled(c, SendArgs)
    ensures InStep(Apply(c, SendArgs))
  {
    assert c.down.arrived == [OK];
    WriteAppends(c.up, PutAll(c.client.req.args));
  }

  /** Link targets are ASCII: what the two sides need in order to stay in step. */
  ghost predicate AsciiLink(s: Step) {
    s.Execute? && s.answer.Link? ==> Ascii(s.answer.target)
  }

  lemma {:induction false} AnswerFits(answer: Answer, op: nat)
    requires answer.Possible(op) && (answer.Link? ==> Ascii(answer.target))
    ensures Fits(answer.Reply(), ServerReply(op))
  {
    if answer.Link? {
      AsciiIsItself(answer.target);
    }
  }

  lemma {:induction false} ExecuteStaysInStep(c: Conn, answer: Answer, w: World)
    requires InStep(c) && Enabled(c, Execute(answer, w)) && AsciiLink(Execute(answer, w))
    ensures InStep(Apply(c, Execute(answer, w)))
  {
    SameLayout(c.server.op);
    if c.client.AwaitReply? {
      var req, reply := c.client.req, answer.Reply();
      AnswerFits(answer, req.op);
      WholeMessage(c.up, req.args, ServerArgs(req.op));
      WriteAppends(c.down, PutAll(reply));
      assert Request(req.op, req.args) == req;
      assert Replied(Apply(c, Execute(answer, w)), req, reply);
    }
  }

  lemma {:induction false} ReturnStaysInStep(c: Conn)
    requires InStep(c) && Enabled(c, Return)
    ensures InStep(Apply(c, Return))
  {
    var req := c.client.req;
    SameLayout(req.op);
    if c.server.Waiting? {
      var reply :| Replied(c, req, reply);
      WholeMessage(c.down, reply, ClientReply(req.op));
    }
  }

  lemma {:induction false} StepStaysInStep(c: Conn, s: Step)
    requires InStep(c) && Enabled(c, s) && AsciiLink(s)
    ensures InStep(Apply(c, s))
  {
    match s
    case Issue(req) => IssueStaysInStep(c, req);
    case DeliverUp(k) => DeliverStaysInStep(c, s);
    case DeliverDown(k) => DeliverStaysInStep(c, s);
    case Acknowledge => AcknowledgeStaysInStep(c);
    case SendArgs => SendArgsStaysInStep(c);
    case Execute(answer, w) => ExecuteStaysInStep(c, answer, w);
    case Return => ReturnStaysInStep(c);
  }

  // ----- whole runs

  ghost predicate RunsTo(c: Conn, steps: seq<Step>, d: Conn)
    decreases |steps|
  {
    if steps == [] then c == d else Enabled(c, steps[0]) && RunsTo(Apply(c, steps[0]), steps[1..], d)
  }

  ghost predicate Fresh(c: Conn) {
    Settled(c) && c.client.Idle? && c.issued == [] && c.replies == []
  }

  lemma {:induction false} RunStaysInStep(c: Conn, steps: seq<Step>, d: Conn)
    requires InStep(c) && RunsTo(c, steps, d) && forall i :: 0 <= i < |steps| ==> AsciiLink(steps[i])
    ensures InStep(d)
    decreases |steps|
  {
    if steps != [] {
      StepStaysInStep(c, steps[0]);
      RunStaysInStep(Apply(c, steps[0]), steps[1..], d);
    }
  }

  /** Whatever the interleaving and the fragmentation, while link targets are ASCII: between calls
      both streams are empty, the worker waits for an operation, it has executed exactly the calls
      made, with the arguments that were sent, and the client has received exactly the replies. */
  lemma {:induction false} LockStepAlways(c: Conn, steps: seq<Step>, d: Conn)
    requires Fresh(c) && RunsTo(c, steps, d) && forall i :: 0 <= i < |steps| ==> AsciiLink(steps[i])
    ensures InStep(d) && (d.client.Idle? ==> Settled(d))
    ensures !d.client.GaveUp? && !d.server.Closed?
  {
    RunStaysInStep(c, steps, d);
  }

  /** A readlink leaves the streams empty exactly when the target is ASCII; otherwise the bytes of
      the target beyond its number of characters stay in front of what the worker writes next. */
  lemma {:induction false} ReadlinkSettlesIff(c: Conn, target: seq<Unit>, w: World) returns (d: Conn)
    requires InStep(c) && c.server.Running? && Enabled(c, Execute(Link(target), w))
    ensures RunsTo(c, [Execute(Link(target), w), DeliverDown(4 + |Utf8(target)|), Return], d)
    ensures d.client.Idle? && d.server.Waiting? && d.up.All() == [] && d.down == Channel([], Utf8(target)[|target|..])
    ensures Settled(d) <==> Ascii(target)
  {
    var n := 4 + |Utf8(target)|;
    var c1 := LinkWritten(c, target, w);
    var c2 := Apply(c1, DeliverDown(n));
    assert c2.down == Channel([], Put(LinkReply(target)));
    d := LinkReturned(c2, target);
    RunsToThree(c, Execute(Link(target), w), DeliverDown(n), Return);
    if Ascii(target) {
      AsciiIsItself(target);
    } else {
      NonAsciiIsLonger(target);
    }
  }

  lemma {:induction false} LinkWritten(c: Conn, target: seq<Unit>, w: World) returns (d: Conn)
    requires InStep(c) && c.server.Running? && Enabled(c, Execute(Link(target), w))
    ensures d == Apply(c, Execute(Link(target), w))
    ensures d.client.AwaitReply? && d.client.req.op == 6 && d.server.Waiting?
    ensures d.up.All() == [] && d.executed == d.issued
    ensures d.down == Channel(Put(LinkReply(target)), []) && d.replies == d.results + [[LinkReply(target)]]
  {
    d := Apply(c, Execute(Link(target), w));
    SameLayout(6);
    WholeMessage(c.up, c.client.req.args, ServerArgs(6));
    assert PutAll([LinkReply(target)]) == Put(LinkReply(target)) by {
      assert [LinkReply(target)][1..] == [];
    }
  }

  lemma {:induction false} LinkReturned(c: Conn, target: seq<Unit>) returns (d: Conn)
    requires c.client.AwaitReply? && c.client.req.op == 6 && |target| < 0x8000_0000
    requires c.down == Channel([], Put(LinkReply(target)))
    ensures Enabled(c, Return) && d == Apply(c, Return)
    ensures d.down == Channel([], Utf8(target)[|target|..])
    ensures Ascii(target) ==> d.results == c.results + [[LinkReply(target)]]
  {
    var b, left := Put(LinkReply(target)), Utf8(target)[|target|..];
    LinkReplyIff(target, []);
    assert b + [] == b && left + [] == left;
    GetAllOne(KCounted, b);
    d := Apply(c, Return);
  }

  lemma {:induction false} GetAllOne(k: Kind, s: seq<byte>)
    requires Get(k, s).Got?
    ensures GetAll([k], s) == Got([Get(k, s).value], Get(k, s).rest)
  {
    var v := Get(k, s).value;
    assert [k][1..] == [] && [v] + [] == [v];
  }

  lemma {:induction false} RunsToThree(c: Conn, s1: Step, s2: Step, s3: Step)
    requires Enabled(c, s1) && Enabled(Apply(c, s1), s2) && Enabled(Apply(Apply(c, s1), s2), s3)
    ensures RunsTo(c, [s1, s2, s3], Apply(Apply(Apply(c, s1), s2), s3))
  {
    assert [s1, s2, s3][1..] == [s2, s3] && [s2, s3][1..] == [s3] && [s3][1..] == [];
    var d := Apply(Apply(Apply(c, s1), s2), s3);
    assert RunsTo(d, [], d) && RunsTo(Apply(Apply(c, s1), s2), [s3], d);
  }

  /** After the link target U+00E9 one byte is left, and the next call, whatever it is, takes it for
      the acknowledgement of its operation and gives up. */
  lemma {:induction false} AccentedLinkBreaks(c: Conn, target: seq<Unit>, w: World, next: Request) returns (d: Conn, e: Conn)
    requires target == [0xe9] && next.Valid()
    requires InStep(c) && c.server.Running? && Enabled(c, Execute(Link(target), w))
    ensures RunsTo(c, [Execute(Link(target), w), DeliverDown(4 + |Utf8(target)|), Return], d)
    ensures Enabled(d, Issue(next)) && Enabled(Apply(d, Issue(next)), SendArgs)
    ensures e == Apply(Apply(d, Issue(next)), SendArgs) && e.client.GaveUp?
  {
    d := ReadlinkSettlesIff(c, target, w);
    AccentedBytes(target);
    e := ByteMisread(d, next);
  }

  lemma {:induction false} AccentedBytes(target: seq<Unit>)
    requires target == [0xe9]
    ensures Utf8(target)[|target|..] == [0xa9]
  {
    assert target[1..] == [];
    assert Utf8(target) == [0xc3, 0xa9];
  }

  lemma {:induction false} ByteMisread(c: Conn, next: Request) returns (e: Conn)
    requires c.client.Idle? && c.down == Channel([], [0xa9]) && next.Valid()
    ensures Enabled(c, Issue(next)) && Enabled(Apply(c, Issue(next)), SendArgs)
    ensures e == Apply(Apply(c, Issue(next)), SendArgs) && e.client.GaveUp?
  {
    e := Apply(Apply(c, Issue(next)), SendArgs);
  }

  /** Some reply of a branch exists, so a worker that has its arguments can always go on. */
  ghost function SomeReply(op: nat): (r: seq<Value>)
    requires 1 <= op <= MAX_OPERATION
    ensures Fits(r, ServerReply(op))
  {
    match op
    case 1 => [I32(0), Fixed(Zeros(STAT_SIZE))]
    case 2 => [Entries(0, [])]
    case 4 => [Counted(0, [])]
    case 6 => [Counted(0, [])]
    case 20 => [Fixed(Zeros(STATVFS_SIZE)), I32(0)]
    case 21 => [Code(OK)]
    case _ => [I32(0)]
  }

  ghost predicate CanGoOn(c: Conn, w: World) {
    exists s :: Enabled(c, s) && !s.Issue? && (s.Execute? ==> s.world == w)
  }

  /** The worker has its arguments and hangs in a lookup. */
  ghost predicate Hangs(c: Conn, w: World) {
    c.client.AwaitReply? && c.server.Running? && c.up.flying == [] && Endless(w, c.client.req.op, c.client.req.args)
  }

  /** A call that has started can go on unless the worker hangs in a lookup of its arguments. */
  lemma {:induction false} GoesOnIff(c: Conn, w: World)
    requires InStep(c) && !c.client.Idle?
    ensures CanGoOn(c, w) <==> !Hangs(c, w)
  {
    if c.up.flying != [] {
      assert Enabled(c, DeliverUp(|c.up.flying|));
    } else if c.down.flying != [] {
      assert Enabled(c, DeliverDown(|c.down.flying|));
    } else if c.client.AwaitAck? {
      assert Enabled(c, if c.server.Waiting? then Acknowledge else SendArgs);
    } else if c.server.Running? {
      RunningGoesOn(c, w);
    } else {
      RepliedGoesOn(c);
      assert Enabled(c, Return);
    }
  }

  lemma {:induction false} RepliedGoesOn(c: Conn)
    requires InStep(c) && c.client.AwaitReply? && c.server.Waiting? && c.down.flying == []
    ensures ReadReply(c).Got?
  {
    var req := c.client.req;
    SameLayout(req.op);
    var reply :| Replied(c, req, reply);
    WholeMessage(c.down, reply, ClientReply(req.op));
  }

  lemma {:induction false} RunningGoesOn(c: Conn, w: World)
    requires InStep(c) && c.client.AwaitReply? && c.server.Running? && c.up.flying == []
    ensures CanGoOn(c, w) <==> !Hangs(c, w)
  {
    var req := c.client.req;
    SameLayout(req.op);
    WholeMessage(c.up, req.args, ServerArgs(req.op));
    assert ReadArgs(c) == Got(req.args, []);
    if !Hangs(c, w) {
      assert Enabled(c, Execute(Fields(SomeReply(req.op)), w));
    } else {
      forall s | Enabled(c, s) && !s.Issue? ensures s.Execute? && s.world != w {
        OnlyTheWorkerCanGoOn(c, s);
      }
    }
  }

  lemma {:induction false} OnlyTheWorkerCanGoOn(c: Conn, s: Step)
    requires c.client.AwaitReply? && c.server.Running? && c.up.flying == [] && c.down == Channel([], [])
    requires Enabled(c, s)
    ensures s.Execute?
  {
    NothingIsNoReply(c.client.req.op);
  }

  lemma {:induction false} NothingIsNoReply(op: nat)
    ensures GetAll(ClientReply(op), []).More?
  {
  }

  /** A call whose paths are absolute can always go on, whatever the tables and the file system: no
      reachable state is stuck. */
  lemma {:induction false} NeverStuck(c: Conn, w: World)
    requires InStep(c) && !c.client.Idle? && AbsolutePaths(c.client.req.op, c.client.req.args)
    ensures CanGoOn(c, w)
  {
    AbsoluteEnds(w, c.client.req.op, c.client.req.args);
    GoesOnIff(c, w);
  }
}
