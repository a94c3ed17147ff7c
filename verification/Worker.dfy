/** The worker's connection state machine, against any client whatever it sends. */
module Worker {
  import opened Access
  import opened Bytes
  import opened LockStep
  import opened Options
  import opened Permissions
  import opened Reading
  import opened Wire

  const HELLO: byte := 1
  const ERROR: byte := 3
  const SHARE: byte := 4
  const REGISTER: byte := 5
  const UPDATE_LOCAL_USERS := 21

  datatype Status = WaitingForHello | WaitingForShare | WaitingForOperation | InOperation

  datatype ClientRow = ClientRow(user: int, client: int, sysInfo: seq<byte>)

  /** What one call of ReadyToRead finds: bytes that arrive before its reads time out, the
      certificate and the tables, the permission rows and the default of the share, and what the
      file system says and makes the branch of an operation reply. */
  datatype Input = Input(arrived: seq<byte>, cert: Option<string>, clients: map<string, ClientRow>,
                         shares: map<(int, seq<byte>), int>, dbFails: bool,
                         rows: seq<Row>, default: string, facts: Facts, reply: seq<Value>)

  /** What the connection has been let through, in order. */
  datatype Mark =
    | Greeted(user: int, client: int, sysInfo: seq<byte>)
    | Shared(user: int, name: seq<byte>, share: int)
    | Accepted(op: nat)
    | Executed(op: nat, args: seq<Value>, user: int, client: int, share: int)

  function Message(code: byte, text: seq<byte>): seq<byte> {
    [code] + BigEndian(|text|, 4) + text
  }

  // ----- the state

  datatype State = State(status: Status, working: bool, operation: nat,
                         userKey: int, clientKey: int, shareKey: int,
                         open: bool, input: seq<byte>, output: seq<byte>, marks: seq<Mark>)
  {
    /** Left with `working` set: the socket is closed. */
    function Close(): State {
      this.(working := true, open := false)
    }

    function Refuse(text: seq<byte>): State {
      this.(working := true, open := false, input := [], output := output + Message(ERROR, text))
    }

    function Hello(i: Input, greeting: seq<byte>, refusal: seq<byte>): State {
      var (b, s) := ReadExact(input, 1);
      var code := if b == [] then 0 else ResultOf(b[0]);
      if code == REGISTER then this.(working := true, input := s)
      else if code != HELLO || i.cert.None? then this.(input := s).Close()
      else this.(input := s).Greet(i, greeting, refusal)
    }

    function Greet(i: Input, greeting: seq<byte>, refusal: seq<byte>): State
      requires i.cert.Some?
    {
      var (hello, s) := ReadMessage(input);
      var here := this.(input := s);
      if hello == [] || i.dbFails then here.Close()
      else if i.cert.value !in i.clients then here.Refuse(refusal)
      else
        var row := i.clients[i.cert.value];
        var (sysInfo, s) := ReadMessage(s);
        var here := this.(input := s, userKey := row.user, clientKey := row.client);
        if sysInfo == [] then here.Close()
        else if sysInfo != row.sysInfo then here.Refuse(refusal)
        else here.(status := WaitingForShare, output := output + Message(HELLO, greeting),
                   marks := marks + [Greeted(row.user, row.client, sysInfo)])
    }

    function Share(i: Input, refusal: seq<byte>): State {
      var (b, s) := ReadExact(input, 1);
      if b == [] || ResultOf(b[0]) != SHARE then this.(input := s).Close()
      else
        var (name, s) := ReadMessage(s);
        var here := this.(input := s);
        if name == [] || i.dbFails then here.Close()
        else if (userKey, name) !in i.shares then here.Refuse(refusal)
        else
          var share := i.shares[(userKey, name)];
          here.(shareKey := share, status := WaitingForOperation, output := output + [OK],
                marks := marks + [Shared(userKey, name, share)])
    }

    function Operation(): State {
      var (b, s) := ReadExact(input, 2);
      var op := OperationOf(FromBigEndian(b));
      var here := this.(input := s);
      if op == -1 then here.Close()
      else here.(status := InOperation, operation := op, output := output + [OK], marks := marks + [Accepted(op)])
    }

    /** The tables and the file system as the connection's share and user see them. */
    function WorldOf(i: Input): World {
      World(i.rows, i.default, shareKey, userKey, i.facts)
    }

    /** Reads the arguments, looks up permissions, acts and replies. A lookup that comes back to the
        same path goes on for ever: the call does not return and `working` stays set. */
    function Perform(i: Input): State {
      ArgumentsOf(operation);
      var (args, rest) := ReadFields(ServerArgs(operation), input);
      if Endless(WorldOf(i), operation, args) then this.(working := true, input := rest)
      else
        this.(status := WaitingForOperation, input := rest, output := output + PutAll(i.reply),
              marks := marks + [Executed(operation, args, userKey, clientKey, shareKey)])
    }

    /** An update of the local users whose end mark never comes is in its loop for ever. An operation
        without a branch would change nothing. */
    function Execute(i: Input): State {
      if operation == UPDATE_LOCAL_USERS && UsersLoop(input, |input| + 1).More? then
        this.(working := true, input := [])
      else if 1 <= operation <= MAX_OPERATION then Perform(i)
      else this
    }

    function ReadyToRead(i: Input, greeting: seq<byte>, refusal: seq<byte>): State {
      var here := this.(input := input + i.arrived);
      if working then here
      else
        match status
        case WaitingForHello => here.Hello(i, greeting, refusal)
        case WaitingForShare => here.Share(i, refusal)
        case WaitingForOperation => here.Operation()
        case InOperation => here.Execute(i)
    }

    // ----- what holds in every reachable state

    ghost predicate Paired(k: nat)
      requires 2 <= k < |marks|
    {
      if k % 2 == 0 then marks[k].Accepted? && 1 <= marks[k].op <= MAX_OPERATION
      else
        && marks[k - 1].Accepted? && marks[k].Executed? && marks[k].op == marks[k - 1].op
        && marks[k].user == userKey && marks[k].client == clientKey && marks[k].share == shareKey
    }

    ghost predicate Ordered() {
      && (status == WaitingForHello <==> |marks| == 0)
      && (status == WaitingForShare <==> |marks| == 1)
      && (|marks| > 0 ==> marks[0].Greeted? && marks[0].user == userKey && marks[0].client == clientKey)
      && (|marks| > 1 ==> marks[1].Shared? && marks[1].user == userKey && marks[1].share == shareKey)
      && (forall k :: 2 <= k < |marks| ==> Paired(k))
      && (status == WaitingForOperation ==> |marks| >= 2 && |marks| % 2 == 0)
      && (status == InOperation ==> |marks| >= 3 && |marks| % 2 == 1 && marks[|marks| - 1] == Accepted(operation))
    }

    lemma {:induction false} HelloOrdered(i: Input, greeting: seq<byte>, refusal: seq<byte>)
      requires Ordered() && status == WaitingForHello
      ensures Hello(i, greeting, refusal).Ordered()
    {
    }

    lemma {:induction false} ShareOrdered(i: Input, refusal: seq<byte>)
      requires Ordered() && status == WaitingForShare
      ensures Share(i, refusal).Ordered()
    {
    }

    lemma {:induction false} LaterOrdered(t: State)
      requires Ordered() && (status == WaitingForOperation || status == InOperation)
      requires t.userKey == userKey && t.clientKey == clientKey && t.shareKey == shareKey
      requires |t.marks| == |marks| + 1 && t.marks[..|marks|] == marks && t.Paired(|marks|)
      requires status == InOperation ==> t.status == WaitingForOperation
      requires status == WaitingForOperation ==> t.status == InOperation && t.marks[|marks|] == Accepted(t.operation)
      ensures t.Ordered()
    {
      forall k | 2 <= k < |t.marks| ensures t.Paired(k) {
        if k < |marks| {
          assert Paired(k);
        }
      }
    }

    lemma {:induction false} OperationOrdered()
      requires Ordered() && status == WaitingForOperation
      ensures Operation().Ordered()
    {
      var t := Operation();
      if t.marks != marks {
        LaterOrdered(t);
      } else {
        SameOrdered(t);
      }
    }

    lemma {:induction false} ExecuteOrdered(i: Input)
      requires Ordered() && status == InOperation
      ensures Execute(i).Ordered()
    {
      var t := Execute(i);
      if t.marks != marks {
        LaterOrdered(t);
      } else {
        assert Paired(|marks| - 1);
        SameOrdered(t);
      }
    }

    lemma {:induction false} SameOrdered(t: State)
      requires Ordered() && t.marks == marks && t.status == status && t.operation == operation
      requires t.userKey == userKey && t.clientKey == clientKey && t.shareKey == shareKey
      ensures t.Ordered()
    {
      forall k | 2 <= k < |t.marks| ensures t.Paired(k) {
        assert Paired(k);
      }
    }

    lemma {:induction false} StaysOrdered(i: Input, greeting: seq<byte>, refusal: seq<byte>)
      requires Ordered()
      ensures ReadyToRead(i, greeting, refusal).Ordered()
    {
      var here := this.(input := input + i.arrived);
      SameOrdered(here);
      if working {
      } else if status == WaitingForHello {
        here.HelloOrdered(i, greeting, refusal);
      } else if status == WaitingForShare {
        here.ShareOrdered(i, refusal);
      } else if status == WaitingForOperation {
        here.OperationOrdered();
      } else {
        here.ExecuteOrdered(i);
      }
    }

    lemma {:induction false} ExecutedShape(k: nat)
      requires Ordered() && k < |marks| && marks[k].Executed?
      ensures k >= 3 && marks[0].Greeted? && marks[1].Shared? && marks[1].user == marks[0].user
      ensures marks[k - 1] == Accepted(marks[k].op) && 1 <= marks[k].op <= MAX_OPERATION
      ensures marks[k].user == marks[0].user && marks[k].client == marks[0].client && marks[k].share == marks[1].share
    {
      assert Paired(k) && Paired(k - 1);
    }

    /** A call that leaves `working` set is the last that does anything. */
    lemma {:induction false} WorkingAbsorbs(i: Input, greeting: seq<byte>, refusal: seq<byte>)
      requires working
      ensures ReadyToRead(i, greeting, refusal) == this.(input := input + i.arrived)
    {
    }

    /** An operation reads its arguments to the end and looks up only paths that resolve. */
    ghost predicate Ends(i: Input) {
      var s := input + i.arrived;
      if operation == UPDATE_LOCAL_USERS then TakeUsers(s).Got?
      else
        ArgumentsOf(operation);
        AllResolve(WorldOf(i), operation, ReadFields(ServerArgs(operation), s).0)
    }

    /** From InOperation a reachable state goes back to WaitingForOperation, with `working` cleared,
        exactly when the operation ends: an update of the local users when its list comes with the
        end mark, any other when every path whose permissions it looks up is empty, absolute, or
        listed itself or below a listed one. */
    lemma {:induction false} NonFatalReturns(i: Input, greeting: seq<byte>, refusal: seq<byte>)
      requires Ordered() && !working && open
      ensures var t := ReadyToRead(i, greeting, refusal);
              status == InOperation ==> (t.status == WaitingForOperation && !t.working <==> Ends(i))
    {
      if status == InOperation {
        assert Paired(|marks| - 1);
        ExecuteEndsIff(i);
      }
    }

    /** A call leaves `working` set only without any other effect than on the streams and the keys,
        and between operations only where it closes the connection. */
    lemma {:induction false} WorkingMeansClosed(i: Input, greeting: seq<byte>, refusal: seq<byte>)
      requires Ordered() && !working && open
      ensures var t := ReadyToRead(i, greeting, refusal);
              && (status == WaitingForShare || status == WaitingForOperation ==> (t.working <==> !t.open))
              && (t.working ==> t.status == status && t.marks == marks)
    {
    }

    lemma {:induction false} ExecuteEndsIff(i: Input)
      requires 1 <= operation <= MAX_OPERATION && status == InOperation && !working
      ensures var here := this.(input := input + i.arrived);
              here.Execute(i).status == WaitingForOperation && !here.Execute(i).working <==> Ends(i)
    {
      ArgumentsOf(operation);
      if operation == UPDATE_LOCAL_USERS {
        LoopEndsIff(input + i.arrived);
      } else {
        EndlessIff(WorldOf(i), operation, ReadFields(ServerArgs(operation), input + i.arrived).0);
      }
    }

    /** A getattr of the path `x`, with no row in the table, is never left. */
    lemma {:induction false} RelativePathNeverReturns(i: Input, uid: i32, greeting: seq<byte>, refusal: seq<byte>)
      requires status == InOperation && operation == 1 && !working && i.arrived == []
      requires input == PutAll([I32(uid), Str32([0x78])]) && i.rows == [] && i.facts.plainMode
      ensures ReadyToRead(i, greeting, refusal) == this.(working := true, input := [])
    {
      var args := [I32(uid), Str32([0x78])];
      ArgumentsOf(1);
      assert input + i.arrived == input && input + [] == input;
      GetAllPutAll(args, [KI32, KStr32], []);
      FieldsAgree([KI32, KStr32], input);
      assert ServerArgs(1) == [KI32, KStr32];
      RelativeGetattrHangs(WorldOf(i), args);
    }

    /** An update of the local users without its end mark uses up all that came and is never left. */
    lemma {:induction false} UpdateWithoutMark(i: Input, greeting: seq<byte>, refusal: seq<byte>)
      requires status == InOperation && operation == UPDATE_LOCAL_USERS && !working
      requires TakeUsers(input + i.arrived).More?
      ensures ReadyToRead(i, greeting, refusal) == this.(working := true, input := [])
    {
      LoopEndsIff(input + i.arrived);
    }

    /** A client that goes away during an update of the local users, before anything of the list has
        come, leaves the worker in that operation for ever, however often its loop goes round. */
    lemma {:induction false} ClientGoneDuringUpdate(i: Input, greeting: seq<byte>, refusal: seq<byte>)
      requires status == InOperation && operation == UPDATE_LOCAL_USERS && !working && input == [] && i.arrived == []
      ensures ReadyToRead(i, greeting, refusal) == this.(working := true)
      ensures forall passes :: UsersLoop(input + i.arrived, passes).More?
    {
      forall passes ensures UsersLoop(input + i.arrived, passes).More? {
        EmptyStreamNeverEnds(passes);
      }
    }

    /** The connection is let through a handshake only on the word of the tables of that call. */
    ghost predicate VouchedBy(m: Mark, i: Input) {
      match m
      case Greeted(user, client, sysInfo) =>
        i.cert.Some? && i.cert.value in i.clients && i.clients[i.cert.value] == ClientRow(user, client, sysInfo)
      case Shared(user, name, share) => (user, name) in i.shares && i.shares[(user, name)] == share
      case _ => true
    }

    ghost predicate AddsVouched(t: State, i: Input) {
      t.marks == marks || exists m :: VouchedBy(m, i) && t.marks == marks + [m]
    }

    lemma {:induction false} HelloVouched(i: Input, greeting: seq<byte>, refusal: seq<byte>)
      ensures AddsVouched(Hello(i, greeting, refusal), i)
    {
      var t := Hello(i, greeting, refusal);
      if t.marks != marks {
        var row := i.clients[i.cert.value];
        assert VouchedBy(Greeted(row.user, row.client, row.sysInfo), i);
      }
    }

    lemma {:induction false} ShareVouched(i: Input, refusal: seq<byte>)
      ensures AddsVouched(Share(i, refusal), i)
    {
      var t := Share(i, refusal);
      if t.marks != marks {
        assert VouchedBy(t.marks[|marks|], i);
      }
    }

    lemma {:induction false} NewMarkVouched(i: Input, greeting: seq<byte>, refusal: seq<byte>)
      ensures AddsVouched(ReadyToRead(i, greeting, refusal), i)
    {
      var here := this.(input := input + i.arrived);
      here.HelloVouched(i, greeting, refusal);
      here.ShareVouched(i, refusal);
      if !working && (status == WaitingForOperation || status == InOperation) {
        var t := ReadyToRead(i, greeting, refusal);
        if t.marks != marks {
          assert VouchedBy(t.marks[|marks|], i);
        }
      }
    }
  }

  lemma {:induction false} ArgumentsOf(op: nat)
    ensures forall k :: 0 <= k < |ServerArgs(op)| ==> Argument(ServerArgs(op)[k])
  {
  }

  function Start(): State {
    State(WaitingForHello, false, 0, -1, -1, -1, true, [], [], [])
  }

  // ----- whole runs

  function Run(inputs: seq<Input>, greeting: seq<byte>, refusal: seq<byte>): State {
    if inputs == [] then Start()
    else Run(inputs[..|inputs| - 1], greeting, refusal).ReadyToRead(inputs[|inputs| - 1], greeting, refusal)
  }

  ghost predicate Vouched(m: Mark, inputs: seq<Input>) {
    exists n :: 0 <= n < |inputs| && Start().VouchedBy(m, inputs[n])
  }

  lemma {:induction false} RunOrdered(inputs: seq<Input>, greeting: seq<byte>, refusal: seq<byte>)
    ensures Run(inputs, greeting, refusal).Ordered()
    ensures forall m :: m in Run(inputs, greeting, refusal).marks ==> Vouched(m, inputs)
  {
    if inputs != [] {
      var front, i := inputs[..|inputs| - 1], inputs[|inputs| - 1];
      var s, t := Run(front, greeting, refusal), Run(inputs, greeting, refusal);
      RunOrdered(front, greeting, refusal);
      s.StaysOrdered(i, greeting, refusal);
      s.NewMarkVouched(i, greeting, refusal);
      forall m | m in t.marks ensures Vouched(m, inputs) {
        if m in s.marks {
          var n :| 0 <= n < |front| && Start().VouchedBy(m, front[n]);
          assert inputs[n] == front[n];
        } else {
          var n :| s.VouchedBy(n, i) && t.marks == s.marks + [n];
          assert Start().VouchedBy(m, inputs[|inputs| - 1]);
        }
      }
    }
  }

  /** An operation is executed only on a connection that was first greeted with a certificate and
      system info on record, then given a share of that user, and then sent that operation's code,
      one of 1 to 21; and always with the keys that the two handshakes fixed. */
  lemma {:induction false} ExecutedOnlyAfterHandshakes(inputs: seq<Input>, greeting: seq<byte>, refusal: seq<byte>, k: nat)
    requires k < |Run(inputs, greeting, refusal).marks| && Run(inputs, greeting, refusal).marks[k].Executed?
    ensures var marks := Run(inputs, greeting, refusal).marks;
            && k >= 3
            && marks[0].Greeted? && Vouched(marks[0], inputs)
            && marks[1].Shared? && Vouched(marks[1], inputs) && marks[1].user == marks[0].user
            && marks[k - 1] == Accepted(marks[k].op) && 1 <= marks[k].op <= MAX_OPERATION
            && marks[k].user == marks[0].user && marks[k].client == marks[0].client && marks[k].share == marks[1].share
  {
    var s := Run(inputs, greeting, refusal);
    RunOrdered(inputs, greeting, refusal);
    s.ExecutedShape(k);
    assert s.marks[0] in s.marks && s.marks[1] in s.marks;
  }

  // ----- the worker as the server side of a lock-step connection

  /** With the bytes it waits for at hand, a call of ReadyToRead is the worker's step of the
      lock-step connection: it takes the same bytes, answers the same and moves to the same phase. */
  lemma {:induction false} AcknowledgesInStep(w: State, i: Input, c: Conn, greeting: seq<byte>, refusal: seq<byte>)
    requires w.status == WaitingForOperation && !w.working && w.open
    requires Enabled(c, Acknowledge) && w.input + i.arrived == c.up.arrived
    ensures var t, d := w.ReadyToRead(i, greeting, refusal), Apply(c, Acknowledge);
            && t.input == d.up.arrived && (t.working <==> !t.open) && (t.open <==> !d.server.Closed?)
            && (t.open ==> t == w.(input := t.input, output := w.output + [OK], status := InOperation,
                                   operation := t.operation, marks := w.marks + [Accepted(t.operation)])
                           && d.server == Running(t.operation) && d.down == c.down.Write([OK]))
  {
  }

  /** With the arguments at hand it reads exactly those that the client sent, whatever follows
      them, replies in step and waits for the next operation. */
  lemma {:induction false} ExecutesInStep(w: State, i: Input, c: Conn, answer: Answer, greeting: seq<byte>, refusal: seq<byte>)
    requires w.status == InOperation && !w.working && 1 <= w.operation <= MAX_OPERATION
    requires c.server == Running(w.operation) && Enabled(c, Execute(answer, w.WorldOf(i)))
    requires w.input + i.arrived == c.up.arrived && i.reply == answer.Reply()
    ensures var t, d := w.ReadyToRead(i, greeting, refusal), Apply(c, Execute(answer, w.WorldOf(i)));
            && d.server == Waiting && d.down == c.down.Write(PutAll(i.reply))
            && t == w.(input := d.up.arrived, output := w.output + PutAll(i.reply), status := WaitingForOperation,
                       marks := w.marks + [Executed(w.operation, d.executed[|c.executed|].args,
                                                    w.userKey, w.clientKey, w.shareKey)])
  {
    var s := w.input + i.arrived;
    ArgumentsOf(w.operation);
    FieldsAgree(ServerArgs(w.operation), s);
    if w.operation == UPDATE_LOCAL_USERS {
      assert Get(KUsers, s).Got?;
      LoopEndsIff(s);
    }
  }

  // ----- whole runs of the two sides

  /** The connection, its worker, and the bytes delivered since the worker's last call. */
  datatype Pair = Pair(conn: Conn, worker: State, pending: seq<byte>)

  function Nothing(arrived: seq<byte>): Input {
    Input(arrived, None, map[], map[], false, [], "", Facts(false, false, false), [])
  }

  /** What the worker's call finds at its executing step. */
  function InputFor(arrived: seq<byte>, s: Step): Input
    requires s.Execute? && (s.answer.Link? ==> |s.answer.target| < 0x8000_0000)
  {
    var w := s.world;
    Nothing(arrived).(rows := w.rows, default := w.default, facts := w.facts, reply := s.answer.Reply())
  }

  /** A step of the connection; the worker's own steps are calls of ReadyToRead. */
  ghost function ApplyBoth(p: Pair, s: Step, greeting: seq<byte>, refusal: seq<byte>): Pair
    requires Enabled(p.conn, s)
  {
    var d := Apply(p.conn, s);
    match s
    case DeliverUp(k) => Pair(d, p.worker, p.pending + p.conn.up.flying[..k])
    case Acknowledge => Pair(d, p.worker.ReadyToRead(Nothing(p.pending), greeting, refusal), [])
    case Execute(_, _) => Pair(d, p.worker.ReadyToRead(InputFor(p.pending, s), greeting, refusal), [])
    case _ => p.(conn := d)
  }

  /** The step concerns a share and user that are the worker's. */
  ghost predicate OwnWorld(w: State, s: Step) {
    s.Execute? ==> s.world.share == w.shareKey && s.world.user == w.userKey
  }

  /** A run with ASCII link targets, in which the worker sees the tables with its own keys. */
  ghost predicate BothRunTo(p: Pair, steps: seq<Step>, q: Pair, greeting: seq<byte>, refusal: seq<byte>)
    decreases |steps|
  {
    if steps == [] then p == q
    else
      && Enabled(p.conn, steps[0]) && AsciiLink(steps[0]) && OwnWorld(p.worker, steps[0])
      && BothRunTo(ApplyBoth(p, steps[0], greeting, refusal), steps[1..], q, greeting, refusal)
  }

  /** The operations that the worker has executed, with the arguments it has read. */
  function Performed(marks: seq<Mark>): seq<Request> {
    if marks == [] then []
    else
      var n := |marks| - 1;
      Performed(marks[..n]) + if marks[n].Executed? then [Request(marks[n].op, marks[n].args)] else []
  }

  /** An acknowledgement and a reply for every operation. */
  function Answered(replies: seq<seq<Value>>): seq<byte> {
    if replies == [] then []
    else Answered(replies[..|replies| - 1]) + ([OK] + PutAll(replies[|replies| - 1]))
  }

  /** The worker is where the connection says, has read what the connection has read, and has
      executed and written nothing but that. */
  ghost predicate Mirrors(p: Pair, before: seq<byte>) {
    var w, c := p.worker, p.conn;
    && !w.working && w.open && w.input + p.pending == c.up.arrived
    && Performed(w.marks) == c.executed
    && w.output == before + (Answered(c.replies) + if c.server.Running? then [OK] else [])
    && match c.server
       case Waiting => w.status == WaitingForOperation
       case Running(op) => w.status == InOperation && w.operation == op
       case Closed => false
  }

  lemma {:induction false} PerformedMore(marks: seq<Mark>, m: Mark)
    ensures Performed(marks + [m]) == Performed(marks) + if m.Executed? then [Request(m.op, m.args)] else []
  {
    assert (marks + [m])[..|marks|] == marks;
  }

  lemma {:induction false} AnsweredMore(before: seq<byte>, replies: seq<seq<Value>>, reply: seq<Value>)
    ensures before + (Answered(replies) + [OK]) + PutAll(reply) == before + (Answered(replies + [reply]) + [])
  {
    var a, b := Answered(replies), PutAll(reply);
    assert (replies + [reply])[..|replies|] == replies;
    Assoc(a, [OK], b);
    Assoc(before, a + [OK], b);
    assert a + ([OK] + b) + [] == a + ([OK] + b);
  }

  lemma {:induction false} AcknowledgeMirrors(p: Pair, before: seq<byte>, greeting: seq<byte>, refusal: seq<byte>)
    requires InStep(p.conn) && Mirrors(p, before) && Enabled(p.conn, Acknowledge)
    ensures Mirrors(ApplyBoth(p, Acknowledge, greeting, refusal), before)
  {
    var w, c := p.worker, p.conn;
    AcknowledgesInStep(w, Nothing(p.pending), c, greeting, refusal);
    AcknowledgeStaysInStep(c);
    PerformedMore(w.marks, Accepted(OperationOf(FromBigEndian(c.up.arrived[..2]))));
    Assoc(before, Answered(c.replies), [OK]);
  }

  lemma {:induction false} ExecuteMirrors(p: Pair, before: seq<byte>, s: Step, greeting: seq<byte>, refusal: seq<byte>)
    requires Mirrors(p, before) && 1 <= p.worker.operation <= MAX_OPERATION
    requires s.Execute? && Enabled(p.conn, s) && OwnWorld(p.worker, s)
    ensures Mirrors(ApplyBoth(p, s, greeting, refusal), before)
  {
    var w, c, reply := p.worker, p.conn, s.answer.Reply();
    var i := InputFor(p.pending, s);
    assert w.WorldOf(i) == s.world;
    ExecutesInStep(w, i, c, s.answer, greeting, refusal);
    PerformedMore(w.marks, Executed(w.operation, ReadArgs(c).value, w.userKey, w.clientKey, w.shareKey));
    AnsweredMore(before, c.replies, reply);
  }

  lemma {:induction false} QuietMirrors(p: Pair, before: seq<byte>, s: Step, greeting: seq<byte>, refusal: seq<byte>)
    requires Mirrors(p, before) && Enabled(p.conn, s) && !s.Acknowledge? && !s.Execute?
    ensures Mirrors(ApplyBoth(p, s, greeting, refusal), before)
    ensures ApplyBoth(p, s, greeting, refusal).worker == p.worker
  {
    var c, q := p.conn, ApplyBoth(p, s, greeting, refusal);
    assert q.conn.server == c.server && q.conn.executed == c.executed && q.conn.replies == c.replies;
    if s.DeliverUp? {
      Assoc(p.worker.input, p.pending, c.up.flying[..s.k]);
    } else {
      assert q.conn.up.arrived == c.up.arrived;
    }
  }

  /** Every run of a lock-step connection is a run of its worker: whatever the interleaving and the
      fragmentation, the calls of ReadyToRead read exactly the requests that the client has made,
      execute them in order and write exactly the acknowledgements and replies. */
  lemma {:induction false} RunMirrors(p: Pair, before: seq<byte>, steps: seq<Step>, q: Pair,
                                      greeting: seq<byte>, refusal: seq<byte>)
    requires InStep(p.conn) && Mirrors(p, before) && BothRunTo(p, steps, q, greeting, refusal)
    ensures InStep(q.conn) && Mirrors(q, before)
    decreases |steps|
  {
    if steps != [] {
      StepStaysInStep(p.conn, steps[0]);
      if steps[0].Acknowledge? {
        AcknowledgeMirrors(p, before, greeting, refusal);
      } else if steps[0].Execute? {
        ExecuteMirrors(p, before, steps[0], greeting, refusal);
      } else {
        QuietMirrors(p, before, steps[0], greeting, refusal);
      }
      RunMirrors(ApplyBoth(p, steps[0], greeting, refusal), before, steps[1..], q, greeting, refusal);
    }
  }

  // ----- the handshake that opens a connection

  function PutMessage(text: seq<byte>): seq<byte> {
    BigEndian(|text|, 4) + text
  }

  /** What the client writes before it waits for the worker's greeting, and after it. */
  function ClientGreeting(hello: seq<byte>, sysInfo: seq<byte>): seq<byte> {
    [HELLO] + (PutMessage(hello) + PutMessage(sysInfo))
  }

  function ClientShare(name: seq<byte>): seq<byte> {
    [SHARE] + PutMessage(name)
  }

  /** How the client reads the worker's side of the handshake: whether it goes on, and what is left. */
  function InitSocketReads(s: seq<byte>): (bool, seq<byte>) {
    var (b, s1) := ReadExact(s, 1);
    if b == [] || ResultOf(b[0]) != HELLO then (false, s1)
    else
      var (text, s2) := ReadMessage(s1);
      if text == [] then (false, s2)
      else
        var (ok, s3) := ReadExact(s2, 1);
        (ok != [] && ResultOf(ok[0]) == OK, s3)
  }

  ghost predicate Known(i: Input, hello: seq<byte>, sysInfo: seq<byte>) {
    && i.cert.Some? && i.cert.value in i.clients && i.clients[i.cert.value].sysInfo == sysInfo
    && !i.dbFails && hello != [] && sysInfo != []
  }

  ghost predicate Granted(i: Input, user: int, name: seq<byte>) {
    (user, name) in i.shares && !i.dbFails && name != []
  }

  lemma {:induction false} MessageBack(text: seq<byte>, rest: seq<byte>)
    requires |text| < 0x8000_0000
    ensures ReadMessage(PutMessage(text) + rest) == (text, rest)
  {
    var s := PutMessage(text) + rest;
    TakeStringAppended(text, rest);
    assert s[..4] + s[4..] == s && TakeI32(s).Got?;
  }

  lemma {:induction false} CodeBack(code: byte, rest: seq<byte>)
    ensures ReadExact([code] + rest, 1) == ([code], rest)
  {
    assert ([code] + rest)[..1] == [code] && ([code] + rest)[1..] == rest;
  }

  lemma {:induction false} GreetedIff(i: Input, hello: seq<byte>, sysInfo: seq<byte>, greeting: seq<byte>, refusal: seq<byte>)
    requires i.arrived == ClientGreeting(hello, sysInfo) && |hello| < 0x8000_0000 && |sysInfo| < 0x8000_0000
    ensures var t := Start().ReadyToRead(i, greeting, refusal);
            if Known(i, hello, sysInfo) then
              var row := i.clients[i.cert.value];
              t == State(WaitingForShare, false, 0, row.user, row.client, -1, true, [], Message(HELLO, greeting),
                         [Greeted(row.user, row.client, sysInfo)])
            else t.status == WaitingForHello && t.working
  {
    assert [] + i.arrived == i.arrived;
    CodeBack(HELLO, PutMessage(hello) + PutMessage(sysInfo));
    MessageBack(hello, PutMessage(sysInfo));
    MessageBack(sysInfo, []);
    assert PutMessage(sysInfo) + [] == PutMessage(sysInfo);
    assert [] + Message(HELLO, greeting) == Message(HELLO, greeting);
  }

  lemma {:induction false} SharedIff(w: State, i: Input, name: seq<byte>, greeting: seq<byte>, refusal: seq<byte>)
    requires w.status == WaitingForShare && !w.working && w.input == []
    requires i.arrived == ClientShare(name) && |name| < 0x8000_0000
    ensures var t := w.ReadyToRead(i, greeting, refusal);
            if Granted(i, w.userKey, name) then
              var share := i.shares[(w.userKey, name)];
              t == w.(status := WaitingForOperation, shareKey := share, output := w.output + [OK],
                      marks := w.marks + [Shared(w.userKey, name, share)])
            else t.status == WaitingForShare && t.working
  {
    assert [] + i.arrived == i.arrived;
    CodeBack(SHARE, PutMessage(name));
    MessageBack(name, []);
    assert PutMessage(name) + [] == PutMessage(name);
  }

  /** The handshake that the client writes opens the connection exactly when the certificate is
      known with this system info and the share is granted to its user. Then the client reads the
      worker's side of it to the end, and a fresh connection and its worker are in step. */
  lemma {:induction false} HandshakeOpens(i: Input, j: Input, hello: seq<byte>, sysInfo: seq<byte>, name: seq<byte>, c: Conn,
                                          greeting: seq<byte>, refusal: seq<byte>)
    requires i.arrived == ClientGreeting(hello, sysInfo) && j.arrived == ClientShare(name)
    requires |hello| < 0x8000_0000 && |sysInfo| < 0x8000_0000 && |name| < 0x8000_0000 && 0 < |greeting| < 0x8000_0000
    requires Fresh(c)
    ensures var w := Start().ReadyToRead(i, greeting, refusal).ReadyToRead(j, greeting, refusal);
            && (w.status == WaitingForOperation <==>
                  Known(i, hello, sysInfo) && Granted(j, i.clients[i.cert.value].user, name))
            && (w.status == WaitingForOperation ==>
                  InitSocketReads(w.output) == (true, []) && InStep(c) && Mirrors(Pair(c, w, []), w.output))
  {
    var v := Start().ReadyToRead(i, greeting, refusal);
    GreetedIff(i, hello, sysInfo, greeting, refusal);
    if Known(i, hello, sysInfo) {
      SharedIff(v, j, name, greeting, refusal);
      if Granted(j, v.userKey, name) {
        var w := v.ReadyToRead(j, greeting, refusal);
        ServerSideRead(greeting);
        OpenedMirrors(w, c);
      }
    }
  }

  lemma {:induction false} ServerSideRead(greeting: seq<byte>)
    requires 0 < |greeting| < 0x8000_0000
    ensures InitSocketReads(Message(HELLO, greeting) + [OK]) == (true, [])
  {
    assert Message(HELLO, greeting) + [OK] == [HELLO] + (PutMessage(greeting) + [OK]);
    CodeBack(HELLO, PutMessage(greeting) + [OK]);
    MessageBack(greeting, [OK]);
    CodeBack(OK, []);
    assert [OK] + [] == [OK];
  }

  lemma {:induction false} OpenedMirrors(w: State, c: Conn)
    requires Fresh(c) && w.status == WaitingForOperation && !w.working && w.open && w.input == []
    requires |w.marks| == 2 && !w.marks[0].Executed? && !w.marks[1].Executed?
    ensures Mirrors(Pair(c, w, []), w.output)
  {
    assert w.marks == [w.marks[0]] + [w.marks[1]];
    PerformedMore([], w.marks[0]);
    PerformedMore([w.marks[0]], w.marks[1]);
    assert [] + [w.marks[0]] == [w.marks[0]];
    assert w.output + ([] + []) == w.output;
  }

  // ----- the same on whatever bytes arrive

  lemma {:induction false} TwoByteCode(s: seq<byte>)
    requires |s| == 2
    ensures FromBigEndian(s) == 256 * (s[0] as int) + s[1]
  {
    assert s[..1][..0] == [] && FromBigEndian(s[..1]) == s[0];
  }

  /** Two bytes are at hand that give the number of an operation. */
  ghost predicate OperationCodeAt(s: seq<byte>) {
    |s| >= 2 && 1 <= 256 * (s[0] as int) + s[1] <= 21
  }

  /** A call that waits for an operation accepts one exactly when two bytes are there that give a
      number from 1 to 21. It takes those two, answers one byte and goes into that operation. In every
      other case it closes the connection and writes nothing. */
  lemma {:induction false} OperationByBytes(w: State, i: Input, greeting: seq<byte>, refusal: seq<byte>)
    requires w.status == WaitingForOperation && !w.working && w.open
    ensures var s, t := w.input + i.arrived, w.ReadyToRead(i, greeting, refusal);
            if OperationCodeAt(s) then
              var op: nat := 256 * (s[0] as int) + s[1];
              t == w.(status := InOperation, operation := op, input := s[2..], output := w.output + [2],
                      marks := w.marks + [Accepted(op)])
            else t == w.(working := true, open := false, input := if |s| < 2 then [] else s[2..])
  {
    var s := w.input + i.arrived;
    if |s| >= 2 {
      TwoByteCode(s[..2]);
    }
  }

  /** The n-th call read the two bytes of the operation that the k-th mark is about. */
  ghost predicate ReadAt(inputs: seq<Input>, n: int, k: nat, op: nat, greeting: seq<byte>, refusal: seq<byte>) {
    && 0 <= n < |inputs|
    && var w := Run(inputs[..n], greeting, refusal);
       var s := w.input + inputs[n].arrived;
       && w.status == WaitingForOperation && |w.marks| == k
       && OperationCodeAt(s) && 256 * (s[0] as int) + s[1] == op
  }

  /** Over every run each operation that is accepted, and so each that is executed, stands for its two
      bytes, read by the call that accepted it. */
  lemma {:induction false} AcceptedByBytes(inputs: seq<Input>, k: nat, greeting: seq<byte>, refusal: seq<byte>)
    requires k < |Run(inputs, greeting, refusal).marks| && Run(inputs, greeting, refusal).marks[k].Accepted?
    ensures exists n :: ReadAt(inputs, n, k, Run(inputs, greeting, refusal).marks[k].op, greeting, refusal)
  {
    var m := |inputs| - 1;
    var front, i := inputs[..m], inputs[m];
    var w, t := Run(front, greeting, refusal), Run(inputs, greeting, refusal);
    if k < |w.marks| {
      w.NewMarkVouched(i, greeting, refusal);
      MarksGrow(w, t, i);
      AcceptedByBytes(front, k, greeting, refusal);
      var n :| ReadAt(front, n, k, w.marks[k].op, greeting, refusal);
      assert inputs[..n] == front[..n] && inputs[n] == front[n];
      assert ReadAt(inputs, n, k, t.marks[k].op, greeting, refusal);
    } else {
      RunOrdered(front, greeting, refusal);
      AcceptsOnlyWaiting(w, i, k, greeting, refusal);
      RunOpen(front, greeting, refusal);
      OperationByBytes(w, i, greeting, refusal);
      assert ReadAt(inputs, m, k, t.marks[k].op, greeting, refusal);
    }
  }

  lemma {:induction false} MarksGrow(w: State, t: State, i: Input)
    requires w.AddsVouched(t, i)
    ensures |w.marks| <= |t.marks| && t.marks[..|w.marks|] == w.marks
  {
  }

  lemma {:induction false} AcceptsOnlyWaiting(w: State, i: Input, k: nat, greeting: seq<byte>, refusal: seq<byte>)
    requires var t := w.ReadyToRead(i, greeting, refusal); |w.marks| <= k < |t.marks| && t.marks[k].Accepted?
    ensures w.status == WaitingForOperation && !w.working && k == |w.marks|
  {
  }

  /** Where `working` is not left set the connection is open. */
  lemma {:induction false} RunOpen(inputs: seq<Input>, greeting: seq<byte>, refusal: seq<byte>)
    ensures var w := Run(inputs, greeting, refusal); w.open || w.working
  {
    if inputs != [] {
      RunOpen(inputs[..|inputs| - 1], greeting, refusal);
    }
  }

  // ----- handshakes on whatever bytes arrive

  /** The stream starts with a text that is not empty, behind its length. */
  ghost predicate StartsWith(s: seq<byte>, text: seq<byte>, rest: seq<byte>) {
    0 < |text| < 0x8000_0000 && s == PutMessage(text) + rest
  }

  lemma {:induction false} MessageIff(s: seq<byte>)
    ensures ReadMessage(s).0 != [] ==> StartsWith(s, ReadMessage(s).0, ReadMessage(s).1)
    ensures ReadMessage(s).0 == [] ==> forall text, rest :: !StartsWith(s, text, rest)
  {
    if ReadMessage(s).0 != [] {
      ReadIsThere(s);
    }
    forall text, rest | StartsWith(s, text, rest) ensures ReadMessage(s).0 == text {
      MessageBack(text, rest);
    }
  }

  lemma {:induction false} ReadIsThere(s: seq<byte>)
    requires ReadMessage(s).0 != []
    ensures StartsWith(s, ReadMessage(s).0, ReadMessage(s).1)
  {
    var n := GetI32(s[..4]);
    FromBigEndianBound(s[..4]);
    assert FromBigEndian(s[..4]) == n;
    BigEndianEncodes(s[..4]);
    assert s == s[..4] + (s[4..][..n] + s[4..][n..]);
  }

  /** The stream starts with a code and a text. */
  ghost predicate Says(s: seq<byte>, code: byte, text: seq<byte>, rest: seq<byte>) {
    s != [] && s[0] == code && StartsWith(s[1..], text, rest)
  }

  lemma {:induction false} SaidIsRead(s: seq<byte>, code: byte)
    requires s != [] && s[0] == code
    ensures forall text, rest :: Says(s, code, text, rest) ==> ReadMessage(s[1..]) == (text, rest)
    ensures (forall text, rest :: !Says(s, code, text, rest)) ==> ReadMessage(s[1..]).0 == []
  {
    MessageIff(s[1..]);
    var (text, rest) := ReadMessage(s[1..]);
    assert text != [] ==> Says(s, code, text, rest);
    forall text, rest | Says(s, code, text, rest) ensures ReadMessage(s[1..]) == (text, rest) {
      MessageBack(text, rest);
    }
  }

  /** The connection is closed without a word, or with code 3 and the reason; nothing else changes but
      what has been read and the keys. */
  ghost predicate ClosedBy(w: State, t: State) {
    t == w.(working := true, open := false, input := t.input, userKey := t.userKey, clientKey := t.clientKey)
  }

  ghost predicate RefusedBy(w: State, t: State, refusal: seq<byte>) {
    t == w.(working := true, open := false, input := [], userKey := t.userKey, clientKey := t.clientKey,
            output := w.output + ([3] + PutMessage(refusal)))
  }

  /** What a call that waits for the greeting makes of any bytes that start with code 1 and a text: it
      closes the connection without a certificate or tables, refuses a certificate that is not on
      record, and then goes by the system info behind the text. */
  lemma {:induction false} HelloByBytes(w: State, i: Input, hello: seq<byte>, more: seq<byte>,
                                        greeting: seq<byte>, refusal: seq<byte>)
    requires w.status == WaitingForHello && !w.working && w.open && Says(w.input + i.arrived, 1, hello, more)
    ensures var t := w.ReadyToRead(i, greeting, refusal);
            if i.cert.None? || i.dbFails then ClosedBy(w, t)
            else if i.cert.value !in i.clients then RefusedBy(w, t, refusal)
            else
              var row := i.clients[i.cert.value];
              && ((forall sysInfo, rest :: !StartsWith(more, sysInfo, rest)) ==> ClosedBy(w, t))
              && forall sysInfo, rest :: StartsWith(more, sysInfo, rest) ==>
                   if sysInfo != row.sysInfo then RefusedBy(w, t, refusal)
                   else t == w.(status := WaitingForShare, userKey := row.user, clientKey := row.client, input := rest,
                                output := w.output + ([1] + PutMessage(greeting)),
                                marks := w.marks + [Greeted(row.user, row.client, sysInfo)])
  {
    var s := w.input + i.arrived;
    SaidIsRead(s, 1);
    ReasonBytes(greeting, refusal);
    MessageIff(more);
    forall sysInfo, rest | StartsWith(more, sysInfo, rest) ensures ReadMessage(more) == (sysInfo, rest) {
      MessageBack(sysInfo, rest);
    }
  }

  lemma {:induction false} ReasonBytes(greeting: seq<byte>, refusal: seq<byte>)
    ensures Message(HELLO, greeting) == [1] + PutMessage(greeting)
    ensures Message(ERROR, refusal) == [3] + PutMessage(refusal)
  {
  }

  /** Any other bytes close the connection without a word, but for code 5, which starts a registration. */
  lemma {:induction false} HelloWithoutGreeting(w: State, i: Input, greeting: seq<byte>, refusal: seq<byte>)
    requires w.status == WaitingForHello && !w.working && w.open
    requires forall hello, more :: !Says(w.input + i.arrived, 1, hello, more)
    ensures var s, t := w.input + i.arrived, w.ReadyToRead(i, greeting, refusal);
            if s != [] && s[0] == 5 then t == w.(working := true, input := s[1..]) else ClosedBy(w, t)
  {
    var s := w.input + i.arrived;
    if s != [] {
      ResultCodes(s[0]);
      if s[0] == 1 {
        SaidIsRead(s, 1);
      }
    }
  }

  /** What a call that waits for the share makes of any bytes that start with code 4 and a name. */
  lemma {:induction false} ShareByBytes(w: State, i: Input, name: seq<byte>, rest: seq<byte>,
                                        greeting: seq<byte>, refusal: seq<byte>)
    requires w.status == WaitingForShare && !w.working && w.open && Says(w.input + i.arrived, 4, name, rest)
    ensures var t := w.ReadyToRead(i, greeting, refusal);
            if i.dbFails then ClosedBy(w, t)
            else if (w.userKey, name) !in i.shares then RefusedBy(w, t, refusal)
            else
              var share := i.shares[(w.userKey, name)];
              t == w.(status := WaitingForOperation, shareKey := share, input := rest, output := w.output + [2],
                      marks := w.marks + [Shared(w.userKey, name, share)])
  {
    SaidIsRead(w.input + i.arrived, 4);
    ReasonBytes(greeting, refusal);
  }

  /** Any other bytes close the connection without a word. */
  lemma {:induction false} ShareWithoutName(w: State, i: Input, greeting: seq<byte>, refusal: seq<byte>)
    requires w.status == WaitingForShare && !w.working && w.open
    requires forall name, rest :: !Says(w.input + i.arrived, 4, name, rest)
    ensures ClosedBy(w, w.ReadyToRead(i, greeting, refusal))
  {
    var s := w.input + i.arrived;
    if s != [] {
      ResultCodes(s[0]);
      if s[0] == 4 {
        SaidIsRead(s, 4);
      }
    }
  }

  // ----- the worker object

  class SSNFSWorker {
    var status: Status
    var working: bool
    var operation: nat
    var userKey: int
    var clientKey: int
    var shareKey: int
    var open: bool
    var input: seq<byte>
    var output: seq<byte>
    ghost var marks: seq<Mark>

    ghost function St(): State
      reads this
    {
      State(status, working, operation, userKey, clientKey, shareKey, open, input, output, marks)
    }

    constructor ()
      ensures St() == Start()
    {
      status, working, operation := WaitingForHello, false, 0;
      userKey, clientKey, shareKey := -1, -1, -1;
      open, input, output, marks := true, [], [], [];
    }

    method ReadBytes(n: int) returns (b: seq<byte>)
      modifies `input
      ensures (b, input) == ReadExact(old(input), n)
    {
      if n <= 0 {
        return [];
      }
      if |input| < n {
        input := [];
        return [];
      }
      b := input[..n];
      input := input[n..];
    }

    method ReadText() returns (b: seq<byte>)
      modifies `input
      ensures (b, input) == ReadMessage(old(input))
    {
      var length := ReadBytes(4);
      b := ReadBytes(Number(length));
    }

    method ReadChunkData() returns (size: i64, offset: i64, data: seq<byte>)
      modifies `input
      ensures ((size, offset, data), input) == ReadChunk(old(input))
    {
      var b := ReadBytes(8);
      size := LongNumber(b);
      var low := IntOfLong(b);
      b := ReadBytes(8);
      offset := LongNumber(b);
      data := ReadBytes(low);
    }

    method ReadRequest() returns (r: Item)
      modifies `input
      ensures (r, input) == ReadItem(old(input))
    {
      var length := ReadBytes(2);
      var path := ReadBytes(FromBigEndian(length));
      var fd := ReadBytes(4);
      var size, offset, data := ReadChunkData();
      r := Item(|path|, path, Number(fd), size, offset, data);
    }

    method ReadRequests() returns (items: seq<Item>)
      modifies `input
      ensures (items, input) == ReadBatch(old(input))
    {
      var count := ReadBytes(4);
      items := ReadRepeated(FromBigEndian(count));
    }

    method ReadRepeated(count: nat) returns (items: seq<Item>)
      modifies `input
      ensures (items, input) == ReadMany(ReadItem, count, old(input))
    {
      items := [];
      ghost var all := ReadMany(ReadItem, count, input);
      for i := 0 to count
        invariant Underway(ReadItem, all, items, count - i, input)
      {
        OneMore(ReadItem, all, items, count - i, input);
        var r := ReadRequest();
        items := items + [r];
      }
      assert items + [] == items;
    }

    /** Reads users until the end mark. */
    method ReadUsers() returns (users: seq<User>)
      requires TakeUsers(input).Got?
      modifies `input
      ensures Got(users, input) == TakeUsers(old(input))
    {
      users := [];
      ghost var all := TakeUsers(input);
      while true
        invariant TakeUsers(input).Got?
        invariant all.value == users + TakeUsers(input).value && all.rest == TakeUsers(input).rest
        decreases |input|
      {
        UsersHead(input);
        var length := ReadBytes(4);
        if Number(length) == -1 {
          assert users + [] == users;
          break;
        }
        var name := ReadBytes(Number(length));
        var uid := ReadBytes(4);
        users := users + [User(name, FromBigEndian(uid))];
      }
    }

    method ReadArgument(k: Kind) returns (v: Value)
      requires Argument(k) && (k.KUsers? ==> TakeUsers(input).Got?)
      modifies `input
      ensures (v, input) == ReadField(k, old(input))
    {
      match k
      case KUsers =>
        LoopEndsIff(input);
        var users := ReadUsers();
        v := Users(users);
      case KBatch =>
        var items := ReadRequests();
        v := Batch(items);
      case KChunk =>
        var size, offset, data := ReadChunkData();
        v := Chunk(size, offset, data);
      case KStr32 =>
        var path := ReadText();
        v := Str32(path);
      case KStr16 =>
        var b := ReadBytes(2);
        b := ReadBytes(FromBigEndian(b));
        v := Str16(b);
      case KI64 =>
        var b := ReadBytes(8);
        v := I64(LongNumber(b));
      case KU32 =>
        var b := ReadBytes(4);
        v := U32(FromBigEndian(b));
      case KI32 =>
        var b := ReadBytes(4);
        v := I32(Number(b));
    }

    method ReadArguments(ks: seq<Kind>) returns (args: seq<Value>)
      requires forall k :: 0 <= k < |ks| ==> Argument(ks[k])
      requires KUsers in ks ==> ks == [KUsers] && TakeUsers(input).Got?
      modifies `input
      ensures (args, input) == ReadFields(ks, old(input))
    {
      args := [];
      ghost var all := ReadFields(ks, input);
      assert ks[0..] == ks;
      for k := 0 to |ks|
        invariant k == 0 ==> input == old(input)
        invariant all.0 == args + ReadFields(ks[k..], input).0 && all.1 == ReadFields(ks[k..], input).1
      {
        ghost var later := ReadFields(ks[k..], input);
        var v := ReadArgument(ks[k]);
        assert ks[k..][1..] == ks[k + 1..];
        assert later.0 == [v] + ReadFields(ks[k + 1..], input).0;
        args := args + [v];
      }
      assert ks[|ks|..] == [] && args + [] == args;
    }

    method Refuse(text: seq<byte>)
      modifies `input, `output, `open
      ensures input == [] && !open && output == old(output) + Message(ERROR, text)
    {
      input := [];
      output := output + Message(ERROR, text);
      open := false;
    }

    method Hello(i: Input, greeting: seq<byte>, refusal: seq<byte>)
      requires !working
      modifies this
      ensures St() == old(St()).Hello(i, greeting, refusal)
    {
      working := true;
      var b := ReadBytes(1);
      var code := if b == [] then 0 else ResultOf(b[0]);
      if code == REGISTER {
        return;
      }
      if code != HELLO || i.cert.None? {
        open := false;
        return;
      }
      Greet(i, greeting, refusal);
    }

    method Greet(i: Input, greeting: seq<byte>, refusal: seq<byte>)
      requires working && i.cert.Some?
      modifies this
      ensures St() == old(St()).(working := false).Greet(i, greeting, refusal)
    {
      var hello := ReadText();
      if hello == [] || i.dbFails {
        open := false;
        return;
      }
      if i.cert.value !in i.clients {
        Refuse(refusal);
        return;
      }
      var row := i.clients[i.cert.value];
      userKey, clientKey := row.user, row.client;
      var sysInfo := ReadText();
      if sysInfo == [] {
        open := false;
        return;
      }
      if sysInfo != row.sysInfo {
        Refuse(refusal);
        return;
      }
      output := output + Message(HELLO, greeting);
      marks := marks + [Greeted(row.user, row.client, sysInfo)];
      status := WaitingForShare;
      working := false;
    }

    method Share(i: Input, refusal: seq<byte>)
      requires !working
      modifies this
      ensures St() == old(St()).Share(i, refusal)
    {
      working := true;
      var b := ReadBytes(1);
      if b == [] || ResultOf(b[0]) != SHARE {
        open := false;
        return;
      }
      var name := ReadText();
      if name == [] || i.dbFails {
        open := false;
        return;
      }
      if (userKey, name) !in i.shares {
        Refuse(refusal);
        return;
      }
      shareKey := i.shares[(userKey, name)];
      output := output + [OK];
      marks := marks + [Shared(userKey, name, shareKey)];
      status := WaitingForOperation;
      working := false;
    }

    method Operation()
      requires !working
      modifies this
      ensures St() == old(St()).Operation()
    {
      working := true;
      var b := ReadBytes(2);
      var op := OperationOf(FromBigEndian(b));
      if op == -1 {
        open := false;
        return;
      }
      output := output + [OK];
      marks := marks + [Accepted(op)];
      status, operation := InOperation, op;
      working := false;
    }

    method Perform(i: Input)
      requires working && 1 <= operation <= MAX_OPERATION
      requires operation == UPDATE_LOCAL_USERS ==> TakeUsers(input).Got?
      modifies this
      ensures St() == old(St()).(working := false).Perform(i)
    {
      ArgumentsOf(operation);
      var args := ReadArguments(ServerArgs(operation));
      if Endless(World(i.rows, i.default, shareKey, userKey, i.facts), operation, args) {
        return;
      }
      output := output + PutAll(i.reply);
      marks := marks + [Executed(operation, args, userKey, clientKey, shareKey)];
      status := WaitingForOperation;
      working := false;
    }

    method Execute(i: Input)
      requires !working
      modifies this
      ensures St() == old(St()).Execute(i)
    {
      working := true;
      if operation == UPDATE_LOCAL_USERS {
        LoopEndsIff(input);
        if UsersLoop(input, |input| + 1).More? {
          input := [];
          return;
        }
      }
      if 1 <= operation <= MAX_OPERATION {
        Perform(i);
      } else {
        working := false;
      }
    }

    method ReadyToRead(i: Input, greeting: seq<byte>, refusal: seq<byte>)
      modifies this
      ensures St() == old(St()).ReadyToRead(i, greeting, refusal)
    {
      input := input + i.arrived;
      if working {
        return;
      }
      match status
      case WaitingForHello => Hello(i, greeting, refusal);
      case WaitingForShare => Share(i, refusal);
      case WaitingForOperation => Operation();
      case InOperation => Execute(i);
    }
  }
}
