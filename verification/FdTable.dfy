/** The worker's table of fake file descriptors over the kernel's open files, and what open,
    write, writebulk and release do to it. */
module FdTable {
  import opened Bytes

  /** The bytes of a path. */
  type Path = seq<byte>

  const INT_MAX := 0x7fff_ffff
  const ENOENT := 2
  const EBADF := 9
  const EINVAL := 22
  const EBADFD := 77

  /** The length that lstat reports for every link in /proc/self/fd, whatever it points to. */
  const LINK_SIZE := 64

  /** What permission check and kernel answer to an open; error numbers are positive. */
  datatype OpenOutcome = Opened(realFd: int) | Refused(errno: int)

  /** What the kernel answers to a close: an error may leave the descriptor open or not. */
  datatype CloseOutcome = Closed | CloseFailed(errno: int, stillOpen: bool)

  /** What the kernel answers to a write: how many bytes it took, or an error. */
  datatype WriteOutcome = Wrote(n: nat) | WriteFailed(errno: int)

  datatype Request = Request(fd: int, path: Path, size: int, offset: int, data: seq<byte>)

  /** Every write is carried out in full. */
  function Full(rs: seq<Request>): seq<WriteOutcome> {
    seq(|rs|, i requires 0 <= i < |rs| => Wrote(|rs[i].data|))
  }

  // ----- files

  /** Contents after writing the whole of d at the given offset; a hole reads as zeros. */
  function Pwrite(c: seq<byte>, offset: nat, d: seq<byte>): (r: seq<byte>)
  {
    if d == [] then c
    else
      var padded := if |c| < offset then c + Zeros(offset - |c|) else c;
      padded[..offset] + d + if offset + |d| < |padded| then padded[offset + |d|..] else []
  }

  /** After a write of at least one byte, byte i is the one written there, else the old one, else
      zero in a hole. */
  lemma {:induction false} PwriteByte(c: seq<byte>, offset: nat, d: seq<byte>, i: nat)
    requires d != []
    ensures var r := Pwrite(c, offset, d);
            && |r| == (if |c| > offset + |d| then |c| else offset + |d|)
            && (i < |r| ==> r[i] == if offset <= i < offset + |d| then d[i - offset] else if i < |c| then c[i] else 0)
  {
  }

  /** Two consecutive writes are one write of both pieces. */
  lemma {:induction false} PwriteAppend(c: seq<byte>, offset: nat, d: seq<byte>, e: seq<byte>)
    ensures Pwrite(Pwrite(c, offset, d), offset + |d|, e) == Pwrite(c, offset, d + e)
  {
    if d == [] {
      assert d + e == e;
    } else if e == [] {
      assert d + e == d;
    } else {
      var one, two := Pwrite(c, offset, d + e), Pwrite(Pwrite(c, offset, d), offset + |d|, e);
      assert |one| == |two|;
      assert forall i :: 0 <= i < |one| ==> one[i] == two[i];
    }
  }

  type Files = map<Path, seq<byte>>

  function Contents(files: Files, p: Path): seq<byte> {
    if p in files then files[p] else []
  }

  function Put(files: Files, p: Path, offset: nat, d: seq<byte>): Files {
    files[p := Pwrite(Contents(files, p), offset, d)]
  }

  // ----- free descriptor numbers

  /** The first number from i on that is not a key, or -1. */
  function FirstFree(fds: map<int, int>, i: nat): int
    decreases INT_MAX - i, fds
  {
    if i >= INT_MAX then -1 else if i !in fds then i else FirstFree(fds, i + 1)
  }

  lemma {:induction false} FirstFreeIsLeast(fds: map<int, int>, i: nat)
    ensures var k := FirstFree(fds, i);
            if k == -1 then forall j :: i <= j < INT_MAX ==> j in fds
            else i <= k < INT_MAX && k !in fds && forall j :: i <= j < k ==> j in fds
    decreases INT_MAX - i, fds
  {
    if i < INT_MAX && i in fds {
      FirstFreeIsLeast(fds, i + 1);
    }
  }

  /** Pigeonhole: among 1 .. |fds| + 1 a number is free, so the search ends there. */
  lemma {:induction false} FirstFreeSoon(fds: map<int, int>)
    requires |fds| + 1 < INT_MAX
    ensures 1 <= FirstFree(fds, 1) <= |fds| + 1
  {
    FirstFreeIsLeast(fds, 1);
    if FirstFree(fds, 1) == -1 || FirstFree(fds, 1) > |fds| + 1 {
      var used := UpToSet(|fds| + 1);
      assert forall k :: k in used ==> k in fds.Keys;
      SubsetSize(used, fds.Keys);
      assert false;
    }
  }

  // ----- the state of one worker

  datatype State = State(localPath: Path, fds: map<int, int>, open: map<int, Path>, files: Files)
  {
    /** A missing key reads as 0, the default value of the hash table. */
    function RealFd(fake: int): int {
      if fake in fds then fds[fake] else 0
    }

    function Open(path: Path, create: bool, trunc: bool, outcome: OpenOutcome): (r: (State, int)) {
      match outcome
      case Refused(errno) => (this, -errno)
      case Opened(kfd) =>
        var p := localPath + path;
        var s := this.(open := open[kfd := p],
                       files := if trunc || (create && p !in files) then files[p := []] else files);
        var fake := FirstFree(fds, 1);
        if fake == -1 then (s, -EBADFD) else (s.(fds := fds[fake := kfd]), fake)
    }

    /** The branch taken when the link of the real descriptor is compared with the path. A link
        longer than the reported length is taken for one that has just grown. */
    function Check(path: Path, fake: int): int {
      if RealFd(fake) !in open then -ENOENT
      else if |open[RealFd(fake)]| > LINK_SIZE then -1
      else if open[RealFd(fake)] != localPath + path then -EBADF
      else 0
    }

    function Write(r: Request, o: WriteOutcome): (State, int) {
      if Check(r.path, r.fd) != 0 then (this, Check(r.path, r.fd))
      else if r.size < 0 || r.offset < 0 then (this, -EINVAL)
      else
        match o
        case Wrote(n) =>
          var d := if n < |r.data| then r.data[..n] else r.data;
          (this.(files := Put(files, localPath + r.path, r.offset, d)), |d|)
        case WriteFailed(errno) => (this, -errno)
    }

    /** All requests in order; the result is the last error, or 0. */
    function WriteBulk(rs: seq<Request>, os: seq<WriteOutcome>): (State, int)
      requires |rs| == |os|
    {
      if rs == [] then (this, 0)
      else
        var n := |rs| - 1;
        var (s, result) := WriteBulk(rs[..n], os[..n]);
        var (t, res) := s.Write(rs[n], os[n]);
        (t, if res < 0 then res else result)
    }

    function Release(path: Path, fake: int, outcome: CloseOutcome): (State, int) {
      var s := this.(fds := fds - {fake});
      if Check(path, fake) != 0 then (s, Check(path, fake))
      else
        match outcome
        case Closed => (s.(open := open - {RealFd(fake)}), 0)
        case CloseFailed(errno, stillOpen) =>
          (if stillOpen then s else s.(open := open - {RealFd(fake)}), -errno)
    }

    // ----- the descriptor invariant

    /** The fake descriptor is in use for the file p. */
    ghost predicate Names(fake: int, p: Path) {
      fake in fds && fds[fake] in open && open[fds[fake]] == p
    }

    /** A descriptor in use passes the comparison with its own path exactly when the path, with
        that of the share, is at most 64 bytes long. */
    lemma {:induction false} LongLinksFailIff(path: Path, fake: int)
      requires Names(fake, localPath + path)
      ensures Check(path, fake) == 0 <==> |localPath + path| <= LINK_SIZE
      ensures |localPath + path| > LINK_SIZE ==>
                && (forall r: Request, o :: r.fd == fake && r.path == path ==> Write(r, o) == (this, -1))
                && (forall o :: Release(path, fake, o) == (this.(fds := fds - {fake}), -1))
    {
    }

    ghost predicate Mapped(kfd: int) {
      exists k :: k in fds && fds[k] == kfd
    }

    ghost predicate FdInv() {
      && (forall k :: k in fds ==> 1 <= k < INT_MAX && fds[k] in open)
      && (forall j, k :: j in fds && k in fds && fds[j] == fds[k] ==> j == k)
    }

    /** What an open answers: the error of the kernel; an error of its own when every number is in
        use; else the least positive number that is not, which then names the file just opened. */
    lemma {:induction false} OpenAnswers(path: Path, create: bool, trunc: bool, outcome: OpenOutcome)
      requires outcome.Refused? ==> outcome.errno > 0
      ensures var (t, res) := Open(path, create, trunc, outcome);
              && (res < 0 <==> outcome.Refused? || forall j :: 1 <= j < INT_MAX ==> j in fds)
              && (res < 0 ==> res == if outcome.Refused? then -outcome.errno else -EBADFD)
              && (res >= 0 ==> 1 <= res < INT_MAX && res !in fds && forall j :: 1 <= j < res ==> j in fds)
              && (res >= 0 ==> t.fds == fds[res := outcome.realFd] && t.Names(res, localPath + path))
              && (res < 0 ==> t.fds == fds)
    {
      FirstFreeIsLeast(fds, 1);
    }

    /** What a write through a descriptor in use does: nothing unless the descriptor is for the path;
        then the bytes that the kernel takes, and no others, change that file and no other. */
    lemma {:induction false} WriteAnswers(r: Request, o: WriteOutcome, p: Path)
      requires Names(r.fd, p) && r.size >= 0 && r.offset >= 0 && (o.WriteFailed? ==> o.errno > 0)
      ensures var (t, res) := Write(r, o);
              && t == this.(files := t.files)
              && (|p| <= LINK_SIZE && p != localPath + r.path ==> res == -EBADF)
              && (res < 0 ==> t.files == files)
              && (|p| <= LINK_SIZE && p == localPath + r.path ==>
                    if o.WriteFailed? then res == -o.errno
                    else
                      && res == (if o.n < |r.data| then o.n else |r.data|)
                      && t.files == files[p := Pwrite(Contents(files, p), r.offset, r.data[..res])])
    {
      assert r.data[..|r.data|] == r.data;
    }

    /** A negative size or offset is refused where the descriptor is the right one. */
    lemma {:induction false} NegativeRefused(r: Request, o: WriteOutcome)
      requires r.size < 0 || r.offset < 0
      ensures var (t, res) := Write(r, o);
              t == this && res < 0 && (Check(r.path, r.fd) == 0 ==> res == -EINVAL)
    {
    }

    /** What the k-th request is answered when it is carried out after those before it. */
    function RequestAnswer(rs: seq<Request>, os: seq<WriteOutcome>, k: nat): int
      requires k < |rs| == |os|
    {
      WriteBulk(rs[..k], os[..k]).0.Write(rs[k], os[k]).1
    }

    function RequestAnswers(rs: seq<Request>, os: seq<WriteOutcome>, n: nat): (r: seq<int>)
      requires n <= |rs| == |os|
      ensures |r| == n && forall k :: 0 <= k < n ==> r[k] == RequestAnswer(rs, os, k)
    {
      seq(n, k requires 0 <= k < n => RequestAnswer(rs, os, k))
    }

    /** The result of a bulk request is the last error of its requests, each carried out after those
        before it, or 0 when there was none. */
    lemma {:induction false} BulkAnswers(rs: seq<Request>, os: seq<WriteOutcome>)
      requires |rs| == |os|
      ensures LastError(RequestAnswers(rs, os, |rs|), WriteBulk(rs, os).1)
    {
      if rs != [] {
        var n := |rs| - 1;
        BulkAnswers(rs[..n], os[..n]);
        PrefixAnswers(rs, os, n);
        OneMoreAnswer(RequestAnswers(rs, os, n), WriteBulk(rs[..n], os[..n]).1, RequestAnswer(rs, os, n));
        assert RequestAnswers(rs, os, |rs|) == RequestAnswers(rs, os, n) + [RequestAnswer(rs, os, n)];
      }
    }

    lemma {:induction false} PrefixAnswers(rs: seq<Request>, os: seq<WriteOutcome>, n: nat)
      requires n <= |rs| == |os|
      ensures RequestAnswers(rs[..n], os[..n], n) == RequestAnswers(rs, os, n)
    {
      forall k | 0 <= k < n ensures RequestAnswer(rs[..n], os[..n], k) == RequestAnswer(rs, os, k) {
        assert rs[..n][..k] == rs[..k] && os[..n][..k] == os[..k];
      }
    }

    /** What a release of a descriptor in use does: its number is free in any case, but the file is
        closed only if the descriptor is for the path and the close did not fail and leave it open. */
    lemma {:induction false} ReleaseAnswers(path: Path, fake: int, o: CloseOutcome, p: Path)
      requires Names(fake, p) && (o.CloseFailed? ==> o.errno > 0)
      ensures var (t, res) := Release(path, fake, o);
              && t == this.(fds := fds - {fake}, open := t.open)
              && var own := |p| <= LINK_SIZE && p == localPath + path;
              && t.open == (if own && !(o.CloseFailed? && o.stillOpen) then open - {fds[fake]} else open)
              && (res == 0 <==> own && o.Closed?)
              && (own && o.CloseFailed? ==> res == -o.errno)
              && (|p| <= LINK_SIZE && p != localPath + path ==> res == -EBADF)
    {
    }

    /** A number that is not in use stands for descriptor 0. */
    lemma {:induction false} UnknownIsZero(path: Path, fake: int)
      requires fake !in fds
      ensures Check(path, fake) == 0 <==> 0 in open && open[0] == localPath + path && |open[0]| <= LINK_SIZE
      ensures 0 !in open ==> Check(path, fake) == -ENOENT
    {
    }

    lemma {:induction false} OpenKeepsFdInv(path: Path, create: bool, trunc: bool, outcome: OpenOutcome)
      requires FdInv() && (outcome.Opened? ==> outcome.realFd !in open)
      ensures Open(path, create, trunc, outcome).0.FdInv()
    {
      FirstFreeIsLeast(fds, 1);
    }

    /** Release keeps the invariant unless it closes descriptor 0 on behalf of a fake descriptor
        that is not in the table while another one is mapped to 0. */
    lemma {:induction false} ReleaseKeepsFdInvIff(path: Path, fake: int, outcome: CloseOutcome)
      requires FdInv()
      ensures Release(path, fake, outcome).0.FdInv() <==>
              !(&& fake !in fds
                && Mapped(0)
                && Check(path, fake) == 0
                && !(outcome.CloseFailed? && outcome.stillOpen))
    {
      var s := Release(path, fake, outcome).0;
      if fake !in fds && Mapped(0) && Check(path, fake) == 0 && !(outcome.CloseFailed? && outcome.stillOpen) {
        var k :| k in fds && fds[k] == 0;
        assert k in s.fds && s.fds[k] !in s.open;
      }
    }
  }

  /** The last negative answer, or 0. */
  ghost predicate LastError(answers: seq<int>, result: int) {
    if result == 0 then forall k :: 0 <= k < |answers| ==> answers[k] >= 0
    else
      && result < 0
      && exists k :: 0 <= k < |answers| && answers[k] == result && NoErrorBehind(answers, k)
  }

  ghost predicate NoErrorBehind(answers: seq<int>, k: int) {
    forall j :: 0 <= k < j < |answers| ==> answers[j] >= 0
  }

  lemma {:induction false} OneMoreAnswer(answers: seq<int>, result: int, a: int)
    requires LastError(answers, result)
    ensures LastError(answers + [a], if a < 0 then a else result)
  {
    var more := answers + [a];
    if a < 0 {
      assert more[|answers|] == a && NoErrorBehind(more, |answers|);
    } else if result != 0 {
      var k :| 0 <= k < |answers| && answers[k] == result && NoErrorBehind(answers, k);
      assert more[k] == result && NoErrorBehind(more, k);
    }
  }

  function UpToSet(n: nat): (s: set<int>)
    ensures |s| == n
    ensures forall k :: k in s <==> 1 <= k <= n
  {
    if n == 0 then {} else UpToSet(n - 1) + {n}
  }

  lemma {:induction false} SubsetSize<T>(a: set<T>, b: set<T>)
    requires a <= b
    ensures |a| <= |b|
    decreases |a|
  {
    if a != {} {
      var x :| x in a;
      SubsetSize(a - {x}, b - {x});
    }
  }

  // ----- the worker object

  /** The worker's table, next to the kernel state that its system calls act on. */
  class FileWorker {
    const localPath: Path
    var fds: map<int, int>
    var open: map<int, Path>
    var files: Files

    function St(): State
      reads this
    {
      State(localPath, fds, open, files)
    }

    constructor (localPath: Path, open: map<int, Path>, files: Files)
      ensures St() == State(localPath, map[], open, files)
    {
      this.localPath := localPath;
      this.fds, this.open, this.files := map[], open, files;
    }

    method Open(path: Path, create: bool, trunc: bool, outcome: OpenOutcome) returns (res: int)
      modifies this
      ensures (St(), res) == old(St()).Open(path, create, trunc, outcome)
    {
      if outcome.Refused? {
        return -outcome.errno;
      }
      var p := localPath + path;
      if trunc || (create && p !in files) {
        files := files[p := []];
      }
      open := open[outcome.realFd := p];
      var fake := SmallestFree();
      if fake == -1 {
        return -EBADFD;
      }
      fds := fds[fake := outcome.realFd];
      return fake;
    }

    /** Tries 1, 2, 3, ... and returns the least positive number that is not in use. */
    method SmallestFree() returns (fake: int)
      ensures fake == -1 ==> forall j :: 1 <= j < INT_MAX ==> j in fds
      ensures fake != -1 ==> 1 <= fake < INT_MAX && fake !in fds && forall j :: 1 <= j < fake ==> j in fds
      ensures fake == FirstFree(fds, 1)
    {
      fake := -1;
      var i := 1;
      while i < INT_MAX
        invariant 1 <= i <= INT_MAX && fake == -1
        invariant forall j :: 1 <= j < i ==> j in fds
        invariant FirstFree(fds, i) == FirstFree(fds, 1)
      {
        if i !in fds {
          fake := i;
          break;
        }
        i := i + 1;
      }
    }

    /** The comparison with /proc: 0 when the descriptor belongs to the path, else the error. */
    method CheckFd(path: Path, fake: int) returns (realFd: int, err: int)
      ensures realFd == St().RealFd(fake) && err == St().Check(path, fake)
    {
      realFd := if fake in fds then fds[fake] else 0;
      if realFd !in open {
        err := -ENOENT;
      } else if |open[realFd]| > LINK_SIZE {
        err := -1;
      } else if open[realFd] != localPath + path {
        err := -EBADF;
      } else {
        err := 0;
      }
    }

    method Write(r: Request, o: WriteOutcome) returns (res: int)
      modifies `files
      ensures (St(), res) == old(St()).Write(r, o)
    {
      var realFd, err := CheckFd(r.path, r.fd);
      if err != 0 {
        return err;
      }
      if r.size < 0 || r.offset < 0 {
        return -EINVAL;
      }
      match o
      case WriteFailed(errno) => return -errno;
      case Wrote(n) =>
        var d := if n < |r.data| then r.data[..n] else r.data;
        files := Put(files, localPath + r.path, r.offset, d);
        return |d|;
    }

    method WriteBulk(rs: seq<Request>, os: seq<WriteOutcome>) returns (result: int)
      requires |rs| == |os|
      modifies `files
      ensures (St(), result) == old(St()).WriteBulk(rs, os)
    {
      result := 0;
      for i := 0 to |rs|
        invariant (St(), result) == old(St()).WriteBulk(rs[..i], os[..i])
      {
        assert rs[..i + 1][..i] == rs[..i] && os[..i + 1][..i] == os[..i];
        var res := Write(rs[i], os[i]);
        if res < 0 {
          result := res;
        }
      }
      assert rs[..|rs|] == rs && os[..|rs|] == os;
    }

    /** The mapping goes whether or not the path matched or the close succeeded. */
    method Release(path: Path, fake: int, outcome: CloseOutcome) returns (res: int)
      modifies this
      ensures (St(), res) == old(St()).Release(path, fake, outcome)
    {
      var realFd, err := CheckFd(path, fake);
      if err != 0 {
        res := err;
      } else if outcome.Closed? {
        open := open - {realFd};
        res := 0;
      } else {
        if !outcome.stillOpen {
          open := open - {realFd};
        }
        res := -outcome.errno;
      }
      fds := fds - {fake};
    }
  }

  // ----- whole runs

  datatype FdEvent =
    | FdOpen(path: Path, create: bool, trunc: bool, outcome: OpenOutcome)
    | FdWrite(request: Request, result: WriteOutcome)
    | FdRelease(path: Path, fake: int, close: CloseOutcome)

  function FdStep(s: State, e: FdEvent): State {
    match e
    case FdOpen(path, create, trunc, outcome) => s.Open(path, create, trunc, outcome).0
    case FdWrite(r, o) => s.Write(r, o).0
    case FdRelease(path, fake, close) => s.Release(path, fake, close).0
  }

  /** The one thing asked of the kernel: an open returns a descriptor that is not in use. */
  ghost predicate KernelOk(s: State, e: FdEvent) {
    e.FdOpen? && e.outcome.Opened? ==> e.outcome.realFd !in s.open
  }

  ghost predicate FdRun(s: State, events: seq<FdEvent>, t: State)
    decreases |events|
  {
    if events == [] then s == t
    else KernelOk(s, events[0]) && FdRun(FdStep(s, events[0]), events[1..], t)
  }

  /** Descriptor 0 is open and is not a file of the share. */
  ghost predicate StdinOutside(s: State) {
    0 in s.open && !(s.localPath <= s.open[0]) && !s.Mapped(0)
  }

  /** Over every run, whatever is opened, written or released, and however closes fail: keys are
      positive, live fake descriptors have open real ones, and no two share one. */
  lemma {:induction false} RunKeepsFdInv(s: State, events: seq<FdEvent>, t: State)
    requires s.FdInv() && StdinOutside(s) && FdRun(s, events, t)
    ensures t.FdInv() && StdinOutside(t)
    decreases |events|
  {
    if events != [] {
      var u := FdStep(s, events[0]);
      StepKeepsFdInv(s, events[0]);
      RunKeepsFdInv(u, events[1..], t);
    }
  }

  lemma {:induction false} StepKeepsFdInv(s: State, e: FdEvent)
    requires s.FdInv() && StdinOutside(s) && KernelOk(s, e)
    ensures FdStep(s, e).FdInv() && StdinOutside(FdStep(s, e))
  {
    match e
    case FdOpen(path, create, trunc, outcome) =>
      s.OpenKeepsFdInv(path, create, trunc, outcome);
    case FdWrite(r, o) =>
    case FdRelease(path, fake, close) =>
      s.ReleaseKeepsFdInvIff(path, fake, close);
      assert forall p: Path :: s.localPath <= s.localPath + p;
  }

  /** The condition on descriptor 0 is needed. In a server whose standard input was redirected from
      a file of the share, a release of that file for an unknown fake descriptor closes descriptor
      0, the next open gets it, a second such release closes it behind the table's back, and the
      next open shares its number. */
  lemma {:induction false} StdinInShareBreaksSharing(s: State, path: Path) returns (events: seq<FdEvent>, t: State)
    requires s.FdInv() && s.fds == map[]
    requires 0 in s.open && s.open[0] == s.localPath + path && |s.localPath + path| <= LINK_SIZE
    ensures FdRun(s, events, t) && t.fds == map[1 := 0, 2 := 0]
  {
    var release, open := FdRelease(path, 7, Closed), FdOpen(path, true, false, Opened(0));
    var s1 := FdStep(s, release);
    assert s1.fds == map[] && 0 !in s1.open;
    var s2 := Reopened(s1, open);
    var s3 := FdStep(s2, release);
    assert s3.fds == map[1 := 0] && 0 !in s3.open;
    t := Reopened(s3, open);
    events := [release, open, release, open];
    assert events[1..] == [open, release, open] && events[1..][1..] == [release, open];
    assert [release, open][1..] == [open] && [open][1..] == [];
    assert FdRun(t, [], t) && FdRun(s3, [open], t) && FdRun(s2, [release, open], t);
  }

  lemma {:induction false} Reopened(s: State, e: FdEvent) returns (t: State)
    requires e.FdOpen? && e.outcome == Opened(0)
    requires s.fds == map[] || s.fds == map[1 := 0]
    ensures t == FdStep(s, e) && t.localPath == s.localPath && 0 in t.open && t.open[0] == s.localPath + e.path
    ensures t.fds == if s.fds == map[] then map[1 := 0] else map[1 := 0, 2 := 0]
  {
    t := FdStep(s, e);
    FirstFreeIsLeast(s.fds, 1);
    assert 2 !in s.fds;
  }
}
