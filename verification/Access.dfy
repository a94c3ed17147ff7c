/** Which permissions the branch of an operation looks up, and whether those lookups end. */
module Access {
  import opened Bytes
  import opened Wire
  import opened Permissions

  const O_CREAT := 64

  /** What the file system says of the target: that it is there, that access to it is granted, and
      that its mode is in the range in which getattr replaces the permissions. */
  datatype Facts = Facts(present: bool, accessible: bool, plainMode: bool)

  /** Everything that the lookups of an operation depend on beside its arguments. */
  datatype World = World(rows: seq<Row>, default: string, share: int, user: int, facts: Facts)

  // ----- arguments

  function PathArgument(args: seq<Value>, k: nat): seq<byte> {
    if k >= |args| then []
    else
      match args[k]
      case Str16(s) => s
      case Str32(s) => s
      case _ => []
  }

  function NumberArgument(args: seq<Value>, k: nat): int {
    if k < |args| && args[k].I32? then args[k].i else 0
  }

  /** A path with one character for each byte. */
  function Text(b: seq<byte>): (p: Path)
    ensures |p| == |b|
  {
    seq(|b|, i requires 0 <= i < |b| => b[i] as char)
  }

  /** A path handed on as a string ends at its first zero. */
  function UpToNul(p: Path): Path {
    if p == "" || p[0] == '\0' then "" else [p[0]] + UpToNul(p[1..])
  }

  function Target(b: seq<byte>): Path {
    UpToNul(Text(b))
  }

  function Directory(b: seq<byte>): Path {
    UpToNul(Parent(Text(b)))
  }

  /** A path is taken byte by byte up to its first zero. */
  lemma {:induction false} TargetIs(b: seq<byte>)
    ensures var p := Target(b);
            && |p| <= |b| && (forall i :: 0 <= i < |p| ==> p[i] as int == b[i] && b[i] != 0)
            && (|p| < |b| ==> b[|p|] == 0)
  {
    UpToNulIs(Text(b));
    assert forall i :: 0 <= i < |b| ==> Text(b)[i] as int == b[i];
  }

  lemma {:induction false} UpToNulIs(p: Path)
    ensures var q := UpToNul(p);
            && |q| <= |p| && (forall i :: 0 <= i < |q| ==> q[i] == p[i] != '\0')
            && (|q| < |p| ==> p[|q|] == '\0')
  {
    if p != "" && p[0] != '\0' {
      UpToNulIs(p[1..]);
    }
  }

  /** The directory of a path is what is before its last '/', or the path itself when there is none. */
  lemma {:induction false} DirectoryIs(up: seq<byte>, name: seq<byte>)
    requires 0x2f !in name
    ensures Directory(up + [0x2f] + name) == Target(up)
    ensures Directory(name) == Target(name)
  {
    var b := up + [0x2f] + name;
    assert Text(b)[|up|] == '/' && forall i :: |up| < i < |b| ==> Text(b)[i] != '/';
    assert Text(b)[..|up|] == Text(up);
    assert forall i :: 0 <= i < |name| ==> Text(name)[i] != '/';
  }

  // ----- lookups

  function AskerOf(w: World, args: seq<Value>): Asker {
    Asker(w.share, w.user, NumberArgument(args, 0))
  }

  /** Permissions are asked for the share and user of the connection and the uid that came first. */
  lemma {:induction false} AskerIs(w: World, args: seq<Value>, uid: i32)
    requires args != [] && args[0] == I32(uid)
    ensures var a := AskerOf(w, args); a.share == w.share && a.user == w.user && a.uid == uid
  {
  }

  function Lookup(w: World, args: seq<Value>, p: Path): Outcome {
    GetPerms(w.rows, w.default, AskerOf(w, args), p)
  }

  function Creates(flags: int): bool {
    flags / O_CREAT % 2 == 1
  }

  /** An open that creates a file first looks up its directory, and goes on to the file itself only
      if that is writable. */
  function OpenLookups(w: World, args: seq<Value>): (ps: seq<Path>)
    ensures forall p :: p in ps ==> p == Target(PathArgument(args, 1)) || p == Directory(PathArgument(args, 1))
  {
    var target, directory := Target(PathArgument(args, 1)), Directory(PathArgument(args, 1));
    if Creates(NumberArgument(args, 2)) && !w.facts.present then
      var first := Lookup(w, args, directory);
      if first.Perms? && 'w' in first.perms then [directory, target] else [directory]
    else [target]
  }

  /** The paths whose permissions the branch of an operation looks up, in order. */
  function Lookups(w: World, op: int, args: seq<Value>): seq<Path> {
    var path := PathArgument(args, 1);
    match op
    case 1 => if w.facts.plainMode then [Target(path)] else []        // getattr
    case 2 => [Target(path)]                                          // readdir
    case 3 => OpenLookups(w, args)                                    // open
    case 5 => if w.facts.accessible then [Target(path)] else []       // access
    case 6 => [Target(path)]                                          // readlink
    case 7 => [Directory(path)]                                       // mknod
    case 8 => [Directory(path)]                                       // mkdir
    case 9 => [Directory(path)]                                       // unlink
    case 10 => [Directory(path)]                                      // rmdir
    case 11 => [Directory(PathArgument(args, 2))]                     // symlink: of the link
    case 12 => [Directory(path), Directory(PathArgument(args, 2))]    // rename: of both
    case 13 => if w.facts.present then [Target(path)] else []          // chmod
    case 14 => if w.facts.present then [Target(path)] else []          // chown
    case 15 => [Target(path)]                                         // truncate
    case 16 => [Target(path)]                                         // utimens
    case _ => []
  }

  /** Reading and changing a file asks for the file, where it is there to be asked for; making and
      removing a name asks for the directory it is in; what goes through a descriptor, and the state
      of the file system, ask for nothing. */
  lemma {:induction false} LookedUp(w: World, op: int, args: seq<Value>)
    ensures var path := PathArgument(args, 1);
            && (op in {2, 6, 15, 16} ==> Lookups(w, op, args) == [Target(path)])
            && (op == 1 ==> Lookups(w, op, args) == if w.facts.plainMode then [Target(path)] else [])
            && (op == 5 ==> Lookups(w, op, args) == if w.facts.accessible then [Target(path)] else [])
            && (op in {13, 14} ==> Lookups(w, op, args) == if w.facts.present then [Target(path)] else [])
            && (op in {7, 8, 9, 10} ==> Lookups(w, op, args) == [Directory(path)])
            && (op == 11 ==> Lookups(w, op, args) == [Directory(PathArgument(args, 2))])
            && (op == 12 ==> Lookups(w, op, args) == [Directory(path), Directory(PathArgument(args, 2))])
            && (op in {4, 17, 18, 19, 20, 21} ==> Lookups(w, op, args) == [])
  {
  }

  /** An open asks for the file, and before it for the directory where it would create the file; the
      file is then asked for only if the directory may be written. */
  lemma {:induction false} OpenLooksUp(w: World, args: seq<Value>)
    ensures var creates := NumberArgument(args, 2) / 64 % 2 == 1 && !w.facts.present;
            var ps, path := Lookups(w, 3, args), PathArgument(args, 1);
            && (!creates ==> ps == [Target(path)])
            && (creates ==> ps != [] && ps[0] == Directory(path))
            && (creates ==> (ps[1..] == [Target(path)] <==>
                  exists perms :: Lookup(w, args, Directory(path)) == Perms(perms) && 'w' in perms))
            && (creates && ps[1..] != [Target(path)] ==> ps[1..] == [])
  {
    var first := Lookup(w, args, Directory(PathArgument(args, 1)));
    assert first.Perms? && 'w' in first.perms ==> first == Perms(first.perms);
  }

  /** Some lookup comes back to the same path for ever. */
  predicate Endless(w: World, op: int, args: seq<Value>) {
    exists k :: 0 <= k < |Lookups(w, op, args)| && Lookup(w, args, Lookups(w, op, args)[k]).Diverges?
  }

  /** The path is empty or absolute, or the table lists it or a directory above it. */
  ghost predicate Resolvable(w: World, args: seq<Value>, p: Path) {
    Absolute(p) || !Unlisted(w.rows, AskerOf(w, args), p)
  }

  ghost predicate AllResolve(w: World, op: int, args: seq<Value>) {
    forall k :: 0 <= k < |Lookups(w, op, args)| ==> Resolvable(w, args, Lookups(w, op, args)[k])
  }

  /** A branch hangs in a lookup exactly when it looks up a path that is not absolute and neither
      listed nor below a listed one. */
  lemma {:induction false} EndlessIff(w: World, op: int, args: seq<Value>)
    ensures Endless(w, op, args) <==> !AllResolve(w, op, args)
  {
    forall k | 0 <= k < |Lookups(w, op, args)|
      ensures Lookup(w, args, Lookups(w, op, args)[k]).Diverges? <==> !Resolvable(w, args, Lookups(w, op, args)[k])
    {
      EndsIff(w.rows, w.default, AskerOf(w, args), Lookups(w, op, args)[k]);
    }
  }

  // ----- requests with absolute paths

  ghost predicate AbsolutePath(b: seq<byte>) {
    b == [] || b[0] == 0x2f
  }

  /** The paths of a request below its share are absolute. The target of a symbolic link need not be. */
  ghost predicate AbsolutePaths(op: int, args: seq<Value>) {
    && (op != 11 ==> AbsolutePath(PathArgument(args, 1)))
    && (op == 11 || op == 12 ==> AbsolutePath(PathArgument(args, 2)))
  }

  lemma {:induction false} AbsoluteLookedUp(b: seq<byte>)
    requires AbsolutePath(b)
    ensures Absolute(Target(b)) && Absolute(Directory(b))
  {
    if b != [] {
      assert Text(b)[0] == '/';
    }
  }

  lemma {:induction false} LookupsAre(w: World, op: int, args: seq<Value>, p: Path)
    requires p in Lookups(w, op, args)
    ensures var a, b := PathArgument(args, 1), PathArgument(args, 2);
            || (op != 11 && (p == Target(a) || p == Directory(a)))
            || ((op == 11 || op == 12) && p == Directory(b))
  {
  }

  /** The lookups of such a request end, whatever the tables and the file system say. */
  lemma {:induction false} AbsoluteEnds(w: World, op: int, args: seq<Value>)
    requires AbsolutePaths(op, args)
    ensures !Endless(w, op, args)
  {
    EndlessIff(w, op, args);
    forall k | 0 <= k < |Lookups(w, op, args)| ensures Absolute(Lookups(w, op, args)[k]) {
      LookupsAre(w, op, args, Lookups(w, op, args)[k]);
      if op != 11 {
        AbsoluteLookedUp(PathArgument(args, 1));
      }
      if op == 11 || op == 12 {
        AbsoluteLookedUp(PathArgument(args, 2));
      }
    }
  }

  /** A getattr of the path `x` hangs when the table is empty. */
  lemma {:induction false} RelativeGetattrHangs(w: World, args: seq<Value>)
    requires w.rows == [] && w.facts.plainMode && |args| == 2 && args[1] == Str32([0x78])
    ensures Endless(w, 1, args)
  {
    EndlessIff(w, 1, args);
    var p := Text([0x78]);
    assert p == "x" && UpToNul(p[1..]) == "" && Target([0x78]) == "x";
    assert Lookups(w, 1, args)[0] == "x";
  }
}
