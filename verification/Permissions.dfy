/** Permission rows on paths, how the worker resolves them, and how unlink and rename keep them. */
module Permissions {
  import opened Options

  type Path = string

  /** A row without a uid applies to every local user. */
  datatype Row = Row(share: int, user: int, path: Path, uid: Option<int>, perms: string)

  /** Who asks: the share and user of the connection, and the local user of the request. */
  datatype Asker = Asker(share: int, user: int, uid: int)

  /** A lookup that meets a path without '/' and without a row calls itself for ever. */
  datatype Outcome = Perms(perms: string) | Diverges

  // ----- the query

  function Find(t: seq<Row>, a: Asker, path: Path, uid: Option<int>): Option<string> {
    if t == [] then None
    else if t[0].share == a.share && t[0].user == a.user && t[0].path == path && t[0].uid == uid then Some(t[0].perms)
    else Find(t[1..], a, path, uid)
  }

  /** The row of one path that applies to the asker: one for the uid before one for everybody. */
  function Applicable(t: seq<Row>, a: Asker, path: Path): Option<string> {
    var own := Find(t, a, path, Some(a.uid));
    if own.Some? then own else Find(t, a, path, None)
  }

  // ----- which row applies

  /** The n-th row is one of this path, for the asker's share and user, with this uid. */
  ghost predicate RowFor(t: seq<Row>, a: Asker, path: Path, uid: Option<int>, n: int) {
    0 <= n < |t| && t[n].share == a.share && t[n].user == a.user && t[n].path == path && t[n].uid == uid
  }

  ghost predicate HasRow(t: seq<Row>, a: Asker, path: Path, uid: Option<int>) {
    exists n :: RowFor(t, a, path, uid, n)
  }

  /** The table has a row of the path for the asker or for every local user. */
  ghost predicate Listed(t: seq<Row>, a: Asker, path: Path) {
    HasRow(t, a, path, Some(a.uid)) || HasRow(t, a, path, None)
  }

  /** A row of the path with these permissions is for the asker, or for every local user when none
      is for the asker. */
  ghost predicate Grants(t: seq<Row>, a: Asker, path: Path, perms: string) {
    exists n ::
      && RowFor(t, a, path, if HasRow(t, a, path, Some(a.uid)) then Some(a.uid) else None, n)
      && t[n].perms == perms
  }

  lemma {:induction false} FindsRow(t: seq<Row>, a: Asker, path: Path, uid: Option<int>)
    ensures Find(t, a, path, uid).None? <==> !HasRow(t, a, path, uid)
    ensures Find(t, a, path, uid).Some? ==>
              exists n :: RowFor(t, a, path, uid, n) && t[n].perms == Find(t, a, path, uid).value
  {
    if t != [] {
      var rest := t[1..];
      FindsRow(rest, a, path, uid);
      if RowFor(t, a, path, uid, 0) {
        assert t[0].perms == Find(t, a, path, uid).value;
      } else if HasRow(rest, a, path, uid) {
        var n :| RowFor(rest, a, path, uid, n) && rest[n].perms == Find(rest, a, path, uid).value;
        assert RowFor(t, a, path, uid, n + 1);
      } else {
        forall n ensures !RowFor(t, a, path, uid, n) {
          assert n > 0 ==> !RowFor(rest, a, path, uid, n - 1);
        }
      }
    }
  }

  /** The query answers for a listed path, and then with a row as above. */
  lemma {:induction false} ApplicableGrants(t: seq<Row>, a: Asker, path: Path)
    ensures Applicable(t, a, path).Some? <==> Listed(t, a, path)
    ensures Applicable(t, a, path).Some? ==> Grants(t, a, path, Applicable(t, a, path).value)
  {
    FindsRow(t, a, path, Some(a.uid));
    FindsRow(t, a, path, None);
  }

  // ----- the walk towards the root

  function LastSlash(p: Path): (k: int)
    ensures -1 <= k < |p|
    ensures k >= 0 ==> p[k] == '/'
    ensures forall j :: k < j < |p| ==> p[j] != '/'
  {
    if p == [] then -1 else if p[|p| - 1] == '/' then |p| - 1 else LastSlash(p[..|p| - 1])
  }

  function Trim(p: Path): (r: Path)
    ensures |r| <= |p|
  {
    if p != [] && p[|p| - 1] == '/' then p[..|p| - 1] else p
  }

  /** What is left of the last '/', or the whole path when there is none. */
  function Parent(p: Path): (r: Path)
    ensures |r| <= |p|
    ensures LastSlash(p) >= 0 ==> |r| < |p|
  {
    if LastSlash(p) < 0 then p else p[..LastSlash(p)]
  }

  function GetPerms(t: seq<Row>, default: string, a: Asker, path: Path): Outcome
    decreases |path|
  {
    var p := Trim(path);
    if p == "" then Perms(default)
    else
      var own := Applicable(t, a, p);
      if own.Some? then Perms(own.value)
      else if LastSlash(p) < 0 then Diverges
      else GetPerms(t, default, a, Parent(p))
  }

  // ----- what the walk means

  ghost predicate Absolute(p: Path) {
    p == "" || p[0] == '/'
  }

  /** The paths looked up, nearest first: the path and the directories above it, each without one
      trailing '/', down to but not including the empty one. A path without '/' is the last: the
      lookup comes back to it for ever. */
  function Chain(path: Path): seq<Path>
    decreases |path|
  {
    var p := Trim(path);
    if p == "" then [] else if LastSlash(p) < 0 then [p] else [p] + Chain(Parent(p))
  }

  /** Each step goes from a path to what is before its last '/': the lookup starts with the path,
      less one '/' at its end, and ends with a path without '/' or at the empty one. */
  lemma {:induction false} ChainStep(path: Path)
    ensures path == "" || path == "/" <==> Chain(path) == []
    ensures Chain(path) != [] ==> path == Chain(path)[0] || path == Chain(path)[0] + "/"
    ensures Chain(path) != [] && path == Chain(path)[0] ==> path[|path| - 1] != '/'
    ensures Chain(path) != [] && '/' !in Chain(path)[0] ==> |Chain(path)| == 1
    ensures Chain(path) != [] && '/' in Chain(path)[0] ==>
              exists up, name :: Chain(path)[0] == up + "/" + name && '/' !in name && Chain(path)[1..] == Chain(up)
  {
    var p := Trim(path);
    if p != path {
      assert path == p + "/";
    }
    if p != "" && LastSlash(p) >= 0 {
      var name := p[LastSlash(p) + 1..];
      assert p == Parent(p) + "/" + name && '/' !in name;
      assert Chain(path)[1..] == Chain(Parent(p));
    }
  }

  /** The k-th path looked up is the first that is listed, and grants these permissions. */
  ghost predicate Nearest(t: seq<Row>, a: Asker, p: Path, k: nat, perms: string) {
    && k < |Chain(p)|
    && Grants(t, a, Chain(p)[k], perms)
    && forall j :: 0 <= j < k ==> !Listed(t, a, Chain(p)[j])
  }

  ghost predicate Unlisted(t: seq<Row>, a: Asker, p: Path) {
    forall j :: 0 <= j < |Chain(p)| ==> !Listed(t, a, Chain(p)[j])
  }

  /** The answer is the row of the nearest listed ancestor, or the default where none is listed;
      there is none only for a path that is not absolute and has no listed ancestor. */
  lemma {:induction false} ResolvesToNearest(t: seq<Row>, default: string, a: Asker, path: Path)
    ensures var r := GetPerms(t, default, a, path);
            match r
            case Perms(perms) =>
              (Absolute(path) && Unlisted(t, a, path) && perms == default) || exists k :: Nearest(t, a, path, k, perms)
            case Diverges => !Absolute(path) && Unlisted(t, a, path)
    decreases |path|
  {
    var r := GetPerms(t, default, a, path);
    var p := Trim(path);
    if p != "" {
      ApplicableGrants(t, a, p);
      if Applicable(t, a, p).Some? {
        assert Nearest(t, a, path, 0, r.perms);
      } else if LastSlash(p) < 0 {
        assert Chain(path) == [p];
      } else {
        var up := Parent(p);
        ResolvesToNearest(t, default, a, up);
        assert Chain(path)[0] == p && Chain(path)[1..] == Chain(up);
        assert forall j :: 0 < j < |Chain(path)| ==> Chain(path)[j] == Chain(up)[j - 1];
        if r.Perms? && (!Unlisted(t, a, up) || r.perms != default) {
          var k: nat :| Nearest(t, a, up, k, r.perms);
          assert Chain(path)[k + 1] == Chain(up)[k];
          assert Nearest(t, a, path, k + 1, r.perms);
        }
      }
    }
  }

  /** Over one table a lookup ends exactly when the path is absolute or has a listed ancestor. */
  lemma {:induction false} EndsIff(t: seq<Row>, default: string, a: Asker, path: Path)
    ensures GetPerms(t, default, a, path).Perms? <==> Absolute(path) || !Unlisted(t, a, path)
  {
    ResolvesToNearest(t, default, a, path);
  }

  /** Lookups of a path end whatever the table holds exactly when it is empty or starts with '/'. */
  lemma {:induction false} TerminatesIff(default: string, a: Asker, path: Path)
    ensures (forall t :: GetPerms(t, default, a, path).Perms?) <==> Absolute(path)
  {
    forall t ensures GetPerms(t, default, a, path).Perms? <==> Absolute(path) || !Unlisted(t, a, path) {
      EndsIff(t, default, a, path);
    }
    assert Unlisted([], a, path) by {
      assert forall q, uid, n :: !RowFor([], a, q, uid, n);
    }
    assert GetPerms([], default, a, path).Perms? <==> Absolute(path);
  }

  /** Only rows on the chain matter. */
  lemma {:induction false} OffChainIgnored(t: seq<Row>, t': seq<Row>, default: string, a: Asker, path: Path)
    requires forall q :: q in Chain(path) ==> Applicable(t, a, q) == Applicable(t', a, q)
    ensures GetPerms(t, default, a, path) == GetPerms(t', default, a, path)
    decreases |path|
  {
    var p := Trim(path);
    if p != "" {
      assert p in Chain(path);
      if LastSlash(p) >= 0 {
        OffChainIgnored(t, t', default, a, Parent(p));
      }
    }
  }

  /** The rows of some paths. */
  function Restricted(t: seq<Row>, paths: seq<Path>): seq<Row> {
    if t == [] then [] else (if t[0].path in paths then [t[0]] else []) + Restricted(t[1..], paths)
  }

  lemma {:induction false} FindRestricted(t: seq<Row>, paths: seq<Path>, a: Asker, path: Path, uid: Option<int>)
    requires path in paths
    ensures Find(Restricted(t, paths), a, path, uid) == Find(t, a, path, uid)
  {
    if t != [] {
      FindRestricted(t[1..], paths, a, path, uid);
      var rest := Restricted(t[1..], paths);
      if t[0].path in paths {
        assert Restricted(t, paths)[1..] == rest;
      } else {
        assert Restricted(t, paths) == rest;
      }
    }
  }

  /** Only the rows of the paths on the chain are ever needed. */
  lemma {:induction false} OnlyChainRows(t: seq<Row>, default: string, a: Asker, path: Path)
    ensures GetPerms(Restricted(t, Chain(path)), default, a, path) == GetPerms(t, default, a, path)
  {
    var t' := Restricted(t, Chain(path));
    forall q | q in Chain(path) ensures Applicable(t, a, q) == Applicable(t', a, q) {
      FindRestricted(t, Chain(path), a, q, Some(a.uid));
      FindRestricted(t, Chain(path), a, q, None);
    }
    OffChainIgnored(t, t', default, a, path);
  }

  lemma {:induction false} ChainIsShorter(path: Path, q: Path)
    requires q in Chain(path)
    ensures q != "" && |q| <= |path|
    decreases |path|
  {
    var p := Trim(path);
    if q != p {
      ChainIsShorter(Parent(p), q);
    }
  }

  // ----- the chain of a path without empty components

  /** Absolute, without empty components and without a trailing '/'. */
  ghost predicate Normal(p: Path) {
    && p != "" && p[0] == '/' && p[|p| - 1] != '/'
    && forall j :: 0 <= j < |p| - 1 ==> !(p[j] == '/' && p[j + 1] == '/')
  }

  /** q is p or a directory above p, but not the root. */
  ghost predicate Above(q: Path, p: Path) {
    q != "" && (q == p || q + "/" <= p)
  }

  lemma {:induction false} ParentIsNormal(p: Path)
    requires Normal(p)
    ensures Parent(p) == "" || Normal(Parent(p))
  {
    var k := LastSlash(p);
    if k > 0 {
      assert p[k - 1] != '/';
    }
  }

  lemma {:induction false} AboveStep(q: Path, p: Path)
    requires Normal(p)
    ensures Above(q, p) <==> q == p || (Parent(p) != "" && Above(q, Parent(p)))
  {
    var k := LastSlash(p);
    var parent := Parent(p);
    if q != "" && q + "/" <= p {
      assert p[|q|] == '/' && |q| <= k;
      if |q| == k {
        assert q == parent;
      } else {
        assert q + "/" <= parent;
      }
    }
    if parent != "" && Above(q, parent) {
      assert p == parent + p[k..] && p[k] == '/';
      assert parent + "/" <= p;
      if q != parent {
        assert q + "/" <= parent <= p;
      }
    }
  }

  /** The chain of such a path is the path and all directories above it but the root. */
  lemma {:induction false} ChainIsAbove(p: Path, q: Path)
    requires Normal(p)
    ensures q in Chain(p) <==> Above(q, p)
    decreases |p|
  {
    AboveStep(q, p);
    ParentIsNormal(p);
    if Parent(p) != "" {
      ChainIsAbove(Parent(p), q);
    }
  }

  // ----- upkeep by unlink and rename

  /** Deletes the rows of a path, whatever their share and user. */
  function Delete(t: seq<Row>, p: Path): seq<Row> {
    if t == [] then [] else (if t[0].path == p then [] else [t[0]]) + Delete(t[1..], p)
  }

  /** Moves the rows of a path to another, whatever their share and user. */
  function Move(t: seq<Row>, p: Path, q: Path): seq<Row> {
    if t == [] then [] else [if t[0].path == p then t[0].(path := q) else t[0]] + Move(t[1..], p, q)
  }

  lemma {:induction false} FindDeleted(t: seq<Row>, p: Path, a: Asker, x: Path, uid: Option<int>)
    ensures Find(Delete(t, p), a, x, uid) == if x == p then None else Find(t, a, x, uid)
  {
    if t != [] {
      FindDeleted(t[1..], p, a, x, uid);
      var rest := Delete(t[1..], p);
      if t[0].path == p {
        assert Delete(t, p) == rest;
      } else {
        assert Delete(t, p)[1..] == rest;
      }
    }
  }

  ghost predicate NoRows(t: seq<Row>, q: Path) {
    forall k :: 0 <= k < |t| ==> t[k].path != q
  }

  lemma {:induction false} FindMoved(t: seq<Row>, p: Path, q: Path, a: Asker, x: Path, uid: Option<int>)
    requires p != q && NoRows(t, q)
    ensures Find(Move(t, p, q), a, x, uid) == if x == p then None else Find(t, a, if x == q then p else x, uid)
  {
    if t != [] {
      FindMoved(t[1..], p, q, a, x, uid);
      assert Move(t, p, q)[1..] == Move(t[1..], p, q);
    }
  }

  lemma {:induction false} ApplicableDeleted(t: seq<Row>, p: Path, a: Asker, x: Path)
    ensures Applicable(Delete(t, p), a, x) == if x == p then None else Applicable(t, a, x)
  {
    FindDeleted(t, p, a, x, Some(a.uid));
    FindDeleted(t, p, a, x, None);
  }

  lemma {:induction false} ApplicableMoved(t: seq<Row>, p: Path, q: Path, a: Asker, x: Path)
    requires p != q && NoRows(t, q)
    ensures Applicable(Move(t, p, q), a, x) == if x == p then None else Applicable(t, a, if x == q then p else x)
  {
    FindMoved(t, p, q, a, x, Some(a.uid));
    FindMoved(t, p, q, a, x, None);
  }

  /** A path that the table can list: absolute and without a trailing '/'. */
  ghost predicate Trimmed(p: Path) {
    p != "" && Absolute(p) && Trim(p) == p
  }

  /** After an unlink the path resolves as its parent directory did and does. Since the deletion
      is by path alone this is so for every asker, also on other shares. */
  lemma {:induction false} UnlinkFallsBack(t: seq<Row>, default: string, a: Asker, p: Path)
    requires Trimmed(p)
    ensures GetPerms(Delete(t, p), default, a, p) == GetPerms(t, default, a, Parent(p))
    ensures GetPerms(Delete(t, p), default, a, Parent(p)) == GetPerms(t, default, a, Parent(p))
  {
    ApplicableDeleted(t, p, a, p);
    if p in Chain(Parent(p)) {
      ChainIsShorter(Parent(p), p);
    }
    UnlinkLeavesOthers(t, default, a, p, Parent(p));
  }

  /** An unlink changes no other path than those below the one removed. */
  lemma {:induction false} UnlinkLeavesOthers(t: seq<Row>, default: string, a: Asker, p: Path, r: Path)
    requires p !in Chain(r)
    ensures GetPerms(Delete(t, p), default, a, r) == GetPerms(t, default, a, r)
  {
    forall q | q in Chain(r) ensures Applicable(Delete(t, p), a, q) == Applicable(t, a, q) {
      ApplicableDeleted(t, p, a, q);
    }
    OffChainIgnored(Delete(t, p), t, default, a, r);
  }

  /** After a rename to a path without rows, not below the old one, the new path has the
      permissions of the old one exactly when the old one had a row of its own or the two parent
      directories resolve alike. */
  lemma {:induction false} RenameCarriesIff(t: seq<Row>, default: string, a: Asker, p: Path, q: Path)
    requires Trimmed(p) && Trimmed(q) && NoRows(t, q) && p !in Chain(q)
    ensures GetPerms(Move(t, p, q), default, a, q) == GetPerms(t, default, a, p)
       <==> Listed(t, a, p) || GetPerms(t, default, a, Parent(q)) == GetPerms(t, default, a, Parent(p))
  {
    ApplicableMoved(t, p, q, a, q);
    ApplicableGrants(t, a, p);
    if q in Chain(Parent(q)) {
      ChainIsShorter(Parent(q), q);
    }
    RenameLeavesOthers(t, default, a, p, q, Parent(q));
  }

  /** The old path, unless the new one is above it, then resolves as its parent directory. */
  lemma {:induction false} RenameFallsBack(t: seq<Row>, default: string, a: Asker, p: Path, q: Path)
    requires Trimmed(p) && NoRows(t, q) && q !in Chain(p)
    ensures GetPerms(Move(t, p, q), default, a, p) == GetPerms(t, default, a, Parent(p))
  {
    ApplicableMoved(t, p, q, a, p);
    if p in Chain(Parent(p)) {
      ChainIsShorter(Parent(p), p);
    }
    RenameLeavesOthers(t, default, a, p, q, Parent(p));
  }

  /** A rename changes no path outside the two subtrees. */
  lemma {:induction false} RenameLeavesOthers(t: seq<Row>, default: string, a: Asker, p: Path, q: Path, r: Path)
    requires p != q && NoRows(t, q) && p !in Chain(r) && q !in Chain(r)
    ensures GetPerms(Move(t, p, q), default, a, r) == GetPerms(t, default, a, r)
  {
    forall x | x in Chain(r) ensures Applicable(Move(t, p, q), a, x) == Applicable(t, a, x) {
      ApplicableMoved(t, p, q, a, x);
    }
    OffChainIgnored(Move(t, p, q), t, default, a, r);
  }
}
