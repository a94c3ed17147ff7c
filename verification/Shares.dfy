/** How the web panel groups the rows of a join into shares with their users. */
module Shares {
  import opened Options

  datatype User = User(userKey: int, defaultPerms: string, userName: string, email: string)
  datatype Info = Info(shareName: string, localPath: string, updtTmStmp: int, updtUser: string)

  /** A row of the join; the user is missing when the share has none. */
  datatype Row = Row(shareKey: int, info: Info, user: Option<User>)
  datatype Share = Share(shareKey: int, info: Info, users: seq<User>)

  function UserOf(r: Row): seq<User> {
    if r.user.None? then [] else [r.user.value]
  }

  /** Adds a row to the last group if it has its key, else starts a group. */
  function AddRow(g: seq<Share>, r: Row): (h: seq<Share>)
    ensures h != [] && h[|h| - 1].shareKey == r.shareKey
  {
    var n := |g| - 1;
    if g != [] && g[n].shareKey == r.shareKey then g[..n] + [g[n].(users := g[n].users + UserOf(r))]
    else g + [Share(r.shareKey, r.info, UserOf(r))]
  }

  /** One entry for each run of rows with the same key, in row order. */
  function Group(rows: seq<Row>): (g: seq<Share>)
    ensures g == [] <==> rows == []
    ensures rows != [] ==> g[|g| - 1].shareKey == rows[|rows| - 1].shareKey
  {
    if rows == [] then [] else AddRow(Group(rows[..|rows| - 1]), rows[|rows| - 1])
  }

  lemma {:induction false} AddToOpen(closed: seq<Share>, open: Share, users: seq<User>, r: Row)
    requires open.shareKey == r.shareKey
    ensures AddRow(closed + [open.(users := users)], r) == closed + [open.(users := users + UserOf(r))]
  {
    var g := closed + [open.(users := users)];
    assert g[..|g| - 1] == closed;
  }

  lemma {:induction false} AddAsNew(closed: seq<Share>, r: Row)
    requires closed != [] ==> closed[|closed| - 1].shareKey != r.shareKey
    ensures AddRow(closed, r) == closed + [Share(r.shareKey, r.info, []).(users := [] + UserOf(r))]
  {
    assert [] + UserOf(r) == UserOf(r);
  }

  /** The last share and its users are kept apart while they grow: inserting an array copies it,
      so a list is attached only when its share is complete. */
  method GetShares(rows: seq<Row>) returns (result: seq<Share>)
    requires forall k :: 0 <= k < |rows| ==> rows[k].shareKey != -1
    ensures result == Group(rows)
  {
    result := [];
    var lastShareKey := -1;
    var currShare: Option<Share>, currShareUsers: Option<seq<User>> := None, None;
    var i := 0;
    while i < |rows|
      invariant 0 <= i <= |rows|
      invariant currShare.Some? <==> i > 0
      invariant currShareUsers.Some? <==> i > 0
      invariant i == 0 ==> lastShareKey == -1 && result == []
      invariant i > 0 ==> lastShareKey == rows[i - 1].shareKey == currShare.value.shareKey
      invariant i > 0 ==> Group(rows[..i]) == result + [currShare.value.(users := currShareUsers.value)]
    {
      var r := rows[i];
      assert rows[..i + 1][..i] == rows[..i];
      ghost var before := Group(rows[..i]);
      assert Group(rows[..i + 1]) == AddRow(before, r);
      if lastShareKey != r.shareKey {
        if currShareUsers.Some? && currShare.Some? {
          currShare := Some(currShare.value.(users := currShareUsers.value));
        }
        if currShare.Some? {
          result := result + [currShare.value];
        }
        assert result == before;
        AddAsNew(result, r);
        currShare := Some(Share(r.shareKey, r.info, []));
        currShareUsers := Some([]);
        lastShareKey := r.shareKey;
      } else {
        AddToOpen(result, currShare.value, currShareUsers.value, r);
      }
      ghost var users := currShareUsers.value;
      if r.user.Some? {
        currShareUsers := Some(currShareUsers.value + [r.user.value]);
      }
      assert currShareUsers.value == users + UserOf(r);
      i := i + 1;
    }
    assert rows[..i] == rows;
    if currShareUsers.Some? && currShare.Some? {
      currShare := Some(currShare.value.(users := currShareUsers.value));
    }
    if currShare.Some? {
      result := result + [currShare.value];
    }
  }

  // ----- nothing is lost

  /** The rows a share stands for. */
  function RowsOf(s: Share): seq<Row> {
    if s.users == [] then [Row(s.shareKey, s.info, None)]
    else seq(|s.users|, k requires 0 <= k < |s.users| => Row(s.shareKey, s.info, Some(s.users[k])))
  }

  function Flatten(shares: seq<Share>): seq<Row> {
    if shares == [] then [] else Flatten(shares[..|shares| - 1]) + RowsOf(shares[|shares| - 1])
  }

  /** What the outer join delivers: rows of one share agree on it, and a row without a user is
      the only one of its share. */
  ghost predicate Joined(rows: seq<Row>) {
    forall k :: 0 < k < |rows| ==> Follows(rows[k - 1], rows[k])
  }

  /** What the last entry keeps of the last row. */
  ghost predicate Remembers(g: seq<Share>, r: Row) {
    g != [] && g[|g| - 1].shareKey == r.shareKey && g[|g| - 1].info == r.info && (g[|g| - 1].users != [] <==> r.user.Some?)
  }

  /** The row can follow the one before it. */
  ghost predicate Follows(before: Row, r: Row) {
    before.shareKey == r.shareKey ==> before.info == r.info && before.user.Some? && r.user.Some?
  }

  lemma {:induction false} AddRemembers(g: seq<Share>, before: Row, r: Row)
    requires Remembers(g, before) && Follows(before, r)
    ensures Remembers(AddRow(g, r), r)
    ensures Flatten(AddRow(g, r)) == Flatten(g) + [r]
  {
    FlattenAdd(g, r);
  }

  /** Flattening the groups gives the rows back, in order. */
  lemma {:induction false} FlattenGroup(rows: seq<Row>)
    requires Joined(rows)
    ensures Flatten(Group(rows)) == rows
    ensures rows != [] ==> Remembers(Group(rows), rows[|rows| - 1])
  {
    if rows != [] {
      var m := |rows| - 1;
      var front, last := rows[..m], rows[m];
      assert rows == front + [last];
      FlattenGroup(front);
      if m > 0 {
        assert front[m - 1] == rows[m - 1];
        AddRemembers(Group(front), rows[m - 1], last);
      } else {
        FlattenAdd([], last);
      }
    }
  }

  /** Flattening sees a row that is added as one more row at the end. */
  lemma {:induction false} FlattenAdd(g: seq<Share>, r: Row)
    requires var n := |g| - 1;
             g != [] && g[n].shareKey == r.shareKey ==> r.user.Some? && g[n].users != [] && g[n].info == r.info
    ensures Flatten(AddRow(g, r)) == Flatten(g) + [r]
  {
    var n := |g| - 1;
    if g != [] && g[n].shareKey == r.shareKey {
      var s := g[n].(users := g[n].users + UserOf(r));
      var h := g[..n] + [s];
      assert h[..n] == g[..n];
      assert RowsOf(s) == RowsOf(g[n]) + [r];
    } else {
      var h := g + [Share(r.shareKey, r.info, UserOf(r))];
      assert h[..|h| - 1] == g;
      assert RowsOf(h[|h| - 1]) == [r];
    }
  }

  // ----- one entry per share

  ghost predicate Contiguous(rows: seq<Row>) {
    forall i, j, k :: 0 <= i <= j <= k < |rows| && rows[i].shareKey == rows[k].shareKey ==> rows[j].shareKey == rows[i].shareKey
  }

  ghost predicate HasKey(rows: seq<Row>, key: int) {
    exists k :: 0 <= k < |rows| && rows[k].shareKey == key
  }

  ghost predicate Listed(g: seq<Share>, key: int) {
    exists k :: 0 <= k < |g| && g[k].shareKey == key
  }

  ghost predicate NoRepeat(g: seq<Share>) {
    forall j, k :: 0 <= j < k < |g| ==> g[j].shareKey != g[k].shareKey
  }

  lemma {:induction false} HasKeyLast(rows: seq<Row>, key: int)
    requires rows != []
    ensures HasKey(rows, key) <==> key == rows[|rows| - 1].shareKey || HasKey(rows[..|rows| - 1], key)
  {
    var front := rows[..|rows| - 1];
    if HasKey(front, key) {
      var k :| 0 <= k < |front| && front[k].shareKey == key;
      assert rows[k].shareKey == key;
    }
    if HasKey(rows, key) {
      var k :| 0 <= k < |rows| && rows[k].shareKey == key;
      assert k < |front| ==> front[k].shareKey == key;
    }
  }

  lemma {:induction false} ListedAdd(g: seq<Share>, r: Row, key: int)
    ensures Listed(AddRow(g, r), key) <==> key == r.shareKey || Listed(g, key)
  {
    var h := AddRow(g, r);
    assert h[|h| - 1].shareKey == r.shareKey;
    assert forall k :: 0 <= k < |g| ==> h[k].shareKey == g[k].shareKey;
    if Listed(g, key) {
      var k :| 0 <= k < |g| && g[k].shareKey == key;
      assert h[k].shareKey == key;
    }
  }

  /** When the rows of a share stand together, exactly the shares of the rows are listed, each once. */
  lemma {:induction false} OneEntryPerShare(rows: seq<Row>)
    requires Contiguous(rows)
    ensures NoRepeat(Group(rows))
    ensures forall key :: Listed(Group(rows), key) <==> HasKey(rows, key)
  {
    if rows != [] {
      var m := |rows| - 1;
      var front, r, g := rows[..m], rows[m], Group(rows[..m]);
      OneEntryPerShare(front);
      forall key ensures Listed(Group(rows), key) <==> HasKey(rows, key) {
        HasKeyLast(rows, key);
        ListedAdd(g, r, key);
      }
      if g != [] && g[|g| - 1].shareKey != r.shareKey {
        assert front[m - 1] == rows[m - 1];
        assert forall k :: 0 <= k < m ==> front[k] == rows[k] && rows[k].shareKey != r.shareKey;
        assert !Listed(g, r.shareKey);
      }
    }
  }
}
