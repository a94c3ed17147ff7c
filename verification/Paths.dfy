/** Cleaning a path by editing the list of its components in place. */
module Paths {
  // ----- splitting and joining

  /** The pieces between the slashes; one empty piece for an empty string. */
  function Split(s: string): (r: seq<string>)
    ensures |r| >= 1
    ensures forall i :: 0 <= i < |r| ==> '/' !in r[i]
  {
    if s == "" then [""]
    else
      var rest := Split(s[1..]);
      if s[0] == '/' then [""] + rest else [[s[0]] + rest[0]] + rest[1..]
  }

  function Join(parts: seq<string>): string {
    if parts == [] then "" else if |parts| == 1 then parts[0] else parts[0] + "/" + Join(parts[1..])
  }

  lemma {:induction false} SplitPiece(p: string, s: string)
    requires '/' !in p
    ensures Split(p + "/" + s) == [p] + Split(s)
    ensures Split(p) == [p]
  {
    if p == "" {
      assert p + "/" + s == "/" + s;
    } else {
      assert p + "/" + s == [p[0]] + (p[1..] + "/" + s);
      SplitPiece(p[1..], s);
      assert [p[0]] + p[1..] == p;
    }
  }

  /** Splitting undoes joining. */
  lemma {:induction false} SplitJoin(parts: seq<string>)
    requires parts != [] && forall i :: 0 <= i < |parts| ==> '/' !in parts[i]
    ensures Split(Join(parts)) == parts
  {
    if |parts| == 1 {
      SplitPiece(parts[0], "");
    } else {
      SplitJoin(parts[1..]);
      SplitPiece(parts[0], Join(parts[1..]));
    }
  }

  // ----- white space

  predicate Space(c: char) {
    c == ' ' || '\t' <= c <= '\r'
  }

  lemma {:induction false} SpaceIs(c: char)
    ensures Space(c) <==> c as int in {9, 10, 11, 12, 13, 32}
  {
  }

  function TrimLeft(s: string): string {
    if s != "" && Space(s[0]) then TrimLeft(s[1..]) else s
  }

  function Trimmed(s: string): string {
    var t := TrimLeft(s);
    TrimRight(t)
  }

  function TrimRight(s: string): string {
    if s != "" && Space(s[|s| - 1]) then TrimRight(s[..|s| - 1]) else s
  }

  ghost predicate AllSpace(s: string) {
    forall i :: 0 <= i < |s| ==> Space(s[i])
  }

  /** Exactly the white space at both ends is taken off. */
  lemma {:induction false} TrimmedIs(s: string) returns (left: string, right: string)
    ensures s == left + Trimmed(s) + right && AllSpace(left) && AllSpace(right)
    ensures var t := Trimmed(s); t != "" ==> !Space(t[0]) && !Space(t[|t| - 1])
  {
    left := TrimLeftIs(s);
    right := TrimRightIs(TrimLeft(s));
    assert left + (Trimmed(s) + right) == left + Trimmed(s) + right;
  }

  lemma {:induction false} TrimLeftIs(s: string) returns (left: string)
    ensures s == left + TrimLeft(s) && AllSpace(left)
    ensures TrimLeft(s) != "" ==> !Space(TrimLeft(s)[0])
  {
    if s != "" && Space(s[0]) {
      var rest := TrimLeftIs(s[1..]);
      left := [s[0]] + rest;
    } else {
      left := "";
    }
  }

  lemma {:induction false} TrimRightIs(s: string) returns (right: string)
    ensures s == TrimRight(s) + right && AllSpace(right)
    ensures TrimRight(s) != "" ==> TrimRight(s)[0] == s[0] && !Space(TrimRight(s)[|TrimRight(s)| - 1])
  {
    if s != "" && Space(s[|s| - 1]) {
      var rest := TrimRightIs(s[..|s| - 1]);
      right := rest + [s[|s| - 1]];
    } else {
      right := "";
    }
  }

  ghost predicate NoSpace(s: string) {
    forall i :: 0 <= i < |s| ==> !Space(s[i])
  }

  // ----- the one-pass meaning

  ghost predicate Ordinary(p: string) {
    p != "" && p != "." && p != ".." && '/' !in p
  }

  ghost predicate AllOrdinary(parts: seq<string>) {
    forall i :: 0 <= i < |parts| ==> Ordinary(parts[i])
  }

  /** Goes through the components with a stack; a ".." takes one off only if two are there. */
  function Fold(stack: seq<string>, parts: seq<string>): seq<string>
    decreases |parts|
  {
    if parts == [] then stack
    else
      var p := parts[0];
      var next :=
        if p == "." || p == "" then stack
        else if p == ".." then (if |stack| >= 2 then stack[..|stack| - 1] else stack)
        else stack + [p];
      Fold(next, parts[1..])
  }

  function Absolute(stack: seq<string>): string {
    var s := Join(stack);
    if s != "" && s[0] == '/' then s else "/" + s
  }

  function Resolved(path: string): string {
    Trimmed(Absolute(Fold([], Split(path))))
  }

  // ----- the loop

  /** The list is edited in place: the index steps back over what was removed. */
  method ResolveRelative(path: string) returns (r: string)
    ensures r == Resolved(path)
  {
    var parts := Split(path);
    var i := 0;
    while i < |parts|
      invariant 0 <= i <= |parts|
      invariant AllOrdinary(parts[..i])
      invariant forall k :: 0 <= k < |parts| ==> '/' !in parts[k]
      invariant Fold(parts[..i], parts[i..]) == Fold([], Split(path))
      decreases |parts|, |parts| - i
    {
      ghost var before, at := parts, i;
      if parts[i] == "." {
        parts := RemoveAt(parts, i);
        i := i - 1;
      } else if parts[i] == ".." {
        parts := RemoveAt(parts, i);
        if i > 1 {
          parts := RemoveAt(parts, i - 1);
        }
        i := i - 1;
        i := i - 1;
      } else if parts[i] == "" {
        parts := RemoveAt(parts, i);
        i := i - 1;
      }
      if i < -1 {
        i := -1;
      }
      i := i + 1;
      FoldStep(before, at, parts, i);
    }
    assert parts[..i] == parts && parts[i..] == [];
    r := Join(parts);
    if !(r != "" && r[0] == '/') {
      r := "/" + r;
    }
    r := Trimmed(r);
  }

  method RemoveAt(parts: seq<string>, k: nat) returns (r: seq<string>)
    requires k < |parts|
    ensures r == parts[..k] + parts[k + 1..]
  {
    r := parts[..k] + parts[k + 1..];
  }

  /** What one pass of the loop makes of the list and the index. */
  ghost predicate Edited(before: seq<string>, i: nat, after: seq<string>, j: nat)
    requires i < |before|
  {
    if before[i] == "." || before[i] == "" then after == before[..i] + before[i + 1..] && j == i
    else if before[i] != ".." then after == before && j == i + 1
    else if i > 1 then after == before[..i - 1] + before[i + 1..] && j == i - 1
    else after == before[..i] + before[i + 1..] && j == 0
  }

  /** A pass keeps the fold of what is left over what is done. At index 1 a ".." removes itself
      only and the loop starts over, which pushes the first component once more. */
  lemma {:induction false} FoldStep(before: seq<string>, i: nat, after: seq<string>, j: nat)
    requires i < |before| && AllOrdinary(before[..i]) && Edited(before, i, after, j)
    requires forall k :: 0 <= k < |before| ==> '/' !in before[k]
    ensures j <= |after| && AllOrdinary(after[..j])
    ensures Fold(after[..j], after[j..]) == Fold(before[..i], before[i..])
  {
    assert before[i..][1..] == before[i + 1..];
    if before[i] == ".." {
      if i > 1 {
        assert after[..j] == before[..i][..i - 1] && after[j..] == before[i + 1..];
      } else if i == 1 {
        assert after == before[..1] + before[2..] && after[1..] == before[2..];
        assert before[..1][0] == before[0];
        assert [] + [before[0]] == before[..1];
        assert after[0..] == after && after[..0] == [];
      } else {
        assert after[0..] == before[1..] && after[..0] == before[..0];
      }
    } else if before[i] == "." || before[i] == "" {
      assert after[..j] == before[..i] && after[j..] == before[i + 1..];
    } else {
      assert after[..j] == before[..i] + [before[i]];
    }
  }

  // ----- what a cleaned path looks like

  lemma {:induction false} FoldOrdinary(stack: seq<string>, parts: seq<string>)
    requires AllOrdinary(stack) && forall k :: 0 <= k < |parts| ==> '/' !in parts[k]
    ensures AllOrdinary(Fold(stack, parts))
    decreases |parts|
  {
    if parts != [] {
      var p := parts[0];
      var next :=
        if p == "." || p == "" then stack
        else if p == ".." then (if |stack| >= 2 then stack[..|stack| - 1] else stack)
        else stack + [p];
      FoldOrdinary(next, parts[1..]);
    }
  }

  /** Ordinary components are simply pushed. */
  lemma {:induction false} FoldPushes(stack: seq<string>, parts: seq<string>)
    requires AllOrdinary(parts)
    ensures Fold(stack, parts) == stack + parts
    decreases |parts|
  {
    if parts == [] {
      assert stack + parts == stack;
    } else {
      assert Ordinary(parts[0]);
      FoldPushes(stack + [parts[0]], parts[1..]);
      assert stack + [parts[0]] + parts[1..] == stack + parts;
    }
  }

  ghost predicate Spaceless(parts: seq<string>) {
    forall i :: 0 <= i < |parts| ==> NoSpace(parts[i])
  }

  lemma {:induction false} SplitSpaceless(s: string)
    requires NoSpace(s)
    ensures Spaceless(Split(s))
  {
    if s != "" {
      SplitSpaceless(s[1..]);
    }
  }

  lemma {:induction false} FoldSpaceless(stack: seq<string>, parts: seq<string>)
    requires Spaceless(stack) && Spaceless(parts)
    ensures Spaceless(Fold(stack, parts))
    decreases |parts|
  {
    if parts != [] {
      var p := parts[0];
      var next :=
        if p == "." || p == "" then stack
        else if p == ".." then (if |stack| >= 2 then stack[..|stack| - 1] else stack)
        else stack + [p];
      FoldSpaceless(next, parts[1..]);
    }
  }

  lemma {:induction false} JoinSpaceless(parts: seq<string>)
    requires Spaceless(parts)
    ensures NoSpace(Join(parts))
  {
    if |parts| > 1 {
      JoinSpaceless(parts[1..]);
    }
  }

  lemma {:induction false} TrimmedNoSpace(s: string)
    requires NoSpace(s)
    ensures Trimmed(s) == s
  {
  }

  lemma {:induction false} JoinStart(stack: seq<string>)
    requires AllOrdinary(stack)
    ensures Absolute(stack) == "/" + Join(stack)
  {
    if stack != [] {
      assert Ordinary(stack[0]) && stack[0][0] in stack[0];
    }
  }

  /** For a path without white space: the result is absolute and its components are exactly the
      stack of the fold, none of them empty, "." or "..". */
  lemma {:induction false} CleanedShape(path: string)
    requires NoSpace(path)
    ensures var stack := Fold([], Split(path));
            && AllOrdinary(stack)
            && Resolved(path) == "/" + Join(stack)
            && (stack != [] ==> Split(Resolved(path)) == [""] + stack)
  {
    var stack := Fold([], Split(path));
    FoldOrdinary([], Split(path));
    SplitSpaceless(path);
    FoldSpaceless([], Split(path));
    JoinSpaceless(stack);
    JoinStart(stack);
    TrimmedNoSpace("/" + Join(stack));
    if stack != [] {
      SplitJoin(stack);
      SplitPiece("", Join(stack));
      assert "" + "/" + Join(stack) == "/" + Join(stack);
    }
  }

  /** For any path: the result is '/' and the components of the stack, less white space at the end. */
  lemma {:induction false} CleanedIs(path: string) returns (right: string)
    ensures var stack := Fold([], Split(path));
            && AllOrdinary(stack) && "/" + Join(stack) == Resolved(path) + right && AllSpace(right)
    ensures Resolved(path) != "" && Resolved(path)[0] == '/' && !Space(Resolved(path)[|Resolved(path)| - 1])
  {
    var stack := Fold([], Split(path));
    FoldOrdinary([], Split(path));
    JoinStart(stack);
    right := TrimRightIs(Absolute(stack));
    SlashStays(Absolute(stack));
  }

  lemma {:induction false} SlashStays(s: string)
    requires s != "" && s[0] == '/'
    ensures TrimRight(s) != ""
  {
    if |s| > 1 && Space(s[|s| - 1]) {
      SlashStays(s[..|s| - 1]);
    }
  }

  /** Cleaning a cleaned path changes nothing. */
  lemma {:induction false} Idempotent(path: string)
    requires NoSpace(path)
    ensures Resolved(Resolved(path)) == Resolved(path)
  {
    var stack := Fold([], Split(path));
    CleanedShape(path);
    SplitSpaceless(path);
    FoldSpaceless([], Split(path));
    JoinSpaceless(stack);
    var r := "/" + Join(stack);
    assert NoSpace(r);
    CleanedShape(r);
    if stack == [] {
      assert Split("/") == ["", ""];
      assert ["", ""][1..] == [""] && [""][1..] == [];
      assert Fold([], ["", ""]) == [];
    } else {
      FoldPushes([], stack);
      assert ([""] + stack)[1..] == stack;
      assert [] + stack == stack;
    }
  }

  /** A ".." right below the root removes nothing but itself: the first component stays. */
  lemma {:induction false} FirstComponentStays(p: string, parts: seq<string>)
    requires Ordinary(p) && forall i :: 0 <= i < |parts| ==> parts[i] == ".."
    ensures Fold([], [p] + parts) == [p]
    decreases |parts|
  {
    assert ([p] + parts)[1..] == parts && [] + [p] == [p];
    OnlyDots(p, parts);
  }

  lemma {:induction false} OnlyDots(p: string, parts: seq<string>)
    requires forall i :: 0 <= i < |parts| ==> parts[i] == ".."
    ensures Fold([p], parts) == [p]
    decreases |parts|
  {
    if parts != [] {
      OnlyDots(p, parts[1..]);
    }
  }

  // ----- what the components mean, wherever they stand

  lemma {:induction false} FoldConcat(stack: seq<string>, a: seq<string>, b: seq<string>)
    ensures Fold(stack, a + b) == Fold(Fold(stack, a), b)
    decreases |a|
  {
    if a == [] {
      assert a + b == b;
    } else {
      var p := a[0];
      var next :=
        if p == "." || p == "" then stack
        else if p == ".." then (if |stack| >= 2 then stack[..|stack| - 1] else stack)
        else stack + [p];
      assert (a + b)[1..] == a[1..] + b;
      FoldConcat(next, a[1..], b);
    }
  }

  /** A "." and an empty component change nothing, wherever they stand. */
  lemma {:induction false} DotsIgnored(a: seq<string>, p: string, b: seq<string>)
    requires p == "." || p == ""
    ensures Fold([], a + [p] + b) == Fold([], a + b)
  {
    FoldConcat([], a, b);
    FoldConcat([], a + [p], b);
    FoldConcat([], a, [p]);
    assert [p][1..] == [];
  }

  /** A ".." takes away the component before it, wherever the two stand below the first component. */
  lemma {:induction false} DotDotCancels(a: seq<string>, p: string, b: seq<string>)
    requires Ordinary(p) && Fold([], a) != []
    ensures Fold([], a + [p, ".."] + b) == Fold([], a + b)
  {
    var s := Fold([], a);
    FoldConcat([], a, b);
    FoldConcat([], a + [p, ".."], b);
    FoldConcat([], a, [p, ".."]);
    assert [p, ".."][1..] == [".."] && [".."][1..] == [];
    assert (s + [p])[..|s|] == s;
  }
}
