/** parse_patches: patch names and ranges `a..b`, `a..`, `..b` and `..`
    resolved against an ordered patch list (stgit/commands/common.py:212-255). */
module PatchRange {
  import opened Errors
  import opened Text

  /** `s` holds the separator "..". */
  predicate HasDots(s: string) {
    exists k :: 0 <= k < |s| - 1 && s[k] == '.' && s[k + 1] == '.'
  }

  predicate EndsWithDot(s: string) {
    s != [] && s[|s| - 1] == '.'
  }

  function JoinDots(parts: seq<string>): string
    requires |parts| >= 1
  {
    if |parts| == 1 then parts[0] else parts[0] + ".." + JoinDots(parts[1..])
  }

  /** str.split('..'): the text cut at each "..", scanning left to right.
      Joining the parts back gives the text, and no part holds "..". */
  function SplitDots(s: string): (parts: seq<string>)
    ensures |parts| >= 1 && JoinDots(parts) == s
    ensures forall k :: 0 <= k < |parts| ==> !HasDots(parts[k])
    ensures parts[0] <= s
    decreases |s|
  {
    if |s| < 2 then
      assert !HasDots(s);
      [s]
    else if s[0] == '.' && s[1] == '.' then
      var rest := SplitDots(s[2..]);
      assert !HasDots("");
      assert s == "" + ".." + JoinDots(rest);
      [""] + rest
    else
      var rest := SplitDots(s[1..]);
      assert rest[0] != [] ==> rest[0][0] == s[1];
      ConsPart(s[0], rest);
      assert [s[0]] + s[1..] == s;
      [[s[0]] + rest[0]] + rest[1..]
  }

  /** A character put before the first part, when it does not make a "..",
      gives a part without ".." and joins to the character before the text. */
  lemma ConsPart(c: char, rest: seq<string>)
    requires |rest| >= 1 && !HasDots(rest[0])
    requires c == '.' ==> rest[0] == [] || rest[0][0] != '.'
    ensures !HasDots([c] + rest[0])
    ensures JoinDots([[c] + rest[0]] + rest[1..]) == [c] + JoinDots(rest)
  {
    ConsNoDots(c, rest[0]);
    ConsJoin([c], rest);
  }

  lemma ConsNoDots(c: char, w: string)
    requires !HasDots(w) && (c == '.' ==> w == [] || w[0] != '.')
    ensures !HasDots([c] + w)
  {
    var first := [c] + w;
    assert forall k :: 0 < k < |first| ==> first[k] == w[k - 1];
  }

  lemma ConsJoin(x: string, rest: seq<string>)
    requires |rest| >= 1
    ensures JoinDots([x + rest[0]] + rest[1..]) == x + JoinDots(rest)
  {
    var parts := [x + rest[0]] + rest[1..];
    if |rest| > 1 {
      var tail := JoinDots(rest[1..]);
      assert parts[1..] == rest[1..];
      assert JoinDots(parts) == (x + rest[0]) + ".." + tail;
      assert JoinDots(rest) == rest[0] + ".." + tail;
      Assoc3(x, rest[0], "..", tail);
    }
  }

  /** Proof step: regrouping a four-part concatenation. */
  lemma Assoc3(x: string, y: string, z: string, w: string)
    ensures (x + y) + z + w == x + (y + z + w)
  {
  }

  /** Index of the first occurrence of `x`, as list.index(x). */
  function IndexOf(list: seq<string>, x: string): (i: nat)
    requires x in list
    ensures i < |list| && list[i] == x && x !in list[..i]
  {
    if list[0] == x then 0
    else
      var i := 1 + IndexOf(list[1..], x);
      assert list[..i] == [list[0]] + list[1..][..i - 1];
      i
  }

  /** A Python slice bound: a negative one counts from the end; the result is clamped to [0, n]. */
  function PyBound(i: int, n: nat): (r: nat)
    ensures r <= n
    ensures 0 <= i <= n ==> r == i
    ensures i < 0 ==> r == (if i + n < 0 then 0 else i + n)
    ensures i > n ==> r == n
  {
    if i < 0 then (if i + n < 0 then 0 else i + n)
    else if i > n then n
    else i
  }

  /** s[i:j] with Python's rules: within bounds it is the plain slice, and
      bounds that clamp to an empty or inverted range give nothing. */
  function PySlice<T>(s: seq<T>, i: int, j: int): (r: seq<T>)
    ensures 0 <= i <= j <= |s| ==> r == s[i..j]
    ensures PyBound(i, |s|) >= PyBound(j, |s|) ==> r == []
    ensures s == [] ==> r == []
  {
    var lo := PyBound(i, |s|);
    var hi := PyBound(j, |s|);
    if lo < hi then s[lo..hi] else []
  }

  /** The patches of the range `a..b`: from `a` (the first patch when `a` is
      empty) to `b` inclusive (the last patch when `b` is empty), reversed
      when `b` comes before `a`. */
  function RangePatches(a: string, b: string, list: seq<string>): (r: seq<string>)
    requires a == "" || a in list
    requires b == "" || b in list
    ensures forall x :: x in r ==> x in list
    ensures a != "" ==> r != [] && r[0] == a
    ensures b != "" ==> r != [] && r[|r| - 1] == b
  {
    var first := if a != "" then IndexOf(list, a) else 0;
    var last := if b != "" then IndexOf(list, b) + 1 else |list|;
    if last > first then PySlice(list, first, last)
    else Reverse(PySlice(list, last - 1, first + 1))
  }

  /** A part passes the unknown-name check when it is empty or in the list. */
  predicate Known(p: string, list: seq<string>) {
    p == "" || p in list
  }

  /** The first part that fails the unknown-name check. */
  function FirstUnknown(parts: seq<string>, list: seq<string>): (r: Option<string>)
    ensures r.None? <==> forall k :: 0 <= k < |parts| ==> Known(parts[k], list)
    ensures r.Some? ==> r.value in parts && !Known(r.value, list)
  {
    if parts == [] then None
    else if !Known(parts[0], list) then Some(parts[0])
    else FirstUnknown(parts[1..], list)
  }

  /** The first of `pl` that is already in `patches`. */
  function FirstShared(pl: seq<string>, patches: seq<string>): (r: Option<string>)
    ensures r.None? <==> forall k :: 0 <= k < |pl| ==> pl[k] !in patches
    ensures r.Some? ==> r.value in pl && r.value in patches
  {
    if pl == [] then None
    else if pl[0] in patches then Some(pl[0])
    else FirstShared(pl[1..], patches)
  }

  /** What one argument adds to the result. The unknown-name check comes
      before the malformed check, so a malformed argument has known parts. */
  function Contribution(name: string, list: seq<string>): (r: Result<seq<string>, CmdError>)
    ensures r.Ok? ==> |SplitDots(name)| <= 2 && forall p :: p in SplitDots(name) ==> Known(p, list)
    ensures r.Ok? && |SplitDots(name)| == 1 ==> r.value == [name]
    ensures r.Ok? && |SplitDots(name)| == 2 ==> forall x :: x in r.value ==> x in list
    ensures r.Err? && r.error.UnknownPatchName? ==> r.error.name in SplitDots(name) && !Known(r.error.name, list)
    ensures r.Err? && !r.error.UnknownPatchName? ==>
      r.error == MalformedPatchName(name) && |SplitDots(name)| >= 3 && forall p :: p in SplitDots(name) ==> Known(p, list)
  {
    var pair := SplitDots(name);
    match FirstUnknown(pair, list)
    case Some(p) => Err(UnknownPatchName(p))
    case None =>
      if |pair| == 1 then Ok(pair)
      else if |pair| == 2 then Ok(RangePatches(pair[0], pair[1], list))
      else Err(MalformedPatchName(name))
  }

  /** parse_patches as a specification: the result for the arguments before
      the last one, then the last one's contribution, which may not repeat
      a patch of the result so far. The first error met is the result. */
  function ParsePatches(args: seq<string>, list: seq<string>): Result<seq<string>, CmdError>
    decreases |args|
  {
    if args == [] then Ok([])
    else match ParsePatches(args[..|args| - 1], list)
      case Err(e) => Err(e)
      case Ok(patches) =>
        match Contribution(args[|args| - 1], list)
        case Err(e) => Err(e)
        case Ok(pl) =>
          match FirstShared(pl, patches)
          case Some(p) => Err(DuplicatePatchName(p))
          case None => Ok(patches + pl)
  }

  /** parse_patches, the loop of the source: each argument is split, its
      parts checked against the list, its patches computed and checked
      against those already collected, then appended. */
  method ParsePatchArgs(patchArgs: seq<string>, patchList: seq<string>) returns (r: Result<seq<string>, CmdError>)
    ensures r == ParsePatches(patchArgs, patchList)
  {
    var patches: seq<string> := [];
    var i := 0;
    while i < |patchArgs|
      invariant i <= |patchArgs|
      invariant ParsePatches(patchArgs[..i], patchList) == Ok(patches)
    {
      var name := patchArgs[i];
      var pair := SplitDots(name);
      var unknown := FindUnknown(pair, patchList);
      if unknown.Some? {
        StepFails(patchArgs, patchList, i, patches, UnknownPatchName(unknown.value));
        return Err(UnknownPatchName(unknown.value));
      }
      var pl: seq<string>;
      if |pair| == 1 {
        pl := pair;
      } else if |pair| == 2 {
        var first := if pair[0] != "" then IndexOf(patchList, pair[0]) else 0;
        var last := if pair[1] != "" then IndexOf(patchList, pair[1]) + 1 else |patchList|;
        if last > first {
          pl := PySlice(patchList, first, last);
        } else {
          pl := PySlice(patchList, last - 1, first + 1);
          pl := Reverse(pl);
        }
        assert pl == RangePatches(pair[0], pair[1], patchList);
      } else {
        StepFails(patchArgs, patchList, i, patches, MalformedPatchName(name));
        return Err(MalformedPatchName(name));
      }
      assert Contribution(name, patchList) == Ok(pl);
      var duplicate := FindShared(pl, patches);
      if duplicate.Some? {
        StepDuplicate(patchArgs, patchList, i, patches, pl);
        return Err(DuplicatePatchName(duplicate.value));
      }
      StepOk(patchArgs, patchList, i, patches, pl);
      patches := patches + pl;
      i := i + 1;
    }
    assert patchArgs[..i] == patchArgs;
    return Ok(patches);
  }

  /** One more argument that contributes without a duplicate. */
  lemma StepOk(args: seq<string>, list: seq<string>, i: nat, patches: seq<string>, pl: seq<string>)
    requires i < |args| && ParsePatches(args[..i], list) == Ok(patches)
    requires Contribution(args[i], list) == Ok(pl) && FirstShared(pl, patches).None?
    ensures ParsePatches(args[..i + 1], list) == Ok(patches + pl)
  {
    assert args[..i + 1][..i] == args[..i];
  }

  /** An argument whose contribution fails decides the result. */
  lemma StepFails(args: seq<string>, list: seq<string>, i: nat, patches: seq<string>, e: CmdError)
    requires i < |args| && ParsePatches(args[..i], list) == Ok(patches)
    requires Contribution(args[i], list) == Err(e)
    ensures ParsePatches(args, list) == Err(e)
  {
    assert args[..i + 1][..i] == args[..i];
    FirstErrorWins(args, list, i + 1);
  }

  /** An argument repeating a patch already collected decides the result. */
  lemma StepDuplicate(args: seq<string>, list: seq<string>, i: nat, patches: seq<string>, pl: seq<string>)
    requires i < |args| && ParsePatches(args[..i], list) == Ok(patches)
    requires Contribution(args[i], list) == Ok(pl) && FirstShared(pl, patches).Some?
    ensures ParsePatches(args, list) == Err(DuplicatePatchName(FirstShared(pl, patches).value))
  {
    assert args[..i + 1][..i] == args[..i];
    FirstErrorWins(args, list, i + 1);
  }

  /** The loop `for p in pair: if p and not p in patch_list: raise`. */
  method FindUnknown(pair: seq<string>, patchList: seq<string>) returns (unknown: Option<string>)
    ensures unknown == FirstUnknown(pair, patchList)
  {
    var j := 0;
    while j < |pair|
      invariant j <= |pair|
      invariant forall k :: 0 <= k < j ==> Known(pair[k], patchList)
    {
      var p := pair[j];
      if p != "" && p !in patchList {
        FirstUnknownAt(pair, patchList, j);
        return Some(p);
      }
      j := j + 1;
    }
    return None;
  }

  /** The loop `for p in pl: if p in patches: raise`. */
  method FindShared(pl: seq<string>, patches: seq<string>) returns (duplicate: Option<string>)
    ensures duplicate == FirstShared(pl, patches)
  {
    var k := 0;
    while k < |pl|
      invariant k <= |pl|
      invariant forall t :: 0 <= t < k ==> pl[t] !in patches
    {
      if pl[k] in patches {
        FirstSharedAt(pl, patches, k);
        return Some(pl[k]);
      }
      k := k + 1;
    }
    return None;
  }

  lemma {:induction false} FirstUnknownAt(parts: seq<string>, list: seq<string>, j: nat)
    requires j < |parts| && !Known(parts[j], list)
    requires forall k :: 0 <= k < j ==> Known(parts[k], list)
    ensures FirstUnknown(parts, list) == Some(parts[j])
    decreases j
  {
    if j > 0 {
      FirstUnknownAt(parts[1..], list, j - 1);
    }
  }

  lemma {:induction false} FirstSharedAt(pl: seq<string>, patches: seq<string>, k: nat)
    requires k < |pl| && pl[k] in patches
    requires forall t :: 0 <= t < k ==> pl[t] !in patches
    ensures FirstShared(pl, patches) == Some(pl[k])
    decreases k
  {
    if k > 0 {
      FirstSharedAt(pl[1..], patches, k - 1);
    }
  }

  /** The first argument that fails decides the error: once the arguments
      up to `n` fail, more arguments do not change the result. */
  lemma {:induction false} FirstErrorWins(args: seq<string>, list: seq<string>, n: nat)
    requires n <= |args| && ParsePatches(args[..n], list).Err?
    ensures ParsePatches(args, list) == ParsePatches(args[..n], list)
    decreases |args| - n
  {
    if n < |args| {
      assert args[..|args| - 1][..n] == args[..n];
      FirstErrorWins(args[..|args| - 1], list, n);
    } else {
      assert args[..n] == args;
    }
  }

  lemma {:induction false} SplitWithoutDots(s: string)
    requires !HasDots(s)
    ensures SplitDots(s) == [s]
    decreases |s|
  {
    if |s| >= 2 {
      assert !(s[0] == '.' && s[1] == '.');
      assert forall k :: 0 <= k < |s| - 1 ==> s[1..][k] == s[k + 1];
      SplitWithoutDots(s[1..]);
      assert [s[0]] + s[1..] == s;
    }
  }

  lemma {:induction false} SplitAfter(a: string, rest: string)
    requires !HasDots(a) && !EndsWithDot(a)
    ensures SplitDots(a + ".." + rest) == [a] + SplitDots(rest)
    decreases |a|
  {
    var s := a + ".." + rest;
    if a == [] {
      assert s[2..] == rest;
    } else {
      assert s[0] == a[0];
      assert |a| > 1 ==> s[1] == a[1];
      assert s[1..] == a[1..] + ".." + rest;
      assert forall k :: 0 <= k < |a| - 1 ==> a[1..][k] == a[k + 1];
      SplitAfter(a[1..], rest);
      assert [a[0]] + a[1..] == a;
    }
  }

  /** A range argument splits into its two ends. */
  lemma RangeSplits(a: string, b: string)
    requires !HasDots(a) && !EndsWithDot(a) && !HasDots(b)
    ensures SplitDots(a + ".." + b) == [a, b]
  {
    SplitAfter(a, b);
    SplitWithoutDots(b);
  }

  /** A lone argument gives exactly its contribution. */
  lemma ParsePatchesOne(name: string, list: seq<string>)
    ensures ParsePatches([name], list) == Contribution(name, list)
  {
    assert [name][..0] == [];
    match Contribution(name, list)
    case Err(_) =>
    case Ok(pl) =>
      assert FirstShared(pl, []) == None;
      assert [] + pl == pl;
  }

  /** A known name without ".." resolves to itself; this includes the empty
      name, which passes the unknown-name check. */
  lemma ParsePatchesName(name: string, list: seq<string>)
    requires Known(name, list) && !HasDots(name)
    ensures ParsePatches([name], list) == Ok([name])
  {
    SplitWithoutDots(name);
    ParsePatchesOne(name, list);
  }

  /** A non-empty name that is not in the list is an unknown patch name. */
  lemma ParsePatchesUnknownName(name: string, list: seq<string>)
    requires !Known(name, list) && !HasDots(name)
    ensures ParsePatches([name], list) == Err(UnknownPatchName(name))
  {
    SplitWithoutDots(name);
    ParsePatchesOne(name, list);
  }

  /** The patches from index i to index j inclusive, walking backwards when
      j comes before i. */
  function Between(list: seq<string>, i: int, j: int): (r: seq<string>)
    requires 0 <= i < |list| && 0 <= j < |list|
    ensures |r| == (if i <= j then j - i + 1 else i - j + 1)
    ensures r[0] == list[i] && r[|r| - 1] == list[j]
  {
    if i <= j then list[i..j + 1] else Reverse(list[j..i + 1])
  }

  /** `a..b`: the patches from `a` to `b` inclusive, in list order when `a`
      comes first and in reverse order when `b` comes first. */
  lemma ParsePatchesRange(a: string, b: string, list: seq<string>)
    requires a in list && b in list && a != "" && b != ""
    requires !HasDots(a) && !EndsWithDot(a) && !HasDots(b)
    ensures var i, j := IndexOf(list, a), IndexOf(list, b);
      ParsePatches([a + ".." + b], list) == Ok(Between(list, i, j))
  {
    RangeSplits(a, b);
    ParsePatchesOne(a + ".." + b, list);
    ContributionOfRange(a + ".." + b, a, b, list);
    RangeBetween(a, b, list);
  }

  /** The contribution of an argument that splits into two known ends. */
  lemma ContributionOfRange(name: string, a: string, b: string, list: seq<string>)
    requires SplitDots(name) == [a, b] && Known(a, list) && Known(b, list)
    ensures Contribution(name, list) == Ok(RangePatches(a, b, list))
  {
    assert FirstUnknown([a, b], list).None?;
  }

  lemma RangeBetween(a: string, b: string, list: seq<string>)
    requires a in list && b in list && a != "" && b != ""
    ensures RangePatches(a, b, list) == Between(list, IndexOf(list, a), IndexOf(list, b))
  {
    var i, j := IndexOf(list, a), IndexOf(list, b);
    assert i < j + 1 ==> PySlice(list, i, j + 1) == list[i..j + 1];
    assert j < i + 1 ==> PySlice(list, j, i + 1) == list[j..i + 1];
  }

  /** `a..` runs from `a` to the last patch. */
  lemma ParsePatchesFrom(a: string, list: seq<string>)
    requires a in list && a != "" && !HasDots(a) && !EndsWithDot(a)
    ensures ParsePatches([a + ".."], list) == Ok(list[IndexOf(list, a)..])
  {
    RangeSplits(a, "");
    assert a + ".." + "" == a + "..";
    assert [a, ""][1..] == [""];
    assert list[IndexOf(list, a)..|list|] == list[IndexOf(list, a)..];
    ParsePatchesOne(a + "..", list);
  }

  /** `..b` runs from the first patch to `b`. */
  lemma ParsePatchesUpTo(b: string, list: seq<string>)
    requires b in list && b != "" && !HasDots(b)
    ensures ParsePatches([".." + b], list) == Ok(list[..IndexOf(list, b) + 1])
  {
    RangeSplits("", b);
    assert "" + ".." + b == ".." + b;
    ParsePatchesOne(".." + b, list);
  }

  /** `..` is the whole list, the empty list included. */
  lemma ParsePatchesWholeList(list: seq<string>)
    ensures ParsePatches([".."], list) == Ok(list)
  {
    RangeSplits("", "");
    assert "" + ".." + "" == "..";
    ParsePatchesOne("..", list);
    assert list[0..|list|] == list;
  }

  /** On a three-patch series `p1, p2, p3`: `p1..p3` gives all three in order. */
  lemma ExampleForward(p1: string, p2: string, p3: string)
    requires p1 != "" && p3 != "" && p1 != p2 && p2 != p3 && p1 != p3
    requires !HasDots(p1) && !EndsWithDot(p1) && !HasDots(p3)
    ensures ParsePatches([p1 + ".." + p3], [p1, p2, p3]) == Ok([p1, p2, p3])
  {
    var list := [p1, p2, p3];
    ExampleIndexes(p1, p2, p3);
    ParsePatchesRange(p1, p3, list);
    assert Between(list, 0, 2) == list;
  }

  /** `p3..p1` gives all three backwards. */
  lemma ExampleBackward(p1: string, p2: string, p3: string)
    requires p1 != "" && p3 != "" && p1 != p2 && p2 != p3 && p1 != p3
    requires !HasDots(p3) && !EndsWithDot(p3) && !HasDots(p1)
    ensures ParsePatches([p3 + ".." + p1], [p1, p2, p3]) == Ok([p3, p2, p1])
  {
    var list := [p1, p2, p3];
    ExampleIndexes(p1, p2, p3);
    ParsePatchesRange(p3, p1, list);
    ExampleReversed(list);
  }

  /** `p2..` gives `p2, p3`. */
  lemma ExampleFrom(p1: string, p2: string, p3: string)
    requires p2 != "" && p1 != p2 && p2 != p3 && p1 != p3 && !HasDots(p2) && !EndsWithDot(p2)
    ensures ParsePatches([p2 + ".."], [p1, p2, p3]) == Ok([p2, p3])
  {
    var list := [p1, p2, p3];
    ExampleIndexes(p1, p2, p3);
    ParsePatchesFrom(p2, list);
    assert list[1..] == [p2, p3];
  }

  /** `..p2` gives `p1, p2`. */
  lemma ExampleUpTo(p1: string, p2: string, p3: string)
    requires p2 != "" && p1 != p2 && p2 != p3 && p1 != p3 && !HasDots(p2)
    ensures ParsePatches([".." + p2], [p1, p2, p3]) == Ok([p1, p2])
  {
    var list := [p1, p2, p3];
    ExampleIndexes(p1, p2, p3);
    ParsePatchesUpTo(p2, list);
    assert list[..2] == [p1, p2];
  }

  lemma ExampleIndexes(p1: string, p2: string, p3: string)
    requires p1 != p2 && p2 != p3 && p1 != p3
    ensures IndexOf([p1, p2, p3], p1) == 0 && IndexOf([p1, p2, p3], p2) == 1 && IndexOf([p1, p2, p3], p3) == 2
  {
    var list := [p1, p2, p3];
    assert list[..1] == [p1] && list[..2] == [p1, p2];
  }

  lemma ExampleReversed(list: seq<string>)
    requires |list| == 3
    ensures Between(list, 2, 0) == [list[2], list[1], list[0]]
  {
    assert list[0..3] == list;
  }

  lemma {:induction false} ReverseReverse<T>(s: seq<T>)
    ensures Reverse(Reverse(s)) == s
  {
    assert forall k :: 0 <= k < |s| ==> Reverse(Reverse(s))[k] == Reverse(s)[|s| - 1 - k] == s[k];
  }

  /** Swapping the ends of a range reverses the patches it gives. */
  lemma RangeReversed(a: string, b: string, list: seq<string>)
    requires a in list && b in list && a != "" && b != ""
    requires !HasDots(a) && !EndsWithDot(a) && !HasDots(b) && !EndsWithDot(b)
    ensures ParsePatches([a + ".." + b], list).Ok? && ParsePatches([b + ".." + a], list).Ok?
    ensures ParsePatches([b + ".." + a], list).value == Reverse(ParsePatches([a + ".." + b], list).value)
  {
    ParsePatchesRange(a, b, list);
    ParsePatchesRange(b, a, list);
    FlipRange(list, IndexOf(list, a), IndexOf(list, b));
  }

  lemma FlipRange(list: seq<string>, i: int, j: int)
    requires 0 <= i < |list| && 0 <= j < |list|
    ensures Between(list, j, i) == Reverse(Between(list, i, j))
  {
    if i == j {
      var r := Reverse(list[i..i + 1]);
      assert r[0] == list[i];
      assert r == list[i..i + 1];
    } else if i > j {
      ReverseReverse(list[j..i + 1]);
    }
  }

  /** More than one ".." is malformed, but only once every part is known:
      an unknown part is reported first. */
  lemma ParsePatchesMalformed(a: string, b: string, c: string, list: seq<string>)
    requires !HasDots(a) && !EndsWithDot(a) && !HasDots(b) && !EndsWithDot(b) && !HasDots(c)
    ensures var name := a + ".." + b + ".." + c;
      ParsePatches([name], list)
        == if !Known(a, list) then Err(UnknownPatchName(a))
           else if !Known(b, list) then Err(UnknownPatchName(b))
           else if !Known(c, list) then Err(UnknownPatchName(c))
           else Err(MalformedPatchName(name))
  {
    var name := a + ".." + b + ".." + c;
    assert name == a + ".." + (b + ".." + c);
    SplitAfter(a, b + ".." + c);
    RangeSplits(b, c);
    assert SplitDots(name) == [a, b, c];
    assert [a, b, c][1..] == [b, c] && [b, c][1..] == [c] && [c][1..] == [];
    ParsePatchesOne(name, list);
    if !Known(a, list) {
      assert FirstUnknown([a, b, c], list) == Some(a);
    } else if !Known(b, list) {
      assert FirstUnknown([a, b, c], list) == FirstUnknown([b, c], list) == Some(b);
    } else if !Known(c, list) {
      assert FirstUnknown([a, b, c], list) == FirstUnknown([b, c], list) == FirstUnknown([c], list) == Some(c);
    } else {
      assert FirstUnknown([a, b, c], list) == None;
    }
  }

  /** A name given twice is a duplicate. */
  lemma ParsePatchesDuplicate(name: string, list: seq<string>)
    requires name in list && !HasDots(name)
    ensures ParsePatches([name, name], list) == Err(DuplicatePatchName(name))
  {
    SplitWithoutDots(name);
    ParsePatchesName(name, list);
    assert [name, name][..1] == [name];
  }

  lemma SliceNoDuplicates(list: seq<string>, i: int, j: int)
    requires NoDuplicates(list)
    ensures NoDuplicates(PySlice(list, i, j)) && NoDuplicates(Reverse(PySlice(list, i, j)))
  {
    var s := PySlice(list, i, j);
    var lo := PyBound(i, |list|);
    assert forall k :: 0 <= k < |s| ==> s[k] == list[lo + k];
  }

  /** One argument's patches repeat nothing when the list repeats nothing. */
  lemma ContributionNoDuplicates(name: string, list: seq<string>)
    requires NoDuplicates(list) && Contribution(name, list).Ok?
    ensures NoDuplicates(Contribution(name, list).value)
  {
    var pair := SplitDots(name);
    if |pair| == 2 {
      assert pair == [pair[0], pair[1]];
      ContributionOfRange(name, pair[0], pair[1], list);
      RangeNoDuplicates(pair[0], pair[1], list);
    }
  }

  lemma RangeNoDuplicates(a: string, b: string, list: seq<string>)
    requires NoDuplicates(list) && Known(a, list) && Known(b, list)
    ensures NoDuplicates(RangePatches(a, b, list))
  {
    var first := if a != "" then IndexOf(list, a) else 0;
    var last := if b != "" then IndexOf(list, b) + 1 else |list|;
    SliceNoDuplicates(list, first, last);
    SliceNoDuplicates(list, last - 1, first + 1);
  }

  /** With a duplicate-free list, the result is duplicate-free: each
      argument's patches repeat nothing, and the duplicate check keeps them
      apart from the earlier ones. */
  lemma {:induction false} ParsePatchesNoDuplicates(args: seq<string>, list: seq<string>)
    requires NoDuplicates(list) && ParsePatches(args, list).Ok?
    ensures NoDuplicates(ParsePatches(args, list).value)
    decreases |args|
  {
    if args != [] {
      var init := args[..|args| - 1];
      var name := args[|args| - 1];
      ParsePatchesNoDuplicates(init, list);
      ContributionNoDuplicates(name, list);
      var patches := ParsePatches(init, list).value;
      var pl := Contribution(name, list).value;
      var out := patches + pl;
      assert forall k :: 0 <= k < |pl| ==> pl[k] !in patches;
      forall x, y | 0 <= x < y < |out|
        ensures out[x] != out[y]
      {
        if y >= |patches| && x < |patches| {
          assert out[y] == pl[y - |patches|] && out[x] in patches;
        }
      }
    }
  }

  /** Every resolved name is in the list, except the empty name, which
      comes only from an empty argument. */
  lemma {:induction false} ParsePatchesFromList(args: seq<string>, list: seq<string>)
    requires ParsePatches(args, list).Ok?
    ensures forall x :: x in ParsePatches(args, list).value ==> x in list || (x == "" && "" in args)
    decreases |args|
  {
    if args != [] {
      var init := args[..|args| - 1];
      ParsePatchesFromList(init, list);
      assert forall t :: t in init ==> t in args;
    }
  }

  /** parse_patches raises only its three errors: an unknown name, a
      malformed argument (one of the arguments given) or a duplicate. */
  lemma {:induction false} ParsePatchesErrors(args: seq<string>, list: seq<string>)
    requires ParsePatches(args, list).Err?
    ensures var e := ParsePatches(args, list).error;
      && (e.UnknownPatchName? || e.MalformedPatchName? || e.DuplicatePatchName?)
      && (e.MalformedPatchName? ==> e.name in args)
    decreases |args|
  {
    var init := args[..|args| - 1];
    if ParsePatches(init, list).Err? {
      ParsePatchesErrors(init, list);
      assert forall t :: t in init ==> t in args;
    }
  }

  /** One step of the definition, for arguments written as `args + [name]`. */
  lemma ParsePatchesSnoc(args: seq<string>, name: string, list: seq<string>)
    requires ParsePatches(args, list).Ok? && Contribution(name, list).Ok?
    requires FirstShared(Contribution(name, list).value, ParsePatches(args, list).value).None?
    ensures ParsePatches(args + [name], list) == Ok(ParsePatches(args, list).value + Contribution(name, list).value)
  {
    var zs := args + [name];
    assert zs[..|zs| - 1] == args;
    assert zs[|zs| - 1] == name;
  }

  /** The definition read backwards: a successful result is the result for
      all but the last argument followed by the last argument's patches. */
  lemma ParsePatchesLast(args: seq<string>, list: seq<string>)
    requires args != [] && ParsePatches(args, list).Ok?
    ensures var init, name := args[..|args| - 1], args[|args| - 1];
      && ParsePatches(init, list).Ok? && Contribution(name, list).Ok?
      && FirstShared(Contribution(name, list).value, ParsePatches(init, list).value).None?
      && ParsePatches(args, list).value == ParsePatches(init, list).value + Contribution(name, list).value
  {
  }

  predicate Disjoint(a: seq<string>, b: seq<string>) {
    forall p :: p in a ==> p !in b
  }

  lemma DisjointSplit(o1: seq<string>, o2: seq<string>, pl: seq<string>)
    requires Disjoint(o1, o2 + pl) && FirstShared(pl, o2).None?
    ensures Disjoint(o1, o2) && FirstShared(pl, o1 + o2).None?
  {
    assert forall p :: p in o2 ==> p in o2 + pl;
    assert forall k :: 0 <= k < |pl| ==> pl[k] in o2 + pl;
  }

  lemma AppendLast(xs: seq<string>, ys: seq<string>)
    requires ys != []
    ensures xs + ys[..|ys| - 1] + [ys[|ys| - 1]] == xs + ys
  {
    assert ys == ys[..|ys| - 1] + [ys[|ys| - 1]];
  }

  /** Proof step: regrouping a three-part concatenation. */
  lemma AppendAssoc(o1: seq<string>, o2: seq<string>, pl: seq<string>)
    ensures (o1 + o2) + pl == o1 + (o2 + pl)
  {
  }

  /** Resolving two argument lists one after the other: the results are
      concatenated in argument order when they share no patch. */
  lemma {:induction false} ParsePatchesConcat(xs: seq<string>, ys: seq<string>, list: seq<string>)
    requires ParsePatches(xs, list).Ok? && ParsePatches(ys, list).Ok?
    requires Disjoint(ParsePatches(xs, list).value, ParsePatches(ys, list).value)
    ensures ParsePatches(xs + ys, list) == Ok(ParsePatches(xs, list).value + ParsePatches(ys, list).value)
    decreases |ys|
  {
    if ys == [] {
      assert xs + ys == xs;
      assert ParsePatches(xs, list).value + [] == ParsePatches(xs, list).value;
    } else {
      var init := ys[..|ys| - 1];
      var name := ys[|ys| - 1];
      ParsePatchesLast(ys, list);
      var o1 := ParsePatches(xs, list).value;
      var o2 := ParsePatches(init, list).value;
      var pl := Contribution(name, list).value;
      DisjointSplit(o1, o2, pl);
      ParsePatchesConcat(xs, init, list);
      ParsePatchesSnoc(xs + init, name, list);
      AppendLast(xs, ys);
      AppendAssoc(o1, o2, pl);
    }
  }
}
