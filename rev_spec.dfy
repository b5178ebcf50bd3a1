/** parse_rev: the revision syntax `patch[@branch][//patch_id]`
    (stgit/commands/common.py:41-75).

    The regular expressions of the source are read as deterministic splits:
    a patch id never holds '/', so it is always the text after the last '/';
    a patch name never holds '@', so the branch starts after the first '@'.
    Whether some branch name holds a '/' (the scan of refs/heads) is the
    parameter `slashBranches`. */
module RevSpec {
  import opened Errors
  import opened Text

  /** The (patch, branch, patch_id) triple; None where the group did not take part. */
  datatype Rev = Rev(patch: Option<string>, branch: Option<string>, patchId: Option<string>)

  /** `[a-z.]` */
  predicate IsPatchIdChar(c: char) {
    'a' <= c <= 'z' || c == '.'
  }

  /** `[a-z.]*` */
  predicate IsPatchId(s: string) {
    forall k :: 0 <= k < |s| ==> IsPatchIdChar(s[k])
  }

  /** `[^@/]+` */
  predicate IsPatchName(s: string) {
    s != [] && '@' !in s && '/' !in s
  }

  /** `[^@]+` when some branch name holds a '/', `[^@/]+` otherwise. */
  predicate IsBranchName(s: string, slashBranches: bool) {
    s != [] && '@' !in s && (!slashBranches ==> '/' !in s)
  }

  /** The patch id mark: `//`, or `(/|//)` when no branch name holds a '/'. */
  predicate IsMark(mark: string, slashBranches: bool) {
    mark == "//" || (!slashBranches && mark == "/")
  }

  /** The triples the three forms can produce. */
  predicate WellFormed(r: Rev, slashBranches: bool) {
    && (r.patch.None? ==> r.branch.None? && r.patchId.Some?)
    && (r.patch.Some? ==> IsPatchName(r.patch.value))
    && (r.branch.Some? ==> IsBranchName(r.branch.value, slashBranches))
    && (r.patchId.Some? ==> IsPatchId(r.patchId.value))
  }

  function HeadText(patch: string, branch: Option<string>): string {
    match branch
    case None => patch
    case Some(b) => patch + "@" + b
  }

  /** How a triple is written, with `mark` in front of the patch id. */
  function Render(r: Rev, mark: string): string {
    var head := if r.patch.Some? then HeadText(r.patch.value, r.branch) else "";
    match r.patchId
    case None => head
    case Some(id) => head + mark + id
  }

  /** A branch name that itself reads as `branch//patch_id`. */
  predicate HidesPatchId(b: string) {
    exists k :: 1 <= k <= |b| - 2 && b[k] == '/' && b[k + 1] == '/' && IsPatchId(b[k + 2..])
  }

  /** The text the first two forms must match. Their last element,
      `[a-z.]*` or the mark, cannot take a line feed, and `$` also matches
      just before a final line feed, so a final line feed is left over. */
  function DropFinalNewline(s: string): (r: string)
    ensures s == r || s == r + "\n"
    ensures s != [] && s[|s| - 1] == '\n' ==> s == r + "\n"
    ensures (s == [] || s[|s| - 1] != '\n') ==> r == s
  {
    if s != [] && s[|s| - 1] == '\n' then s[..|s| - 1] else s
  }

  /** First form, `^mark[a-z.]*$`. */
  function ParseIdOnly(rev: string, slashBranches: bool): (r: Option<string>)
    ensures r.Some? ==> IsPatchId(r.value)
    ensures r.Some? ==> rev == "//" + r.value || (!slashBranches && rev == "/" + r.value)
  {
    if |rev| >= 2 && rev[0] == '/' && rev[1] == '/' && IsPatchId(rev[2..]) then
      assert rev == "//" + rev[2..];
      Some(rev[2..])
    else if !slashBranches && |rev| >= 1 && rev[0] == '/' && IsPatchId(rev[1..]) then
      assert rev == "/" + rev[1..];
      Some(rev[1..])
    else None
  }

  /** `patch(@branch)?`, split at the first '@'. */
  function ParseHead(h: string, slashBranches: bool): (r: Option<(string, Option<string>)>)
    ensures r.Some? ==> IsPatchName(r.value.0) && h == HeadText(r.value.0, r.value.1)
    ensures r.Some? && r.value.1.Some? ==> IsBranchName(r.value.1.value, slashBranches)
  {
    match FirstIndex(h, '@')
    case None => if IsPatchName(h) then Some((h, None)) else None
    case Some(i) =>
      if IsPatchName(h[..i]) && IsBranchName(h[i + 1..], slashBranches) then
        assert h == h[..i] + "@" + h[i + 1..];
        Some((h[..i], Some(h[i + 1..])))
      else None
  }

  /** `...mark[a-z.]*$`: the text before the mark and the patch id after it. */
  function SplitPatchId(rev: string, slashBranches: bool): (r: Option<(string, string)>)
    ensures r.Some? ==> IsPatchId(r.value.1)
    ensures r.Some? ==> rev == r.value.0 + "//" + r.value.1 || (!slashBranches && rev == r.value.0 + "/" + r.value.1)
  {
    match LastIndex(rev, '/')
    case None => None
    case Some(k) =>
      if !IsPatchId(rev[k + 1..]) then None
      else if k >= 1 && rev[k - 1] == '/' then
        assert rev == rev[..k - 1] + "//" + rev[k + 1..];
        Some((rev[..k - 1], rev[k + 1..]))
      else if !slashBranches then
        assert rev == rev[..k] + "/" + rev[k + 1..];
        Some((rev[..k], rev[k + 1..]))
      else None
  }

  /** The first two forms, `^mark[a-z.]*$` and `^patch(@branch)?mark[a-z.]*$`,
      tried in order on the text before `$`: a triple with a patch id. */
  function ParseMarked(core: string, slashBranches: bool): (r: Option<Rev>)
    ensures r.Some? ==> WellFormed(r.value, slashBranches) && r.value.patchId.Some?
    ensures r.Some? ==> core == Render(r.value, "//") || (!slashBranches && core == Render(r.value, "/"))
  {
    match ParseIdOnly(core, slashBranches)
    case Some(id) => Some(Rev(None, None, Some(id)))
    case None =>
      var marked := SplitPatchId(core, slashBranches);
      var withId := if marked.Some? then ParseHead(marked.value.0, slashBranches) else None;
      if withId.Some? then Some(Rev(Some(withId.value.0), withId.value.1, Some(marked.value.1)))
      else None
  }

  /** parse_rev: the three forms tried in order, the first match wins. The
      contract is the soundness half: a result is well formed and is written
      back as the input with one of the allowed marks, followed by one line
      feed at most when it has a patch id. */
  function ParseRev(rev: string, slashBranches: bool): (r: Result<Rev, RevParseError>)
    ensures r.Ok? ==> WellFormed(r.value, slashBranches)
    ensures r.Ok? ==> var t := if r.value.patchId.Some? then DropFinalNewline(rev) else rev;
      t == Render(r.value, "//") || (!slashBranches && t == Render(r.value, "/"))
  {
    match ParseMarked(DropFinalNewline(rev), slashBranches)
    case Some(r) => Ok(r)
    case None =>
      match ParseHead(rev, slashBranches)
      case Some((p, b)) => Ok(Rev(Some(p), b, None))
      case None => Err(RevParseException)
  }

  lemma HeadTextParses(p: string, b: Option<string>, slashBranches: bool)
    requires IsPatchName(p) && (b.Some? ==> IsBranchName(b.value, slashBranches))
    ensures ParseHead(HeadText(p, b), slashBranches) == Some((p, b))
  {
    if b.Some? {
      var h := HeadText(p, b);
      assert h[..|p|] == p && h[|p|] == '@' && h[|p| + 1..] == b.value;
      assert FirstIndex(h, '@') == Some(|p|) by {
        assert '@' !in h[..|p|];
      }
    }
  }

  lemma PatchIdHasNoSlash(id: string)
    requires IsPatchId(id)
    ensures '/' !in id && '@' !in id
  {
    assert forall t :: 0 <= t < |id| ==> IsPatchIdChar(id[t]);
  }

  lemma LastSlashBeforeId(h: string, mark: string, id: string)
    requires IsPatchId(id) && (mark == "/" || mark == "//")
    ensures LastIndex(h + mark + id, '/') == Some(|h| + |mark| - 1)
  {
    var rev := h + mark + id;
    var k := |h| + |mark| - 1;
    assert rev[k] == '/';
    PatchIdHasNoSlash(id);
    assert rev[k + 1..] == id;
    LastIndexAt(rev, '/', k);
  }

  lemma SplitPatchIdOf(h: string, mark: string, id: string, slashBranches: bool)
    requires IsPatchId(id) && IsMark(mark, slashBranches)
    requires mark == "/" ==> '/' !in h
    ensures SplitPatchId(h + mark + id, slashBranches) == Some((h, id))
  {
    var rev := h + mark + id;
    var k := |h| + |mark| - 1;
    LastSlashBeforeId(h, mark, id);
    assert rev[k + 1..] == id;
    if mark == "//" {
      assert rev[k - 1] == '/';
      assert rev[..k - 1] == h;
    } else {
      assert k >= 1 ==> rev[k - 1] == h[|h| - 1];
      assert rev[..k] == h;
    }
  }

  /** Text that starts with a patch name never reads as the first form. */
  lemma NotIdOnly(rev: string, slashBranches: bool)
    requires rev != [] && rev[0] != '/'
    ensures ParseIdOnly(rev, slashBranches).None?
  {
  }

  /** A mark in `patch@branch` can only sit inside the branch name. */
  lemma MarkInBranch(p: string, b: string, h': string, id: string)
    requires IsPatchName(p) && p + "@" + b == h' + "//" + id
    ensures |p| < |h'| && h' == p + "@" + b[..|h'| - |p| - 1] && b[|h'| - |p| - 1..] == "//" + id
  {
    var h := p + "@" + b;
    assert h[|h'|] == '/';
    assert forall t :: 0 <= t < |p| ==> h[t] == p[t];
    assert h[|p|] == '@';
    assert |h'| > |p|;
    var m := |h'| - |p| - 1;
    assert h[..|h'|] == h' && h[|h'|..] == "//" + id;
  }

  lemma HidesPatchIdAt(b: string, m: nat, id: string)
    requires 1 <= m && m + 2 <= |b| && b[m..] == "//" + id && IsPatchId(id)
    ensures HidesPatchId(b)
  {
    assert b[m] == '/' && b[m + 1] == '/' && b[m + 2..] == id;
  }

  lemma HeadWithEmptyBranch(p: string, slashBranches: bool)
    requires IsPatchName(p)
    ensures ParseHead(p + "@", slashBranches).None?
  {
    var h := p + "@";
    assert '@' !in h[..|p|];
    assert FirstIndex(h, '@') == Some(|p|);
  }

  /** In the no-suffix form, a branch `b` that does not hide a patch id
      leaves the second form no way to match. */
  lemma UnmarkedHead(p: string, b: string, slashBranches: bool)
    requires IsPatchName(p) && '@' !in b && (!slashBranches ==> '/' !in b)
    requires !(slashBranches && HidesPatchId(b))
    ensures var marked := SplitPatchId(p + "@" + b, slashBranches);
      marked.None? || ParseHead(marked.value.0, slashBranches).None?
  {
    var h := p + "@" + b;
    var marked := SplitPatchId(h, slashBranches);
    if marked.Some? && slashBranches {
      var h', id := marked.value.0, marked.value.1;
      MarkInBranch(p, b, h', id);
      if |h'| == |p| + 1 {
        HeadWithEmptyBranch(p, slashBranches);
      } else {
        HidesPatchIdAt(b, |h'| - |p| - 1, id);
      }
    }
  }

  /** The completeness half of parse_rev: every well-formed triple, written
      with an allowed mark, parses, and parses back to itself unless its
      branch name hides a patch id. */
  lemma ParseRevComplete(r: Rev, mark: string, slashBranches: bool)
    requires WellFormed(r, slashBranches) && IsMark(mark, slashBranches)
    ensures ParseRev(Render(r, mark), slashBranches).Ok?
    ensures !(slashBranches && r.patchId.None? && r.branch.Some? && HidesPatchId(DropFinalNewline(r.branch.value)))
      ==> ParseRev(Render(r, mark), slashBranches) == Ok(r)
  {
    if r.patch.None? {
      CompleteIdOnly(r.patchId.value, mark, slashBranches);
    } else if r.patchId.Some? {
      CompleteMarked(r.patch.value, r.branch, r.patchId.value, mark, slashBranches);
    } else {
      CompleteUnmarked(r.patch.value, r.branch, slashBranches);
    }
  }

  lemma CompleteIdOnly(id: string, mark: string, slashBranches: bool)
    requires IsPatchId(id) && IsMark(mark, slashBranches)
    ensures ParseRev(mark + id, slashBranches) == Ok(Rev(None, None, Some(id)))
  {
    var rev := mark + id;
    assert rev[|rev| - 1] == if id == [] then '/' else id[|id| - 1];
    assert DropFinalNewline(rev) == rev;
    if mark == "/" && |rev| >= 2 {
      assert rev[1] == id[0] && IsPatchIdChar(id[0]);
    }
    assert rev[|mark|..] == id;
  }

  lemma CompleteMarked(p: string, b: Option<string>, id: string, mark: string, slashBranches: bool)
    requires IsPatchName(p) && (b.Some? ==> IsBranchName(b.value, slashBranches))
    requires IsPatchId(id) && IsMark(mark, slashBranches)
    ensures ParseRev(HeadText(p, b) + mark + id, slashBranches) == Ok(Rev(Some(p), b, Some(id)))
  {
    var h := HeadText(p, b);
    var rev := h + mark + id;
    assert h[0] == p[0];
    HeadTextParses(p, b, slashBranches);
    assert rev[|rev| - 1] == if id == [] then '/' else id[|id| - 1];
    assert DropFinalNewline(rev) == rev;
    NotIdOnly(rev, slashBranches);
    if mark == "/" {
      assert '/' !in h by {
        if b.Some? {
          assert h == p + "@" + b.value;
        }
      }
    }
    SplitPatchIdOf(h, mark, id, slashBranches);
  }

  lemma CompleteUnmarked(p: string, b: Option<string>, slashBranches: bool)
    requires IsPatchName(p) && (b.Some? ==> IsBranchName(b.value, slashBranches))
    ensures ParseRev(HeadText(p, b), slashBranches).Ok?
    ensures !(slashBranches && b.Some? && HidesPatchId(DropFinalNewline(b.value)))
      ==> ParseRev(HeadText(p, b), slashBranches) == Ok(Rev(Some(p), b, None))
  {
    var h := HeadText(p, b);
    assert h[0] == p[0];
    HeadTextParses(p, b, slashBranches);
    var core := DropFinalNewline(h);
    if core != [] {
      assert core[0] == p[0];
      NotIdOnly(core, slashBranches);
    }
    if b.Some? {
      HeadCore(p, b.value);
      if !(slashBranches && HidesPatchId(DropFinalNewline(b.value))) {
        UnmarkedHead(p, DropFinalNewline(b.value), slashBranches);
      }
    } else {
      assert '/' !in core by {
        assert forall t :: 0 <= t < |core| ==> core[t] == p[t];
      }
    }
  }

  /** `$` also matches before a final line feed: a revision with a patch id
      may be followed by one line feed and still parses to the same triple. */
  lemma ParseRevFinalNewline(r: Rev, mark: string, slashBranches: bool)
    requires WellFormed(r, slashBranches) && IsMark(mark, slashBranches) && r.patchId.Some?
    ensures ParseRev(Render(r, mark) + "\n", slashBranches) == Ok(r)
  {
    var rev := Render(r, mark);
    MarkedOf(r, mark, slashBranches);
    assert (rev + "\n")[..|rev|] == rev;
  }

  /** A written triple with a patch id ends in its patch id or its mark, and
      the first two forms read it back. */
  lemma MarkedOf(r: Rev, mark: string, slashBranches: bool)
    requires WellFormed(r, slashBranches) && IsMark(mark, slashBranches) && r.patchId.Some?
    ensures DropFinalNewline(Render(r, mark)) == Render(r, mark)
    ensures ParseMarked(Render(r, mark), slashBranches) == Some(r)
  {
    var rev := Render(r, mark);
    var id := r.patchId.value;
    assert rev[|rev| - 1] == if id == [] then '/' else id[|id| - 1];
    ParseRevComplete(r, mark, slashBranches);
  }

  /** The third form ends in `[^@/]+` or `[^@]+`, which take a line feed: a
      final line feed stays in the patch or branch name. */
  lemma ParseRevNewlineExamples(slashBranches: bool)
    ensures ParseRev("foo//top\n", slashBranches) == Ok(Rev(Some("foo"), None, Some("top")))
    ensures ParseRev("//top\n", slashBranches) == Ok(Rev(None, None, Some("top")))
    ensures ParseRev("foo\n", slashBranches) == Ok(Rev(Some("foo\n"), None, None))
  {
    assert IsPatchName("foo") && IsPatchId("top") && IsPatchName("foo\n");
    assert Render(Rev(Some("foo"), None, Some("top")), "//") + "\n" == "foo//top\n";
    assert Render(Rev(None, None, Some("top")), "//") + "\n" == "//top\n";
    ParseRevFinalNewline(Rev(Some("foo"), None, Some("top")), "//", slashBranches);
    ParseRevFinalNewline(Rev(None, None, Some("top")), "//", slashBranches);
    CompleteUnmarked("foo\n", None, slashBranches);
  }

  /** A final line feed of `patch@branch` belongs to the branch name. */
  lemma HeadCore(p: string, b: string)
    requires b != []
    ensures DropFinalNewline(p + "@" + b) == p + "@" + DropFinalNewline(b)
  {
    var h := p + "@" + b;
    assert h[|h| - 1] == b[|b| - 1];
    if b[|b| - 1] == '\n' {
      assert h[..|h| - 1] == p + "@" + b[..|b| - 1];
    }
  }

  /** With slash branches the second form is tried before the third: a
      branch name ending in `//patch_id` cannot be named without a patch id,
      because the text reads as that shorter branch plus the patch id. */
  lemma FirstMatchWins(p: string, b: string, id: string)
    requires IsPatchName(p) && IsBranchName(b, true) && IsPatchId(id)
    ensures IsBranchName(b + "//" + id, true)
    ensures ParseRev(Render(Rev(Some(p), Some(b + "//" + id), None), "//"), true)
      == Ok(Rev(Some(p), Some(b), Some(id)))
  {
    PatchIdHasNoSlash(id);
    assert Render(Rev(Some(p), Some(b + "//" + id), None), "//")
      == Render(Rev(Some(p), Some(b), Some(id)), "//");
    ParseRevComplete(Rev(Some(p), Some(b), Some(id)), "//", true);
  }

  /** The grammar depends on the branch scan: without slash branches a single
      '/' is a mark just like `//`. */
  lemma SingleSlashMark(p: string, id: string)
    requires IsPatchName(p) && IsPatchId(id)
    ensures ParseRev(p + "/" + id, false) == Ok(Rev(Some(p), None, Some(id)))
    ensures ParseRev(p + "//" + id, false) == Ok(Rev(Some(p), None, Some(id)))
    ensures ParseRev("/" + id, false) == Ok(Rev(None, None, Some(id)))
  {
    ParseRevComplete(Rev(Some(p), None, Some(id)), "/", false);
    ParseRevComplete(Rev(Some(p), None, Some(id)), "//", false);
    ParseRevComplete(Rev(None, None, Some(id)), "/", false);
  }

  /** With slash branches a single '/' is no mark: `patch/id` and `/id` fail. */
  lemma SingleSlashNoMark(p: string, id: string)
    requires IsPatchName(p) && IsPatchId(id)
    ensures ParseRev(p + "/" + id, true) == Err(RevParseException)
    ensures ParseRev("/" + id, true) == Err(RevParseException)
  {
    PatchIdHasNoSlash(id);
    var rev := p + "/" + id;
    assert forall t :: 0 <= t < |p| ==> rev[t] == p[t];
    assert forall t :: |p| < t < |rev| ==> rev[t] == id[t - |p| - 1];
    SingleSlashFails(rev, |p|);
    assert forall t :: 0 < t < |id| + 1 ==> ("/" + id)[t] == id[t - 1];
    SingleSlashFails("/" + id, 0);
  }

  /** Where the slashes and the '@' of a written triple sit. */
  lemma RenderLayout(r: Rev, mark: string, slashBranches: bool)
    requires WellFormed(r, slashBranches) && IsMark(mark, slashBranches)
    ensures var rev := Render(r, mark);
      && rev != [] && rev[0] != '@' && rev[|rev| - 1] != '@'
      && (r.patchId.Some? ==> |rev| >= |r.patchId.value| + |mark|)
      && (r.patchId.Some? ==> rev[|rev| - |r.patchId.value| - 1] == '/')
      && (r.patchId.Some? && mark == "//" ==> rev[|rev| - |r.patchId.value| - 2] == '/')
      && (r.patchId.None? ==> forall t :: 0 <= t < |r.patch.value| ==> rev[t] != '/')
      && (r.patchId.None? && r.branch.None? ==> rev == r.patch.value)
      && (r.patchId.None? && r.branch.Some? ==> |rev| > |r.patch.value| && rev[|r.patch.value|] == '@')
  {
    var rev := Render(r, mark);
    match r.patchId {
      case Some(id) =>
        PatchIdHasNoSlash(id);
        assert rev[|rev| - |id|..] == id;
        assert id != [] ==> rev[|rev| - 1] == id[|id| - 1];
        assert r.patch.Some? ==> rev[0] == r.patch.value[0];
      case None =>
        var p := r.patch.value;
        assert rev[0] == p[0];
        assert forall t :: 0 <= t < |p| ==> rev[t] == p[t];
        if r.branch.Some? {
          var b := r.branch.value;
          assert rev == p + "@" + b;
          assert rev[|rev| - 1] == b[|b| - 1];
        }
    }
  }

  /** With slash branches, a text holding a single '/' with no '@' before it
      matches no form. */
  lemma SingleSlashFails(rev: string, k: nat)
    requires k < |rev| && rev[k] == '/'
    requires forall t :: 0 <= t < |rev| && t != k ==> rev[t] != '/'
    requires forall t :: 0 <= t < k ==> rev[t] != '@'
    ensures ParseRev(rev, true) == Err(RevParseException)
  {
    if ParseRev(rev, true).Ok? {
      RenderLayout(ParseRev(rev, true).value, "//", true);
    }
  }

  /** Texts with an empty part are rejected: the empty text, a text that
      starts with '@' (no patch name) and one that ends with '@' (no branch). */
  lemma RejectsMissingParts(rev: string, slashBranches: bool)
    requires rev == "" || rev[0] == '@' || rev[|rev| - 1] == '@'
    ensures ParseRev(rev, slashBranches) == Err(RevParseException)
  {
    var core := DropFinalNewline(rev);
    assert core == "" || core[0] == '@' || core[|core| - 1] == '@' by {
      if rev != "" && rev[|rev| - 1] != '@' && core != "" {
        assert core[0] == rev[0];
      }
    }
    MarkedRejects(core, slashBranches);
    if ParseHead(rev, slashBranches).Some? {
      RenderLayout(Rev(Some(ParseHead(rev, slashBranches).value.0), ParseHead(rev, slashBranches).value.1, None),
                   "//", slashBranches);
    }
  }

  lemma MarkedRejects(core: string, slashBranches: bool)
    requires core == "" || core[0] == '@' || core[|core| - 1] == '@'
    ensures ParseMarked(core, slashBranches).None?
  {
    if ParseMarked(core, slashBranches).Some? {
      var r := ParseMarked(core, slashBranches).value;
      RenderLayout(r, if core == Render(r, "//") then "//" else "/", slashBranches);
    }
  }

  /** The documented examples of the syntax, in either grammar. */
  lemma ParseRevExamples(slashBranches: bool)
    ensures ParseRev("foo", slashBranches) == Ok(Rev(Some("foo"), None, None))
    ensures ParseRev("foo@bar", slashBranches) == Ok(Rev(Some("foo"), Some("bar"), None))
  {
    assert IsPatchName("foo") && IsBranchName("bar", slashBranches);
    assert Render(Rev(Some("foo"), None, None), "//") == "foo";
    assert Render(Rev(Some("foo"), Some("bar"), None), "//") == "foo@bar";
    ParseRevComplete(Rev(Some("foo"), None, None), "//", slashBranches);
    ParseRevComplete(Rev(Some("foo"), Some("bar"), None), "//", slashBranches);
  }

  lemma ParseRevIdExamples(slashBranches: bool)
    ensures ParseRev("foo//top", slashBranches) == Ok(Rev(Some("foo"), None, Some("top")))
    ensures ParseRev("//bottom", slashBranches) == Ok(Rev(None, None, Some("bottom")))
  {
    assert IsPatchName("foo") && IsPatchId("top") && IsPatchId("bottom");
    assert Render(Rev(Some("foo"), None, Some("top")), "//") == "foo//top";
    assert Render(Rev(None, None, Some("bottom")), "//") == "//bottom";
    ParseRevComplete(Rev(Some("foo"), None, Some("top")), "//", slashBranches);
    ParseRevComplete(Rev(None, None, Some("bottom")), "//", slashBranches);
  }

  /** `foo/top` names the top of foo only when no branch name holds a '/'. */
  lemma ParseRevSlashExamples()
    ensures ParseRev("foo/top", false) == Ok(Rev(Some("foo"), None, Some("top")))
    ensures ParseRev("foo/top", true) == Err(RevParseException)
  {
    assert IsPatchName("foo") && IsPatchId("top");
    assert "foo" + "/" + "top" == "foo/top";
    SingleSlashMark("foo", "top");
    SingleSlashNoMark("foo", "top");
  }
}
