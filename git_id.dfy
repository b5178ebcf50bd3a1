/** git_id: resolving a revision text against the patch stack
    (stgit/commands/common.py:77-105).

    The series that git_id reads (the global crt_series and
    stack.Series(branch)) are values here: `crtSeries` for the current one
    and `seriesOf` for the series of a named branch. git.rev_parse is not
    modelled; its call is returned as `RevParse(query)`. */
module RevResolve {
  import opened Errors
  import opened RevSpec

  /** The four commit ids a patch records (get_top, get_bottom, get_old_top, get_old_bottom). */
  datatype PatchCommits = PatchCommits(top: string, bottom: string, oldTop: string, oldBottom: string)

  /** What git_id reads of a series. */
  datatype Series = Series(
    current: Option<string>,
    applied: seq<string>,
    unapplied: seq<string>,
    patch: string -> PatchCommits,
    base: string)

  /** What git_id returns: None for an empty revision, a commit id read from
      the series, or the call git.rev_parse(query). */
  datatype Resolved = NoRevision | Commit(id: string) | RevParse(query: string)

  /** `series = crt_series` without a branch, `stack.Series(branch)` with one. */
  function SeriesFor(branch: Option<string>, crtSeries: Series, seriesOf: string -> Series): Series {
    match branch
    case None => crtSeries
    case Some(b) => seriesOf(b)
  }

  /** get_current() returns a non-empty name. */
  predicate HasCurrent(s: Series) {
    s.current.Some? && s.current.value != ""
  }

  predicate InSeries(s: Series, name: string) {
    name in s.applied || name in s.unapplied
  }

  /** The accessor a patch id selects, None for a patch id it does not know. */
  function PatchCommit(c: PatchCommits, patchId: Option<string>): (r: Option<string>)
    ensures r.None? <==> patchId.Some? && patchId.value !in {"", "top", "bottom", "top.old", "bottom.old"}
    ensures r.Some? ==> r.value in {c.top, c.bottom, c.oldTop, c.oldBottom}
  {
    if patchId.None? || patchId.value in {"top", ""} then Some(c.top)
    else if patchId.value == "bottom" then Some(c.bottom)
    else if patchId.value == "top.old" then Some(c.oldTop)
    else if patchId.value == "bottom.old" then Some(c.oldBottom)
    else None
  }

  /** The final fallback, git.rev_parse(rev + '^{commit}'). */
  function RawRevParse(rev: string): Resolved {
    RevParse(rev + "^{commit}")
  }

  /** git_id. The one error it raises is "No patches applied", for a
      `//patch_id` revision when the current series has no current patch;
      a revision that does not parse goes to git. */
  function GitId(rev: string, slashBranches: bool, crtSeries: Series, seriesOf: string -> Series)
    : (r: Result<Resolved, CmdError>)
    ensures r == Ok(NoRevision) <==> rev == ""
    ensures r.Err? <==> rev != "" && ParseRev(rev, slashBranches).Ok?
                        && ParseRev(rev, slashBranches).value.patch.None? && !HasCurrent(crtSeries)
    ensures r.Err? ==> r.error == NoPatchesApplied
  {
    if rev == "" then Ok(NoRevision)
    else match ParseRev(rev, slashBranches)
      case Err(_) => Ok(RawRevParse(rev))
      case Ok(spec) => Resolve(rev, spec, crtSeries, seriesOf)
  }

  /** git_id once `rev` has parsed as `spec`. */
  function Resolve(rev: string, spec: Rev, crtSeries: Series, seriesOf: string -> Series): (r: Result<Resolved, CmdError>)
    ensures r.Err? <==> spec.patch.None? && !HasCurrent(SeriesFor(spec.branch, crtSeries, seriesOf))
    ensures r.Err? ==> r.error == NoPatchesApplied
    ensures r != Ok(NoRevision)
  {
    var series := SeriesFor(spec.branch, crtSeries, seriesOf);
    if spec.patch.None? && !HasCurrent(series) then Err(NoPatchesApplied)
    else
      var patch := if spec.patch.Some? then spec.patch.value else series.current.value;
      var commit := if InSeries(series, patch) then PatchCommit(series.patch(patch), spec.patchId) else None;
      if commit.Some? then Ok(Commit(commit.value))
      else if patch == "base" && spec.patchId.None? then Ok(Commit(series.base))
      else Ok(RawRevParse(rev))
  }

  /** A text that is not a patch revision is handed to git unchanged. */
  lemma GitIdNotARevision(rev: string, slashBranches: bool, crtSeries: Series, seriesOf: string -> Series)
    requires rev != "" && ParseRev(rev, slashBranches).Err?
    ensures GitId(rev, slashBranches, crtSeries, seriesOf) == Ok(RevParse(rev + "^{commit}"))
  {
  }

  /** A patch of the selected series, written with a patch id: each of the
      known patch ids picks its accessor (an empty one means top), and any
      other patch id falls through to git. */
  lemma GitIdPatchId(p: string, b: Option<string>, id: string, slashBranches: bool,
                     crtSeries: Series, seriesOf: string -> Series)
    requires IsPatchName(p) && (b.Some? ==> IsBranchName(b.value, slashBranches)) && IsPatchId(id)
    requires InSeries(SeriesFor(b, crtSeries, seriesOf), p)
    ensures var c := SeriesFor(b, crtSeries, seriesOf).patch(p);
      var rev := HeadText(p, b) + "//" + id;
      var r := GitId(rev, slashBranches, crtSeries, seriesOf);
      && (id == "" || id == "top" ==> r == Ok(Commit(c.top)))
      && (id == "bottom" ==> r == Ok(Commit(c.bottom)))
      && (id == "top.old" ==> r == Ok(Commit(c.oldTop)))
      && (id == "bottom.old" ==> r == Ok(Commit(c.oldBottom)))
      && (id !in {"", "top", "bottom", "top.old", "bottom.old"} ==> r == Ok(RevParse(rev + "^{commit}")))
  {
    var spec := Rev(Some(p), b, Some(id));
    ParseRevComplete(spec, "//", slashBranches);
    assert Render(spec, "//") == HeadText(p, b) + "//" + id;
    GitIdOfPatch(HeadText(p, b) + "//" + id, slashBranches, crtSeries, seriesOf, spec);
  }

  /** A parsed revision naming a patch of its series: the accessor its patch
      id selects, or git when it selects none and the revision is not `base`. */
  lemma GitIdOfPatch(rev: string, slashBranches: bool, crtSeries: Series, seriesOf: string -> Series, spec: Rev)
    requires rev != "" && ParseRev(rev, slashBranches) == Ok(spec) && spec.patch.Some? && spec.patchId.Some?
    requires InSeries(SeriesFor(spec.branch, crtSeries, seriesOf), spec.patch.value)
    ensures var c := PatchCommit(SeriesFor(spec.branch, crtSeries, seriesOf).patch(spec.patch.value), spec.patchId);
      GitId(rev, slashBranches, crtSeries, seriesOf) == if c.Some? then Ok(Commit(c.value)) else Ok(RevParse(rev + "^{commit}"))
  {
  }

  /** A patch of the selected series without a patch id gives its top, unless
      the branch name itself reads as `branch//patch_id`. */
  lemma GitIdPatchTop(p: string, b: Option<string>, slashBranches: bool, crtSeries: Series, seriesOf: string -> Series)
    requires IsPatchName(p) && (b.Some? ==> IsBranchName(b.value, slashBranches))
    requires !(slashBranches && b.Some? && HidesPatchId(DropFinalNewline(b.value)))
    requires InSeries(SeriesFor(b, crtSeries, seriesOf), p)
    ensures GitId(HeadText(p, b), slashBranches, crtSeries, seriesOf)
      == Ok(Commit(SeriesFor(b, crtSeries, seriesOf).patch(p).top))
  {
    ParseRevComplete(Rev(Some(p), b, None), "//", slashBranches);
  }

  /** `base` that is not a patch of the series names the series' base, but
      only without a patch id; with one it goes to git. A patch that is
      literally named `base` still resolves to its own top. */
  lemma GitIdBase(b: Option<string>, id: string, slashBranches: bool, crtSeries: Series, seriesOf: string -> Series)
    requires b.Some? ==> IsBranchName(b.value, slashBranches) && !(slashBranches && HidesPatchId(DropFinalNewline(b.value)))
    requires IsPatchId(id)
    ensures var s := SeriesFor(b, crtSeries, seriesOf);
      var h := HeadText("base", b);
      && GitId(h, slashBranches, crtSeries, seriesOf)
           == Ok(Commit(if InSeries(s, "base") then s.patch("base").top else s.base))
      && (!InSeries(s, "base") ==>
            GitId(h + "//" + id, slashBranches, crtSeries, seriesOf) == Ok(RevParse(h + "//" + id + "^{commit}")))
  {
    assert IsPatchName("base");
    ParseRevComplete(Rev(Some("base"), b, None), "//", slashBranches);
    ParseRevComplete(Rev(Some("base"), b, Some(id)), "//", slashBranches);
  }

  /** A name that is no patch of the selected series goes to git, apart from
      the `base` case above. */
  lemma GitIdNotInSeries(r: Rev, mark: string, slashBranches: bool, crtSeries: Series, seriesOf: string -> Series)
    requires WellFormed(r, slashBranches) && IsMark(mark, slashBranches) && r.patch.Some?
    requires !(slashBranches && r.patchId.None? && r.branch.Some? && HidesPatchId(DropFinalNewline(r.branch.value)))
    requires !InSeries(SeriesFor(r.branch, crtSeries, seriesOf), r.patch.value)
    requires !(r.patch.value == "base" && r.patchId.None?)
    ensures var rev := Render(r, mark);
      GitId(rev, slashBranches, crtSeries, seriesOf) == Ok(RevParse(rev + "^{commit}"))
  {
    ParseRevComplete(r, mark, slashBranches);
  }

  /** `//patch_id` stands for the current patch of the current series: it
      resolves to the same commit as the current patch's own name would, and
      when the current patch is not in the series or the patch id selects no
      accessor, both texts go to git as written. */
  lemma GitIdCurrentPatch(id: string, slashBranches: bool, crtSeries: Series, seriesOf: string -> Series, x: string)
    requires IsPatchId(id) && HasCurrent(crtSeries) && IsPatchName(crtSeries.current.value)
    ensures var c := crtSeries.current.value;
      GitId("//" + id, slashBranches, crtSeries, seriesOf) == Ok(Commit(x))
      <==> GitId(c + "//" + id, slashBranches, crtSeries, seriesOf) == Ok(Commit(x))
    ensures var c := crtSeries.current.value;
      !InSeries(crtSeries, c) || PatchCommit(crtSeries.patch(c), Some(id)).None? ==>
        && GitId("//" + id, slashBranches, crtSeries, seriesOf) == Ok(RevParse("//" + id + "^{commit}"))
        && GitId(c + "//" + id, slashBranches, crtSeries, seriesOf) == Ok(RevParse(c + "//" + id + "^{commit}"))
  {
    var c := crtSeries.current.value;
    var own, named := Rev(None, None, Some(id)), Rev(Some(c), None, Some(id));
    ParseRevComplete(own, "//", slashBranches);
    assert Render(own, "//") == "//" + id;
    ParseRevComplete(named, "//", slashBranches);
    assert GitId("//" + id, slashBranches, crtSeries, seriesOf) == Resolve("//" + id, own, crtSeries, seriesOf);
    assert GitId(c + "//" + id, slashBranches, crtSeries, seriesOf) == Resolve(c + "//" + id, named, crtSeries, seriesOf);
  }

  /** Without a current patch, `//patch_id` raises "No patches applied". */
  lemma GitIdNoCurrentPatch(id: string, slashBranches: bool, crtSeries: Series, seriesOf: string -> Series)
    requires IsPatchId(id) && !HasCurrent(crtSeries)
    ensures GitId("//" + id, slashBranches, crtSeries, seriesOf) == Err(NoPatchesApplied)
  {
    var own := Rev(None, None, Some(id));
    ParseRevComplete(own, "//", slashBranches);
    assert Render(own, "//") == "//" + id;
  }

  /** A revision that names a branch does not depend on the current series. */
  lemma GitIdNamedBranch(rev: string, slashBranches: bool, crt1: Series, crt2: Series, seriesOf: string -> Series)
    requires ParseRev(rev, slashBranches).Ok? && ParseRev(rev, slashBranches).value.branch.Some?
    ensures GitId(rev, slashBranches, crt1, seriesOf) == GitId(rev, slashBranches, crt2, seriesOf)
  {
    if rev != "" {
      SameSeries(rev, ParseRev(rev, slashBranches).value, crt1, seriesOf, crt2, seriesOf);
    }
  }

  /** A revision without a branch does not depend on the other branches. */
  lemma GitIdCurrentBranch(rev: string, slashBranches: bool, crtSeries: Series, seriesOf1: string -> Series,
                           seriesOf2: string -> Series)
    requires ParseRev(rev, slashBranches).Ok? ==> ParseRev(rev, slashBranches).value.branch.None?
    ensures GitId(rev, slashBranches, crtSeries, seriesOf1) == GitId(rev, slashBranches, crtSeries, seriesOf2)
  {
    if rev != "" && ParseRev(rev, slashBranches).Ok? {
      SameSeries(rev, ParseRev(rev, slashBranches).value, crtSeries, seriesOf1, crtSeries, seriesOf2);
    }
  }

  /** Resolving reads only the selected series. */
  lemma SameSeries(rev: string, spec: Rev, crt1: Series, seriesOf1: string -> Series, crt2: Series, seriesOf2: string -> Series)
    requires SeriesFor(spec.branch, crt1, seriesOf1) == SeriesFor(spec.branch, crt2, seriesOf2)
    ensures Resolve(rev, spec, crt1, seriesOf1) == Resolve(rev, spec, crt2, seriesOf2)
  {
  }
}
