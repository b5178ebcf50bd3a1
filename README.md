# StGit command helpers: revisions, patch ranges, patch names and addresses

This project models the helpers in StGit's `stgit/commands/common.py`. StGit
keeps a stack of patches on top of a git branch, and its commands use these
helpers to read their arguments:

- `parse_rev` splits a revision text `patch@branch//patch_id` into its three
  parts. Either of the first two parts may be missing. It tries three
  regular expressions in order, and it raises `RevParseException` when none
  matches. When no branch name holds a `/`, a single `/` also marks the patch
  id.
- `git_id` resolves a revision against the patch series:
  - the top, bottom, old top or old bottom commit of a patch;
  - the series' base;
  - or the text handed on to `git rev-parse`.
  It raises "No patches applied" for `//patch_id` when there is no current
  patch.
- `parse_patches` turns command arguments into a list of patches. Each
  argument is a patch name or a range `a..b`, `a..`, `..b` or `..`, read
  against the ordered series. The helper reports unknown, malformed and
  duplicate names.
- `make_patch_name` derives a patch name from a commit message:
  - it takes the first line after the leading whitespace, lower-cased;
  - each run of non-word characters becomes `-`;
  - `-` is stripped from both ends.
- `name_email` and `name_email_date` escape `\` and `"` in an address. They
  then split it into name, email (and date) using the forms
  `name <email>`, `email (name)` and `name <email> date`.

The two exceptions become the error cases of a `Result` (module `Errors`).
The modules are:

- `RevSpec`: `parse_rev`.
- `RevResolve`: `git_id`.
- `PatchRange`: `parse_patches`, as a specification function and as the
  loop of the source (method `ParsePatchArgs`) proved equal to it.
- `PatchName`: `make_patch_name`.
- `Address` and `AddressForms`: `name_email` and `name_email_date`.
- `Text`: character classes and small search functions that the others
  share.

## How the regular expressions are modelled

Each regular expression is stated as a predicate on positions in the text.
The text matches when some positions satisfy the predicate (`BracketAt`,
`DateAt`, and the `IsPatchName`/`IsBranchName`/`IsPatchId` shapes of
`parse_rev`).

Python's backtracking tries the longest first group first. So the groups it
returns are those of the greatest match, taken in the order of the groups
(`GreedyAt`, `GreedyDateAt`). The search functions are proved to find
exactly that match, and to find none only when no match exists.

The source is Python 2 working on byte strings, so:

- `\s` is space, tab, line feed, carriage return, vertical tab and form feed;
- `\w` is `[A-Za-z0-9_]`;
- `.` is any character but a line feed;
- `lower()` changes only `A`-`Z`.

## Code and description disagree

In these cases the model follows the code:

- `name_email` does not trim the name. Its first group `(.*)` is greedy and
  takes the space before `<`, so `Jane Doe <jane@example.com>` gives the
  name `Jane Doe ` with a trailing space. In the `email (name)` form it is the
  email that keeps the trailing space. A description of this helper as
  returning "the name and the email" would lead one to expect trimmed
  values. `AddressForms.NameEmailAngleForm` and
  `AddressForms.NameEmailParenForm` state what the code returns.
- `make_patch_name` takes the first line only after it strips the leading
  whitespace of the whole message. A message that starts with blank lines
  is therefore named after its first non-blank line
  (`PatchName.MakePatchNameFirstLine`).

## Model

| member | source | states |
|---|---|---|
| RevSpec.ParseIdOnly | stgit/commands/common.py:57-62 | the first form: on success the text is the patch id mark followed by a `[a-z.]*` patch id; `/` is a mark only when no branch name holds a slash |
| RevSpec.SplitPatchId | stgit/commands/common.py:57-65 | splitting off a trailing patch id: the id is `[a-z.]*`, and the text is the head, a mark and the id |
| RevSpec.SplitPatchIdOf | stgit/commands/common.py:57-65 | any head, an allowed mark and a `[a-z.]*` id split back into that head and id (a single `/` mark needs a head without `/`) |
| RevSpec.ParseHead | stgit/commands/common.py:55-56 | `patch[@branch]`: the patch is non-empty without `@` or `/`, the branch is non-empty without `@` (and without `/` when no branch name holds one), and they write back to the text |
| RevSpec.HeadTextParses | stgit/commands/common.py:55-56 | every legal patch name and optional branch name, written as `patch[@branch]`, is read back as exactly those two |
| RevSpec.HeadWithEmptyBranch | stgit/commands/common.py:56 | `patch@` with an empty branch is no head |
| RevSpec.DropFinalNewline | stgit/commands/common.py:60-66 | what `$` leaves to the first two forms: the text itself, or the text without one final line feed exactly when it ends in one |
| RevSpec.ParseMarked | stgit/commands/common.py:59-66 | the first two forms: a result has a patch id, is well formed and writes back to the text with `//`, or with `/` when no branch name holds a slash |
| RevSpec.ParseRev | stgit/commands/common.py:41-75 | soundness: every triple it returns is one the three forms can produce (patch non-empty without `@`/`/`, branch non-empty without `@`, patch id `[a-z.]*`, a patch id without a patch only alone) and writes back to the input with `//`, or with `/` when no branch name holds a slash; a triple with a patch id may leave one final line feed over, which `$` matches before |
| RevSpec.ParseRevComplete | stgit/commands/common.py:45-72 | completeness: every such triple written with an allowed mark parses, and parses back to itself, except a `patch@branch` whose branch name, less one final line feed, itself ends in `//patch_id` |
| RevSpec.CompleteIdOnly | stgit/commands/common.py:59-62 | a mark and a `[a-z.]*` patch id parse as that patch id alone |
| RevSpec.CompleteMarked | stgit/commands/common.py:64-67 | `patch[@branch]`, a mark and a patch id parse as exactly those three |
| RevSpec.CompleteUnmarked | stgit/commands/common.py:64-72 | `patch[@branch]` parses, and parses as exactly those two unless the branch name, less one final line feed, ends in `//patch_id` |
| RevSpec.MarkedOf | stgit/commands/common.py:59-66 | a written triple with a patch id has no final line feed, and the first two forms read it back |
| RevSpec.ParseRevFinalNewline | stgit/commands/common.py:59-66 | a written triple with a patch id followed by one line feed parses to the same triple |
| RevSpec.ParseRevNewlineExamples | stgit/commands/common.py:59-72 | `foo//top` and `//top` followed by a line feed parse as without it, while `foo` followed by one keeps the line feed in the patch name |
| RevSpec.HeadCore | stgit/commands/common.py:64-72 | a final line feed of `patch@branch` belongs to the branch name |
| RevSpec.UnmarkedHead | stgit/commands/common.py:64-72 | `patch@branch` is not taken by the second form unless the branch name itself ends in `//patch_id` |
| RevSpec.FirstMatchWins | stgit/commands/common.py:64-72 | with slash branches, `p@b//id` is read by the second form as branch `b` and patch id `id`, even though `b//id` is also a legal branch name: the forms are tried in order |
| RevSpec.SingleSlashMark | stgit/commands/common.py:51-67 | without slash branches, `p/id` and `p//id` both give `(p, None, id)` and `/id` gives `(None, None, id)` |
| RevSpec.SingleSlashNoMark | stgit/commands/common.py:47-50 | with slash branches, `p/id` and `/id` raise RevParseException |
| RevSpec.SingleSlashFails | stgit/commands/common.py:47-75 | with slash branches, a text with exactly one `/` and no `@` before it raises RevParseException |
| RevSpec.RejectsMissingParts | stgit/commands/common.py:55-75 | the empty text, and a text that starts or ends with `@`, raise RevParseException |
| RevSpec.MarkedRejects | stgit/commands/common.py:55-66 | the first two forms do not match an empty text or one that starts or ends with `@` |
| RevSpec.ParseRevExamples | stgit/commands/common.py:69-72 | `foo` gives `(foo, None, None)` and `foo@bar` gives `(foo, bar, None)` |
| RevSpec.ParseRevIdExamples | stgit/commands/common.py:59-67 | `foo//top` gives `(foo, None, top)` and `//bottom` gives `(None, None, bottom)` |
| RevSpec.ParseRevSlashExamples | stgit/commands/common.py:47-67 | `foo/top` gives `(foo, None, top)` without slash branches and raises with them |
| RevResolve.GitId | stgit/commands/common.py:77-105 | the result is None exactly for the empty revision; the only error is "No patches applied", raised exactly when the revision parses without a patch name and the current series has no current patch |
| RevResolve.Resolve | stgit/commands/common.py:84-105 | git_id once the revision has parsed: the error exactly when no patch is named and the selected series has no current patch, and never the empty result |
| RevResolve.PatchCommit | stgit/commands/common.py:93-100 | the patch ids `top`, `bottom`, `top.old`, `bottom.old`, the empty id and no id select one of the patch's four commits; any other id selects none |
| RevResolve.GitIdNotARevision | stgit/commands/common.py:83-105 | a text that does not parse is handed to git as `rev^{commit}` |
| RevResolve.GitIdPatchId | stgit/commands/common.py:92-105 | for a patch of the series: `top` and an empty id give its top, `bottom`, `top.old`, `bottom.old` give the bottom, old top and old bottom, and any other id goes to git |
| RevResolve.GitIdOfPatch | stgit/commands/common.py:92-105 | the one-step unfolding of git_id for a parsed revision naming a patch of its series with a patch id: the commit the id selects, or git when it selects none |
| RevResolve.GitIdPatchTop | stgit/commands/common.py:92-94 | a patch of the series without a patch id gives its top (unless, with slash branches, the branch name less one final line feed ends in `//patch_id`) |
| RevResolve.GitIdBase | stgit/commands/common.py:92-105 | `base` without a patch id gives the base, but only when no patch is named `base`; `base//id` goes to git (a named branch must not, less one final line feed, end in `//patch_id`) |
| RevResolve.GitIdNotInSeries | stgit/commands/common.py:92-105 | a name that is neither applied nor unapplied goes to git (apart from `base` without a patch id, and a branch that hides a patch id as in ParseRevComplete) |
| RevResolve.GitIdCurrentPatch | stgit/commands/common.py:88-105 | `//id` gives a commit exactly when the current patch's own name with `//id` gives that commit; when the current patch is not in the series or the id selects no commit, both texts go to git as written |
| RevResolve.GitIdNoCurrentPatch | stgit/commands/common.py:88-91 | `//id` without a current patch raises "No patches applied" |
| RevResolve.GitIdNamedBranch | stgit/commands/common.py:84-87 | a revision naming a branch does not depend on the current series |
| RevResolve.GitIdCurrentBranch | stgit/commands/common.py:84-85 | a revision without a branch does not depend on the other branches' series |
| RevResolve.SameSeries | stgit/commands/common.py:84-105 | resolving a parsed revision reads only the series its branch selects |
| PatchRange.SplitDots | stgit/commands/common.py:220 | `name.split('..')`: at least one part, the parts joined with `..` give the name, no part holds `..`, and the first part is a prefix of the name |
| PatchRange.SplitWithoutDots | stgit/commands/common.py:220 | a name without `..` is one part |
| PatchRange.SplitAfter | stgit/commands/common.py:220 | a first part without `..` and not ending in `.` is cut off at the first `..` |
| PatchRange.RangeSplits | stgit/commands/common.py:220 | `a..b` splits into exactly `[a, b]` |
| PatchRange.IndexOf | stgit/commands/common.py:232-237 | `list.index`: the first position holding the name |
| PatchRange.PyBound | stgit/commands/common.py:244 | a Python slice bound: unchanged within `[0, n]`; a negative one counts from the end and becomes 0 when still negative; a bound past the end becomes `n` |
| PatchRange.PySlice | stgit/commands/common.py:242-244 | equal to the plain slice within bounds; empty when the clamped bounds meet or cross, and on an empty list, so the one call outside the bounds, `[-1:1]` for `..` on an empty series, gives `[]` |
| PatchRange.FirstUnknown | stgit/commands/common.py:221-223 | the first part that is non-empty and not in the list; none exactly when every part is empty or in the list |
| PatchRange.FirstUnknownAt | stgit/commands/common.py:221-223 | the first such part is the one reported |
| PatchRange.FindUnknown | stgit/commands/common.py:221-223 | the checking loop returns exactly that first unknown part |
| PatchRange.FirstShared | stgit/commands/common.py:249-251 | the first new patch already collected; none exactly when the new patches are all new |
| PatchRange.FirstSharedAt | stgit/commands/common.py:249-251 | the first repeated patch is the one reported |
| PatchRange.FindShared | stgit/commands/common.py:249-251 | the duplicate loop returns exactly that first repeated patch |
| PatchRange.Contribution | stgit/commands/common.py:220-247 | one argument: a single part is itself, two parts are a range of listed patches; an unknown part is reported before a malformed argument, and a malformed one has three or more parts, all known |
| PatchRange.ParsePatchArgs | stgit/commands/common.py:212-255 | the loop of the source returns exactly `ParsePatches` of its arguments, errors included |
| PatchRange.FirstErrorWins | stgit/commands/common.py:219-253 | once the arguments so far fail, further arguments do not change the result |
| PatchRange.ParsePatchesOne | stgit/commands/common.py:219-255 | a single argument gives its contribution |
| PatchRange.ParsePatchesName | stgit/commands/common.py:225-227 | a known name without `..` gives itself |
| PatchRange.ParsePatchesUnknownName | stgit/commands/common.py:221-223 | an unknown name without `..` raises "Unknown patch name" |
| PatchRange.RangePatches | stgit/commands/common.py:228-245 | every patch of a range is listed; a range with a first name starts with it and one with a last name ends with it |
| PatchRange.Between | stgit/commands/common.py:241-245 | the patches from position i to position j inclusive: their number, and that they begin at i and end at j |
| PatchRange.RangeBetween | stgit/commands/common.py:230-245 | the source's first/last computation and slicing give the patches from `a` to `b` inclusive, backwards when `b` comes first |
| PatchRange.ParsePatchesRange | stgit/commands/common.py:228-245 | `a..b` gives the patches from `a`'s position to `b`'s inclusive |
| Text.Reverse | stgit/commands/common.py:245 | `pl.reverse()`: same length, and position k holds what position `n - 1 - k` held |
| PatchRange.FlipRange | stgit/commands/common.py:241-245 | the range from j to i is the range from i to j reversed |
| PatchRange.RangeReversed | stgit/commands/common.py:241-245 | `b..a` gives the patches of `a..b` in reverse order |
| PatchRange.ParsePatchesFrom | stgit/commands/common.py:231-242 | `a..` gives the patches from `a` to the end |
| PatchRange.ParsePatchesUpTo | stgit/commands/common.py:233-242 | `..b` gives the patches from the start to `b` inclusive |
| PatchRange.ParsePatchesWholeList | stgit/commands/common.py:233-242 | `..` gives the whole list, and `[]` for an empty list |
| PatchRange.ExampleForward | stgit/commands/common.py:228-242 | on `p1, p2, p3`, `p1..p3` gives `p1, p2, p3` |
| PatchRange.ExampleBackward | stgit/commands/common.py:241-245 | on `p1, p2, p3`, `p3..p1` gives `p3, p2, p1` |
| PatchRange.ExampleFrom | stgit/commands/common.py:236-242 | on `p1, p2, p3`, `p2..` gives `p2, p3` |
| PatchRange.ExampleUpTo | stgit/commands/common.py:233-242 | on `p1, p2, p3`, `..p2` gives `p1, p2` |
| PatchRange.ParsePatchesMalformed | stgit/commands/common.py:221-247 | `a..b..c` raises "Unknown patch name" for its first unknown part, and "Malformed patch name" only when all parts are known |
| PatchRange.ParsePatchesDuplicate | stgit/commands/common.py:249-251 | naming a listed patch twice raises "Duplicate patch name" |
| PatchRange.ContributionNoDuplicates | stgit/commands/common.py:225-245 | over a list without repeats, one argument's patches hold no repeats |
| PatchRange.ParsePatchesNoDuplicates | stgit/commands/common.py:249-253 | over a list without repeats, the result holds no repeats |
| PatchRange.ParsePatchesFromList | stgit/commands/common.py:221-245 | every patch of the result is in the list, except `""` when an argument is empty |
| PatchRange.ParsePatchesErrors | stgit/commands/common.py:212-255 | the only errors are an unknown name, a malformed name that is one of the arguments, and a duplicate |
| PatchRange.ParsePatchesSnoc | stgit/commands/common.py:249-253 | one more argument whose patches are all new appends them to the result |
| PatchRange.ParsePatchesLast | stgit/commands/common.py:219-253 | a successful result is the result for all but the last argument followed by the last one's patches, which repeat none of it |
| PatchRange.ParsePatchesConcat | stgit/commands/common.py:219-255 | the result of two argument lists whose results share no patch is the concatenation of the two results |
| PatchName.Lower | stgit/commands/common.py:289 | `lower()`: same length, `A`-`Z` lowered one by one, no upper case left |
| PatchName.Subject | stgit/commands/common.py:289 | the subject line holds no upper case |
| PatchName.CollapseShape | stgit/commands/common.py:290 | the substitution leaves only word characters and `-`, never two `-` in a row, is empty only for the empty text, is no longer than the text, and starts with the text's first character or `-` for a non-word one |
| PatchName.DropLeadingShape | stgit/commands/common.py:290 | `lstrip('-')` leaves a suffix that does not start with `-`, and everything it drops is `-` |
| PatchName.DropTrailingShape | stgit/commands/common.py:290 | `rstrip('-')` leaves a prefix that does not end with `-`, and everything it drops is `-` |
| PatchName.StripHyphensShape | stgit/commands/common.py:290 | `strip('-')` leaves no `-` at either end, and leaves a text without `-` at its ends unchanged |
| PatchName.Words | stgit/commands/common.py:290 | the words of the text, defined by the body as its maximal `\w` runs in order; the contract states that each is non-empty and drawn from the text |
| PatchName.SlugIsJoinedWords | stgit/commands/common.py:290 | replacing each run of non-word characters with `-` and stripping `-` gives the text's words joined with `-` |
| PatchName.JoinWordsIsSlug | stgit/commands/common.py:290 | lower-case words joined with `-` give a name of `[a-z0-9_-]` with no `-` at either end and no `--` |
| PatchName.LowerWordsAreSlug | stgit/commands/common.py:289-290 | the joined words of a text without upper case form such a name |
| PatchName.MakePatchName | stgit/commands/common.py:282-290 | None exactly for the empty message; otherwise a name of `[a-z0-9_-]` with no `-` at either end and no `--` |
| PatchName.MakePatchNameWords | stgit/commands/common.py:286-290 | the name is the words of the subject line joined with `-` |
| PatchName.CollapseKeepsSlug | stgit/commands/common.py:290 | the substitution leaves a text of word characters and single `-` unchanged |
| PatchName.SubjectOfSlug | stgit/commands/common.py:289 | the subject line of such a name is the name itself |
| PatchName.SlugIsFixpoint | stgit/commands/common.py:286-290 | a non-empty such name is its own patch name |
| PatchName.MakePatchNameIdempotent | stgit/commands/common.py:286-290 | making a name from a non-empty patch name gives it back |
| PatchName.SubjectAfterSpace | stgit/commands/common.py:289 | after leading whitespace, the subject line is the lower-cased text up to the first line break |
| PatchName.MakePatchNameFirstLine | stgit/commands/common.py:289 | leading whitespace and everything after the first line break do not change the name |
| PatchName.MakePatchNameBlank | stgit/commands/common.py:286-290 | a non-empty message of whitespace only gets the empty name, not None |
| PatchName.MakePatchNameExample | stgit/commands/common.py:282-290 | `Fix it!` followed by a second line gives `fix-it` |
| Address.UnescapeEscape | stgit/commands/common.py:261 | the escaping loses nothing: unescaping an escaped address gives it back |
| Address.EscapeUnescape | stgit/commands/common.py:261 | every text that unescapes is the escape of what it unescapes to |
| Address.EscapedQuotes | stgit/commands/common.py:261 | every `"` of an escaped address has a `\` just before it |
| Address.EscapeFirst | stgit/commands/common.py:261 | an escaped non-empty address does not start with `"` |
| Address.EscapeAppend | stgit/commands/common.py:261 | escaping works piece by piece |
| Address.EscapeKeeps | stgit/commands/common.py:261 | any character other than `\` and `"` occurs in the escaped text exactly when it occurs in the address |
| Address.LongestName | stgit/commands/common.py:262-264 | the greatest end for group 1 up to a bound, and no greater end up to that bound exists |
| Address.BracketAtParts | stgit/commands/common.py:262-264 | in every match the closing bracket is the last non-space character, and the opening bracket follows the whitespace after group 1 |
| Address.Bracketed | stgit/commands/common.py:262-264 | the positions found are a match of `^(.*)\s*<(.*)>\s*$` (or its `( )` form) |
| Address.BracketedIsGreedy | stgit/commands/common.py:262-264 | the search returns the greedy match of `^(.*)\s*<(.*)>\s*$` (or its `( )` form), and returns nothing only when there is no match |
| Address.GreedyUnique | stgit/commands/common.py:262-264 | the greedy match is unique |
| Address.BracketGroups | stgit/commands/common.py:262-265 | no groups exactly when the form does not match; otherwise groups 1 and 2 of the greedy match |
| Address.NameEmail | stgit/commands/common.py:257-269 | the error exactly when neither form matches the escaped address, carrying the escaped address; otherwise (group 1, group 2) of the greedy `<>` match, or when that form does not match, (group 2, group 1) of the greedy `()` match |
| Address.DateRestOkGreedy | stgit/commands/common.py:276 | the text after `>` fits `\s*(.*)\s*$` exactly when what follows the greedy group 3 is whitespace |
| Address.RestGreedy | stgit/commands/common.py:276 | any split of the text after `>` into whitespace, one line and whitespace starts and ends group 3 no later than the greedy one |
| Address.LongestEmail | stgit/commands/common.py:276 | the greatest end for group 2 up to a bound, and no greater end up to that bound exists |
| Address.LongestDateName | stgit/commands/common.py:276 | the greatest end for group 1, and no greater end exists |
| Address.EmailEnd | stgit/commands/common.py:276 | the last `>` after which the rest fits; no later one fits |
| Address.DateMatch | stgit/commands/common.py:276 | the positions found are ordered, within the text, and hold the `<` and `>` of the form |
| Address.DateMatchMaximal | stgit/commands/common.py:276 | every match of `^(.*)\s*<(.*)>\s*(.*)\s*$` is at most the found one, group by group |
| Address.DateMatchSound | stgit/commands/common.py:276 | the found positions are a match |
| Address.DateMatchIsGreedy | stgit/commands/common.py:276-277 | the search returns the greedy match, and returns nothing only when there is no match |
| Address.NameEmailDate | stgit/commands/common.py:271-280 | the error exactly when the form does not match the escaped address, carrying the escaped address; otherwise the three groups of the greedy match |
| AddressForms.AngleGreedy | stgit/commands/common.py:262 | in `n <e>`, group 1 is `n ` (the space included) and group 2 is `e` |
| AddressForms.ParenGreedy | stgit/commands/common.py:262-264 | `e (n)` does not match the `<>` form; in its `()` form group 1 is `e ` and group 2 is `n` |
| AddressForms.NameEmailAngleForm | stgit/commands/common.py:261-269 | `name <email>` (one line, no `<` in the email) gives the escaped name with its trailing space, and the escaped email |
| AddressForms.NameEmailParenForm | stgit/commands/common.py:261-267 | `email (name)` (one line, no `(` in the name) gives the escaped name, and the escaped email with its trailing space |
| AddressForms.NameEmailNoClose | stgit/commands/common.py:262-266 | an address with neither `>` nor `)` raises the "name <email>"/"email (name)" error |
| AddressForms.DateGreedy | stgit/commands/common.py:276 | in `n <e> d`, group 1 is `n `, group 2 is `e` and group 3 is `d` |
| AddressForms.DateGreedyUnique | stgit/commands/common.py:276 | the greedy match of the date form is unique |
| AddressForms.NameEmailDateForm | stgit/commands/common.py:275-280 | `name <email> date` (one line, no `<` in the email, no `<` or `>` in the date, no leading space in the date) gives the escaped name with its trailing space, the escaped email and the escaped date |
| AddressForms.NameEmailDateNoClose | stgit/commands/common.py:276-278 | an address without `>` raises the "name <email> date" error |

## Left out

- The scan of `refs/heads` in `parse_rev` (stgit/commands/common.py:45-46) is not modelled. Whether some branch name holds a `/` is the parameter `slashBranches`.
- `crt_series` and `stack.Series(branch)` are values: `crtSeries` and the total function `seriesOf`. Opening the series of a branch that does not exist is not modelled.
- A series is the parts `git_id` reads: the current patch, the applied and unapplied names, the four commit ids of each patch, and the base. `read_string(series.get_base_file())` is the `base` field.
- `git.rev_parse` is not modelled. `git_id` returns the call as `RevParse(query)`, so the errors git may raise are not modelled either.
- A `None` argument to `git_id` or `make_patch_name` is modelled as the empty text, which both treat the same way.
- The exception messages are not modelled as text. An error carries the name or escaped address that the message quotes.
- `pl.reverse()` reverses a fresh slice, so the model reverses a value (`Reverse`) instead of an array in place.
- `check_local_changes`, `check_head_top_equal` and `check_conflicts` (stgit/commands/common.py:107-121) are not part of this model: they only query git and the working tree.
- `print_crt_patch`, `resolved` and `resolved_all` (stgit/commands/common.py:123-154) are not part of this model: they print, remove and rename files, and update the git index.
- `push_patches` and `pop_patches` (stgit/commands/common.py:156-210) are not part of this model: they drive the external series and print progress.
- Characters are code points with Python 2's byte-string classes. Locale-dependent or Unicode meanings of `\s`, `\w` and `lower()` are not modelled.
- In `name_email` and `name_email_date`, regular-expression `$` may also match before a final line feed. The model does not need this case there: the `\s*` before each `$` can take that line feed, so the set of matches and the groups are the same. In `parse_rev` the case is modelled (`DropFinalNewline`).
- Literal-text examples for `name_email` and `name_email_date` are not stated. The general forms (`AddressForms`) cover them for every one-line name and email where the email holds no `<` and, in the `email (name)` form, the name holds no `(`; for `name_email_date` the date must also hold no `<` or `>` and not start with whitespace. Other addresses, such as `n <a<b>`, which gives `("n <a", "b")`, are covered only by the greedy-match lemmas (`Address.NameEmail`, `Address.NameEmailDate`).
