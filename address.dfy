/** name_email and name_email_date (stgit/commands/common.py:257-280).

    The address is first escaped: a backslash goes before every backslash
    and double quote. The escaped text is then matched against
      ^(.*)\s*<(.*)>\s*$          (name_email, tried first)
      ^(.*)\s*\((.*)\)\s*$        (name_email, the "email (name)" form)
      ^(.*)\s*<(.*)>\s*(.*)\s*$   (name_email_date)
    where `.` is any character but a line break and `\s` is whitespace,
    line breaks included. A match is described here by the positions where
    its parts begin and end (BracketAt, DateAt). Python's backtracking tries
    the longest first group first, then the longest second group, and so
    on, so the groups it returns are those of the greatest match in that
    order (GreedyAt, GreedyDateAt); the search functions below compute it
    from the right. */
module Address {
  import opened Errors
  import opened Text

  // Escaping

  predicate NeedsEscape(c: char) {
    c == '\\' || c == '"'
  }

  /** re.sub('[\\\\"]', '\\\\\g<0>', s): a backslash before every backslash
      and every double quote. */
  function Escape(s: string): string {
    if s == [] then []
    else (if NeedsEscape(s[0]) then ['\\', s[0]] else [s[0]]) + Escape(s[1..])
  }

  /** The inverse of Escape; None for a text Escape cannot produce (a lone
      double quote, or a backslash before anything but `\` and `"`). */
  function Unescape(s: string): Option<string> {
    if s == [] then Some([])
    else if s[0] == '\\' then
      if |s| >= 2 && NeedsEscape(s[1]) then
        match Unescape(s[2..])
        case None => None
        case Some(r) => Some([s[1]] + r)
      else None
    else if s[0] == '"' then None
    else
      match Unescape(s[1..])
      case None => None
      case Some(r) => Some([s[0]] + r)
  }

  /** Unescaping an escaped text gives the text back. */
  lemma {:induction false} UnescapeEscape(s: string)
    ensures Unescape(Escape(s)) == Some(s)
  {
    if s != [] {
      UnescapeEscape(s[1..]);
      var head := if NeedsEscape(s[0]) then ['\\', s[0]] else [s[0]];
      var e := Escape(s);
      assert e == head + Escape(s[1..]);
      assert e[|head|..] == Escape(s[1..]);
      assert [s[0]] + s[1..] == s;
    }
  }

  /** Whatever unescapes is the escape of what it unescapes to: the two
      are inverse bijections between texts and escaped texts. */
  lemma {:induction false} EscapeUnescape(e: string)
    requires Unescape(e).Some?
    ensures Escape(Unescape(e).value) == e
    decreases |e|
  {
    if e != [] {
      var r := Unescape(e).value;
      if e[0] == '\\' {
        EscapeUnescape(e[2..]);
        assert r == [e[1]] + Unescape(e[2..]).value;
        assert r[1..] == Unescape(e[2..]).value;
        assert e == [e[0], e[1]] + e[2..];
      } else {
        EscapeUnescape(e[1..]);
        assert r == [e[0]] + Unescape(e[1..]).value;
        assert r[1..] == Unescape(e[1..]).value;
        assert e == [e[0]] + e[1..];
      }
    }
  }

  /** Every double quote of an escaped text has a backslash before it, so
      none of them can end the quoted string it is written into. */
  lemma {:induction false} EscapedQuotes(s: string)
    ensures forall k :: 0 <= k < |Escape(s)| && Escape(s)[k] == '"' ==> 0 < k && Escape(s)[k - 1] == '\\'
    decreases |s|
  {
    if s != [] {
      EscapedQuotes(s[1..]);
      var head := if NeedsEscape(s[0]) then ['\\', s[0]] else [s[0]];
      var r, tail := Escape(s), Escape(s[1..]);
      assert r == head + tail;
      if tail != [] {
        EscapeFirst(s[1..]);
      }
      forall k | 0 <= k < |r| && r[k] == '"'
        ensures 0 < k && r[k - 1] == '\\'
      {
        if k > |head| {
          var j := k - |head|;
          assert r[k] == tail[j] && r[k - 1] == tail[j - 1];
        } else if k < |head| {
          assert r[k] == head[k] && r[0] == head[0];
        }
      }
    }
  }

  /** An escaped text never starts with a double quote. */
  lemma EscapeFirst(t: string)
    requires t != []
    ensures Escape(t)[0] != '"'
  {
    var head := if NeedsEscape(t[0]) then ['\\', t[0]] else [t[0]];
    assert Escape(t) == head + Escape(t[1..]);
  }

  /** Escaping works character by character. */
  lemma {:induction false} EscapeAppend(a: string, b: string)
    ensures Escape(a + b) == Escape(a) + Escape(b)
    decreases |a|
  {
    if a != [] {
      EscapeAppend(a[1..], b);
      assert (a + b)[1..] == a[1..] + b;
      assert (a + b)[0] == a[0];
    } else {
      assert a + b == b;
    }
  }

  /** Characters other than `\` and `"` are neither added nor removed. */
  lemma {:induction false} EscapeKeeps(s: string, c: char)
    requires !NeedsEscape(c)
    ensures c in Escape(s) <==> c in s
    decreases |s|
  {
    if s != [] {
      EscapeKeeps(s[1..], c);
      var head := if NeedsEscape(s[0]) then ['\\', s[0]] else [s[0]];
      assert Escape(s) == head + Escape(s[1..]);
      assert s == [s[0]] + s[1..];
    }
  }

  /** The first character stays whitespace or not whitespace. */
  lemma EscapeHead(s: string)
    requires s != []
    ensures Escape(s) != [] && (IsSpace(Escape(s)[0]) <==> IsSpace(s[0]))
  {
  }

  lemma {:induction false} EscapeNothing(s: string)
    requires forall k :: 0 <= k < |s| ==> !NeedsEscape(s[k])
    ensures Escape(s) == s
    decreases |s|
  {
    if s != [] {
      EscapeNothing(s[1..]);
      assert [s[0]] + s[1..] == s;
    }
  }

  // Runs and last characters

  /** Index of the last character of `s` that is not whitespace. */
  function LastNonSpace(s: string): (r: Option<nat>)
    ensures r.None? ==> AllSpace(s)
    ensures r.Some? ==> r.value < |s| && !IsSpace(s[r.value]) && AllSpace(s[r.value + 1..])
  {
    if s == [] then None
    else if !IsSpace(s[|s| - 1]) then Some(|s| - 1)
    else
      var init := s[..|s| - 1];
      var r := LastNonSpace(init);
      assert forall k :: 0 <= k < |init| ==> init[k] == s[k];
      r
  }

  /** A non-space character after a run of whitespace sits where SpaceRun
      says the run ends. */
  lemma SpaceThen(s: string, j: int, i: int)
    requires 0 <= j <= i < |s| && AllSpace(s[j..i]) && !IsSpace(s[i])
    ensures i == j + SpaceRun(s[j..])
  {
    var t := s[j..];
    assert forall k :: 0 <= k < i - j ==> t[k] == s[j..i][k];
    assert t[i - j] == s[i];
    assert forall n :: i - j < n <= |t| ==> t[..n][i - j] == s[i];
  }

  /** A non-space character followed by whitespace only is the last one. */
  lemma LastNonSpaceAt(s: string, m: int)
    requires 0 <= m < |s| && !IsSpace(s[m]) && AllSpace(s[m + 1..])
    ensures LastNonSpace(s) == Some(m)
  {
    assert !AllSpace(s) by {
      assert !IsSpace(s[m]);
    }
    assert forall w :: 0 < w <= m ==> s[w..][m - w] == s[m];
    assert forall v :: m < v < |s| ==> s[m + 1..][v - m - 1] == s[v];
  }

  // The two-group forms ^(.*)\s*<(.*)>\s*$ and ^(.*)\s*\((.*)\)\s*$

  /** The escaped text `s` matches with group 1 = s[..j], the bracket `open`
      at i, group 2 = s[i + 1..m] and `close` at m. */
  predicate BracketAt(s: string, open: char, close: char, j: int, i: int, m: int) {
    && 0 <= j <= i < m < |s|
    && '\n' !in s[..j] && AllSpace(s[j..i]) && s[i] == open
    && '\n' !in s[i + 1..m] && s[m] == close && AllSpace(s[m + 1..])
  }

  ghost predicate NoBracketMatch(s: string, open: char, close: char) {
    forall j, i, m :: !BracketAt(s, open, close, j, i, m)
  }

  /** The match whose group 1 is longest: the one the regular expression
      returns. */
  ghost predicate GreedyAt(s: string, open: char, close: char, j: int, i: int, m: int) {
    && BracketAt(s, open, close, j, i, m)
    && forall j', i', m' :: BracketAt(s, open, close, j', i', m') ==> j' <= j
  }

  /** Group 1 may end at j when m is the closing bracket. */
  predicate NameEndsAt(s: string, open: char, m: int, j: int) {
    && 0 <= j <= m < |s| && '\n' !in s[..j]
    && var i := j + SpaceRun(s[j..]);
       i < m && s[i] == open && '\n' !in s[i + 1..m]
  }

  /** The greatest j' <= j at which group 1 may end. */
  function LongestName(s: string, open: char, m: nat, j: nat): (r: Option<nat>)
    requires j <= m < |s|
    ensures r.Some? ==> r.value <= j && NameEndsAt(s, open, m, r.value)
    ensures forall k :: (r.None? || r.value < k) && k <= j ==> !NameEndsAt(s, open, m, k)
    decreases j
  {
    if NameEndsAt(s, open, m, j) then Some(j)
    else if j == 0 then None
    else LongestName(s, open, m, j - 1)
  }

  datatype Span = Span(j: nat, i: nat, m: nat)

  /** The greedy match, searched from the right: the closing bracket must be
      the last non-space character, then group 1 is as long as it can be. */
  function Bracketed(s: string, open: char, close: char): (r: Option<Span>)
    ensures r.Some? ==> BracketAt(s, open, close, r.value.j, r.value.i, r.value.m)
  {
    match LastNonSpace(s)
    case None => None
    case Some(m) =>
      if s[m] != close then None
      else
        match LongestName(s, open, m, m)
        case None => None
        case Some(j) =>
          assert s[j..j + SpaceRun(s[j..])] == s[j..][..SpaceRun(s[j..])];
          Some(Span(j, j + SpaceRun(s[j..]), m))
  }

  /** Every match closes at the last non-space character, has its opening
      bracket right after the whitespace that follows group 1, and so is
      one the search looks at. */
  lemma BracketAtParts(s: string, open: char, close: char, j: int, i: int, m: int)
    requires !IsSpace(open) && !IsSpace(close) && BracketAt(s, open, close, j, i, m)
    ensures LastNonSpace(s) == Some(m) && i == j + SpaceRun(s[j..]) && NameEndsAt(s, open, m, j)
  {
    LastNonSpaceAt(s, m);
    SpaceThen(s, j, i);
  }

  /** The search finds the greedy match, and finds none only when there is
      no match at all. */
  lemma BracketedIsGreedy(s: string, open: char, close: char)
    requires !IsSpace(open) && !IsSpace(close)
    ensures Bracketed(s, open, close).Some? ==>
      var p := Bracketed(s, open, close).value; GreedyAt(s, open, close, p.j, p.i, p.m)
    ensures Bracketed(s, open, close).None? ==> NoBracketMatch(s, open, close)
  {
    forall j, i, m | BracketAt(s, open, close, j, i, m)
      ensures Bracketed(s, open, close).Some? && j <= Bracketed(s, open, close).value.j
    {
      BracketAtParts(s, open, close, j, i, m);
    }
    if Bracketed(s, open, close).Some? {
      var p := Bracketed(s, open, close).value;
      var t := s[p.j..];
      assert s[p.j..p.i] == t[..SpaceRun(t)];
    }
  }

  /** Only one match is the greedy one. */
  lemma GreedyUnique(s: string, open: char, close: char, j: int, i: int, m: int, j2: int, i2: int, m2: int)
    requires !IsSpace(open) && !IsSpace(close)
    requires GreedyAt(s, open, close, j, i, m) && GreedyAt(s, open, close, j2, i2, m2)
    ensures j == j2 && i == i2 && m == m2
  {
    BracketAtParts(s, open, close, j, i, m);
    BracketAtParts(s, open, close, j2, i2, m2);
  }

  /** The two groups of the greedy match, if there is a match. */
  function BracketGroups(s: string, open: char, close: char): (r: Option<(string, string)>)
    requires !IsSpace(open) && !IsSpace(close)
    ensures r.None? <==> NoBracketMatch(s, open, close)
    ensures r.Some? ==> exists j, i, m :: GreedyAt(s, open, close, j, i, m) && r.value == (s[..j], s[i + 1..m])
  {
    BracketedIsGreedy(s, open, close);
    match Bracketed(s, open, close)
    case None => None
    case Some(p) =>
      assert GreedyAt(s, open, close, p.j, p.i, p.m);
      Some((s[..p.j], s[p.i + 1..p.m]))
  }

  /** name_email: the groups of the "name <email>" form when the escaped
      address has one; otherwise those of the "email (name)" form, swapped so
      that the name comes first; otherwise an error quoting the escaped
      address. */
  function NameEmail(address: string): (r: Result<(string, string), CmdError>)
    ensures var s := Escape(address);
      r.Err? <==> NoBracketMatch(s, '<', '>') && NoBracketMatch(s, '(', ')')
    ensures r.Err? ==> r.error == IncorrectNameEmail(Escape(address))
    ensures var s := Escape(address);
      r.Ok? && !NoBracketMatch(s, '<', '>') ==>
        exists j, i, m :: GreedyAt(s, '<', '>', j, i, m) && r.value == (s[..j], s[i + 1..m])
    ensures var s := Escape(address);
      r.Ok? && NoBracketMatch(s, '<', '>') ==>
        exists j, i, m :: GreedyAt(s, '(', ')', j, i, m) && r.value == (s[i + 1..m], s[..j])
  {
    var s := Escape(address);
    match BracketGroups(s, '<', '>')
    case Some(g) => Ok(g)
    case None =>
      match BracketGroups(s, '(', ')')
      case Some(g) => Ok((g.1, g.0))
      case None => Err(IncorrectNameEmail(s))
  }

  // The three-group form ^(.*)\s*<(.*)>\s*(.*)\s*$

  /** The escaped text `s` matches with group 1 = s[..j], '<' at i,
      group 2 = s[i + 1..m], '>' at m and group 3 = s[a..b]. */
  predicate DateAt(s: string, j: int, i: int, m: int, a: int, b: int) {
    && 0 <= j <= i < m < a <= b <= |s|
    && '\n' !in s[..j] && AllSpace(s[j..i]) && s[i] == '<'
    && '\n' !in s[i + 1..m] && s[m] == '>'
    && AllSpace(s[m + 1..a]) && '\n' !in s[a..b] && AllSpace(s[b..])
  }

  ghost predicate NoDateMatch(s: string) {
    forall j, i, m, a, b :: !DateAt(s, j, i, m, a, b)
  }

  /** The match the regular expression returns: group 1 longest, then
      group 2 longest, then group 3 starting and ending as late as it can. */
  ghost predicate GreedyDateAt(s: string, j: int, i: int, m: int, a: int, b: int) {
    && DateAt(s, j, i, m, a, b)
    && forall j', i', m', a', b' :: DateAt(s, j', i', m', a', b') ==>
         j' <= j && (j' == j ==> m' <= m && (m' == m ==> a' <= a && b' <= b))
  }

  /** Where group 3 ends in the text `t` after '>': at the first line break
      after the leading whitespace. */
  function DateEnd(t: string): (b: nat)
    ensures SpaceRun(t) <= b <= |t|
  {
    SpaceRun(t) + LineRun(t[SpaceRun(t)..])
  }

  /** The text after '>' completes the match: past its leading whitespace,
      the rest of the first line, then whitespace only (DateRestOkGreedy). */
  predicate DateRestOk(t: string)
    decreases |t|
  {
    if t != [] && IsSpace(t[0]) then DateRestOk(t[1..]) else AllSpace(t[LineRun(t)..])
  }

  /** DateRestOk says that the greedy group 3 leaves whitespace only. */
  lemma {:induction false} DateRestOkGreedy(t: string)
    ensures DateRestOk(t) <==> AllSpace(t[DateEnd(t)..])
    decreases |t|
  {
    if t != [] && IsSpace(t[0]) {
      DateRestOkGreedy(t[1..]);
      var n := SpaceRun(t[1..]);
      assert SpaceRun(t) == 1 + n;
      assert t[1 + n..] == t[1..][n..];
      assert t[DateEnd(t)..] == t[1..][DateEnd(t[1..])..];
    } else {
      assert SpaceRun(t) == 0;
      assert t[0..] == t;
    }
  }

  lemma RestStart(t: string, a: int)
    requires 0 <= a <= |t| && AllSpace(t[..a])
    ensures a <= SpaceRun(t)
  {
    var first := SpaceRun(t);
    assert forall x :: first < x <= |t| ==> t[..x][first] == t[first];
  }

  lemma RestEnd(t: string, a: int, b: int)
    requires 0 <= a <= SpaceRun(t) && a <= b <= |t| && '\n' !in t[a..b]
    ensures b <= DateEnd(t)
  {
    var first := SpaceRun(t);
    if b > first {
      LineFreeTail(t, a, first, b);
      LineRunCovers(t[first..], b - first);
    }
  }

  lemma LineFreeTail(t: string, a: int, c: int, b: int)
    requires 0 <= a <= c <= b <= |t| && '\n' !in t[a..b]
    ensures '\n' !in t[c..][..b - c]
  {
    var v := t[a..b];
    assert t[c..][..b - c] == v[c - a..];
    assert forall y :: y in v[c - a..] ==> y in v;
  }

  lemma AllSpaceSuffix(t: string, b: int, c: int)
    requires 0 <= b <= c <= |t| && AllSpace(t[b..])
    ensures AllSpace(t[c..])
  {
    assert forall x :: c <= x < |t| ==> t[b..][x - b] == t[x];
  }

  /** If any split of `t` completes the match, the greedy one does, and no
      other split starts or ends group 3 later. */
  lemma RestGreedy(t: string, a: int, b: int)
    requires 0 <= a <= b <= |t| && AllSpace(t[..a]) && '\n' !in t[a..b] && AllSpace(t[b..])
    ensures DateRestOk(t) && a <= SpaceRun(t) && b <= DateEnd(t)
  {
    RestStart(t, a);
    RestEnd(t, a, b);
    AllSpaceSuffix(t, b, DateEnd(t));
    DateRestOkGreedy(t);
  }

  /** Group 2 may end at m when '<' is at i. */
  predicate CloseEndsAt(s: string, i: int, m: int) {
    0 <= i < m < |s| && s[m] == '>' && '\n' !in s[i + 1..m] && DateRestOk(s[m + 1..])
  }

  /** The greatest m' <= m at which group 2 may end. */
  function LongestEmail(s: string, i: nat, m: nat): (r: Option<nat>)
    requires m < |s|
    ensures r.Some? ==> r.value <= m && CloseEndsAt(s, i, r.value)
    ensures forall k :: (r.None? || r.value < k) && k <= m ==> !CloseEndsAt(s, i, k)
    decreases m
  {
    if CloseEndsAt(s, i, m) then Some(m)
    else if m <= i then None
    else LongestEmail(s, i, m - 1)
  }

  /** Some '>' after the '<' at i closes group 2. */
  predicate HasEmailEnd(s: string, i: int) {
    exists m :: i < m < |s| && CloseEndsAt(s, i, m)
  }

  /** Group 1 may end at j. */
  predicate DateNameEndsAt(s: string, j: int) {
    && 0 <= j < |s| && '\n' !in s[..j]
    && var i := j + SpaceRun(s[j..]);
       i < |s| && s[i] == '<' && HasEmailEnd(s, i)
  }

  /** The greatest j' <= j at which group 1 may end. */
  function LongestDateName(s: string, j: nat): (r: Option<nat>)
    requires j < |s|
    ensures r.Some? ==> r.value <= j && DateNameEndsAt(s, r.value)
    ensures forall k :: (r.None? || r.value < k) && k <= j ==> !DateNameEndsAt(s, k)
    decreases j
  {
    if DateNameEndsAt(s, j) then Some(j)
    else if j == 0 then None
    else LongestDateName(s, j - 1)
  }

  /** Where group 3 starts and ends when '>' is at m. */
  function DateStart(s: string, m: nat): (a: nat)
    requires m < |s|
    ensures m < a <= |s|
  {
    m + 1 + SpaceRun(s[m + 1..])
  }

  function DateStop(s: string, m: nat): (b: nat)
    requires m < |s|
    ensures DateStart(s, m) <= b <= |s|
  {
    m + 1 + DateEnd(s[m + 1..])
  }

  /** Where group 2 ends when '<' is at i: the last possible place. */
  function EmailEnd(s: string, i: nat): (m: nat)
    requires i < |s| && HasEmailEnd(s, i)
    ensures i < m < |s| && CloseEndsAt(s, i, m)
    ensures forall k :: m < k < |s| ==> !CloseEndsAt(s, i, k)
  {
    LongestEmail(s, i, |s| - 1).value
  }

  /** The match with group 1 ending at j and group 2 greedy. */
  function SpanAt(s: string, j: nat): (p: Span)
    requires DateNameEndsAt(s, j)
    ensures p.j == j && p.i == j + SpaceRun(s[j..]) && p.i < |s| && p.m == EmailEnd(s, p.i)
  {
    var i := j + SpaceRun(s[j..]);
    Span(j, i, EmailEnd(s, i))
  }

  /** The greedy match, searched from the right. */
  function DateMatch(s: string): (r: Option<Span>)
    ensures r.Some? ==> var p := r.value;
      p.j <= p.i < p.m < |s| && s[p.i] == '<' && s[p.m] == '>'
  {
    if s == [] then None
    else
      match LongestDateName(s, |s| - 1)
      case None => None
      case Some(j) => Some(SpanAt(s, j))
  }

  lemma DateRestParts(s: string, m: int, a: int, b: int)
    requires 0 <= m < a <= b <= |s|
    requires AllSpace(s[m + 1..a]) && '\n' !in s[a..b] && AllSpace(s[b..])
    ensures DateRestOk(s[m + 1..])
    ensures a - (m + 1) <= SpaceRun(s[m + 1..]) && b - (m + 1) <= DateEnd(s[m + 1..])
  {
    var t := s[m + 1..];
    assert t[..a - (m + 1)] == s[m + 1..a];
    assert t[a - (m + 1)..b - (m + 1)] == s[a..b];
    assert t[b - (m + 1)..] == s[b..];
    RestGreedy(t, a - (m + 1), b - (m + 1));
  }

  lemma NameEndsBeforeClose(s: string, j: int, i: int, m: int)
    requires 0 <= j <= i < |s| && '\n' !in s[..j] && s[i] == '<' && i == j + SpaceRun(s[j..])
    requires CloseEndsAt(s, i, m)
    ensures DateNameEndsAt(s, j)
  {
  }

  lemma DateAtClose(s: string, j: int, i: int, m: int, a: int, b: int)
    requires DateAt(s, j, i, m, a, b)
    ensures i == j + SpaceRun(s[j..]) && CloseEndsAt(s, i, m)
  {
    SpaceThen(s, j, i);
    DateRestParts(s, m, a, b);
  }

  /** Every match is one the search looks at, and its group 3 starts and
      ends no later than the greedy one. */
  lemma DateAtParts(s: string, j: int, i: int, m: int, a: int, b: int)
    requires DateAt(s, j, i, m, a, b)
    ensures i == j + SpaceRun(s[j..]) && CloseEndsAt(s, i, m) && DateNameEndsAt(s, j)
    ensures a - (m + 1) <= SpaceRun(s[m + 1..]) && b - (m + 1) <= DateEnd(s[m + 1..])
  {
    DateAtClose(s, j, i, m, a, b);
    NameEndsBeforeClose(s, j, i, m);
    DateRestParts(s, m, a, b);
  }

  lemma LongestDateNameCovers(s: string, j: int)
    requires 0 <= j < |s| && DateNameEndsAt(s, j)
    ensures LongestDateName(s, |s| - 1).Some? && j <= LongestDateName(s, |s| - 1).value
  {
  }

  lemma EmailEndCovers(s: string, i: int, m: int)
    requires 0 <= i < |s| && CloseEndsAt(s, i, m)
    ensures HasEmailEnd(s, i) && m <= EmailEnd(s, i)
  {
  }

  /** No match goes past the one the search finds. */
  lemma DateMatchMaximal(s: string, j: int, i: int, m: int, a: int, b: int)
    requires DateAt(s, j, i, m, a, b)
    ensures DateMatch(s).Some?
    ensures var p := DateMatch(s).value;
      j <= p.j && (j == p.j ==> m <= p.m && (m == p.m ==> a <= DateStart(s, p.m) && b <= DateStop(s, p.m)))
  {
    DateAtParts(s, j, i, m, a, b);
    LongestDateNameCovers(s, j);
    var p := DateMatch(s).value;
    if j == p.j {
      assert p.i == i;
      EmailEndCovers(s, i, m);
      if m == p.m {
        DateBounds(s, m, a, b);
      }
    }
  }

  lemma DateBounds(s: string, m: int, a: int, b: int)
    requires 0 <= m < a <= b <= |s|
    requires AllSpace(s[m + 1..a]) && '\n' !in s[a..b] && AllSpace(s[b..])
    ensures a <= DateStart(s, m) && b <= DateStop(s, m)
  {
    DateRestParts(s, m, a, b);
  }

  /** What the search finds is a match. */
  lemma DateMatchSound(s: string)
    requires DateMatch(s).Some?
    ensures var p := DateMatch(s).value; DateAt(s, p.j, p.i, p.m, DateStart(s, p.m), DateStop(s, p.m))
  {
    var p := DateMatch(s).value;
    assert DateNameEndsAt(s, p.j);
    assert p.i == p.j + SpaceRun(s[p.j..]) && p.m == EmailEnd(s, p.i);
    SpanIsMatch(s, p.j, p.i, p.m);
  }

  lemma SpanIsMatch(s: string, j: nat, i: nat, m: nat)
    requires j < |s| && '\n' !in s[..j] && i == j + SpaceRun(s[j..]) && i < |s| && s[i] == '<'
    requires CloseEndsAt(s, i, m)
    ensures DateAt(s, j, i, m, DateStart(s, m), DateStop(s, m))
  {
    assert s[j..i] == s[j..][..SpaceRun(s[j..])];
    RestIsMatch(s, m);
  }

  /** After a '>' that closes group 2, the greedy group 3 completes a match. */
  lemma RestIsMatch(s: string, m: nat)
    requires m < |s| && DateRestOk(s[m + 1..])
    ensures var a, b := DateStart(s, m), DateStop(s, m);
      AllSpace(s[m + 1..a]) && '\n' !in s[a..b] && AllSpace(s[b..])
  {
    var t := s[m + 1..];
    DateRestOkGreedy(t);
    DateEndLine(t);
    RestShift(s, m, t);
  }

  /** Group 3 holds no line break. */
  lemma DateEndLine(t: string)
    ensures '\n' !in t[SpaceRun(t)..DateEnd(t)]
  {
    var first := SpaceRun(t);
    assert t[first..DateEnd(t)] == t[first..][..LineRun(t[first..])];
  }

  /** The three parts of the rest, read back as slices of `s`. */
  lemma RestShift(s: string, m: nat, t: string)
    requires m < |s| && t == s[m + 1..]
    requires AllSpace(t[DateEnd(t)..]) && '\n' !in t[SpaceRun(t)..DateEnd(t)]
    ensures var a, b := DateStart(s, m), DateStop(s, m);
      AllSpace(s[m + 1..a]) && '\n' !in s[a..b] && AllSpace(s[b..])
  {
    var o, first, end := m + 1, SpaceRun(t), DateEnd(t);
    var a, b := DateStart(s, m), DateStop(s, m);
    assert a - o == first && b - o == end;
    SpacesShift(s, o, t, a);
    InfixShift(s, o, t, a, b);
    SuffixShift(s, o, t, b);
  }

  lemma SpacesShift(s: string, o: nat, t: string, a: nat)
    requires o <= a <= |s| && t == s[o..] && AllSpace(t[..a - o])
    ensures AllSpace(s[o..a])
  {
    assert s[o..a] == t[..a - o];
  }

  lemma InfixShift(s: string, o: nat, t: string, a: nat, b: nat)
    requires o <= a <= b <= |s| && t == s[o..] && '\n' !in t[a - o..b - o]
    ensures '\n' !in s[a..b]
  {
    assert s[a..b] == t[a - o..b - o];
  }

  lemma SuffixShift(s: string, o: nat, t: string, b: nat)
    requires o <= b <= |s| && t == s[o..] && AllSpace(t[b - o..])
    ensures AllSpace(s[b..])
  {
    assert s[b..] == t[b - o..];
  }

  /** The search finds the greedy match, and finds none only when there is
      no match at all. */
  lemma DateMatchIsGreedy(s: string)
    ensures DateMatch(s).Some? ==>
      var p := DateMatch(s).value; GreedyDateAt(s, p.j, p.i, p.m, DateStart(s, p.m), DateStop(s, p.m))
    ensures DateMatch(s).None? ==> NoDateMatch(s)
  {
    forall j, i, m, a, b | DateAt(s, j, i, m, a, b)
      ensures DateMatch(s).Some?
      ensures var p := DateMatch(s).value;
        j <= p.j && (j == p.j ==> m <= p.m && (m == p.m ==> a <= DateStart(s, p.m) && b <= DateStop(s, p.m)))
    {
      DateMatchMaximal(s, j, i, m, a, b);
    }
    if DateMatch(s).Some? {
      DateMatchSound(s);
    }
  }

  /** name_email_date: the three groups of the "name <email> date" form, or
      an error quoting the escaped address. */
  function NameEmailDate(address: string): (r: Result<(string, string, string), CmdError>)
    ensures r.Err? <==> NoDateMatch(Escape(address))
    ensures r.Err? ==> r.error == IncorrectNameEmailDate(Escape(address))
    ensures var s := Escape(address);
      r.Ok? ==> exists j, i, m, a, b :: GreedyDateAt(s, j, i, m, a, b) && r.value == (s[..j], s[i + 1..m], s[a..b])
  {
    var s := Escape(address);
    DateMatchIsGreedy(s);
    match DateMatch(s)
    case None => Err(IncorrectNameEmailDate(s))
    case Some(p) => Ok((s[..p.j], s[p.i + 1..p.m], s[DateStart(s, p.m)..DateStop(s, p.m)]))
  }
}

module AddressForms {
  import opened Errors
  import opened Text
  import opened Address

  /** Escaping the pieces of an address separately. */
  lemma EscapeJoin(a: string, sep: string, b: string, close: string)
    requires forall k :: 0 <= k < |sep| ==> !NeedsEscape(sep[k])
    requires forall k :: 0 <= k < |close| ==> !NeedsEscape(close[k])
    ensures Escape(a + sep + b + close) == Escape(a) + sep + Escape(b) + close
  {
    EscapeAppend(a + sep + b, close);
    EscapeAppend(a + sep, b);
    EscapeAppend(a, sep);
    EscapeNothing(sep);
    EscapeNothing(close);
  }

  /** In "n <e>" with no '<' in e, the greedy match puts the space into
      group 1 and all of e into group 2. */
  lemma AngleGreedy(n: string, e: string)
    requires '\n' !in n && '\n' !in e && '<' !in e
    ensures GreedyAt(n + " <" + e + ">", '<', '>', |n| + 1, |n| + 1, |n| + |e| + 2)
    ensures var s := n + " <" + e + ">"; s[..|n| + 1] == n + " " && s[|n| + 2..|n| + |e| + 2] == e
  {
    var s := n + " <" + e + ">";
    var J, M := |n| + 1, |n| + |e| + 2;
    assert s[..J] == n + " ";
    assert s[J + 1..M] == e;
    assert forall k :: J < k < M ==> s[k] == e[k - J - 1];
    forall j', i', m' | BracketAt(s, '<', '>', j', i', m')
      ensures j' <= J
    {
      BracketAtParts(s, '<', '>', j', i', m');
      LastNonSpaceAt(s, M);
    }
  }

  /** In "e (n)" there is no "<...>" match, and with no '(' in n the greedy
      "(...)" match puts the space into group 1 and all of n into group 2. */
  lemma ParenGreedy(e: string, n: string)
    requires '\n' !in e && '\n' !in n && '(' !in n
    ensures NoBracketMatch(e + " (" + n + ")", '<', '>')
    ensures GreedyAt(e + " (" + n + ")", '(', ')', |e| + 1, |e| + 1, |e| + |n| + 2)
    ensures var s := e + " (" + n + ")"; s[..|e| + 1] == e + " " && s[|e| + 2..|e| + |n| + 2] == n
  {
    var s := e + " (" + n + ")";
    var J, M := |e| + 1, |e| + |n| + 2;
    assert s[..J] == e + " ";
    assert s[J + 1..M] == n;
    assert forall k :: J < k < M ==> s[k] == n[k - J - 1];
    LastNonSpaceAt(s, M);
    forall j', i', m' | BracketAt(s, '<', '>', j', i', m')
      ensures false
    {
      BracketAtParts(s, '<', '>', j', i', m');
    }
    forall j', i', m' | BracketAt(s, '(', ')', j', i', m')
      ensures j' <= J
    {
      BracketAtParts(s, '(', ')', j', i', m');
    }
  }

  /** name_email on "name <email>": the name keeps the space before '<'. */
  lemma NameEmailAngleForm(name: string, email: string)
    requires '\n' !in name && '\n' !in email && '<' !in email
    ensures NameEmail(name + " <" + email + ">") == Ok((Escape(name) + " ", Escape(email)))
  {
    var address := name + " <" + email + ">";
    var n, e := Escape(name), Escape(email);
    EscapedPieces(name, " <", email, ">");
    AngleGreedy(n, e);
    AngleResult(address, |n| + 1, |n| + |e| + 2);
  }

  /** The escaped address is made of the escaped pieces, and escaping adds
      no line break, '<' or '('. */
  lemma EscapedPieces(a: string, sep: string, b: string, close: string)
    requires forall k :: 0 <= k < |sep| ==> !NeedsEscape(sep[k])
    requires forall k :: 0 <= k < |close| ==> !NeedsEscape(close[k])
    ensures Escape(a + sep + b + close) == Escape(a) + sep + Escape(b) + close
    ensures ('\n' in Escape(a) <==> '\n' in a) && ('\n' in Escape(b) <==> '\n' in b)
    ensures ('<' in Escape(b) <==> '<' in b) && ('(' in Escape(b) <==> '(' in b)
  {
    EscapeJoin(a, sep, b, close);
    EscapeKeeps(a, '\n');
    EscapeKeeps(b, '\n');
    EscapeKeeps(b, '<');
    EscapeKeeps(b, '(');
  }

  /** The greedy "<...>" match gives name_email's result. */
  lemma AngleResult(address: string, j: int, m: int)
    requires GreedyAt(Escape(address), '<', '>', j, j, m)
    ensures var s := Escape(address); NameEmail(address) == Ok((s[..j], s[j + 1..m]))
  {
    BracketGroupsOf(Escape(address), '<', '>', j, m);
  }

  /** The groups of the greedy match. */
  lemma BracketGroupsOf(s: string, open: char, close: char, j: int, m: int)
    requires !IsSpace(open) && !IsSpace(close) && GreedyAt(s, open, close, j, j, m)
    ensures BracketGroups(s, open, close) == Some((s[..j], s[j + 1..m]))
  {
    var r := BracketGroups(s, open, close);
    var j', i', m' :| GreedyAt(s, open, close, j', i', m') && r.value == (s[..j'], s[i' + 1..m']);
    GreedyUnique(s, open, close, j', i', m', j, j, m);
  }

  /** name_email on "email (name)": the pair comes back name first, and the
      email keeps the space before '('. */
  lemma NameEmailParenForm(email: string, name: string)
    requires '\n' !in email && '\n' !in name && '(' !in name
    ensures NameEmail(email + " (" + name + ")") == Ok((Escape(name), Escape(email) + " "))
  {
    var address := email + " (" + name + ")";
    var e, n := Escape(email), Escape(name);
    EscapedPieces(email, " (", name, ")");
    ParenGreedy(e, n);
    ParenResult(address, |e| + 1, |e| + |n| + 2);
  }

  /** With no "<...>" match, the greedy "(...)" match gives name_email's
      result, name first. */
  lemma ParenResult(address: string, j: int, m: int)
    requires NoBracketMatch(Escape(address), '<', '>')
    requires GreedyAt(Escape(address), '(', ')', j, j, m)
    ensures var s := Escape(address); NameEmail(address) == Ok((s[j + 1..m], s[..j]))
  {
    var s := Escape(address);
    assert BracketGroups(s, '<', '>').None?;
    BracketGroupsOf(s, '(', ')', j, m);
  }

  /** In "n <e> d" with no '<' in e or d, no '>' in d and d not starting
      with whitespace, the greedy match has the space in group 1, all of e in
      group 2 and all of d in group 3. */
  lemma DateGreedy(n: string, e: string, d: string)
    requires '\n' !in n && '\n' !in e && '\n' !in d && '<' !in e && '<' !in d && '>' !in d
    requires d == [] || !IsSpace(d[0])
    ensures var s := n + " <" + e + "> " + d;
      GreedyDateAt(s, |n| + 1, |n| + 1, |n| + |e| + 2, |n| + |e| + 4, |s|)
    ensures var s := n + " <" + e + "> " + d;
      s[..|n| + 1] == n + " " && s[|n| + 2..|n| + |e| + 2] == e && s[|n| + |e| + 4..|s|] == d
  {
    var s := n + " <" + e + "> " + d;
    var J, M, A := |n| + 1, |n| + |e| + 2, |n| + |e| + 4;
    assert s[..J] == n + " ";
    assert s[J + 1..M] == e;
    assert s[A..] == d;
    assert s[M + 1..A] == " ";
    assert forall k :: J < k < M ==> s[k] == e[k - J - 1];
    assert forall k :: A <= k < |s| ==> s[k] == d[k - A];
    forall j', i', m', a', b' | DateAt(s, j', i', m', a', b')
      ensures j' <= J && (j' == J ==> m' <= M && (m' == M ==> a' <= A && b' <= |s|))
    {
      DateMax(s, J, M, j', i', m', a', b');
    }
  }

  /** A match of a text with '<' at J, '>' at M, no '<' after J, no '>'
      after M, and one space after M goes no further than those. */
  lemma DateMax(s: string, J: int, M: int, j: int, i: int, m: int, a: int, b: int)
    requires DateAt(s, j, i, m, a, b)
    requires 0 <= J < M && M + 2 <= |s| && s[J] == '<' && s[M] == '>' && s[M + 1] == ' '
    requires forall k :: J < k < |s| ==> s[k] != '<'
    requires forall k :: M < k < |s| ==> s[k] != '>'
    requires M + 2 < |s| ==> !IsSpace(s[M + 2])
    ensures j <= J && (j == J ==> m <= M && (m == M ==> a <= M + 2 && b <= |s|))
  {
    DateAtParts(s, j, i, m, a, b);
    assert s[J..][0] == '<';
    SpacesIn(s, m + 1, a);
  }

  lemma SpacesIn(s: string, p: int, q: int)
    requires 0 <= p <= q <= |s| && AllSpace(s[p..q])
    ensures forall k :: p <= k < q ==> IsSpace(s[k])
  {
    assert forall k :: p <= k < q ==> s[p..q][k - p] == s[k];
  }

  /** Only one match is the greedy one. */
  lemma DateGreedyUnique(s: string, j: int, i: int, m: int, a: int, b: int,
                         j2: int, i2: int, m2: int, a2: int, b2: int)
    requires GreedyDateAt(s, j, i, m, a, b) && GreedyDateAt(s, j2, i2, m2, a2, b2)
    ensures j == j2 && i == i2 && m == m2 && a == a2 && b == b2
  {
    DateAtParts(s, j, i, m, a, b);
    DateAtParts(s, j2, i2, m2, a2, b2);
  }

  /** The search finds the greedy match. */
  lemma DateMatchOf(s: string, j: int, m: int, a: int, b: int)
    requires GreedyDateAt(s, j, j, m, a, b)
    ensures DateMatch(s) == Some(Span(j, j, m)) && m < |s| && DateStart(s, m) == a && DateStop(s, m) == b
  {
    DateMatchIsGreedy(s);
    var p := DateMatch(s).value;
    DateGreedyUnique(s, p.j, p.i, p.m, DateStart(s, p.m), DateStop(s, p.m), j, j, m, a, b);
  }

  /** The greedy match gives name_email_date's result. */
  lemma DateResult(address: string, j: int, m: int, a: int, b: int)
    requires GreedyDateAt(Escape(address), j, j, m, a, b)
    ensures var s := Escape(address); NameEmailDate(address) == Ok((s[..j], s[j + 1..m], s[a..b]))
  {
    DateMatchOf(Escape(address), j, m, a, b);
  }

  /** name_email_date on "name <email> date". */
  lemma NameEmailDateForm(name: string, email: string, date: string)
    requires '\n' !in name && '\n' !in email && '\n' !in date
    requires '<' !in email && '<' !in date && '>' !in date
    requires date == [] || !IsSpace(date[0])
    ensures NameEmailDate(name + " <" + email + "> " + date) == Ok((Escape(name) + " ", Escape(email), Escape(date)))
  {
    var address := name + " <" + email + "> " + date;
    EscapedDate(name, email, date);
    DateFormResult(address, Escape(name), Escape(email), Escape(date));
  }

  lemma DateFormResult(address: string, n: string, e: string, d: string)
    requires Escape(address) == n + " <" + e + "> " + d
    requires '\n' !in n && '\n' !in e && '\n' !in d && '<' !in e && '<' !in d && '>' !in d
    requires d == [] || !IsSpace(d[0])
    ensures NameEmailDate(address) == Ok((n + " ", e, d))
  {
    DateGreedy(n, e, d);
    var s := Escape(address);
    var J, M, A := |n| + 1, |n| + |e| + 2, |n| + |e| + 4;
    assert GreedyDateAt(s, J, J, M, A, |s|);
    assert s[..J] == n + " " && s[J + 1..M] == e && s[A..|s|] == d;
    DateResult(address, J, M, A, |s|);
  }

  lemma EscapedDate(name: string, email: string, date: string)
    ensures Escape(name + " <" + email + "> " + date) == Escape(name) + " <" + Escape(email) + "> " + Escape(date)
    ensures ('\n' in Escape(name) <==> '\n' in name) && ('\n' in Escape(email) <==> '\n' in email)
    ensures '<' in Escape(email) <==> '<' in email
    ensures ('\n' in Escape(date) <==> '\n' in date) && ('<' in Escape(date) <==> '<' in date)
    ensures '>' in Escape(date) <==> '>' in date
    ensures date != [] ==> Escape(date) != [] && (IsSpace(Escape(date)[0]) <==> IsSpace(date[0]))
  {
    EscapedPieces(name, " <", email, "> ");
    EscapeAppend(name + " <" + email + "> ", date);
    EscapeKeeps(date, '\n');
    EscapeKeeps(date, '<');
    EscapeKeeps(date, '>');
    if date != [] {
      EscapeHead(date);
    }
  }

  /** Without a closing '>' or ')' there is no match, and name_email
      raises the error quoting the escaped address. */
  lemma NameEmailNoClose(address: string)
    requires '>' !in address && ')' !in address
    ensures NameEmail(address) == Err(IncorrectNameEmail(Escape(address)))
  {
    var s := Escape(address);
    EscapeKeeps(address, '>');
    EscapeKeeps(address, ')');
    assert NoBracketMatch(s, '<', '>');
    assert NoBracketMatch(s, '(', ')');
  }

  /** Without a closing '>' name_email_date raises its error. */
  lemma NameEmailDateNoClose(address: string)
    requires '>' !in address
    ensures NameEmailDate(address) == Err(IncorrectNameEmailDate(Escape(address)))
  {
    var s := Escape(address);
    EscapeKeeps(address, '>');
    assert NoDateMatch(s);
  }
}
