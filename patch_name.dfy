/** make_patch_name: a patch name made from the subject line of a message
    (stgit/commands/common.py:282-290). The message loses its leading
    whitespace, is cut at its first line break and lower-cased; every run of
    non-word characters then becomes one '-', and '-' is stripped from both
    ends. */
module PatchName {
  import opened Errors
  import opened Text

  /** str.lower on a byte string: only A-Z change. */
  function LowerChar(c: char): char {
    if 'A' <= c <= 'Z' then (c as int + 32) as char else c
  }

  predicate IsUpper(c: char) {
    'A' <= c <= 'Z'
  }

  function Lower(s: string): (r: string)
    ensures |r| == |s|
    ensures forall k :: 0 <= k < |s| ==> r[k] == LowerChar(s[k])
    ensures forall k :: 0 <= k < |r| ==> !IsUpper(r[k])
  {
    seq(|s|, k requires 0 <= k < |s| => LowerChar(s[k]))
  }

  /** Length of the run of word characters at the start of `s`. */
  function WordRun(s: string): (n: nat)
    ensures n <= |s|
    ensures forall k :: 0 <= k < n ==> IsWordChar(s[k])
    ensures n < |s| ==> !IsWordChar(s[n])
  {
    if s == [] || !IsWordChar(s[0]) then 0 else 1 + WordRun(s[1..])
  }

  /** Length of the run of non-word characters at the start of `s`. */
  function NonWordRun(s: string): (n: nat)
    ensures n <= |s|
    ensures forall k :: 0 <= k < n ==> !IsWordChar(s[k])
    ensures n < |s| ==> IsWordChar(s[n])
  {
    if s == [] || IsWordChar(s[0]) then 0 else 1 + NonWordRun(s[1..])
  }

  /** re.sub('[\W]+', '-', s): scanning left to right, word characters are
      kept and each maximal run of other characters becomes one '-'. */
  function Collapse(s: string): string
    decreases |s|
  {
    if s == [] then []
    else if IsWordChar(s[0]) then [s[0]] + Collapse(s[1..])
    else "-" + Collapse(s[NonWordRun(s)..])
  }

  /** The substitution leaves word characters and single '-' only, and its
      first character stands for the first character of `s`. */
  lemma {:induction false} CollapseShape(s: string)
    ensures var r := Collapse(s);
      && |r| <= |s| && (r == [] <==> s == [])
      && (s != [] ==> r[0] == if IsWordChar(s[0]) then s[0] else '-')
      && (forall k :: 0 <= k < |r| ==> IsWordChar(r[k]) || r[k] == '-')
      && (forall k :: 0 <= k < |r| - 1 ==> r[k] != '-' || r[k + 1] != '-')
    decreases |s|
  {
    if s != [] {
      var rest := if IsWordChar(s[0]) then s[1..] else s[NonWordRun(s)..];
      CollapseShape(rest);
      var head := if IsWordChar(s[0]) then [s[0]] else "-";
      var r, tail := Collapse(s), Collapse(rest);
      assert r == head + tail;
      forall k | 0 <= k < |r|
        ensures IsWordChar(r[k]) || r[k] == '-'
      {
        if k > 0 {
          assert r[k] == tail[k - 1];
        }
      }
      forall k | 0 <= k < |r| - 1
        ensures r[k] != '-' || r[k + 1] != '-'
      {
        if k > 0 {
          assert r[k] == tail[k - 1] && r[k + 1] == tail[k];
        } else if !IsWordChar(s[0]) {
          assert r[1] == tail[0];
        }
      }
    }
  }

  /** str.lstrip('-') */
  function DropLeading(s: string): string {
    if s != [] && s[0] == '-' then DropLeading(s[1..]) else s
  }

  /** str.rstrip('-') */
  function DropTrailing(s: string): string {
    if s != [] && s[|s| - 1] == '-' then DropTrailing(s[..|s| - 1]) else s
  }

  /** str.strip('-') */
  function StripHyphens(s: string): string {
    DropTrailing(DropLeading(s))
  }

  /** lstrip removes exactly the leading run of '-': what is left is a
      suffix of `s` that does not start with '-'. */
  lemma {:induction false} DropLeadingShape(s: string)
    ensures var r := DropLeading(s);
      && |r| <= |s| && r == s[|s| - |r|..]
      && (forall k :: 0 <= k < |s| - |r| ==> s[k] == '-')
      && (r == [] || r[0] != '-')
    decreases |s|
  {
    if s != [] && s[0] == '-' {
      var t := s[1..];
      DropLeadingShape(t);
      var r := DropLeading(t);
      assert t[|t| - |r|..] == s[|s| - |r|..];
      forall k | 0 <= k < |s| - |r|
        ensures s[k] == '-'
      {
        if k > 0 {
          assert s[k] == t[k - 1];
        }
      }
    }
  }

  /** rstrip removes exactly the trailing run of '-': what is left is a
      prefix of `s` that does not end with '-'. */
  lemma {:induction false} DropTrailingShape(s: string)
    ensures var r := DropTrailing(s);
      && |r| <= |s| && r == s[..|r|]
      && (forall k :: |r| <= k < |s| ==> s[k] == '-')
      && (r == [] || r[|r| - 1] != '-')
    decreases |s|
  {
    if s != [] && s[|s| - 1] == '-' {
      var t := s[..|s| - 1];
      DropTrailingShape(t);
      var r := DropTrailing(t);
      assert t[..|r|] == s[..|r|];
      forall k | |r| <= k < |s|
        ensures s[k] == '-'
      {
        if k < |t| {
          assert s[k] == t[k];
        }
      }
    }
  }

  /** strip leaves no '-' at either end, and leaves a text without '-' at
      its ends unchanged. */
  lemma StripHyphensShape(s: string)
    ensures var r := StripHyphens(s);
      && (r == [] || (r[0] != '-' && r[|r| - 1] != '-'))
      && ((s == [] || (s[0] != '-' && s[|s| - 1] != '-')) ==> r == s)
  {
    DropLeadingShape(s);
    var d := DropLeading(s);
    DropTrailingShape(d);
    var r := DropTrailing(d);
    if r != [] {
      assert r[0] == d[0];
    }
  }

  /** The text the name is made from: the message without its leading
      whitespace, up to the first line break, lower-cased. */
  function Subject(msg: string): (r: string)
    ensures forall k :: 0 <= k < |r| ==> !IsUpper(r[k])
  {
    var stripped := msg[SpaceRun(msg)..];
    Lower(stripped[..LineRun(stripped)])
  }

  predicate IsWord(w: string) {
    w != [] && forall k :: 0 <= k < |w| ==> IsWordChar(w[k])
  }

  /** The maximal runs of word characters of `s`, in order. */
  function Words(s: string): (ws: seq<string>)
    ensures forall i :: 0 <= i < |ws| ==> IsWord(ws[i])
    ensures forall i, k :: 0 <= i < |ws| && 0 <= k < |ws[i]| ==> ws[i][k] in s
    decreases |s|
  {
    if s == [] then []
    else if IsWordChar(s[0]) then
      var n := WordRun(s);
      var rest := Words(s[n..]);
      assert forall k :: 0 <= k < n ==> s[..n][k] == s[k];
      assert forall c :: c in s[n..] ==> c in s;
      [s[..n]] + rest
    else
      var n := NonWordRun(s);
      var rest := Words(s[n..]);
      assert forall c :: c in s[n..] ==> c in s;
      rest
  }

  /** The words separated by single hyphens. */
  function JoinWords(ws: seq<string>): string {
    if ws == [] then ""
    else if |ws| == 1 then ws[0]
    else ws[0] + "-" + JoinWords(ws[1..])
  }

  predicate IsSlugChar(c: char) {
    'a' <= c <= 'z' || '0' <= c <= '9' || c == '_' || c == '-'
  }

  /** A patch name as make_patch_name produces it: lower-case letters,
      digits, '_' and '-', no '-' at either end and never two in a row. */
  predicate IsSlug(s: string) {
    && (forall k :: 0 <= k < |s| ==> IsSlugChar(s[k]))
    && (s != [] ==> s[0] != '-' && s[|s| - 1] != '-')
    && (forall k :: 0 <= k < |s| - 1 ==> !(s[k] == '-' && s[k + 1] == '-'))
  }

  /** make_patch_name. An empty message has no name; any other message has
      one, which is a slug (possibly empty, when the subject line has no word
      characters). */
  function MakePatchName(msg: string): (r: Option<string>)
    ensures r.None? <==> msg == ""
    ensures r.Some? ==> IsSlug(r.value)
  {
    if msg == "" then None
    else
      var subject := Subject(msg);
      SlugIsJoinedWords(subject);
      LowerWordsAreSlug(subject);
      Some(StripHyphens(Collapse(subject)))
  }

  // Collapse, word by word

  lemma {:induction false} CollapseWordRun(s: string)
    requires s != [] && IsWordChar(s[0])
    ensures Collapse(s) == s[..WordRun(s)] + Collapse(s[WordRun(s)..])
    decreases |s|
  {
    var n := WordRun(s);
    if n > 1 {
      var t := s[1..];
      assert WordRun(t) == n - 1;
      CollapseWordRun(t);
      assert t[n - 1..] == s[n..];
      assert [s[0]] + t[..n - 1] == s[..n];
      Assoc([s[0]], t[..n - 1], Collapse(s[n..]));
    } else {
      assert s[..1] == [s[0]];
    }
  }

  lemma {:induction false} DropTrailingAppend(x: string, y: string)
    requires y != [] && y[0] != '-'
    ensures DropTrailing(x + y) == x + DropTrailing(y)
    decreases |y|
  {
    if y[|y| - 1] == '-' {
      assert (x + y)[..|x + y| - 1] == x + y[..|y| - 1];
      DropTrailingAppend(x, y[..|y| - 1]);
    }
  }

  lemma WordsFromWord(s: string)
    requires s != [] && IsWordChar(s[0])
    ensures Words(s) == [s[..WordRun(s)]] + Words(s[WordRun(s)..])
  {
  }

  lemma FromNonWord(t: string)
    requires t != [] && !IsWordChar(t[0])
    ensures Words(t) == Words(t[NonWordRun(t)..])
    ensures Collapse(t) == "-" + Collapse(t[NonWordRun(t)..])
  {
  }

  lemma JoinWordsCons(w: string, ws: seq<string>)
    requires ws != []
    ensures JoinWords([w] + ws) == w + "-" + JoinWords(ws)
  {
    assert ([w] + ws)[1..] == ws;
  }

  /** Proof step: regrouping a three-part concatenation. */
  lemma Assoc(a: string, b: string, c: string)
    ensures a + (b + c) == (a + b) + c
  {
  }

  /** A word, then a gap of non-word characters, then the rest `u`. */
  lemma WordThenGap(s: string)
    requires s != [] && IsWordChar(s[0]) && s[WordRun(s)..] != []
    ensures var w, t := s[..WordRun(s)], s[WordRun(s)..];
      var u := t[NonWordRun(t)..];
      && Collapse(s) == (w + "-") + Collapse(u)
      && Words(s) == [w] + Words(u)
  {
    var w, t := s[..WordRun(s)], s[WordRun(s)..];
    var u := t[NonWordRun(t)..];
    WordsFromWord(s);
    FromNonWord(t);
    var cu := Collapse(u);
    assert Collapse(s) == w + ("-" + cu) by {
      CollapseWordRun(s);
    }
    Assoc(w, "-", cu);
  }

  lemma JoinStep(w: string, u: string, cu: string)
    requires cu != [] && cu[0] != '-' && Words(u) != []
    requires DropTrailing(cu) == JoinWords(Words(u))
    ensures DropTrailing((w + "-") + cu) == JoinWords([w] + Words(u))
  {
    DropTrailingAppend(w + "-", cu);
    JoinWordsCons(w, Words(u));
  }

  /** From a word character on, collapsing and stripping the trailing '-'
      leaves the words joined by hyphens. */
  lemma {:induction false} CollapseFromWord(s: string)
    requires s != [] && IsWordChar(s[0])
    ensures Collapse(s) != [] && Collapse(s)[0] == s[0]
    ensures DropTrailing(Collapse(s)) == JoinWords(Words(s)) && Words(s) != []
    decreases |s|
  {
    var n := WordRun(s);
    var w := s[..n];
    var t := s[n..];
    if t == [] {
      CollapseWordRun(s);
      WordsFromWord(s);
      assert w == s;
      assert Collapse(s) == s;
    } else {
      var u := t[NonWordRun(t)..];
      WordThenGap(s);
      if u == [] {
        assert Collapse(s) == w + "-";
        assert (w + "-")[..n] == w;
      } else {
        CollapseFromWord(u);
        JoinStep(w, u, Collapse(u));
      }
    }
  }

  /** The name is the words of the text joined by single hyphens: the
      regular-expression substitution and the strip agree with this
      word-level reading for every text. */
  lemma SlugIsJoinedWords(s: string)
    ensures StripHyphens(Collapse(s)) == JoinWords(Words(s))
  {
    if s != [] {
      if IsWordChar(s[0]) {
        CollapseFromWord(s);
      } else {
        var u := s[NonWordRun(s)..];
        assert Collapse(s) == "-" + Collapse(u);
        assert DropLeading(Collapse(s)) == DropLeading(Collapse(u));
        if u != [] {
          CollapseFromWord(u);
        }
      }
    }
  }

  // The shape of the joined words

  predicate IsLowerWord(w: string) {
    IsWord(w) && forall k :: 0 <= k < |w| ==> !IsUpper(w[k])
  }

  lemma {:induction false} JoinWordsEnds(ws: seq<string>)
    requires ws != [] && forall i :: 0 <= i < |ws| ==> IsWord(ws[i])
    ensures var r, first, last := JoinWords(ws), ws[0], ws[|ws| - 1];
      IsWord(first) && IsWord(last) && r != [] && r[0] == first[0] && r[|r| - 1] == last[|last| - 1]
    decreases |ws|
  {
    assert IsWord(ws[0]) && IsWord(ws[|ws| - 1]);
    if |ws| > 1 {
      JoinWordsEnds(ws[1..]);
    }
  }

  /** Hyphen-joined lower-case words form a slug. */
  lemma {:induction false} JoinWordsIsSlug(ws: seq<string>)
    requires forall i :: 0 <= i < |ws| ==> IsLowerWord(ws[i])
    ensures IsSlug(JoinWords(ws))
    decreases |ws|
  {
    if |ws| == 1 {
      var w := ws[0];
      assert forall k :: 0 <= k < |w| ==> IsWordChar(w[k]) && !IsUpper(w[k]);
    } else if |ws| > 1 {
      var w := ws[0];
      var j := JoinWords(ws[1..]);
      JoinWordsIsSlug(ws[1..]);
      JoinWordsEnds(ws[1..]);
      var r := w + "-" + j;
      assert r == JoinWords(ws);
      assert forall k :: 0 <= k < |w| ==> IsWordChar(w[k]) && !IsUpper(w[k]);
      forall k | 0 <= k < |r|
        ensures IsSlugChar(r[k])
      {
        if k > |w| {
          assert r[k] == j[k - |w| - 1];
        }
      }
      forall k | 0 <= k < |r| - 1
        ensures !(r[k] == '-' && r[k + 1] == '-')
      {
        if k > |w| {
          assert r[k] == j[k - |w| - 1] && r[k + 1] == j[k - |w|];
        }
      }
      assert r[|r| - 1] == j[|j| - 1];
    }
  }

  /** The words of a lower-cased text are lower-case words. */
  lemma LowerWordsAreSlug(s: string)
    requires forall k :: 0 <= k < |s| ==> !IsUpper(s[k])
    ensures IsSlug(JoinWords(Words(s)))
  {
    var ws := Words(s);
    forall i | 0 <= i < |ws|
      ensures IsLowerWord(ws[i])
    {
      forall k | 0 <= k < |ws[i]|
        ensures !IsUpper(ws[i][k])
      {
        assert ws[i][k] in s;
        var j :| 0 <= j < |s| && s[j] == ws[i][k];
      }
    }
    JoinWordsIsSlug(ws);
  }

  // What make_patch_name promises

  /** The name is the words (maximal runs of [a-z0-9_]) of the lower-cased
      subject line, joined by single hyphens. */
  lemma MakePatchNameWords(msg: string)
    requires msg != ""
    ensures MakePatchName(msg) == Some(JoinWords(Words(Subject(msg))))
  {
    SlugIsJoinedWords(Subject(msg));
  }

  lemma {:induction false} CollapseKeepsSlug(s: string)
    requires forall k :: 0 <= k < |s| ==> IsWordChar(s[k]) || s[k] == '-'
    requires forall k :: 0 <= k < |s| - 1 ==> !(s[k] == '-' && s[k + 1] == '-')
    ensures Collapse(s) == s
    decreases |s|
  {
    if s != [] {
      if IsWordChar(s[0]) {
        CollapseKeepsSlug(s[1..]);
        assert [s[0]] + s[1..] == s;
      } else {
        assert NonWordRun(s) == 1 by {
          assert |s| > 1 ==> IsWordChar(s[1]);
        }
        CollapseKeepsSlug(s[1..]);
        assert "-" + s[1..] == s;
      }
    }
  }

  lemma SpaceRunAfter(lead: string, x: string)
    requires AllSpace(lead) && x != [] && !IsSpace(x[0])
    ensures SpaceRun(lead + x) == |lead|
  {
    var s := lead + x;
    assert forall k :: 0 <= k < |lead| ==> s[k] == lead[k];
    assert forall k :: |lead| < k <= |s| ==> s[..k][|lead|] == x[0];
  }

  lemma LineRunBefore(line: string, x: string)
    requires '\n' !in line && x != [] && x[0] == '\n'
    ensures LineRun(line + x) == |line|
  {
    var s := line + x;
    assert forall k :: 0 <= k < |line| ==> s[k] == line[k];
    assert forall k :: |line| < k <= |s| ==> s[..k][|line|] == '\n';
  }

  /** A slug is left as it is: it has no whitespace, no line break, no
      capital and no run of several non-word characters. */
  lemma SubjectOfSlug(r: string)
    requires IsSlug(r)
    ensures Subject(r) == r
  {
    assert SpaceRun(r) == 0 by {
      assert r != [] ==> !IsSpace(r[0]);
    }
    assert r[0..] == r;
    assert '\n' !in r;
    assert r[..|r|] == r;
    assert forall k :: 0 <= k < |r| ==> LowerChar(r[k]) == r[k];
  }

  /** Every non-empty slug is its own name. */
  lemma SlugIsFixpoint(r: string)
    requires IsSlug(r) && r != ""
    ensures MakePatchName(r) == Some(r)
  {
    SubjectOfSlug(r);
    CollapseKeepsSlug(r);
    assert DropLeading(r) == r;
    assert DropTrailing(r) == r;
  }

  /** make_patch_name is idempotent on the names it produces, except the
      empty one, which as a message has no name. */
  lemma MakePatchNameIdempotent(msg: string)
    requires MakePatchName(msg).Some? && MakePatchName(msg).value != ""
    ensures MakePatchName(MakePatchName(msg).value) == MakePatchName(msg)
  {
    SlugIsFixpoint(MakePatchName(msg).value);
  }

  /** Only the first line after the leading whitespace counts: whitespace
      (line breaks included) before it and any later lines are ignored. */
  lemma MakePatchNameFirstLine(lead: string, line: string, rest: string)
    requires AllSpace(lead) && line != "" && !IsSpace(line[0]) && '\n' !in line
    ensures MakePatchName(lead + line + "\n" + rest) == MakePatchName(line)
    ensures MakePatchName(lead + line) == MakePatchName(line)
  {
    SubjectAfterSpace(lead, line + "\n" + rest, line);
    assert lead + line + "\n" + rest == lead + (line + "\n" + rest);
    SubjectAfterSpace(lead, line, line);
    SubjectAfterSpace("", line, line);
    assert "" + line == line;
  }

  /** After leading whitespace, the subject is the first line of the rest. */
  lemma SubjectAfterSpace(lead: string, tail: string, line: string)
    requires AllSpace(lead) && line != "" && !IsSpace(line[0]) && '\n' !in line
    requires line <= tail && (|tail| == |line| || tail[|line|] == '\n')
    ensures Subject(lead + tail) == Lower(line)
  {
    SpaceRunAfter(lead, tail);
    assert (lead + tail)[|lead|..] == tail;
    if |tail| == |line| {
      assert tail == line;
      assert LineRun(line) == |line| && line[..|line|] == line;
    } else {
      assert tail == line + tail[|line|..];
      LineRunBefore(line, tail[|line|..]);
      assert tail[..|line|] == line;
    }
  }

  /** A message of whitespace only is not empty: it gets the empty name,
      not None. */
  lemma MakePatchNameBlank(msg: string)
    requires msg != "" && AllSpace(msg)
    ensures MakePatchName(msg) == Some("")
  {
    assert msg[..|msg|] == msg;
    MakePatchNameWords(msg);
  }

  lemma CollapseWordChar(c: char, s: string)
    requires IsWordChar(c)
    ensures Collapse([c] + s) == [c] + Collapse(s)
  {
    assert ([c] + s)[1..] == s;
  }

  lemma CollapseGapChar(c: char, s: string)
    requires !IsWordChar(c) && (s == [] || IsWordChar(s[0]))
    ensures Collapse([c] + s) == "-" + Collapse(s)
  {
    assert ([c] + s)[1..] == s;
    assert NonWordRun([c] + s) == 1;
  }

  lemma ExampleSubject()
    ensures Subject("Fix it!") == "fix it!"
  {
    var m := "Fix it!";
    assert SpaceRun(m) == 0;
    assert m[0..] == m;
    assert '\n' !in m;
    assert m[..|m|] == m;
    assert Lower(m) == "fix it!";
  }

  lemma ExampleCollapseTail()
    ensures Collapse(" it!") == "-it-"
  {
    var s2 := "!";
    CollapseGapChar('!', "");
    assert s2 == ['!'] + "";
    var s1 := ['t'] + s2;
    CollapseWordChar('t', s2);
    var s0 := ['i'] + s1;
    CollapseWordChar('i', s1);
    CollapseGapChar(' ', s0);
    assert [' '] + s0 == " it!";
  }

  lemma ExampleCollapse()
    ensures Collapse("fix it!") == "fix-it-"
  {
    ExampleCollapseTail();
    var s1 := " it!";
    var s0 := ['x'] + s1;
    CollapseWordChar('x', s1);
    var t := ['i'] + s0;
    CollapseWordChar('i', s0);
    CollapseWordChar('f', t);
    assert ['f'] + t == "fix it!";
  }

  lemma ExampleStrip()
    ensures StripHyphens("fix-it-") == "fix-it"
  {
    assert DropLeading("fix-it-") == "fix-it-";
    assert "fix-it-"[..6] == "fix-it";
  }

  lemma ExampleFirstLine()
    ensures MakePatchName("Fix it!\nmore text") == MakePatchName("Fix it!")
  {
    assert "Fix it!\nmore text" == "" + "Fix it!" + "\n" + "more text";
    MakePatchNameFirstLine("", "Fix it!", "more text");
  }

  /** "Fix it!" followed by more lines is named "fix-it". */
  lemma MakePatchNameExample()
    ensures MakePatchName("Fix it!\nmore text") == Some("fix-it")
  {
    ExampleFirstLine();
    ExampleSubject();
    ExampleCollapse();
    ExampleStrip();
  }
}
