/**
  `cleanDoc` of `apps/ui/src/board/DetailPanel.tsx`: frontmatter, comments, leading white space and
  long runs of newlines are taken out of a document, in that order.
 */
module CleanDoc {
  import opened Regex
  import opened Wrappers
  import Markdown

  const LINE_END: Pattern := Then(Maybe(Text("\r")), Text("\n"))
  const LAST_LINE_END: Pattern := Then(Maybe(Text("\r")), Maybe(Text("\n")))
  const CLOSING: Pattern := Then(LINE_END, Then(Text("---"), LAST_LINE_END))
  const FRONTMATTER: Pattern := Then(Text("---"), Then(LINE_END, Then(LazyAny, CLOSING)))

  function TrimStart(s: string): string {
    ReplaceStart(AtLeast(1, Space), s, "")
  }

  function CollapseFrom(s: string, i: nat): string
    requires i <= |s|
  {
    ReplaceAll(AtLeast(3, Newline), s, i, "\n\n")
  }

  function CleanDoc(markdown: string): string {
    var out := ReplaceStart(FRONTMATTER, markdown, "");
    var stripped := Markdown.Strip(out);
    CollapseFrom(TrimStart(stripped), 0)
  }

  // ---- comments and their parts under a prefix ----

  ghost predicate HasClose(t: string) {
    exists j: nat :: Markdown.CloseAt(t, j).Some?
  }

  lemma AtShift(a: string, t: string, k: nat, p: string)
    ensures At(a + t, |a| + k, p) <==> At(t, k, p)
  {
    if k + |p| <= |t| { assert (a + t)[|a| + k..|a| + k + |p|] == t[k..k + |p|]; }
  }

  lemma CloseShift(a: string, t: string, j: nat)
    ensures Markdown.CloseAt(a + t, |a| + j).Some? <==> Markdown.CloseAt(t, j).Some?
  {
    AtShift(a, t, j, "-->");
    AtShift(a, t, j, "--!>");
  }

  lemma ClosePrefixed(a: string, t: string)
    requires HasClose(t)
    ensures HasClose(a + t)
  {
    var j: nat :| Markdown.CloseAt(t, j).Some?;
    CloseShift(a, t, j);
  }

  lemma CommentPrefixed(a: string, t: string)
    requires Markdown.HasComment(t)
    ensures Markdown.HasComment(a + t)
  {
    var i: nat, j: nat :| At(t, i, Markdown.OPEN) && i + 4 <= j && Markdown.CloseAt(t, j).Some?;
    AtShift(a, t, i, Markdown.OPEN);
    CloseShift(a, t, j);
    assert At(a + t, |a| + i, Markdown.OPEN) && Markdown.CloseAt(a + t, |a| + j).Some?;
  }

  lemma OpenerThenClose(t: string)
    requires HasClose(t)
    ensures Markdown.HasComment(Markdown.OPEN + t)
  {
    var j: nat :| Markdown.CloseAt(t, j).Some?;
    var u := Markdown.OPEN + t;
    CloseShift(Markdown.OPEN, t, j);
    assert At(u, 0, Markdown.OPEN) && Markdown.CloseAt(u, 4 + j).Some?;
  }

  // ---- the trim ----

  lemma TrimStartIsASuffix(s: string)
    ensures TrimStart(s) == s[RunEnd(Space, s, 0)..]
    ensures TrimStart(s) != "" ==> !IsSpace(TrimStart(s)[0])
  {
    assert s[0..] == s;
  }

  // ---- the newline collapse ----

  lemma CollapseUnfolds(s: string, i: nat)
    requires i <= |s|
    ensures CollapseFrom(s, i) ==
      if RunEnd(Newline, s, i) >= i + 3 then "\n\n" + CollapseFrom(s, RunEnd(Newline, s, i))
      else if i < |s| then [s[i]] + CollapseFrom(s, i + 1)
      else ""
  {
  }

  // After the collapse a run of newlines has its own length, or two.
  lemma {:induction false} CollapseRuns(s: string, i: nat)
    requires i <= |s|
    ensures var n := RunEnd(Newline, s, i) - i; RunEnd(Newline, CollapseFrom(s, i), 0) == if n < 2 then n else 2
    ensures forall k :: !At(CollapseFrom(s, i), k, "\n\n\n")
    decreases |s| - i
  {
    hide CollapseFrom;
    CollapseUnfolds(s, i);
    var e := RunEnd(Newline, s, i);
    if e >= i + 3 {
      CollapseRuns(s, e);
      assert RunEnd(Newline, s, e) == e;
      TwoNewlines(CollapseFrom(s, e));
    } else if i < |s| {
      CollapseRuns(s, i + 1);
      OneMore(s[i], CollapseFrom(s, i + 1));
    }
  }

  lemma OneMore(c: char, t: string)
    requires c == '\n' ==> RunEnd(Newline, t, 0) <= 1
    requires forall k :: !At(t, k, "\n\n\n")
    ensures RunEnd(Newline, [c] + t, 0) == if c == '\n' then 1 + RunEnd(Newline, t, 0) else 0
    ensures forall k :: !At([c] + t, k, "\n\n\n")
  {
    RunShift([c], t, 0);
    var e := RunEnd(Newline, t, 0);
    forall k: nat ensures !At([c] + t, k, "\n\n\n") {
      if k > 0 {
        AtShift([c], t, k - 1, "\n\n\n");
      } else if |t| >= 2 {
        assert ([c] + t)[0..3] == [c, t[0], t[1]];
        assert c == '\n' ==> t[e] != '\n';
      }
    }
  }

  lemma {:induction false} RunShift(a: string, t: string, k: nat)
    requires k <= |t|
    ensures RunEnd(Newline, a + t, |a| + k) == |a| + RunEnd(Newline, t, k)
    decreases |t| - k
  {
    if k < |t| && t[k] == '\n' { RunShift(a, t, k + 1); }
  }

  lemma TwoNewlines(t: string)
    requires RunEnd(Newline, t, 0) == 0
    requires forall k :: !At(t, k, "\n\n\n")
    ensures RunEnd(Newline, "\n\n" + t, 0) == 2
    ensures forall k :: !At("\n\n" + t, k, "\n\n\n")
  {
    OneMore('\n', t);
    OneMore('\n', "\n" + t);
    assert "\n" + ("\n" + t) == "\n\n" + t;
  }

  // One step of the collapse: it writes `a` for the characters up to `m`.
  lemma CollapseStep(s: string, i: nat) returns (a: string, m: nat)
    requires i < |s|
    ensures i < m <= |s| && CollapseFrom(s, i) == a + CollapseFrom(s, m)
    ensures (a == [s[i]] && m == i + 1) || a == "\n\n"
  {
    hide CollapseFrom;
    CollapseUnfolds(s, i);
    m := RunEnd(Newline, s, i);
    if m >= i + 3 { a := "\n\n"; } else { a, m := [s[i]], i + 1; }
  }

  lemma CollapseOfNothing(s: string, i: nat)
    requires i <= |s|
    ensures CollapseFrom(s, i) != "" ==> i < |s|
  {
    CollapseUnfolds(s, i);
  }

  lemma TokenStarts(t: string, k: nat, p: string)
    requires p != "" && At(t, k, p)
    ensures k < |t| && t[k] == p[0]
  {
    assert t[k..k + |p|][0] == t[k];
  }

  lemma CloseStarts(t: string, j: nat)
    requires Markdown.CloseAt(t, j).Some?
    ensures j < |t| && t[j] == '-'
  {
    TokenStarts(t, j, if At(t, j, "-->") then "-->" else "--!>");
  }

  // A stretch without newlines is found unchanged where it came from.
  lemma {:induction false} CollapseKeepsToken(s: string, i: nat, p: string)
    requires i <= |s| && '\n' !in p
    requires At(CollapseFrom(s, i), 0, p)
    ensures At(s, i, p) && CollapseFrom(s, i) == p + CollapseFrom(s, i + |p|)
    decreases |p|
  {
    hide CollapseFrom, RunEnd, At;
    if p == "" {
      assert "" + CollapseFrom(s, i) == CollapseFrom(s, i);
      assert At(s, i, "") by { AtNothing(s, i); }
    } else {
      TokenStarts(CollapseFrom(s, i), 0, p);
      assert p[0] in p && forall c :: c in p[1..] ==> c in p;
      CollapseCopies(s, i);
      var rest := CollapseFrom(s, i + 1);
      assert p == [p[0]] + p[1..];
      SplitAt(CollapseFrom(s, i), 0, [p[0]], p[1..]);
      AtShift([s[i]], rest, 0, p[1..]);
      CollapseKeepsToken(s, i + 1, p[1..]);
      TokenGrows(s, i, p);
      assert [s[i]] + (p[1..] + CollapseFrom(s, i + |p|)) == p + CollapseFrom(s, i + |p|);
    }
  }

  lemma CollapseCopies(s: string, i: nat)
    requires i <= |s| && CollapseFrom(s, i) != "" && CollapseFrom(s, i)[0] != '\n'
    ensures i < |s| && CollapseFrom(s, i) == [s[i]] + CollapseFrom(s, i + 1)
  {
    hide CollapseFrom;
    CollapseUnfolds(s, i);
  }

  lemma AtNothing(s: string, i: nat)
    requires i <= |s|
    ensures At(s, i, "")
  {
  }

  lemma TokenGrows(s: string, i: nat, p: string)
    requires p != "" && i < |s| && s[i] == p[0] && At(s, i + 1, p[1..])
    ensures At(s, i, p)
  {
    assert s[i..i + |p|] == [s[i]] + s[i + 1..i + |p|];
  }

  lemma {:induction false} CollapseMakesNoClose(s: string, i: nat)
    requires i <= |s| && HasClose(CollapseFrom(s, i))
    ensures HasClose(s[i..])
    decreases |s| - i
  {
    hide CollapseFrom, At, RunEnd, Markdown.CloseAt;
    CollapseOfNothing(s, i);
    var j: nat :| Markdown.CloseAt(CollapseFrom(s, i), j).Some?;
    CloseStarts(CollapseFrom(s, i), j);
    var a, m := CollapseStep(s, i);
    if j < |a| {
      CloseIsKept(s, i);
    } else {
      CloseShift(a, CollapseFrom(s, m), j - |a|);
      CollapseMakesNoClose(s, m);
      ClosePrefixed(s[i..m], s[m..]);
      assert s[i..m] + s[m..] == s[i..];
    }
  }

  lemma CloseIsKept(s: string, i: nat)
    requires i <= |s| && Markdown.CloseAt(CollapseFrom(s, i), 0).Some?
    ensures HasClose(s[i..])
  {
    hide CollapseFrom;
    CollapseKeepsToken(s, i, if At(CollapseFrom(s, i), 0, "-->") then "-->" else "--!>");
    CloseShift(s[..i], s[i..], 0);
    assert s[..i] + s[i..] == s;
    assert Markdown.CloseAt(s[i..], 0).Some?;
  }

  lemma CommentParts(t: string) returns (k: nat, j: nat)
    requires Markdown.HasComment(t)
    ensures At(t, k, Markdown.OPEN) && k + 4 <= j && Markdown.CloseAt(t, j).Some?
    ensures k < |t| && t[k] == '<'
  {
    hide At, Markdown.CloseAt;
    k, j :| At(t, k, Markdown.OPEN) && k + 4 <= j && Markdown.CloseAt(t, j).Some?;
    TokenStarts(t, k, Markdown.OPEN);
  }

  lemma {:induction false} CollapseMakesNoComment(s: string, i: nat)
    requires i <= |s| && Markdown.HasComment(CollapseFrom(s, i))
    ensures Markdown.HasComment(s[i..])
    decreases |s| - i
  {
    hide CollapseFrom, At, RunEnd, Markdown.CloseAt, Markdown.HasComment;
    CollapseOfNothing(s, i);
    var k, j := CommentParts(CollapseFrom(s, i));
    var a, m := CollapseStep(s, i);
    if k < |a| {
      CommentIsKept(s, i, j);
    } else {
      CommentShift(a, CollapseFrom(s, m), k - |a|, j - |a|);
      CollapseMakesNoComment(s, m);
      CommentPrefixed(s[i..m], s[m..]);
      assert s[i..m] + s[m..] == s[i..];
    }
  }

  lemma CommentShift(a: string, t: string, k: nat, j: nat)
    requires At(a + t, |a| + k, Markdown.OPEN) && k + 4 <= j && Markdown.CloseAt(a + t, |a| + j).Some?
    ensures Markdown.HasComment(t)
  {
    hide At, Markdown.CloseAt;
    AtShift(a, t, k, Markdown.OPEN);
    CloseShift(a, t, j);
  }

  lemma CommentIsKept(s: string, i: nat, j: nat)
    requires i <= |s| && At(CollapseFrom(s, i), 0, Markdown.OPEN)
    requires 4 <= j && Markdown.CloseAt(CollapseFrom(s, i), j).Some?
    ensures Markdown.HasComment(s[i..])
  {
    hide CollapseFrom;
    CollapseKeepsToken(s, i, Markdown.OPEN);
    CloseShift(Markdown.OPEN, CollapseFrom(s, i + 4), j - 4);
    CollapseMakesNoClose(s, i + 4);
    OpenerThenClose(s[i + 4..]);
    assert s[i..i + 4] + s[i + 4..] == s[i..];
  }

  lemma TrimKeepsClean(s: string)
    requires !Markdown.HasComment(s)
    ensures !Markdown.HasComment(TrimStart(s))
  {
    TrimStartIsASuffix(s);
    hide TrimStart, Markdown.HasComment;
    var n := RunEnd(Space, s, 0);
    assert s[..n] + TrimStart(s) == s;
    if Markdown.HasComment(TrimStart(s)) { CommentPrefixed(s[..n], TrimStart(s)); }
  }

  lemma CollapseKeepsClean(s: string)
    requires !Markdown.HasComment(s)
    ensures !Markdown.HasComment(CollapseFrom(s, 0))
  {
    hide CollapseFrom, Markdown.HasComment;
    assert s[0..] == s;
    if Markdown.HasComment(CollapseFrom(s, 0)) { CollapseMakesNoComment(s, 0); }
  }

  lemma CollapseKeepsStart(s: string)
    requires s != "" ==> !IsSpace(s[0])
    ensures CollapseFrom(s, 0) != "" ==> !IsSpace(CollapseFrom(s, 0)[0])
  {
    CollapseUnfolds(s, 0);
    hide CollapseFrom;
  }

  // No pass recreates what an earlier pass removed.
  lemma CleanDocIsClean(markdown: string)
    ensures !Markdown.HasComment(CleanDoc(markdown))
    ensures CleanDoc(markdown) != "" ==> !IsSpace(CleanDoc(markdown)[0])
    ensures forall k :: !At(CleanDoc(markdown), k, "\n\n\n")
  {
    hide TrimStart, ReplaceStart, CollapseFrom, Markdown.HasComment, At;
    var body := ReplaceStart(FRONTMATTER, markdown, "");
    var stripped := Markdown.Strip(body);
    var trimmed := TrimStart(stripped);
    Markdown.StripIsClean(body);
    TrimKeepsClean(stripped);
    TrimStartIsASuffix(stripped);
    CollapseKeepsClean(trimmed);
    CollapseKeepsStart(trimmed);
    CollapseRuns(trimmed, 0);
  }

  // ---- what the collapse keeps ----

  // Every character but a newline that two newlines stand right before; `run` counts those before `s`.
  function Squeezed(s: string, run: nat): string {
    if s == "" then ""
    else if s[0] == '\n' then (if run < 2 then "\n" else "") + Squeezed(s[1..], run + 1)
    else [s[0]] + Squeezed(s[1..], 0)
  }

  lemma SqueezedOfNothing(run: nat)
    ensures Squeezed("", run) == ""
  {
  }

  lemma SqueezedStops(s: string, run: nat)
    requires s != "" ==> s[0] != '\n'
    ensures Squeezed(s, run) == Squeezed(s, 0)
  {
  }

  lemma SqueezedStep(s: string, i: nat, run: nat)
    requires i < |s|
    ensures s[i] == '\n' ==> Squeezed(s[i..], run) == (if run < 2 then "\n" else "") + Squeezed(s[i + 1..], run + 1)
    ensures s[i] != '\n' ==> Squeezed(s[i..], run) == [s[i]] + Squeezed(s[i + 1..], 0)
  {
    assert s[i..][1..] == s[i + 1..];
  }

  lemma {:induction false} SqueezedSkips(s: string, i: nat, e: nat, run: nat)
    requires i <= e <= |s| && run >= 2 && forall k :: i <= k < e ==> s[k] == '\n'
    ensures Squeezed(s[i..], run) == Squeezed(s[e..], run + (e - i))
    decreases e - i
  {
    hide Squeezed;
    if i < e {
      SqueezedStep(s, i, run);
      SqueezedSkips(s, i + 1, e, run + 1);
    }
  }

  // Of a run of newlines the first two are kept.
  lemma SqueezedRun(s: string, i: nat, e: nat)
    requires i + 2 <= e <= |s| && forall k :: i <= k < e ==> s[k] == '\n'
    ensures Squeezed(s[i..], 0) == "\n\n" + Squeezed(s[e..], e - i)
  {
    hide Squeezed;
    SqueezedStep(s, i, 0);
    SqueezedStep(s, i + 1, 1);
    SqueezedSkips(s, i + 2, e, 2);
  }

  // The greedy replacement keeps exactly those.
  lemma {:induction false} CollapseIsSqueezed(s: string, i: nat, run: nat)
    requires i <= |s| && (run == 0 || run + (RunEnd(Newline, s, i) - i) <= 2)
    ensures CollapseFrom(s, i) == Squeezed(s[i..], run)
    decreases |s| - i
  {
    hide CollapseFrom, Squeezed;
    CollapseUnfolds(s, i);
    var e := RunEnd(Newline, s, i);
    if e >= i + 3 {
      SqueezedRun(s, i, e);
      SqueezedStops(s[e..], e - i);
      CollapseIsSqueezed(s, e, 0);
    } else if i < |s| {
      SqueezedStep(s, i, run);
      CollapseIsSqueezed(s, i + 1, if s[i] == '\n' then run + 1 else 0);
    } else {
      assert s[i..] == "";
      SqueezedOfNothing(run);
    }
  }

  // The first character that is no white space, or the end.
  ghost predicate IsFirstInk(s: string, k: nat) {
    k <= |s| && (forall i :: 0 <= i < k ==> IsSpace(s[i])) && (k < |s| ==> !IsSpace(s[k]))
  }

  lemma TrimmedFrom(s: string, k: nat)
    requires IsFirstInk(s, k)
    ensures TrimStart(s) == s[k..]
  {
    TrimStartIsASuffix(s);
  }

  // ---- the frontmatter block ----

  predicate IsLineEnd(eol: string) {
    eol == "\n" || eol == "\r\n"
  }

  lemma FeedIsNotReturn(t: string, i: nat)
    ensures !(At(t, i, "\r") && At(t, i, "\n"))
  {
    if i < |t| { assert t[i..i + 1] == [t[i]]; }
  }

  lemma LineEndThen(p: Pattern, t: string, i: nat)
    requires i <= |t|
    ensures Ends(Then(LINE_END, p), t, i)
         == if At(t, i, "\r\n") then Ends(p, t, i + 2) else if At(t, i, "\n") then Ends(p, t, i + 1) else []
  {
    hide Ends, EndsFrom, At;
    CrLf(t, i);
    MaybeThen("\r", Text("\n"), t, i);
    AtInside(t, i, "\r");
    AtInside(t, i, "\r\n");
    AtInside(t, i, "\n");
    if At(t, i, "\r") { TextEnds("\n", t, i + 1); }
    TextEnds("\n", t, i);
    var starts := Ends(LINE_END, t, i);
    ThenIs(LINE_END, p, t, i);
    EndsFromNone(p, t);
    if starts != [] {
      assert starts == [starts[0]] + [];
      EndsFromCons(p, t, starts[0], []);
    }
  }

  lemma ThenIs(p: Pattern, q: Pattern, t: string, i: nat)
    requires i <= |t|
    ensures Ends(Then(p, q), t, i) == EndsFrom(q, t, Ends(p, t, i))
  {
  }

  // The length of the line end at `i`, if there is one: a lone return counts, as the two halves are optional each.
  function LineEndLength(t: string, i: nat): nat {
    if At(t, i, "\r\n") then 2 else if At(t, i, "\r") || At(t, i, "\n") then 1 else 0
  }

  lemma LastLineEndIs(t: string, i: nat)
    requires i <= |t|
    ensures i + LineEndLength(t, i) <= |t| && MatchEnd(LAST_LINE_END, t, i) == Some(i + LineEndLength(t, i))
  {
    hide At, EndsFrom;
    CrLf(t, i);
    AtInside(t, i, "\r\n");
    AtInside(t, i, "\r");
    AtInside(t, i, "\n");
    MaybeThen("\r", Maybe(Text("\n")), t, i);
  }

  lemma LastLineEndMatches(t: string, i: nat)
    requires i <= |t|
    ensures MatchEnd(LAST_LINE_END, t, i).Some?
  {
    hide At, EndsFrom;
    MaybeThen("\r", Maybe(Text("\n")), t, i);
  }

  lemma CrLf(t: string, i: nat)
    ensures At(t, i, "\r\n") <==> At(t, i, "\r") && At(t, i + 1, "\n")
    ensures At(t, i, "\r\n---") <==> At(t, i, "\r\n") && At(t, i + 2, "---")
    ensures At(t, i, "\n---") <==> At(t, i, "\n") && At(t, i + 1, "---")
    ensures !(At(t, i, "\r") && At(t, i, "\n"))
  {
    SplitAt(t, i, "\r", "\n");
    SplitAt(t, i, "\r\n", "---");
    SplitAt(t, i, "\n", "---");
    FeedIsNotReturn(t, i);
    hide At;
    assert "\r" + "\n" == "\r\n" && "\r\n" + "---" == "\r\n---" && "\n" + "---" == "\n---";
  }

  // The closing delimiter: a line end, three dashes and what line end follows them.
  lemma ClosingIs(t: string, j: nat)
    requires j <= |t|
    ensures MatchEnd(CLOSING, t, j) ==
      if At(t, j, "\r\n---") then MatchEnd(LAST_LINE_END, t, j + 5)
      else if At(t, j, "\n---") then MatchEnd(LAST_LINE_END, t, j + 4)
      else None
  {
    hide At, Ends, EndsFrom;
    CrLf(t, j);
    AtInside(t, j, "\n---");
    AtInside(t, j, "\r\n---");
    AtInside(t, j, "\n");
    AtInside(t, j, "\r\n");
    LineEndThen(Then(Text("---"), LAST_LINE_END), t, j);
    if At(t, j, "\r\n") { TextThen("---", LAST_LINE_END, t, j + 2); }
    if At(t, j, "\n") { TextThen("---", LAST_LINE_END, t, j + 1); }
  }

  // The first closing delimiter is the one whose newline is at `q`.
  lemma {:induction false} ClosingFound(t: string, j: nat, q: nat)
    requires j <= q && At(t, q, "\n---")
    requires forall k :: j <= k < q ==> !At(t, k, "\n---")
    ensures q + 4 <= |t| && FirstEnd(CLOSING, t, j) == MatchEnd(LAST_LINE_END, t, q + 4)
    decreases q - j
  {
    hide At, MatchEnd;
    AtInside(t, q, "\n---");
    CrLf(t, j);
    CrLf(t, j + 1);
    ClosingIs(t, j);
    LastLineEndMatches(t, q + 4);
    if j < q && !At(t, j, "\r\n---") { ClosingFound(t, j + 1, q); }
  }

  lemma LineStarts(yaml: string, after: string, k: nat)
    requires forall i :: !At(yaml, i, "\n---")
    requires after != "" && (after[0] == '\n' || after[0] == '\r')
    requires k < |yaml|
    ensures !At(yaml + after, k, "\n---")
  {
    var t := yaml + after;
    if k + 4 <= |yaml| {
      assert t[k..k + 4] == yaml[k..k + 4];
      assert !At(yaml, k, "\n---");
    } else if k + 4 <= |t| {
      assert t[k..k + 4][|yaml| - k] == after[0];
      assert "\n---"[|yaml| - k] == '-';
    }
  }

  // A frontmatter block and what follows its closing dashes.
  function Opened(open: string, yaml: string, t: string): string {
    "---" + (open + (yaml + t))
  }

  function Closed(close: string, rest: string): string {
    close + ("---" + rest)
  }

  function Document(open: string, yaml: string, close: string, rest: string): string {
    Opened(open, yaml, Closed(close, rest))
  }

  ghost predicate IsBlock(open: string, yaml: string, close: string) {
    IsLineEnd(open) && IsLineEnd(close) && forall i :: !At(yaml, i, "\n---")
  }

  // The newline before a block's closing dashes.
  function ClosingFeed(open: string, yaml: string, close: string): int {
    3 + |open| + |yaml| + (|close| - 1)
  }

  lemma AtStart(p: string, t: string)
    ensures At(p + t, 0, p) && (p + t)[|p|..] == t
  {
    assert (p + t)[0..|p|] == p;
  }

  lemma DropShift(a: string, t: string, k: nat)
    requires k <= |t|
    ensures (a + t)[|a| + k..] == t[k..]
  {
  }

  // A stretch `p` of `t` at `k`, and what follows it, seen with `a` before them.
  lemma PartShift(a: string, t: string, k: nat, p: string, rest: string)
    requires At(t, k, p) && k + |p| <= |t| && t[k + |p|..] == rest
    ensures At(a + t, |a| + k, p) && |a| + k + |p| <= |a + t| && (a + t)[|a| + k + |p|..] == rest
  {
    hide At;
    AtShift(a, t, k, p);
    DropShift(a, t, k + |p|);
  }

  // At `q` stand the newline and the dashes that close a block, and `rest` follows them.
  ghost predicate ClosesAt(t: string, q: int, rest: string) {
    0 <= q && At(t, q, "\n---") && q + 4 <= |t| && t[q + 4..] == rest
  }

  lemma ClosingPart(close: string, rest: string)
    requires IsLineEnd(close)
    ensures ClosesAt(Closed(close, rest), |close| - 1, rest)
  {
    var cut := close[..|close| - 1];
    AtStart("\n---", rest);
    PartShift(cut, "\n---" + rest, 0, "\n---", rest);
    assert cut + ("\n---" + rest) == close + ("---" + rest);
  }

  lemma BlockEnds(open: string, yaml: string, close: string)
    requires IsBlock(open, yaml, close)
    ensures IsLineEnd(open) && IsLineEnd(close) && 1 <= |open| && 1 <= |close|
  {
  }

  lemma DelimiterPart(open: string, yaml: string, t: string, n: int, rest: string)
    requires ClosesAt(t, n, rest)
    ensures ClosesAt(Opened(open, yaml, t), 3 + |open| + |yaml| + n, rest)
  {
    hide At;
    PartShift(yaml, t, n, "\n---", rest);
    PartShift(open, yaml + t, |yaml| + n, "\n---", rest);
    PartShift("---", open + (yaml + t), |open| + |yaml| + n, "\n---", rest);
  }

  lemma OpeningPart(open: string, yaml: string, t: string)
    ensures At(Opened(open, yaml, t), 0, "---") && At(Opened(open, yaml, t), 3, open)
  {
    hide At;
    AtStart(open, yaml + t);
    AtShift("---", open + (yaml + t), 0, open);
    AtStart("---", open + (yaml + t));
  }

  lemma OpenedParts(open: string, yaml: string, close: string, rest: string)
    ensures At(Document(open, yaml, close, rest), 0, "---") && At(Document(open, yaml, close, rest), 3, open)
  {
    hide At, Opened, Closed;
    OpeningPart(open, yaml, Closed(close, rest));
  }

  lemma DocumentParts(open: string, yaml: string, close: string, rest: string)
    requires IsBlock(open, yaml, close)
    ensures ClosesAt(Document(open, yaml, close, rest), ClosingFeed(open, yaml, close), rest)
  {
    hide At, IsBlock, IsLineEnd, Opened, Closed, ClosesAt;
    BlockEnds(open, yaml, close);
    ClosingPart(close, rest);
    DelimiterPart(open, yaml, Closed(close, rest), |close| - 1, rest);
  }

  lemma NoEarlierFeed(open: string, yaml: string, close: string, rest: string, k: nat)
    requires IsBlock(open, yaml, close) && 3 + |open| <= k < ClosingFeed(open, yaml, close)
    ensures !At(Document(open, yaml, close, rest), k, "\n---")
  {
    var t1 := Closed(close, rest);
    var t2, j := yaml + t1, k - 3 - |open|;
    if j < |yaml| {
      LineStarts(yaml, t1, j);
    } else {
      assert t2[j] == t1[0] == '\r';
      NotAFeed(t2, j);
    }
    hide At;
    AtShift(open, t2, j, "\n---");
    AtShift("---", open + t2, |open| + j, "\n---");
  }

  ghost predicate NoFeedBetween(t: string, from: int, to: int) {
    forall k: nat :: from <= k < to ==> !At(t, k, "\n---")
  }

  lemma BlockIsMatched(t: string, open: string, q: int, rest: string)
    requires IsLineEnd(open) && At(t, 0, "---") && At(t, 3, open) && ClosesAt(t, q, rest)
    requires 3 + |open| <= q && NoFeedBetween(t, 3 + |open|, q)
    ensures ReplaceStart(FRONTMATTER, t, "") == rest[LineEndLength(rest, 0)..]
  {
    hide At, MatchEnd, FRONTMATTER, LAST_LINE_END, LineEndLength, IsLineEnd;
    LineEndMoves(t, q + 4);
    FrontmatterMatch(t, open, 3 + |open|, q);
    LastLineEndIs(t, q + 4);
    LastLineEndIs(rest, 0);
    assert t[q + 4 + LineEndLength(rest, 0)..] == t[q + 4..][LineEndLength(rest, 0)..];
  }

  lemma NoEarlierFeeds(open: string, yaml: string, close: string, rest: string)
    requires IsBlock(open, yaml, close)
    ensures NoFeedBetween(Document(open, yaml, close, rest), 3 + |open|, ClosingFeed(open, yaml, close))
    ensures 3 + |open| <= ClosingFeed(open, yaml, close)
  {
    BlockEnds(open, yaml, close);
    hide At, Document, IsBlock;
    forall k: nat | 3 + |open| <= k < ClosingFeed(open, yaml, close)
      ensures !At(Document(open, yaml, close, rest), k, "\n---")
    {
      NoEarlierFeed(open, yaml, close, rest, k);
    }
  }

  // A frontmatter block goes, whole and alone, with what line end follows it, if any; each line end is LF or CR LF.
  lemma FrontmatterIsDropped(open: string, yaml: string, close: string, rest: string)
    requires IsBlock(open, yaml, close)
    ensures LineEndLength(rest, 0) <= |rest|
    ensures ReplaceStart(FRONTMATTER, Document(open, yaml, close, rest), "") == rest[LineEndLength(rest, 0)..]
    ensures CleanDoc(Document(open, yaml, close, rest))
         == CollapseFrom(TrimStart(Markdown.Strip(rest[LineEndLength(rest, 0)..])), 0)
  {
    hide At, ClosesAt, NoFeedBetween, FRONTMATTER, Document, ClosingFeed, IsBlock, IsLineEnd, LineEndLength;
    hide ReplaceStart, CollapseFrom, TrimStart;
    BlockEnds(open, yaml, close);
    OpenedParts(open, yaml, close, rest);
    DocumentParts(open, yaml, close, rest);
    NoEarlierFeeds(open, yaml, close, rest);
    LastLineEndIs(rest, 0);
    BlockIsMatched(Document(open, yaml, close, rest), open, ClosingFeed(open, yaml, close), rest);
  }

  lemma LineEndMoves(t: string, i: nat)
    requires i <= |t|
    ensures LineEndLength(t, i) == LineEndLength(t[i..], 0)
  {
    assert t == t[..i] + t[i..];
    AtShift(t[..i], t[i..], 0, "\r\n");
    AtShift(t[..i], t[i..], 0, "\r");
    AtShift(t[..i], t[i..], 0, "\n");
  }

  // And nothing else goes: a document the first pass changes begins with such a block.
  lemma OnlyFrontmatterIsDropped(t: string) returns (open: string, yaml: string, close: string, rest: string)
    requires ReplaceStart(FRONTMATTER, t, "") != t
    ensures IsBlock(open, yaml, close) && t == Document(open, yaml, close, rest)
  {
    hide At, ReplaceStart, IsLineEnd;
    var start, j := FrontmatterParts(t);
    open, yaml := t[3..start], t[start..j];
    close, rest := ClosingText(t, j);
    CutAt(t, 0, 3);
    CutAt(t, 3, start);
    CutAt(t, start, j);
    forall i: nat ensures !At(yaml, i, "\n---") { AtInSlice(t, start, j, i, "\n---"); }
  }

  ghost predicate IsDocument(t: string, open: string, yaml: string, close: string, rest: string) {
    IsBlock(open, yaml, close) && t == Document(open, yaml, close, rest)
  }

  // What follows a document's frontmatter block and the line end after it; all of it, if it begins with none.
  ghost predicate IsBody(t: string, body: string) {
    if HasBlock(t) then
      exists open, yaml, close, rest :: IsDocument(t, open, yaml, close, rest) && IsAfterLineEnd(rest, body)
    else body == t
  }

  ghost predicate IsAfterLineEnd(rest: string, body: string) {
    LineEndLength(rest, 0) <= |rest| && body == rest[LineEndLength(rest, 0)..]
  }

  ghost predicate HasBlock(t: string) {
    exists open, yaml, close, rest :: IsDocument(t, open, yaml, close, rest)
  }

  lemma ChangedHasBlock(t: string)
    ensures ReplaceStart(FRONTMATTER, t, "") != t ==> HasBlock(t)
  {
    hide ReplaceStart, IsBlock, Document, FRONTMATTER;
    if ReplaceStart(FRONTMATTER, t, "") != t {
      var open, yaml, close, rest := OnlyFrontmatterIsDropped(t);
      assert IsDocument(t, open, yaml, close, rest);
    }
  }

  lemma BodyIsLeft(t: string, body: string)
    requires IsBody(t, body)
    ensures ReplaceStart(FRONTMATTER, t, "") == body
  {
    hide ReplaceStart, IsBlock, Document, LineEndLength, FRONTMATTER;
    ChangedHasBlock(t);
    if open, yaml, close, rest :| IsDocument(t, open, yaml, close, rest) && IsAfterLineEnd(rest, body) {
      FrontmatterIsDropped(open, yaml, close, rest);
    }
  }

  // What a cleaned document is, of every document: its body without comments, from the first character on that is no
  // white space, with the third and later of newlines in a row left out, and nothing else.
  lemma CleanDocKeeps(t: string, body: string, k: nat)
    requires IsBody(t, body) && IsFirstInk(Markdown.Strip(body), k)
    ensures CleanDoc(t) == Squeezed(Markdown.Strip(body)[k..], 0)
  {
    hide ReplaceStart, FRONTMATTER, CollapseFrom, TrimStart, IsBody, IsFirstInk, Squeezed, Markdown.Strip;
    BodyIsLeft(t, body);
    var stripped := Markdown.Strip(body);
    TrimmedFrom(stripped, k);
    var trimmed := TrimStart(stripped);
    CollapseIsSqueezed(trimmed, 0, 0);
    assert trimmed[0..] == trimmed;
  }

  lemma ShortRun(t: string)
    requires !At(t, 0, "\n\n\n")
    ensures RunEnd(Newline, t, 0) <= 2
  {
    if |t| >= 3 && t[0] == t[1] == '\n' { assert t[0..3] == "\n\n" + [t[2]]; }
  }

  lemma {:induction false} SqueezedNothing(s: string, run: nat)
    requires run + RunEnd(Newline, s, 0) <= 2 && forall k :: !At(s, k, "\n\n\n")
    ensures Squeezed(s, run) == s
  {
    if s != "" {
      var tail := s[1..];
      assert s == [s[0]] + tail;
      forall k: nat ensures !At(tail, k, "\n\n\n") { AtShift([s[0]], tail, k, "\n\n\n"); }
      ShortRun(tail);
      RunShift([s[0]], tail, 0);
      SqueezedNothing(tail, if s[0] == '\n' then run + 1 else 0);
    }
  }

  // A document without frontmatter, comment, leading white space or three newlines in a row is returned as it is.
  lemma CleanDocLeavesClean(t: string)
    requires !HasBlock(t)
    requires !Markdown.HasComment(t) && (t != "" ==> !IsSpace(t[0])) && forall k :: !At(t, k, "\n\n\n")
    ensures CleanDoc(t) == t
  {
    Markdown.StripIsClean(t);
    CleanDocKeeps(t, t, 0);
    ShortRun(t);
    SqueezedNothing(t, 0);
    assert t[0..] == t;
  }

  lemma CutAt(t: string, a: nat, b: nat)
    requires a <= b <= |t|
    ensures t[a..] == t[a..b] + t[b..]
    ensures t[0..] == t
  {
  }

  lemma AtInSlice(t: string, a: nat, b: nat, i: nat, p: string)
    requires a <= b <= |t| && p != ""
    ensures At(t[a..b], i, p) ==> At(t, a + i, p) && a + i < b
  {
    if i + |p| <= b - a {
      var x, y := t[a..b][i..i + |p|], t[a + i..a + i + |p|];
      forall m | 0 <= m < |p| ensures x[m] == y[m] { assert x[m] == t[a..b][i + m] == t[a + (i + m)]; }
      assert x == y;
    }
  }

  lemma ClosingText(t: string, j: nat) returns (close: string, rest: string)
    requires At(t, j, "\r\n---") || At(t, j, "\n---")
    ensures j <= |t| && IsLineEnd(close) && t[j..] == close + ("---" + rest)
  {
    close := if At(t, j, "\r\n---") then "\r\n" else "\n";
    var n := j + |close|;
    rest := t[n + 3..];
    assert t[j..n + 3] == close + "---";
    assert t[j..] == t[j..n + 3] + rest;
    assert (close + "---") + rest == close + ("---" + rest);
  }

  // Where a match has its opening line end and its first closing one.
  lemma FrontmatterParts(t: string) returns (start: nat, j: nat)
    requires ReplaceStart(FRONTMATTER, t, "") != t
    ensures 3 <= start <= j <= |t| && t[..3] == "---" && IsLineEnd(t[3..start])
    ensures At(t, j, "\r\n---") || At(t, j, "\n---")
    ensures forall k :: start <= k < j ==> !At(t, k, "\n---")
  {
    assert MatchEnd(FRONTMATTER, t, 0).Some?;
    hide Ends, EndsFrom, ReplaceStart;
    var tail := Then(LazyAny, CLOSING);
    TextThen("---", Then(LINE_END, tail), t, 0);
    assert At(t, 0, "---");
    LineEndThen(tail, t, 3);
    CrLf(t, 3);
    start := if At(t, 3, "\r\n") then 5 else 4;
    LazyThen(CLOSING, t, start);
    j := FirstClosing(t, start);
  }

  lemma {:induction false} FirstClosing(t: string, start: nat) returns (j: nat)
    requires start <= |t| && FirstEnd(CLOSING, t, start).Some?
    ensures start <= j <= |t| && (At(t, j, "\r\n---") || At(t, j, "\n---"))
    ensures forall k :: start <= k < j ==> !At(t, k, "\n---")
    decreases |t| - start
  {
    hide At, MatchEnd;
    ClosingIs(t, start);
    LastLineEndAfter(t, start);
    j := start;
    if MatchEnd(CLOSING, t, start).None? { j := FirstClosing(t, start + 1); }
  }

  lemma LastLineEndAfter(t: string, j: nat)
    ensures At(t, j, "\r\n---") ==> j + 5 <= |t| && MatchEnd(LAST_LINE_END, t, j + 5).Some?
    ensures At(t, j, "\n---") ==> j + 4 <= |t| && MatchEnd(LAST_LINE_END, t, j + 4).Some?
  {
    if At(t, j, "\r\n---") { LastLineEndMatches(t, j + 5); }
    if At(t, j, "\n---") { LastLineEndMatches(t, j + 4); }
  }

  lemma NotAFeed(t: string, k: nat)
    requires k < |t| && t[k] != '\n'
    ensures !At(t, k, "\n---")
  {
    if k + 4 <= |t| { assert t[k..k + 4][0] == t[k]; }
  }

  lemma FrontmatterMatch(t: string, open: string, start: nat, q: nat)
    requires IsLineEnd(open) && start == 3 + |open| <= q
    requires At(t, 0, "---") && At(t, 3, open) && At(t, q, "\n---")
    requires forall k :: start <= k < q ==> !At(t, k, "\n---")
    ensures q + 4 <= |t| && MatchEnd(FRONTMATTER, t, 0) == MatchEnd(LAST_LINE_END, t, q + 4)
  {
    hide At, Ends, EndsFrom;
    var rest := Then(LazyAny, CLOSING);
    AtInside(t, q, "\n---");
    TextThen("---", Then(LINE_END, rest), t, 0);
    LineEndThen(rest, t, 3);
    CrLf(t, 3);
    LazyThen(CLOSING, t, start);
    ClosingFound(t, start, q);
  }
}
