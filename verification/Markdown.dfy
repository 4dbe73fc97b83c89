/**
  `apps/ui/src/board/Markdown.tsx`: the linear scanner that removes HTML comments, and its iteration
  to a fixed point. The reference it is proved against is the regular expression the source names,
  `/<!--[\s\S]*?--!?>/g`.
 */
module Markdown {
  import opened Regex
  import opened Wrappers

  const OPEN := "<!--"
  const TAIL: Pattern := Then(Text("--"), Then(Maybe(Text("!")), Text(">")))
  const COMMENT: Pattern := Then(Text("<!--"), Then(LazyAny, TAIL))

  // The end of a comment close that starts at `j`.
  function CloseAt(t: string, j: nat): (r: Option<nat>)
    ensures r.Some? ==> j + 3 <= r.value <= j + 4 <= |t| + 1 && r.value <= |t|
  {
    if At(t, j, "-->") then Some(j + 3) else if At(t, j, "--!>") then Some(j + 4) else None
  }

  // The end of the first close at or after `j`.
  function FirstClose(t: string, j: nat): (r: Option<nat>)
    requires j <= |t|
    ensures r.Some? ==> j + 3 <= r.value <= |t|
    ensures r.Some? <==> exists k :: j <= k <= |t| && CloseAt(t, k).Some?
    decreases |t| - j
  {
    if CloseAt(t, j).Some? then CloseAt(t, j) else if j < |t| then FirstClose(t, j + 1) else None
  }

  // A complete comment: an opener with a close anywhere after its four characters.
  ghost predicate HasComment(t: string) {
    exists i: nat, j: nat {:trigger At(t, i, OPEN), CloseAt(t, j)} :: At(t, i, OPEN) && i + 4 <= j
      && CloseAt(t, j).Some?
  }

  function Once(t: string): string {
    ReplaceAll(COMMENT, t, 0, "")
  }

  lemma CloseSplits(t: string, j: nat)
    ensures At(t, j, "-->") <==> At(t, j, "--") && At(t, j + 2, ">")
    ensures At(t, j, "--!>") <==> At(t, j, "--") && At(t, j + 2, "!") && At(t, j + 3, ">")
    ensures !(At(t, j + 2, "!") && At(t, j + 2, ">"))
  {
    SplitAt(t, j, "--", ">");
    SplitAt(t, j, "--", "!>");
    SplitAt(t, j + 2, "!", ">");
    if At(t, j + 2, "!") { assert t[j + 2..j + 3][0] == '!'; }
  }

  // What follows the two dashes matches `>` or `!>`, and never both.
  lemma TailEnds(t: string, j: nat)
    requires j <= |t|
    ensures MatchEnd(TAIL, t, j) == CloseAt(t, j)
  {
    CloseSplits(t, j);
    AtInside(t, j, "--");
    TextThen("--", Then(Maybe(Text("!")), Text(">")), t, j);
    if At(t, j, "--") {
      var k := j + 2;
      AtInside(t, k, "!");
      MaybeThen("!", Text(">"), t, k);
      TextEnds(">", t, k);
      if At(t, k, "!") { TextEnds(">", t, k + 1); }
      hide Ends, EndsFrom, At;
    } else {
      hide Ends, EndsFrom, At;
    }
  }

  lemma FirstCloseStep(t: string, j: nat)
    requires j < |t|
    ensures FirstClose(t, j) == if CloseAt(t, j).Some? then CloseAt(t, j) else FirstClose(t, j + 1)
  {
  }

  lemma {:induction false} FirstEndIsFirstClose(t: string, j: nat)
    requires j <= |t|
    ensures FirstEnd(TAIL, t, j) == FirstClose(t, j)
    decreases |t| - j
  {
    hide MatchEnd;
    TailEnds(t, j);
    if j < |t| { FirstEndIsFirstClose(t, j + 1); }
  }

  // The comment expression matches exactly at an opener that has a close, up to its first close.
  lemma CommentEnds(t: string, i: nat)
    requires i <= |t|
    ensures MatchEnd(COMMENT, t, i) == if At(t, i, OPEN) then FirstClose(t, i + 4) else None
  {
    hide EndsFrom;
    TextThen(OPEN, Then(LazyAny, TAIL), t, i);
    if At(t, i, OPEN) {
      LazyThen(TAIL, t, i + 4);
      FirstEndIsFirstClose(t, i + 4);
    }
  }

  // If the opener at `open` has no close, no later opener has one: this is what lets the scanner stop.
  lemma UnclosedStaysUnclosed(t: string, open: nat, later: nat)
    requires At(t, open, OPEN) && MatchEnd(COMMENT, t, open) == None
    requires open <= later <= |t|
    ensures MatchEnd(COMMENT, t, later) == None
  {
    hide MatchEnd;
    CommentEnds(t, open);
    CommentEnds(t, later);
  }

  // `text.indexOf(pat, from)`; `tested` counts the candidate positions it looks at.
  method IndexOf(text: string, pat: string, from: nat) returns (r: int, ghost tested: nat)
    requires from <= |text|
    ensures r < 0 ==> r == -1 && forall k :: from <= k ==> !At(text, k, pat)
    ensures 0 <= r ==> from <= r && At(text, r, pat) && forall k :: from <= k < r ==> !At(text, k, pat)
    ensures if r < 0 then tested == 0 || from + tested + |pat| == |text| + 1 else from + tested == r + 1
  {
    var i := from;
    tested := 0;
    while i + |pat| <= |text|
      invariant from <= i && tested == i - from
      invariant tested == 0 || i + |pat| <= |text| + 1
      invariant forall k :: from <= k < i ==> !At(text, k, pat)
    {
      tested := tested + 1;
      if text[i..i + |pat|] == pat { return i, tested; }
      i := i + 1;
    }
    return -1, tested;
  }

  // With no opener left, or an unclosed leftmost one, the pass leaves the rest as it is.
  lemma PassEnds(t: string, at: nat, open: nat)
    requires at <= open <= |t|
    requires forall k :: at <= k < open ==> !At(t, k, OPEN)
    requires open < |t| ==> At(t, open, OPEN) && FirstClose(t, open + 4) == None
    ensures ReplaceAll(COMMENT, t, at, "") == t[at..]
  {
    hide MatchEnd, ReplaceAll, FirstClose, CloseAt;
    forall k | at <= k <= |t| ensures MatchEnd(COMMENT, t, k) == None {
      CommentEnds(t, k);
      if open <= k && open < |t| {
        CommentEnds(t, open);
        UnclosedStaysUnclosed(t, open, k);
      }
    }
    ReplaceAllNothing(COMMENT, t, at, "");
  }

  // The leftmost opener with a close is cut out, and the pass goes on after it.
  lemma PassSkipsTo(t: string, at: nat, open: nat, end: nat)
    requires at <= open < |t| && At(t, open, OPEN) && FirstClose(t, open + 4) == Some(end)
    requires forall k :: at <= k < open ==> !At(t, k, OPEN)
    ensures ReplaceAll(COMMENT, t, at, "") == t[at..open] + ReplaceAll(COMMENT, t, end, "")
  {
    hide MatchEnd, ReplaceAll, FirstClose, CloseAt;
    forall k | at <= k < open ensures MatchEnd(COMMENT, t, k) == None { CommentEnds(t, k); }
    ReplaceAllSkips(COMMENT, t, at, open, "");
    CommentEnds(t, open);
    ReplaceAllStep(COMMENT, t, open, "");
  }

  // One pass. It returns what the regular expression returns, and tests each position at most once.
  method HtmlCommentsOnce(text: string) returns (r: string, ghost tested: nat)
    ensures r == Once(text)
    ensures tested <= |text|
  {
    hide MatchEnd, ReplaceAll, FirstClose, CloseAt, At;
    var out, at := "", 0;
    tested := 0;
    while true
      invariant at <= |text| && tested <= at
      invariant Once(text) == out + ReplaceAll(COMMENT, text, at, "")
      decreases |text| - at
    {
      var open, n := IndexOf(text, OPEN, at);
      tested := tested + n;
      if open < 0 {
        PassEnds(text, at, |text|);
        return out + text[at..], tested;
      }
      AtInside(text, open, OPEN);
      var end := -1;
      var dash;
      dash, n := IndexOf(text, "--", open + 4);
      tested := tested + n;
      if dash >= 0 { AtInside(text, dash, "--"); }
      NoCloseWithoutDashes(text, open + 4, if dash < 0 then |text| else dash);
      while dash >= 0
        invariant dash >= 0 ==> open + 4 <= dash <= |text| && At(text, dash, "--") && tested <= dash + 1
        invariant dash >= 0 ==> FirstClose(text, open + 4) == FirstClose(text, dash)
        invariant dash < 0 ==> FirstClose(text, open + 4) == None && tested <= |text|
        invariant end == -1
        decreases if dash < 0 then 0 else |text| - dash
      {
        CloseAfterDashes(text, dash);
        AtInside(text, dash, "--");
        FirstCloseStep(text, dash);
        if dash + 2 < |text| && text[dash + 2] == '>' { end := dash + 3; break; }
        if dash + 3 < |text| && text[dash + 2] == '!' && text[dash + 3] == '>' { end := dash + 4; break; }
        ghost var was := dash;
        dash, n := IndexOf(text, "--", dash + 1);
        tested := tested + n;
        if dash >= 0 { AtInside(text, dash, "--"); }
        NoCloseWithoutDashes(text, was + 1, if dash < 0 then |text| else dash);
      }
      if end < 0 {
        PassEnds(text, at, open);
        return out + text[at..], tested;
      }
      PassSkipsTo(text, at, open, end);
      out := out + text[at..open];
      at := end;
    }
  }

  lemma CloseAfterDashes(t: string, j: nat)
    requires At(t, j, "--")
    ensures CloseAt(t, j) ==
      if j + 2 < |t| && t[j + 2] == '>' then Some(j + 3)
      else if j + 3 < |t| && t[j + 2] == '!' && t[j + 3] == '>' then Some(j + 4)
      else None
  {
    SplitAt(t, j, "--", ">");
    SplitAt(t, j, "--", "!>");
    if j + 2 < |t| { assert t[j + 2..j + 3] == [t[j + 2]]; }
    if j + 3 < |t| { assert t[j + 2..j + 4] == [t[j + 2], t[j + 3]]; }
  }

  // Between two candidate `--` positions no close begins.
  lemma {:induction false} NoCloseWithoutDashes(t: string, j: nat, k: nat)
    requires j <= k <= |t|
    requires forall q :: j <= q < k ==> !At(t, q, "--")
    ensures FirstClose(t, j) == FirstClose(t, k)
    decreases k - j
  {
    if j < k {
      SplitAt(t, j, "--", ">");
      SplitAt(t, j, "--", "!>");
      NoCloseWithoutDashes(t, j + 1, k);
    }
  }

  // `a` is `b` with some characters left out.
  predicate Subsequence(a: string, b: string)
    decreases |b|
  {
    a == "" || (b != "" && ((a[0] == b[0] && Subsequence(a[1..], b[1..])) || Subsequence(a, b[1..])))
  }

  lemma {:induction false} SubsequenceTransitive(a: string, b: string, c: string)
    requires Subsequence(a, b) && Subsequence(b, c)
    ensures Subsequence(a, c)
    decreases |c|
  {
    if a != "" && b != "" {
      if b[0] == c[0] && Subsequence(b[1..], c[1..]) {
        if a[0] == b[0] && Subsequence(a[1..], b[1..]) {
          SubsequenceTransitive(a[1..], b[1..], c[1..]);
        } else {
          SubsequenceTransitive(a, b[1..], c[1..]);
        }
      } else {
        SubsequenceTransitive(a, b, c[1..]);
      }
    }
  }

  lemma {:induction false} SubsequenceOfSuffix(a: string, b: string, k: nat)
    requires k <= |b| && Subsequence(a, b[k..])
    ensures Subsequence(a, b)
  {
    if k == 0 {
      assert b[0..] == b;
    } else {
      assert b[1..][k - 1..] == b[k..];
      SubsequenceOfSuffix(a, b[1..], k - 1);
    }
  }

  lemma HasCommentIsAMatch(t: string)
    ensures HasComment(t) <==> exists i: nat :: i <= |t| && MatchEnd(COMMENT, t, i).Some?
  {
    hide MatchEnd;
    if HasComment(t) {
      var i: nat, j: nat :| At(t, i, OPEN) && i + 4 <= j && CloseAt(t, j).Some?;
      CommentEnds(t, i);
      assert MatchEnd(COMMENT, t, i).Some?;
    }
    if i: nat :| i <= |t| && MatchEnd(COMMENT, t, i).Some? {
      CommentEnds(t, i);
      var j: nat :| i + 4 <= j <= |t| && CloseAt(t, j).Some?;
      assert At(t, i, OPEN) && CloseAt(t, j).Some?;
    }
  }

  // What one pass does from `i` on: nothing without a match, and otherwise it drops whole comments.
  lemma {:induction false} PassFrom(t: string, i: nat)
    requires i <= |t|
    ensures Subsequence(ReplaceAll(COMMENT, t, i, ""), t[i..])
    ensures |ReplaceAll(COMMENT, t, i, "")| <= |t| - i
    ensures (exists k: nat :: i <= k <= |t| && MatchEnd(COMMENT, t, k).Some?)
      ==> |ReplaceAll(COMMENT, t, i, "")| + 7 <= |t| - i
    decreases |t| - i
  {
    hide MatchEnd;
    CommentEnds(t, i);
    if MatchEnd(COMMENT, t, i).Some? {
      var e := MatchEnd(COMMENT, t, i).value;
      PassFrom(t, e);
      assert t[i..][e - i..] == t[e..];
      SubsequenceOfSuffix(ReplaceAll(COMMENT, t, e, ""), t[i..], e - i);
      assert "" + ReplaceAll(COMMENT, t, e, "") == ReplaceAll(COMMENT, t, e, "");
    } else if i < |t| {
      PassFrom(t, i + 1);
      assert ([t[i]] + ReplaceAll(COMMENT, t, i + 1, ""))[1..] == ReplaceAll(COMMENT, t, i + 1, "");
      assert t[i..][1..] == t[i + 1..];
    }
  }

  // A pass leaves a comment-free text alone, and takes at least the seven characters of `<!---->` otherwise.
  lemma OnePass(t: string)
    ensures Subsequence(Once(t), t)
    ensures HasComment(t) ==> |Once(t)| + 7 <= |t|
    ensures !HasComment(t) ==> Once(t) == t
  {
    hide MatchEnd, ReplaceAll;
    HasCommentIsAMatch(t);
    assert t[0..] == t;
    PassFrom(t, 0);
    if !HasComment(t) {
      ReplaceAllNothing(COMMENT, t, 0, "");
    }
  }

  // The fixed point: passes are made until one changes nothing.
  function Strip(t: string): (r: string)
    decreases |t|
  {
    OnePass(t);
    if Once(t) == t then t else Strip(Once(t))
  }

  lemma {:induction false} StripIsClean(t: string)
    ensures !HasComment(Strip(t))
    ensures Subsequence(Strip(t), t)
    ensures Strip(Strip(t)) == Strip(t)
    ensures Strip(t) == t <==> !HasComment(t)
    ensures |Strip(t)| <= |t|
    decreases |t|
  {
    OnePass(t);
    hide Once;
    if Once(t) == t {
      SubsequenceOfSuffix(t, t, 0) by { SubsequenceReflexive(t); assert t[0..] == t; }
    } else {
      StripIsClean(Once(t));
      SubsequenceTransitive(Strip(t), Once(t), t);
    }
  }

  // `n` passes, one after another.
  function Passes(t: string, n: nat): string {
    if n == 0 then t else Once(Passes(t, n - 1))
  }

  lemma {:induction false} PassesShift(t: string, n: nat)
    ensures Passes(Once(t), n) == Passes(t, n + 1)
  {
    hide Once;
    if n > 0 { PassesShift(t, n - 1); }
  }

  // What the fixed point is: the passes up to the one that changes nothing, and no other cut.
  lemma {:induction false} StripIsPasses(t: string) returns (n: nat)
    ensures 7 * n <= |t| && Strip(t) == Passes(t, n) && Once(Strip(t)) == Strip(t)
    decreases |t|
  {
    OnePass(t);
    hide Once;
    n := 0;
    if Once(t) != t {
      n := StripIsPasses(Once(t));
      PassesShift(t, n);
      n := n + 1;
    }
  }

  // A text with one opener, and a close for it, keeps all that stands before the comment and all that stands after
  // it, unless the two together make a comment.
  lemma OneCommentGoes(before: string, comment: string, after: string)
    requires var t := before + comment + after;
      && At(t, |before|, OPEN) && (forall k :: k != |before| ==> !At(t, k, OPEN))
      && 4 <= |comment| && FirstClose(t, |before| + 4) == Some(|before| + |comment|)
    requires !HasComment(before + after)
    ensures Strip(before + comment + after) == before + after
  {
    var t, open, end := before + comment + after, |before|, |before| + |comment|;
    hide ReplaceAll, MatchEnd, FirstClose, HasComment;
    PassSkipsTo(t, 0, open, end);
    PassEnds(t, end, |t|);
    assert t[0..open] == before && t[end..] == after;
    assert Once(t) == before + after;
    OnePass(before + after);
    assert |before + after| < |t|;
  }

  lemma {:induction false} SubsequenceReflexive(t: string)
    ensures Subsequence(t, t)
  {
    if t != "" { SubsequenceReflexive(t[1..]); }
  }

  method StripHtmlComments(text: string) returns (r: string, ghost passes: nat)
    ensures 1 <= passes <= |text| / 7 + 1
    ensures r == Passes(text, passes - 1) && Once(r) == r
    ensures r == Strip(text)
    ensures !HasComment(r) && Subsequence(r, text)
  {
    hide Once;
    var current := text;
    passes := 0;
    while true
      invariant Strip(current) == Strip(text)
      invariant |current| + 7 * passes <= |text|
      invariant current == Passes(text, passes)
      decreases |current|
    {
      var previous := current;
      ghost var tested;
      current, tested := HtmlCommentsOnce(current);
      passes := passes + 1;
      OnePass(previous);
      if current == previous { break; }
    }
    StripIsClean(text);
    return current, passes;
  }
}
