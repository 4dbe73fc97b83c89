/**
  The regular-expression forms the board's text passes use, with the backtracking semantics of
  section 22.2.2 of ECMA-262: a pattern tried at a position yields its possible end positions in the
  order a backtracking matcher tries them, so the first one is the match.
 */
module Regex {
  import opened Wrappers

  datatype Class = Space | Newline

  datatype Pattern =
    | Text(s: string)                          // a literal
    | Then(first: Pattern, second: Pattern)    // one after the other
    | Maybe(p: Pattern)                        // p?
    | LazyAny                                  // [\s\S]*?
    | AtLeast(n: nat, c: Class)                // c{n,}

  // WhiteSpace and LineTerminator of ECMA-262, which are `\s` and what `trim` removes.
  predicate IsSpace(c: char) {
    c in "\t\n\r \U{0B}\U{0C}\U{A0}\U{1680}\U{2028}\U{2029}\U{202F}\U{205F}\U{3000}\U{FEFF}"
    || '\U{2000}' <= c <= '\U{200A}'
  }

  function TrimLeft(s: string): string {
    if s != "" && IsSpace(s[0]) then TrimLeft(s[1..]) else s
  }

  predicate InClass(c: Class, ch: char) {
    match c
    case Space => IsSpace(ch)
    case Newline => ch == '\n'
  }

  predicate At(t: string, i: nat, s: string) {
    i + |s| <= |t| && t[i..i + |s|] == s
  }

  // The end of the longest stretch of class `c` that starts at `i`.
  function RunEnd(c: Class, t: string, i: nat): (e: nat)
    requires i <= |t|
    ensures i <= e <= |t|
    ensures forall k :: i <= k < e ==> InClass(c, t[k])
    ensures e < |t| ==> !InClass(c, t[e])
    decreases |t| - i
  {
    if i < |t| && InClass(c, t[i]) then RunEnd(c, t, i + 1) else i
  }

  ghost predicate Within(r: seq<nat>, low: nat, high: nat) {
    forall k :: 0 <= k < |r| ==> low <= r[k] <= high
  }

  function Ascending(i: nat, n: nat): (r: seq<nat>)
    requires i <= n
    ensures Within(r, i, n)
    ensures |r| == n - i + 1
    decreases n - i
  {
    [i] + if i < n then Ascending(i + 1, n) else []
  }

  // From `high` down to `low`, which is how a greedy repetition gives characters back.
  function Descending(high: nat, low: nat): (r: seq<nat>)
    ensures Within(r, low, high)
    ensures r == [] <==> high < low
    ensures low <= high ==> r[0] == high
  {
    if high < low then [] else [high] + if high == low then [] else Descending(high - 1, low)
  }

  function Ends(p: Pattern, t: string, i: nat): (r: seq<nat>)
    requires i <= |t|
    ensures Within(r, 0, |t|)
    decreases p, 0, 0
  {
    match p
    case Text(s) => if At(t, i, s) then [i + |s|] else []
    case Then(first, second) => EndsFrom(second, t, Ends(first, t, i))
    case Maybe(q) => Ends(q, t, i) + [i]
    case LazyAny => Ascending(i, |t|)
    case AtLeast(n, c) => Descending(RunEnd(c, t, i), i + n)
  }

  // Every way to continue with `p` from each of `starts`, in order.
  function EndsFrom(p: Pattern, t: string, starts: seq<nat>): (r: seq<nat>)
    requires Within(starts, 0, |t|)
    ensures Within(r, 0, |t|)
    decreases p, 1, |starts|
  {
    if starts == [] then [] else Ends(p, t, starts[0]) + EndsFrom(p, t, starts[1..])
  }

  // The end of the match at `i`, if there is one: the first end the matcher finds.
  function MatchEnd(p: Pattern, t: string, i: nat): (r: Option<nat>)
    requires i <= |t|
    ensures r.Some? ==> r.value <= |t|
  {
    var ends := Ends(p, t, i);
    if ends == [] then None else Some(ends[0])
  }

  // `t.replace(/p/g, to)` on the part of `t` from `i`: the leftmost match is replaced and the search
  // goes on at its end; an empty match keeps the next character and moves past it.
  function ReplaceAll(p: Pattern, t: string, i: nat, to: string): (r: string)
    requires i <= |t|
    decreases |t| - i
  {
    match MatchEnd(p, t, i)
    case Some(e) =>
      if i < e then to + ReplaceAll(p, t, e, to)
      else if i < |t| then to + [t[i]] + ReplaceAll(p, t, i + 1, to)
      else to
    case None =>
      if i < |t| then [t[i]] + ReplaceAll(p, t, i + 1, to) else ""
  }

  // `t.replace(/^p/, to)`.
  function ReplaceStart(p: Pattern, t: string, to: string): (r: string) {
    match MatchEnd(p, t, 0)
    case Some(e) => to + t[e..]
    case None => t
  }

  // A non-empty match is replaced whole.
  lemma ReplaceAllStep(p: Pattern, t: string, i: nat, to: string)
    requires i <= |t|
    requires MatchEnd(p, t, i).Some? && i < MatchEnd(p, t, i).value
    ensures ReplaceAll(p, t, i, to) == to + ReplaceAll(p, t, MatchEnd(p, t, i).value, to)
  {
  }

  // Where nothing matches, nothing is replaced.
  lemma {:induction false} ReplaceAllSkips(p: Pattern, t: string, i: nat, k: nat, to: string)
    requires i <= k <= |t|
    requires forall q :: i <= q < k ==> MatchEnd(p, t, q) == None
    ensures ReplaceAll(p, t, i, to) == t[i..k] + ReplaceAll(p, t, k, to)
    decreases k - i
  {
    hide MatchEnd;
    if i < k {
      ReplaceAllSkips(p, t, i + 1, k, to);
      assert t[i..k] == [t[i]] + t[i + 1..k];
    } else {
      assert t[i..k] == "";
    }
  }

  lemma ReplaceAllNothing(p: Pattern, t: string, i: nat, to: string)
    requires i <= |t|
    requires forall q :: i <= q <= |t| ==> MatchEnd(p, t, q) == None
    ensures ReplaceAll(p, t, i, to) == t[i..]
  {
    ReplaceAllSkips(p, t, i, |t|, to);
  }

  lemma SplitAt(t: string, j: nat, a: string, b: string)
    ensures At(t, j, a + b) <==> At(t, j, a) && At(t, j + |a|, b)
  {
    if j + |a| + |b| <= |t| {
      var s := t[j..j + |a| + |b|];
      assert s == t[j..j + |a|] + t[j + |a|..j + |a| + |b|];
      assert s[..|a|] == t[j..j + |a|] && s[|a|..] == t[j + |a|..j + |a| + |b|];
    }
  }

  lemma AtInside(t: string, i: nat, s: string)
    ensures At(t, i, s) ==> i + |s| <= |t|
  {
  }

  lemma TextEnds(s: string, t: string, i: nat)
    requires i <= |t|
    ensures Ends(Text(s), t, i) == if At(t, i, s) then [i + |s|] else []
  {
  }

  // A literal followed by `p`.
  lemma TextThen(s: string, p: Pattern, t: string, i: nat)
    requires i <= |t|
    ensures Ends(Then(Text(s), p), t, i) == if At(t, i, s) then Ends(p, t, i + |s|) else []
  {
    if At(t, i, s) {
      assert Ends(Text(s), t, i) == [i + |s|];
      assert [i + |s|][1..] == [];
      assert EndsFrom(p, t, [i + |s|]) == Ends(p, t, i + |s|) + EndsFrom(p, t, []);
    }
  }

  lemma MaybeThen(s: string, p: Pattern, t: string, i: nat)
    requires i <= |t|
    ensures Ends(Then(Maybe(Text(s)), p), t, i) == (if At(t, i, s) then Ends(p, t, i + |s|) else []) + Ends(p, t, i)
  {
    assert EndsFrom(p, t, [i]) == Ends(p, t, i) + EndsFrom(p, t, [i][1..]);
    if At(t, i, s) {
      assert Ends(Maybe(Text(s)), t, i) == [i + |s|] + [i];
      assert ([i + |s|] + [i])[1..] == [i];
    } else {
      assert Ends(Maybe(Text(s)), t, i) == [i];
    }
  }

  lemma EndsFromNone(p: Pattern, t: string)
    ensures EndsFrom(p, t, []) == []
  {
  }

  lemma EndsFromCons(p: Pattern, t: string, s: nat, rest: seq<nat>)
    requires s <= |t| && Within(rest, 0, |t|)
    ensures Within([s] + rest, 0, |t|)
    ensures EndsFrom(p, t, [s] + rest) == Ends(p, t, s) + EndsFrom(p, t, rest)
  {
    hide Ends;
    assert ([s] + rest)[1..] == rest;
  }

  // The first end `p` finds when it is tried at `j`, `j + 1` and so on.
  function FirstEnd(p: Pattern, t: string, j: nat): (r: Option<nat>)
    requires j <= |t|
    decreases |t| - j
  {
    if MatchEnd(p, t, j).Some? then MatchEnd(p, t, j) else if j < |t| then FirstEnd(p, t, j + 1) else None
  }

  lemma {:induction false} EndsFromAscending(p: Pattern, t: string, j: nat)
    requires j <= |t|
    ensures var ends := EndsFrom(p, t, Ascending(j, |t|));
      (if ends == [] then None else Some(ends[0])) == FirstEnd(p, t, j)
    decreases |t| - j
  {
    hide Ends, EndsFrom;
    var rest := if j < |t| then Ascending(j + 1, |t|) else [];
    if j < |t| { EndsFromAscending(p, t, j + 1); } else { EndsFromNone(p, t); }
    assert Ascending(j, |t|) == [j] + rest;
    EndsFromCons(p, t, j, rest);
  }

  // `[\s\S]*?` hands what follows every position in turn, so the first one that works wins.
  lemma LazyThen(p: Pattern, t: string, j: nat)
    requires j <= |t|
    ensures MatchEnd(Then(LazyAny, p), t, j) == FirstEnd(p, t, j)
  {
    hide EndsFrom;
    EndsFromAscending(p, t, j);
    assert Ends(LazyAny, t, j) == Ascending(j, |t|);
  }
}
