/**
  The comma-separated fields of `apps/ui/src/config/App.tsx`: a list is shown joined with `", "`, and
  what is typed is split again at every keystroke.
 */
module ListField {
  import opened Lists
  import Regex

  // `value.split(",")`
  function Split(s: string): (r: seq<string>)
    ensures r != []
  {
    if s == "" then [""]
    else
      var rest := Split(s[1..]);
      if s[0] == ',' then [""] + rest else [[s[0]] + rest[0]] + rest[1..]
  }

  function TrimRight(s: string): string {
    if s != "" && Regex.IsSpace(s[|s| - 1]) then TrimRight(s[..|s| - 1]) else s
  }

  function Trim(s: string): string {
    TrimRight(Regex.TrimLeft(s))
  }

  predicate NonEmpty(s: string) {
    s != ""
  }

  function Entries(pieces: seq<string>): seq<string> {
    Filter(Map(pieces, Trim), NonEmpty)
  }

  function SplitList(value: string): seq<string> {
    Entries(Split(value))
  }

  // `xs.join(", ")`
  function Join(xs: seq<string>): string {
    if xs == [] then "" else if |xs| == 1 then xs[0] else xs[0] + "," + (" " + Join(xs[1..]))
  }

  // A value the field can show: no comma, and neither blank nor padded.
  ghost predicate Clean(s: string) {
    s != "" && ',' !in s && !Regex.IsSpace(s[0]) && !Regex.IsSpace(s[|s| - 1])
  }

  ghost predicate AllClean(xs: seq<string>) {
    forall x <- xs :: Clean(x)
  }

  ghost predicate Blank(s: string) {
    forall c <- s :: Regex.IsSpace(c)
  }

  // ---- trim ----

  lemma {:induction false} TrimLeftIs(s: string)
    ensures Regex.TrimLeft(s) != "" ==> !Regex.IsSpace(Regex.TrimLeft(s)[0])
    ensures forall c <- Regex.TrimLeft(s) :: c in s
    ensures Regex.TrimLeft(s) == "" <==> Blank(s)
  {
    hide Regex.IsSpace;
    if s != "" {
      assert s == [s[0]] + s[1..];
      if Regex.IsSpace(s[0]) { TrimLeftIs(s[1..]); } else { assert s[0] in s; }
    }
  }

  lemma {:induction false} TrimRightIs(s: string)
    ensures TrimRight(s) != "" ==> !Regex.IsSpace(TrimRight(s)[|TrimRight(s)| - 1]) && TrimRight(s)[0] == s[0]
    ensures forall c <- TrimRight(s) :: c in s
    ensures s != "" && !Regex.IsSpace(s[0]) ==> TrimRight(s) != ""
    decreases |s|
  {
    hide Regex.IsSpace;
    if s != "" && Regex.IsSpace(s[|s| - 1]) {
      var t := s[..|s| - 1];
      assert s == t + [s[|s| - 1]];
      TrimRightIs(t);
    }
  }

  lemma TrimIs(s: string)
    ensures ',' !in s ==> Trim(s) == "" || Clean(Trim(s))
    ensures Trim(s) == "" <==> Blank(s)
  {
    TrimLeftIs(s);
    TrimRightIs(Regex.TrimLeft(s));
    assert TrimRight("") == "";
  }

  lemma {:induction false} TrimRightPad(s: string, pad: string)
    requires Blank(pad)
    ensures TrimRight(s + pad) == TrimRight(s)
    decreases |pad|
  {
    hide Regex.IsSpace;
    if pad == "" {
      assert s + pad == s;
    } else {
      var n := |pad| - 1;
      assert pad[n] in pad;
      assert (s + pad)[..|s + pad| - 1] == s + pad[..n];
      assert forall c <- pad[..n] :: c in pad;
      TrimRightPad(s, pad[..n]);
    }
  }

  lemma {:induction false} TrimLeftPad(s: string, pad: string)
    requires Blank(pad)
    ensures Regex.TrimLeft(s + pad) == if Blank(s) then "" else Regex.TrimLeft(s) + pad
  {
    hide Regex.IsSpace;
    if s == "" {
      assert s + pad == pad;
      TrimLeftIs(pad);
    } else {
      assert s == [s[0]] + s[1..] && (s + pad)[1..] == s[1..] + pad;
      if Regex.IsSpace(s[0]) { TrimLeftPad(s[1..], pad); } else { assert s[0] in s; }
    }
  }

  // White space typed at either end of a value is dropped with the rest of it.
  lemma TrimPad(s: string, pad: string)
    requires Blank(pad)
    ensures Trim(s + pad) == Trim(s)
  {
    TrimLeftPad(s, pad);
    TrimLeftIs(s);
    TrimRightPad(Regex.TrimLeft(s), pad);
  }

  // ---- split ----

  lemma {:induction false} SplitFirst(a: string, b: string)
    requires ',' !in a
    ensures Split(a + "," + b) == [a] + Split(b)
    ensures Split(a) == [a]
  {
    var s := a + "," + b;
    if a == "" {
      assert s[1..] == b;
    } else {
      assert a == [a[0]] + a[1..];
      assert forall c <- a[1..] :: c in a;
      assert a[0] in a;
      SplitFirst(a[1..], b);
      assert s[0] == a[0] && s[1..] == a[1..] + "," + b;
      assert ([a[1..]] + Split(b))[1..] == Split(b);
    }
  }

  lemma {:induction false} PiecesHaveNoComma(s: string)
    ensures forall p <- Split(s) :: ',' !in p
  {
    if s != "" {
      var rest := Split(s[1..]);
      PiecesHaveNoComma(s[1..]);
      assert rest[0] in rest;
      forall p | p in Split(s) ensures ',' !in p {
        if s[0] == ',' {
          assert p == "" || p in rest;
        } else {
          assert p == [s[0]] + rest[0] || p in rest[1..];
          assert forall q <- rest[1..] :: q in rest;
        }
      }
    }
  }

  // Two splits side by side: the last piece of the one and the first of the other become one piece.
  function Glue(p: seq<string>, q: seq<string>): (r: seq<string>)
    requires p != [] && q != []
    ensures |r| == |p| + |q| - 1
  {
    p[..|p| - 1] + [p[|p| - 1] + q[0]] + q[1..]
  }

  lemma GlueCons(x: string, p: seq<string>, q: seq<string>)
    requires p != [] && q != []
    ensures Glue([x] + p, q) == [x] + Glue(p, q)
  {
    assert ([x] + p)[..|p|] == [x] + p[..|p| - 1];
  }

  lemma GlueGrow(c: char, p: seq<string>, q: seq<string>)
    requires p != [] && q != []
    ensures Glue([[c] + p[0]] + p[1..], q) == [[c] + Glue(p, q)[0]] + Glue(p, q)[1..]
  {
    var g, left := [[c] + p[0]] + p[1..], Glue(p, q);
    if |p| == 1 {
      assert g == [[c] + p[0]];
      assert ([c] + p[0]) + q[0] == [c] + (p[0] + q[0]);
      assert left == [p[0] + q[0]] + q[1..];
    } else {
      assert g[..|g| - 1] == [[c] + p[0]] + p[1..|p| - 1];
      assert left[0] == p[0] && left[1..] == p[1..|p| - 1] + [p[|p| - 1] + q[0]] + q[1..];
    }
  }

  lemma GlueNothing(q: seq<string>)
    requires q != []
    ensures Glue([""], q) == q
  {
    assert "" + q[0] == q[0];
    assert q == [q[0]] + q[1..];
  }

  lemma SplitStep(s: string)
    requires s != ""
    ensures var rest := Split(s[1..]); Split(s) == if s[0] == ',' then [""] + rest else [[s[0]] + rest[0]] + rest[1..]
    ensures Split("") == [""]
  {
  }

  lemma {:induction false} SplitConcat(a: string, b: string)
    ensures Split(a + b) == Glue(Split(a), Split(b))
  {
    hide Glue, Split;
    if a == "" {
      assert a + b == b;
      SplitStep(",");
      GlueNothing(Split(b));
    } else {
      SplitConcat(a[1..], b);
      assert (a + b)[0] == a[0] && (a + b)[1..] == a[1..] + b;
      SplitStep(a);
      SplitStep(a + b);
      GlueCons("", Split(a[1..]), Split(b));
      GlueGrow(a[0], Split(a[1..]), Split(b));
    }
  }

  // ---- entries ----

  lemma EntriesCons(p: string, rest: seq<string>)
    ensures Entries([p] + rest) == (if Trim(p) == "" then [] else [Trim(p)]) + Entries(rest)
  {
    hide Trim;
    assert ([p] + rest)[1..] == rest;
    assert Map([p] + rest, Trim) == [Trim(p)] + Map(rest, Trim);
    assert ([Trim(p)] + Map(rest, Trim))[1..] == Map(rest, Trim);
  }

  lemma {:induction false} EntriesConcat(a: seq<string>, b: seq<string>)
    ensures Entries(a + b) == Entries(a) + Entries(b)
  {
    hide Entries, Trim;
    if a == [] {
      assert a + b == b;
      NoEntries();
    } else {
      assert a == [a[0]] + a[1..] && a + b == [a[0]] + (a[1..] + b);
      EntriesConcat(a[1..], b);
      EntriesCons(a[0], a[1..]);
      EntriesCons(a[0], a[1..] + b);
    }
  }

  lemma NoEntries()
    ensures Entries([]) == []
  {
  }

  lemma {:induction false} EntriesAreClean(pieces: seq<string>)
    requires forall p <- pieces :: ',' !in p
    ensures AllClean(Entries(pieces))
  {
    hide Entries, Trim, Clean;
    if pieces == [] {
      NoEntries();
    } else {
      assert pieces == [pieces[0]] + pieces[1..];
      assert pieces[0] in pieces && forall p <- pieces[1..] :: p in pieces;
      EntriesCons(pieces[0], pieces[1..]);
      EntriesAreClean(pieces[1..]);
      TrimIs(pieces[0]);
    }
  }

  // ---- the field ----

  // Whatever is typed, the list holds values the field can show.
  lemma SplitListIsClean(value: string)
    ensures AllClean(SplitList(value))
  {
    hide Entries, Split;
    PiecesHaveNoComma(value);
    EntriesAreClean(Split(value));
  }

  // What the field shows is read back as the list it shows.
  lemma {:induction false} SplitUndoesJoin(xs: seq<string>)
    requires AllClean(xs)
    ensures SplitList(Join(xs)) == xs
  {
    hide Entries, Trim, Clean;
    if xs == [] {
      EntriesOfNothing();
    } else {
      var x, rest := xs[0], xs[1..];
      assert xs == [x] + rest;
      assert x in xs && forall y <- rest :: y in xs;
      CleanParts(x);
      if rest == [] {
        SplitFirst(x, "");
        EntriesCons(x, []);
        NoEntries();
        assert [x] + [] == [x];
      } else {
        SplitFirst(x, " " + Join(rest));
        EntriesCons(x, Split(" " + Join(rest)));
        LeadingSpaceIsDropped(Join(rest));
        SplitUndoesJoin(rest);
      }
    }
  }

  lemma EntriesOfNothing()
    ensures SplitList("") == []
  {
    hide Entries;
    SplitFirst("", "");
    EntriesCons("", []);
    NoEntries();
    TrimIs("");
    assert [""] + [] == [""];
  }

  lemma CleanParts(x: string)
    requires Clean(x)
    ensures x != "" && ',' !in x && Trim(x) == x
  {
  }

  lemma LeadingSpaceIsDropped(s: string)
    ensures SplitList(" " + s) == SplitList(s)
  {
    hide Entries, Trim, Split;
    var p := Split(s);
    SplitConcat(" ", s);
    SplitFirst(" ", "");
    assert Glue([" "], p) == [" " + p[0]] + p[1..];
    assert [p[0]] + p[1..] == p;
    EntriesCons(" " + p[0], p[1..]);
    EntriesCons(p[0], p[1..]);
    LeadingSpaceIsTrimmed(p[0]);
  }

  lemma LeadingSpaceIsTrimmed(s: string)
    ensures Trim(" " + s) == Trim(s)
  {
    assert (" " + s)[1..] == s;
    assert Regex.IsSpace(' ');
  }

  // A piece between two commas: a value, or nothing, and the white space around it.
  datatype Piece = Piece(before: string, text: string, after: string)

  ghost predicate IsPiece(p: Piece) {
    Blank(p.before) && Blank(p.after) && ',' !in p.before && ',' !in p.after && (p.text == "" || Clean(p.text))
  }

  function Typed(pieces: seq<Piece>): string {
    if pieces == [] then ""
    else
      var p := pieces[0].before + pieces[0].text + pieces[0].after;
      if |pieces| == 1 then p else p + "," + Typed(pieces[1..])
  }

  function Texts(pieces: seq<Piece>): seq<string> {
    if pieces == [] then []
    else (if pieces[0].text == "" then [] else [pieces[0].text]) + Texts(pieces[1..])
  }

  lemma {:induction false} TrimLeftBlank(pad: string, s: string)
    requires Blank(pad)
    ensures Regex.TrimLeft(pad + s) == Regex.TrimLeft(s)
  {
    hide Regex.IsSpace;
    if pad == "" {
      assert pad + s == s;
    } else {
      assert pad[0] in pad && forall c <- pad[1..] :: c in pad;
      assert (pad + s)[0] == pad[0] && (pad + s)[1..] == pad[1..] + s;
      TrimLeftBlank(pad[1..], s);
    }
  }

  lemma PieceIsTrimmed(p: Piece)
    requires IsPiece(p)
    ensures Trim(p.before + p.text + p.after) == p.text && ',' !in p.before + p.text + p.after
  {
    TrimPad(p.before + p.text, p.after);
    TrimLeftBlank(p.before, p.text);
    if p.text == "" { TrimIs(""); } else { CleanParts(p.text); }
  }

  // What is read, of any text at all that is typed: the values between the commas, each as it stands between the
  // white space around it, in order, and nothing for a piece that is blank.
  lemma {:induction false} ReadsTheTexts(pieces: seq<Piece>)
    requires forall p <- pieces :: IsPiece(p)
    ensures SplitList(Typed(pieces)) == Texts(pieces)
  {
    hide Entries, Trim, IsPiece, Split;
    if pieces == [] {
      EntriesOfNothing();
    } else {
      var p, rest := pieces[0], pieces[1..];
      var s := p.before + p.text + p.after;
      assert pieces == [p] + rest;
      assert p in pieces && forall q <- rest :: q in pieces;
      PieceIsTrimmed(p);
      ReadsTheTexts(rest);
      SplitFirst(s, Typed(rest));
      if rest == [] {
        EntriesCons(s, []);
        NoEntries();
        assert [s] + [] == [s];
      } else {
        EntriesCons(s, Split(Typed(rest)));
      }
    }
  }

  // Every text is typed so.
  lemma {:induction false} EveryTextIsTyped(value: string) returns (pieces: seq<Piece>)
    ensures value == Typed(pieces) && forall p <- pieces :: IsPiece(p)
  {
    pieces := TypedFrom(Split(value));
    JoinedIs(value);
    PiecesHaveNoComma(value);
    TypedFromIs(Split(value));
  }

  function Commas(pieces: seq<string>): string {
    if pieces == [] then "" else if |pieces| == 1 then pieces[0] else pieces[0] + "," + Commas(pieces[1..])
  }

  function TypedFrom(pieces: seq<string>): seq<Piece> {
    if pieces == [] then [] else [PieceOf(pieces[0])] + TypedFrom(pieces[1..])
  }

  // The white space before a text, the text trimmed, and what is left.
  function PieceOf(s: string): Piece {
    var left, text := Regex.TrimLeft(s), TrimRight(Regex.TrimLeft(s));
    if |left| <= |s| && |text| <= |left| then Piece(s[..|s| - |left|], text, left[|text|..]) else Piece("", s, "")
  }

  lemma {:induction false} TrimLeftCuts(s: string)
    ensures var left := Regex.TrimLeft(s); |left| <= |s| && Blank(s[..|s| - |left|]) && s == s[..|s| - |left|] + left
  {
    hide Regex.IsSpace;
    if s != "" && Regex.IsSpace(s[0]) {
      TrimLeftCuts(s[1..]);
      var left := Regex.TrimLeft(s);
      assert s[..|s| - |left|] == [s[0]] + s[1..][..|s| - 1 - |left|];
    }
  }

  lemma {:induction false} TrimRightCuts(s: string)
    ensures var text := TrimRight(s); |text| <= |s| && Blank(s[|text|..]) && s == text + s[|text|..]
    decreases |s|
  {
    hide Regex.IsSpace;
    if s != "" && Regex.IsSpace(s[|s| - 1]) {
      var t := s[..|s| - 1];
      TrimRightCuts(t);
      var text := TrimRight(s);
      assert s[|text|..] == t[|text|..] + [s[|s| - 1]];
    }
  }

  lemma PieceOfParts(s: string)
    ensures var p := PieceOf(s);
      Blank(p.before) && Blank(p.after) && p.text == Trim(s) && s == p.before + (p.text + p.after)
  {
    hide TrimRight, Regex.TrimLeft, Blank;
    TrimLeftCuts(s);
    TrimRightCuts(Regex.TrimLeft(s));
  }

  lemma NoCommaInside(a: string, b: string, c: string)
    requires ',' !in a + (b + c)
    ensures ',' !in a && ',' !in c && a + (b + c) == a + b + c
  {
    var s := a + (b + c);
    forall x | x in a ensures x in s { var i :| 0 <= i < |a| && a[i] == x; assert s[i] == x; }
    forall x | x in c ensures x in s { var i :| 0 <= i < |c| && c[i] == x; assert s[|a| + |b| + i] == x; }
  }

  lemma PieceOfIs(s: string)
    requires ',' !in s
    ensures var p := PieceOf(s); IsPiece(p) && p.before + p.text + p.after == s
  {
    hide PieceOf, Trim, Clean, Blank;
    PieceOfParts(s);
    TrimIs(s);
    var p := PieceOf(s);
    NoCommaInside(p.before, p.text, p.after);
  }

  lemma {:induction false} TypedFromIs(pieces: seq<string>)
    requires forall p <- pieces :: ',' !in p
    ensures Typed(TypedFrom(pieces)) == Commas(pieces) && |TypedFrom(pieces)| == |pieces|
    ensures forall p <- TypedFrom(pieces) :: IsPiece(p)
  {
    hide PieceOf, IsPiece;
    if pieces != [] {
      assert pieces[0] in pieces && forall p <- pieces[1..] :: p in pieces;
      PieceOfIs(pieces[0]);
      TypedFromIs(pieces[1..]);
      assert TypedFrom(pieces)[1..] == TypedFrom(pieces[1..]);
    }
  }

  lemma {:induction false} JoinedIs(s: string)
    ensures Commas(Split(s)) == s
  {
    if s == "" {
    } else {
      var rest := Split(s[1..]);
      JoinedIs(s[1..]);
      assert s == [s[0]] + s[1..];
      if s[0] == ',' {
        assert ([""] + rest)[1..] == rest;
        assert "" + "," + Commas(rest) == "," + Commas(rest);
      } else {
        var grown := [[s[0]] + rest[0]] + rest[1..];
        assert grown[1..] == rest[1..];
        if |rest| > 1 {
          var tail := Commas(rest[1..]);
          assert ([s[0]] + rest[0]) + "," + tail == [s[0]] + (rest[0] + "," + tail);
        }
      }
    }
  }

  // What the field shows: the values with a comma and a space between each two.
  lemma {:induction false} JoinSnoc(xs: seq<string>, x: string)
    ensures Join([]) == "" && Join([x]) == x
    ensures xs != [] ==> Join(xs + [x]) == Join(xs) + ", " + x
  {
    if |xs| > 1 {
      JoinSnoc(xs[1..], x);
      assert (xs + [x])[1..] == xs[1..] + [x] && (xs + [x])[0] == xs[0];
      assert xs[0] + "," + (" " + (Join(xs[1..]) + ", " + x)) == xs[0] + "," + (" " + Join(xs[1..])) + ", " + x;
    } else if |xs| == 1 {
      assert (xs + [x])[1..] == [x];
      assert xs[0] + "," + (" " + x) == xs[0] + ", " + x;
    }
  }

  // So a field that is re-rendered and read again keeps its list, for anything typed into it.
  lemma RereadingIsStable(value: string)
    ensures SplitList(Join(SplitList(value))) == SplitList(value)
  {
    SplitListIsClean(value);
    SplitUndoesJoin(SplitList(value));
  }

  predicate IsSeparator(c: char) {
    c == ',' || Regex.IsSpace(c)
  }

  lemma SeparatorsChangeNothing(value: string, typed: string)
    requires forall c <- typed :: IsSeparator(c)
    ensures SplitList(value + typed) == SplitList(value)
  {
    hide Entries, Trim, Split;
    var p, q := Split(value), Split(typed);
    BlankPieces(typed);
    SplitConcat(value, typed);
    var init, last := p[..|p| - 1], p[|p| - 1];
    assert p == init + [last];
    assert Glue(p, q) == init + ([last + q[0]] + q[1..]);
    assert q[0] in q;
    TrimPad(last, q[0]);
    forall b | b in q[1..] ensures Blank(b) { assert b in q; }
    BlankEntries(q[1..]);
    EntriesConcat(init, [last + q[0]] + q[1..]);
    EntriesConcat(init, [last]);
    EntriesCons(last + q[0], q[1..]);
    EntriesCons(last, []);
    NoEntries();
    assert [last] + [] == [last];
  }

  // How much of a text is neither comma nor white space.
  function Weight(s: string): nat {
    if s == "" then 0 else (if IsSeparator(s[0]) then 0 else 1) + Weight(s[1..])
  }

  function TotalWeight(xs: seq<string>): nat {
    if xs == [] then 0 else Weight(xs[0]) + TotalWeight(xs[1..])
  }

  lemma {:induction false} WeightConcat(a: string, b: string)
    ensures Weight(a + b) == Weight(a) + Weight(b)
  {
    hide IsSeparator;
    if a == "" {
      assert a + b == b;
    } else {
      assert (a + b)[0] == a[0] && (a + b)[1..] == a[1..] + b;
      WeightConcat(a[1..], b);
    }
  }

  lemma {:induction false} WeightlessIsSeparators(s: string)
    ensures Weight(s) == 0 <==> forall c <- s :: IsSeparator(c)
  {
    hide IsSeparator;
    if s != "" {
      assert s == [s[0]] + s[1..];
      assert s[0] in s && forall c <- s :: c == s[0] || c in s[1..];
      WeightlessIsSeparators(s[1..]);
    }
  }

  lemma {:induction false} TrimLeftKeepsWeight(s: string)
    ensures Weight(Regex.TrimLeft(s)) == Weight(s)
  {
    hide Regex.IsSpace;
    if s != "" && Regex.IsSpace(s[0]) { TrimLeftKeepsWeight(s[1..]); }
  }

  lemma {:induction false} TrimRightKeepsWeight(s: string)
    ensures Weight(TrimRight(s)) == Weight(s)
    decreases |s|
  {
    hide Regex.IsSpace;
    if s != "" && Regex.IsSpace(s[|s| - 1]) {
      var t, c := s[..|s| - 1], s[|s| - 1];
      assert s == t + [c];
      WeightConcat(t, [c]);
      WeightOfOne(c);
      TrimRightKeepsWeight(t);
    }
  }

  lemma WeightOfOne(c: char)
    ensures Weight([c]) == if IsSeparator(c) then 0 else 1
  {
    hide Regex.IsSpace;
    assert [c][1..] == "";
  }

  lemma TrimKeepsWeight(s: string)
    ensures Weight(Trim(s)) == Weight(s)
  {
    TrimLeftKeepsWeight(s);
    TrimRightKeepsWeight(Regex.TrimLeft(s));
  }

  lemma {:induction false} SplitKeepsWeight(s: string)
    ensures TotalWeight(Split(s)) == Weight(s)
  {
    hide Regex.IsSpace;
    if s == "" {
      assert Split(s)[1..] == [];
    } else {
      var rest := Split(s[1..]);
      SplitKeepsWeight(s[1..]);
      if s[0] == ',' {
        assert ([""] + rest)[1..] == rest;
      } else {
        assert ([[s[0]] + rest[0]] + rest[1..])[1..] == rest[1..];
        assert ([s[0]] + rest[0])[1..] == rest[0];
      }
    }
  }

  lemma TotalWeightCons(x: string, rest: seq<string>)
    ensures TotalWeight([x] + rest) == Weight(x) + TotalWeight(rest)
  {
    assert ([x] + rest)[1..] == rest;
  }

  lemma {:induction false} EntriesKeepWeight(pieces: seq<string>)
    ensures TotalWeight(Entries(pieces)) == TotalWeight(pieces)
  {
    hide Entries, Trim, Weight;
    if pieces == [] {
      NoEntries();
    } else {
      var p, rest := pieces[0], pieces[1..];
      assert pieces == [p] + rest;
      EntriesCons(p, rest);
      EntriesKeepWeight(rest);
      TrimKeepsWeight(p);
      WeightOfNothing();
      if Trim(p) == "" {
        assert [] + Entries(rest) == Entries(rest);
      } else {
        TotalWeightCons(Trim(p), Entries(rest));
      }
    }
  }

  lemma WeightOfNothing()
    ensures Weight("") == 0
  {
  }

  lemma ListKeepsWeight(value: string)
    ensures TotalWeight(SplitList(value)) == Weight(value)
  {
    hide Entries, Split, Weight, TotalWeight;
    SplitKeepsWeight(value);
    EntriesKeepWeight(Split(value));
  }

  // What typing at the end changes: the list, and with it what the field shows, stays as it was if and only if all
  // that was typed is commas and white space. So a further value cannot be begun by typing its separator.
  lemma TypedSeparatorIsLost(value: string, typed: string)
    ensures SplitList(value + typed) == SplitList(value) <==> forall c <- typed :: IsSeparator(c)
    ensures Join(SplitList(value + typed)) == Join(SplitList(value)) <==> forall c <- typed :: IsSeparator(c)
  {
    hide SplitList, Weight, TotalWeight, Join, IsSeparator;
    ListKeepsWeight(value);
    ListKeepsWeight(value + typed);
    WeightConcat(value, typed);
    WeightlessIsSeparators(typed);
    RereadingIsStable(value);
    RereadingIsStable(value + typed);
    if forall c <- typed :: IsSeparator(c) { SeparatorsChangeNothing(value, typed); }
  }

  lemma {:induction false} BlankPieces(typed: string)
    requires forall c <- typed :: IsSeparator(c)
    ensures forall p <- Split(typed) :: Blank(p)
  {
    if typed != "" {
      var rest := Split(typed[1..]);
      assert forall c <- typed[1..] :: c in typed;
      assert typed[0] in typed;
      BlankPieces(typed[1..]);
      assert rest[0] in rest && forall p <- rest[1..] :: p in rest;
      assert Blank("");
      if typed[0] != ',' { assert Blank([typed[0]] + rest[0]); }
    }
  }

  lemma {:induction false} BlankEntries(pieces: seq<string>)
    requires forall p <- pieces :: Blank(p)
    ensures Entries(pieces) == []
  {
    hide Entries, Trim, Blank;
    if pieces == [] {
      NoEntries();
    } else {
      assert pieces == [pieces[0]] + pieces[1..];
      assert pieces[0] in pieces && forall p <- pieces[1..] :: p in pieces;
      EntriesCons(pieces[0], pieces[1..]);
      BlankEntries(pieces[1..]);
      TrimIs(pieces[0]);
    }
  }
}
