/**
  The terminals home's socket arbiter, `apps/ui/src/home/socket-cap.mjs`: which listed panes hold a
  live socket, given a cap, the operator's intents and the panes that hold one now.
 */
module SocketCap {
  import opened Wrappers
  import Regex

  // A wire row as far as addressing goes; a field that is no string is `None`.
  datatype Row = Row(nodeId: Option<string>, sessionId: Option<string>)

  datatype Pane = Pane(nodeId: string, sessionId: string)

  datatype Intents = Intents(focused: Option<Row>, watched: seq<Row>, hidden: seq<Row>)

  // What a caller may hand in as a ceiling.
  datatype Ceiling = Unreadable | Finite(value: real)

  datatype HoldCause = AtCap | Hidden

  datatype ReleaseCause = LeftTheIndex | OperatorHid | CapLowered

  datatype Decision = Decision(pane: Option<Pane>, subscribed: bool, cause: Option<HoldCause>)

  datatype Release = Release(pane: Pane, cause: ReleaseCause)

  datatype Arbitration = Arbitration(
    cap: nat, decisions: seq<Decision>, subscribed: seq<Pane>, slotFree: bool, released: seq<Release>,
      declined: seq<Pane>)

  predicate NonBlank(s: Option<string>) {
    s.Some? && exists i :: 0 <= i < |s.value| && !Regex.IsSpace(s.value[i])
  }

  function PaneTuple(row: Row): Option<Pane> {
    if NonBlank(row.nodeId) && NonBlank(row.sessionId) then Some(Pane(row.nodeId.value, row.sessionId.value)) else None
  }

  function EffectiveCap(cap: Ceiling): nat {
    if cap.Unreadable? || cap.value <= 0.0 then 0 else cap.value.Floor
  }

  // ---- the key ----

  function PaneKey(p: Pane): string {
    p.nodeId + "\0" + p.sessionId
  }

  // The key joins on a NUL, so it names one pane as long as no node id holds one.
  lemma {:induction false} KeyInjective(p: Pane, q: Pane)
    requires '\0' !in p.nodeId && '\0' !in q.nodeId
    requires PaneKey(p) == PaneKey(q)
    ensures p == q
    decreases |p.nodeId|
  {
    var u, v := PaneKey(p), PaneKey(q);
    assert u[0] == (if p.nodeId == "" then '\0' else p.nodeId[0]);
    assert v[0] == (if q.nodeId == "" then '\0' else q.nodeId[0]);
    var p', q' := Pane(p.nodeId[if p.nodeId == "" then 0 else 1..], p.sessionId),
      Pane(q.nodeId[if q.nodeId == "" then 0 else 1..], q.sessionId);
    if p.nodeId == "" {
      assert u[1..] == p.sessionId && v[1..] == q.sessionId;
    } else {
      assert u[1..] == PaneKey(p') && v[1..] == PaneKey(q');
      assert forall c :: c in p'.nodeId ==> c in p.nodeId;
      assert forall c :: c in q'.nodeId ==> c in q.nodeId;
      KeyInjective(p', q');
    }
  }

  // ---- the vocabulary of the arbiter ----

  function KeySet(rows: seq<Row>): set<Pane> {
    set i | 0 <= i < |rows| && PaneTuple(rows[i]).Some? :: PaneTuple(rows[i]).value
  }

  function FocusedPane(intents: Intents): Option<Pane> {
    if intents.focused.Some? then PaneTuple(intents.focused.value) else None
  }

  // The panes of `rows` that are `wanted`, each once, in row order.
  function Select(rows: seq<Row>, wanted: set<Pane>, seen: set<Pane>): seq<Pane> {
    if rows == [] then []
    else match PaneTuple(rows[0])
      case Some(p) =>
        if p in wanted && p !in seen then [p] + Select(rows[1..], wanted, seen + {p})
        else Select(rows[1..], wanted, seen)
      case None => Select(rows[1..], wanted, seen)
  }

  // The same without removing repeats.
  function Keep(rows: seq<Row>, wanted: set<Pane>): seq<Pane> {
    if rows == [] then []
    else match PaneTuple(rows[0])
      case Some(p) => (if p in wanted then [p] else []) + Keep(rows[1..], wanted)
      case None => Keep(rows[1..], wanted)
  }

  function Rank(p: Pane, focus: Option<Pane>, watched: set<Pane>): (r: nat)
    ensures r <= 2
  {
    if focus == Some(p) then 0 else if p in watched then 1 else 2
  }

  function OfRank(xs: seq<Pane>, focus: Option<Pane>, watched: set<Pane>, r: nat): seq<Pane> {
    if xs == [] then []
    else (if Rank(xs[0], focus, watched) == r then [xs[0]] else []) + OfRank(xs[1..], focus, watched, r)
  }

  // The sort by rank, and by position within a rank.
  function ByRank(xs: seq<Pane>, focus: Option<Pane>, watched: set<Pane>): seq<Pane> {
    OfRank(xs, focus, watched, 0) + OfRank(xs, focus, watched, 1) + OfRank(xs, focus, watched, 2)
  }

  function Take(xs: seq<Pane>, n: nat): seq<Pane> {
    if n < |xs| then xs[..n] else xs
  }

  function ToSet(xs: seq<Pane>): set<Pane> {
    set p | p in xs
  }

  // The candidates take what slots are left, in order.
  function Fill(holding: set<Pane>, candidates: seq<Pane>, limit: nat): set<Pane>
    decreases |candidates|
  {
    if candidates == [] || |holding| >= limit then holding
    else Fill(holding + {candidates[0]}, candidates[1..], limit)
  }

  function Live(rows: seq<Row>): set<Pane> {
    KeySet(rows)
  }

  function Incumbents(current: seq<Row>): seq<Pane> {
    Select(current, KeySet(current), {})
  }

  // The incumbents with a claim on their socket: still listed, and not hidden.
  function Retainable(rows: seq<Row>, intents: Intents, current: seq<Row>): seq<Pane> {
    Select(rows, KeySet(current) - KeySet(intents.hidden), {})
  }

  function Survivors(rows: seq<Row>, limit: nat, intents: Intents, current: seq<Row>): seq<Pane> {
    Take(ByRank(Retainable(rows, intents, current), FocusedPane(intents), KeySet(intents.watched)), limit)
  }

  // Everyone else who may take a slot.
  function Waiting(rows: seq<Row>, limit: nat, intents: Intents, current: seq<Row>): seq<Pane> {
    Keep(rows, Live(rows) - ToSet(Survivors(rows, limit, intents, current)) - KeySet(intents.hidden))
  }

  function Holders(rows: seq<Row>, limit: nat, intents: Intents, current: seq<Row>): set<Pane> {
    Fill(ToSet(Survivors(rows, limit, intents, current)),
      ByRank(Waiting(rows, limit, intents, current), FocusedPane(intents), KeySet(intents.watched)), limit)
  }

  function Decide(row: Row, holders: set<Pane>, hidden: set<Pane>): Decision {
    match PaneTuple(row)
    case None => Decision(None, false, None)
    case Some(p) =>
      Decision(Some(p), p in holders, if p in holders then None else Some(if p in hidden then Hidden else AtCap))
  }

  function DecideAll(rows: seq<Row>, holders: set<Pane>, hidden: set<Pane>): (r: seq<Decision>)
    ensures |r| == |rows|
    ensures forall i :: 0 <= i < |rows| ==> r[i] == Decide(rows[i], holders, hidden)
  {
    if rows == [] then [] else [Decide(rows[0], holders, hidden)] + DecideAll(rows[1..], holders, hidden)
  }

  // The first cause whose precondition holds; no cause, no entry.
  function ReleaseOf(p: Pane, live: set<Pane>, hidden: set<Pane>, retainable: set<Pane>): Option<ReleaseCause> {
    if p !in live then Some(LeftTheIndex)
    else if p in hidden then Some(OperatorHid)
    else if p in retainable then Some(CapLowered)
    else None
  }

  function Releases(incumbents: seq<Pane>, holders: set<Pane>, live: set<Pane>, hidden: set<Pane>,
      retainable: set<Pane>): seq<Release> {
    if incumbents == [] then []
    else
      var p, rest := incumbents[0], Releases(incumbents[1..], holders, live, hidden, retainable);
      var cause := ReleaseOf(p, live, hidden, retainable);
      if p in holders || cause == None then rest else [Release(p, cause.value)] + rest
  }

  function Arbitrate(rows: seq<Row>, cap: Ceiling, intents: Intents, current: seq<Row>): Arbitration {
    var limit := EffectiveCap(cap);
    var hidden := KeySet(intents.hidden);
    var holders := Holders(rows, limit, intents, current);
    var asked := KeySet(intents.watched) + (if FocusedPane(intents).Some? then {FocusedPane(intents).value} else {});
    Arbitration(
      limit,
      DecideAll(rows, holders, hidden),
      Select(rows, holders, {}),
      |holders| < limit,
      Releases(Incumbents(current), holders, Live(rows), hidden, ToSet(Retainable(rows, intents, current))),
      Select(rows, asked - holders - hidden, {}))
  }

  // ---- facts about the vocabulary ----

  ghost predicate Unique(xs: seq<Pane>) {
    forall p :: multiset(xs)[p] <= 1
  }

  // `p` stands somewhere before `q`.
  ghost predicate Before(xs: seq<Pane>, p: Pane, q: Pane) {
    exists i, j :: 0 <= i < j < |xs| && xs[i] == p && xs[j] == q
  }

  // The priority order: focus, then a watch, then the order of the list.
  ghost predicate Outranks(xs: seq<Pane>, focus: Option<Pane>, watched: set<Pane>, p: Pane, q: Pane) {
    Rank(p, focus, watched) < Rank(q, focus, watched)
    || (Rank(p, focus, watched) == Rank(q, focus, watched) && Before(xs, p, q))
  }

  // `p` stands before every `q`.
  ghost predicate Ahead(xs: seq<Pane>, p: Pane, q: Pane) {
    exists i :: 0 <= i < |xs| && xs[i] == p && q !in xs[..i + 1]
  }

  // Some row of `p` stands before every row of `q`.
  ghost predicate RowAhead(rows: seq<Row>, p: Pane, q: Pane) {
    exists i :: 0 <= i < |rows| && PaneTuple(rows[i]) == Some(p) && NoRowOf(rows, q, i)
  }

  ghost predicate NoRowOf(rows: seq<Row>, q: Pane, i: int) {
    forall j :: 0 <= j <= i && j < |rows| ==> PaneTuple(rows[j]) != Some(q)
  }

  ghost predicate IsFocused(intents: Intents, p: Pane) {
    intents.focused.Some? && PaneTuple(intents.focused.value) == Some(p)
  }

  ghost predicate IsWatched(intents: Intents, p: Pane) {
    exists i :: 0 <= i < |intents.watched| && PaneTuple(intents.watched[i]) == Some(p)
  }

  // The priority the operator is promised: the focused pane, then a watched one, then the order the rows came in.
  ghost predicate Preferred(rows: seq<Row>, intents: Intents, p: Pane, q: Pane) {
    if IsFocused(intents, p) || IsFocused(intents, q) then IsFocused(intents, p)
    else if IsWatched(intents, p) != IsWatched(intents, q) then IsWatched(intents, p)
    else RowAhead(rows, p, q)
  }

  lemma AheadCons(x: Pane, rest: seq<Pane>, p: Pane, q: Pane)
    requires x != q && p != q && (x == p || Ahead(rest, p, q))
    ensures Ahead([x] + rest, p, q)
  {
    var xs := [x] + rest;
    if x == p {
      assert xs[..0 + 1] == [x] && xs[0] == p;
    } else {
      var i :| 0 <= i < |rest| && rest[i] == p && q !in rest[..i + 1];
      assert xs[..i + 2] == [x] + rest[..i + 1];
      assert xs[i + 1] == p;
    }
  }

  lemma AheadTail(x: Pane, rest: seq<Pane>, p: Pane, q: Pane)
    requires Ahead([x] + rest, p, q)
    ensures x != q && p != q && (x == p || Ahead(rest, p, q))
  {
    var xs := [x] + rest;
    var i :| 0 <= i < |xs| && xs[i] == p && q !in xs[..i + 1];
    assert xs[..i + 1][0] == x && xs[..i + 1][i] == p;
    if i > 0 { assert xs[..i + 1] == [x] + rest[..i] && rest[i - 1] == p; }
  }

  lemma RowAheadCons(rows: seq<Row>, p: Pane, q: Pane)
    requires rows != [] && p != q && PaneTuple(rows[0]) != Some(q)
    requires PaneTuple(rows[0]) == Some(p) || RowAhead(rows[1..], p, q)
    ensures RowAhead(rows, p, q)
  {
    hide PaneTuple;
    if PaneTuple(rows[0]) == Some(p) {
      assert NoRowOf(rows, q, 0);
    } else {
      var i :| 0 <= i < |rows[1..]| && PaneTuple(rows[1..][i]) == Some(p) && NoRowOf(rows[1..], q, i);
      forall j | 0 <= j <= i + 1 ensures PaneTuple(rows[j]) != Some(q) {
        if j > 0 { assert rows[j] == rows[1..][j - 1]; }
      }
      assert rows[i + 1] == rows[1..][i];
      assert NoRowOf(rows, q, i + 1);
    }
  }

  // The lists the arbiter makes of the rows keep their order.
  lemma {:induction false} KeepAhead(rows: seq<Row>, wanted: set<Pane>, p: Pane, q: Pane)
    requires Ahead(Keep(rows, wanted), p, q) && q in wanted
    ensures RowAhead(rows, p, q)
  {
    hide PaneTuple, Ahead, RowAhead;
    if rows == [] {
      NothingIsAhead(p, q);
    } else {
      var rest := Keep(rows[1..], wanted);
      match PaneTuple(rows[0])
      case Some(x) =>
        if x in wanted {
          AheadTail(x, rest, p, q);
          if x != p { KeepAhead(rows[1..], wanted, p, q); }
        } else {
          assert Keep(rows, wanted) == rest;
          AheadDiffers(rest, p, q);
          KeepAhead(rows[1..], wanted, p, q);
        }
        RowAheadCons(rows, p, q);
      case None =>
        AheadDiffers(rest, p, q);
        KeepAhead(rows[1..], wanted, p, q);
        RowAheadCons(rows, p, q);
    }
  }

  lemma NothingIsAhead(p: Pane, q: Pane)
    ensures !Ahead([], p, q)
  {
  }

  lemma AheadDiffers(xs: seq<Pane>, p: Pane, q: Pane)
    requires Ahead(xs, p, q)
    ensures p != q && p in xs
  {
    var i :| 0 <= i < |xs| && xs[i] == p && q !in xs[..i + 1];
    assert xs[..i + 1][i] == p;
  }

  lemma {:induction false} SelectAhead(rows: seq<Row>, wanted: set<Pane>, seen: set<Pane>, p: Pane, q: Pane)
    requires Ahead(Select(rows, wanted, seen), p, q) && q in wanted && q !in seen
    ensures RowAhead(rows, p, q)
  {
    hide PaneTuple, Ahead, RowAhead;
    AheadDiffers(Select(rows, wanted, seen), p, q);
    if rows != [] {
      match PaneTuple(rows[0])
      case Some(x) =>
        if x in wanted && x !in seen {
          AheadTail(x, Select(rows[1..], wanted, seen + {x}), p, q);
          if x != p { SelectAhead(rows[1..], wanted, seen + {x}, p, q); }
        } else {
          SelectAhead(rows[1..], wanted, seen, p, q);
        }
        RowAheadCons(rows, p, q);
      case None =>
        SelectAhead(rows[1..], wanted, seen, p, q);
        RowAheadCons(rows, p, q);
    }
  }

  // In a list without repeats what stands earlier is ahead.
  lemma UniqueAhead(xs: seq<Pane>, i: nat, j: nat)
    requires Unique(xs) && i < j < |xs|
    ensures Ahead(xs, xs[i], xs[j])
  {
    var a, b := xs[..i + 1], xs[i + 1..];
    assert xs == a + b;
    assert multiset(xs) == multiset(a) + multiset(b);
    assert xs[j] == b[j - i - 1] && xs[j] in multiset(b);
    assert multiset(xs)[xs[j]] <= 1;
    assert xs[j] !in multiset(a);
  }

  lemma SelectFollowsRows(rows: seq<Row>, wanted: set<Pane>, i: nat, j: nat)
    requires i < j < |Select(rows, wanted, {})|
    ensures RowAhead(rows, Select(rows, wanted, {})[i], Select(rows, wanted, {})[j])
  {
    hide PaneTuple, KeySet, Ahead, RowAhead, Select, Unique;
    var xs := Select(rows, wanted, {});
    SelectIs(rows, wanted, {});
    assert xs[j] in ToSet(xs);
    UniqueAhead(xs, i, j);
    SelectAhead(rows, wanted, {}, xs[i], xs[j]);
  }

  lemma InKeySet(rows: seq<Row>, p: Pane)
    ensures p in KeySet(rows) <==> exists i :: 0 <= i < |rows| && PaneTuple(rows[i]) == Some(p)
  {
  }

  lemma KeySetCons(rows: seq<Row>)
    requires rows != []
    ensures KeySet(rows) == KeySet(rows[1..]) + (if PaneTuple(rows[0]).Some? then {PaneTuple(rows[0]).value} else {})
  {
    assert rows == [rows[0]] + rows[1..];
    forall p ensures p in KeySet(rows) <==> p in KeySet(rows[1..]) || PaneTuple(rows[0]) == Some(p) {
      InKeySet(rows, p);
      InKeySet(rows[1..], p);
      if i :| 0 <= i < |rows| && PaneTuple(rows[i]) == Some(p) {
        if i > 0 { assert PaneTuple(rows[1..][i - 1]) == Some(p); }
      }
      if i :| 0 <= i < |rows[1..]| && PaneTuple(rows[1..][i]) == Some(p) { assert PaneTuple(rows[i + 1]) == Some(p); }
    }
  }

  lemma {:induction false} SelectIs(rows: seq<Row>, wanted: set<Pane>, seen: set<Pane>)
    ensures ToSet(Select(rows, wanted, seen)) == KeySet(rows) * wanted - seen
    ensures Unique(Select(rows, wanted, seen))
  {
    hide KeySet, PaneTuple;
    if rows == [] {
      NoKeys(rows);
    } else {
      KeySetCons(rows);
      match PaneTuple(rows[0])
      case Some(p) =>
        if p in wanted && p !in seen {
          var rest := Select(rows[1..], wanted, seen + {p});
          SelectIs(rows[1..], wanted, seen + {p});
          UniqueCons(p, rest);
        } else {
          SelectIs(rows[1..], wanted, seen);
        }
      case None => SelectIs(rows[1..], wanted, seen);
    }
  }

  lemma NoKeys(rows: seq<Row>)
    requires rows == []
    ensures KeySet(rows) == {}
  {
  }

  lemma UniqueCons(p: Pane, rest: seq<Pane>)
    requires Unique(rest) && p !in ToSet(rest)
    ensures Unique([p] + rest)
    ensures ToSet([p] + rest) == {p} + ToSet(rest)
  {
    assert multiset([p] + rest) == multiset{p} + multiset(rest);
    assert p !in multiset(rest);
  }

  lemma {:induction false} KeepIs(rows: seq<Row>, wanted: set<Pane>)
    ensures ToSet(Keep(rows, wanted)) == KeySet(rows) * wanted
  {
    if rows != [] {
      KeySetCons(rows);
      KeepIs(rows[1..], wanted);
      match PaneTuple(rows[0])
      case Some(p) => assert ToSet([p] + Keep(rows[1..], wanted)) == {p} + ToSet(Keep(rows[1..], wanted));
                      assert [] + Keep(rows[1..], wanted) == Keep(rows[1..], wanted);
      case None =>
    }
  }

  lemma {:induction false} UniqueCard(xs: seq<Pane>)
    requires Unique(xs)
    ensures |ToSet(xs)| == |xs|
  {
    if xs != [] {
      assert xs == [xs[0]] + xs[1..];
      assert multiset(xs) == multiset{xs[0]} + multiset(xs[1..]);
      assert forall p :: multiset(xs[1..])[p] <= multiset(xs)[p];
      UniqueCard(xs[1..]);
      assert multiset(xs)[xs[0]] == 1 + multiset(xs[1..])[xs[0]];
      assert xs[0] !in xs[1..];
      assert ToSet(xs) == {xs[0]} + ToSet(xs[1..]);
    }
  }

  lemma {:induction false} OfRankIs(xs: seq<Pane>, focus: Option<Pane>, watched: set<Pane>, r: nat)
    ensures forall p :: multiset(OfRank(xs, focus, watched, r))[p]
                        == if Rank(p, focus, watched) == r then multiset(xs)[p] else 0
  {
    if xs != [] {
      OfRankIs(xs[1..], focus, watched, r);
      var rest := OfRank(xs[1..], focus, watched, r);
      assert xs == [xs[0]] + xs[1..];
      assert multiset(xs) == multiset{xs[0]} + multiset(xs[1..]);
      assert multiset([xs[0]] + rest) == multiset{xs[0]} + multiset(rest);
      assert [] + rest == rest;
    }
  }

  lemma ByRankPermutes(xs: seq<Pane>, focus: Option<Pane>, watched: set<Pane>)
    ensures multiset(ByRank(xs, focus, watched)) == multiset(xs)
    ensures ToSet(ByRank(xs, focus, watched)) == ToSet(xs)
    ensures |ByRank(xs, focus, watched)| == |xs|
  {
    var a, b, c := OfRank(xs, focus, watched, 0), OfRank(xs, focus, watched, 1), OfRank(xs, focus, watched, 2);
    OfRankIs(xs, focus, watched, 0);
    OfRankIs(xs, focus, watched, 1);
    OfRankIs(xs, focus, watched, 2);
    var s := ByRank(xs, focus, watched);
    assert multiset(s) == multiset(a) + multiset(b) + multiset(c);
    assert forall p :: multiset(s)[p] == multiset(xs)[p];
    assert multiset(s) == multiset(xs);
    assert |s| == |multiset(s)| && |xs| == |multiset(xs)|;
    forall p ensures p in s <==> p in xs { assert p in multiset(s) <==> p in multiset(xs); }
  }

  lemma BeforeHere(x: Pane, rest: seq<Pane>, q: Pane)
    requires q in rest
    ensures Before([x] + rest, x, q)
  {
    var j :| 0 <= j < |rest| && rest[j] == q;
    assert ([x] + rest)[0] == x && ([x] + rest)[j + 1] == q;
  }

  lemma BeforeLater(x: Pane, rest: seq<Pane>, p: Pane, q: Pane)
    requires Before(rest, p, q)
    ensures Before([x] + rest, p, q)
  {
    var i, j :| 0 <= i < j < |rest| && rest[i] == p && rest[j] == q;
    assert ([x] + rest)[i + 1] == p && ([x] + rest)[j + 1] == q;
  }

  lemma {:induction false} OfRankMember(xs: seq<Pane>, focus: Option<Pane>, watched: set<Pane>, r: nat, j: nat)
    requires j < |OfRank(xs, focus, watched, r)|
    ensures OfRank(xs, focus, watched, r)[j] in xs
  {
    hide Rank;
    if Rank(xs[0], focus, watched) != r {
      assert OfRank(xs, focus, watched, r) == OfRank(xs[1..], focus, watched, r);
      OfRankMember(xs[1..], focus, watched, r, j);
    } else if j > 0 {
      OfRankMember(xs[1..], focus, watched, r, j - 1);
    }
  }

  lemma {:induction false} OfRankKeepsOrder(xs: seq<Pane>, focus: Option<Pane>, watched: set<Pane>, r: nat, i: nat,
      j: nat)
    requires i < j < |OfRank(xs, focus, watched, r)|
    ensures Before(xs, OfRank(xs, focus, watched, r)[i], OfRank(xs, focus, watched, r)[j])
  {
    hide Before, Rank;
    var ys := OfRank(xs, focus, watched, r);
    var rest := OfRank(xs[1..], focus, watched, r);
    assert xs == [xs[0]] + xs[1..];
    if Rank(xs[0], focus, watched) != r {
      assert ys == rest;
      OfRankKeepsOrder(xs[1..], focus, watched, r, i, j);
      BeforeLater(xs[0], xs[1..], ys[i], ys[j]);
    } else if i > 0 {
      OfRankKeepsOrder(xs[1..], focus, watched, r, i - 1, j - 1);
      BeforeLater(xs[0], xs[1..], ys[i], ys[j]);
    } else {
      OfRankMember(xs[1..], focus, watched, r, j - 1);
      BeforeHere(xs[0], xs[1..], ys[j]);
    }
  }

  lemma RankOfElement(xs: seq<Pane>, focus: Option<Pane>, watched: set<Pane>, r: nat, i: nat)
    requires i < |OfRank(xs, focus, watched, r)|
    ensures Rank(OfRank(xs, focus, watched, r)[i], focus, watched) == r
  {
    OfRankIs(xs, focus, watched, r);
    assert OfRank(xs, focus, watched, r)[i] in multiset(OfRank(xs, focus, watched, r));
  }

  // What stands earlier in the sorted list has priority.
  lemma ByRankSorts(xs: seq<Pane>, focus: Option<Pane>, watched: set<Pane>, i: nat, j: nat)
    requires i < j < |ByRank(xs, focus, watched)|
    ensures Outranks(xs, focus, watched, ByRank(xs, focus, watched)[i], ByRank(xs, focus, watched)[j])
  {
    var a, b, c := OfRank(xs, focus, watched, 0), OfRank(xs, focus, watched, 1), OfRank(xs, focus, watched, 2);
    var ri := if i < |a| then 0 else if i < |a| + |b| then 1 else 2;
    var ki := if i < |a| then i else if i < |a| + |b| then i - |a| else i - |a| - |b|;
    var rj := if j < |a| then 0 else if j < |a| + |b| then 1 else 2;
    var kj := if j < |a| then j else if j < |a| + |b| then j - |a| else j - |a| - |b|;
    RankOfElement(xs, focus, watched, ri, ki);
    RankOfElement(xs, focus, watched, rj, kj);
    if ri == rj { OfRankKeepsOrder(xs, focus, watched, ri, ki, kj); }
  }

  lemma {:induction false} FillIs(holding: set<Pane>, xs: seq<Pane>, limit: nat)
    requires |holding| <= limit
    ensures holding <= Fill(holding, xs, limit) <= holding + ToSet(xs)
    ensures |Fill(holding, xs, limit)| <= limit
    ensures |Fill(holding, xs, limit)| < limit ==> ToSet(xs) <= Fill(holding, xs, limit)
    decreases |xs|
  {
    if xs != [] && |holding| < limit {
      assert xs == [xs[0]] + xs[1..];
      assert ToSet(xs) == {xs[0]} + ToSet(xs[1..]);
      FillIs(holding + {xs[0]}, xs[1..], limit);
    }
  }

  // A candidate that got a slot stands before every one that did not.
  lemma {:induction false} FillAhead(holding: set<Pane>, xs: seq<Pane>, limit: nat, p: Pane, q: Pane)
    requires |holding| <= limit
    requires p in Fill(holding, xs, limit) && p !in holding
    requires q in xs && q !in Fill(holding, xs, limit)
    ensures Ahead(xs, p, q)
    decreases |xs|
  {
    FillIs(holding, xs, limit);
    hide Ahead;
    assert xs == [xs[0]] + xs[1..];
    FillIs(holding + {xs[0]}, xs[1..], limit);
    if p != xs[0] { FillAhead(holding + {xs[0]}, xs[1..], limit, p, q); }
    AheadCons(xs[0], xs[1..], p, q);
  }

  lemma {:induction false} OfRankAhead(xs: seq<Pane>, focus: Option<Pane>, watched: set<Pane>, r: nat, p: Pane, q: Pane)
    requires Ahead(OfRank(xs, focus, watched, r), p, q) && Rank(q, focus, watched) == r
    ensures Ahead(xs, p, q)
  {
    hide Ahead, Rank;
    AheadDiffers(OfRank(xs, focus, watched, r), p, q);
    if xs != [] {
      var rest := OfRank(xs[1..], focus, watched, r);
      assert xs == [xs[0]] + xs[1..];
      if Rank(xs[0], focus, watched) == r {
        AheadTail(xs[0], rest, p, q);
        if xs[0] != p { OfRankAhead(xs[1..], focus, watched, r, p, q); }
      } else {
        assert [] + rest == rest;
        OfRankAhead(xs[1..], focus, watched, r, p, q);
      }
      AheadCons(xs[0], xs[1..], p, q);
    }
  }

  // `p` is ahead in the first of two lists that holds either.
  lemma AheadInConcat(a: seq<Pane>, b: seq<Pane>, p: Pane, q: Pane)
    requires Ahead(a + b, p, q)
    ensures q in a ==> Ahead(a, p, q)
    ensures p !in a ==> q !in a && Ahead(b, p, q)
  {
    var xs := a + b;
    var i :| 0 <= i < |xs| && xs[i] == p && q !in xs[..i + 1];
    if i < |a| {
      assert xs[..i + 1] == a[..i + 1] && a[i] == p;
    } else {
      assert xs[..i + 1] == a + b[..i - |a| + 1] && b[i - |a|] == p;
    }
  }

  lemma RankMembers(xs: seq<Pane>, focus: Option<Pane>, watched: set<Pane>, r: nat, p: Pane)
    ensures p in OfRank(xs, focus, watched, r) <==> p in xs && Rank(p, focus, watched) == r
  {
    OfRankIs(xs, focus, watched, r);
    var ys := OfRank(xs, focus, watched, r);
    assert p in ys <==> multiset(ys)[p] > 0;
    assert p in xs <==> multiset(xs)[p] > 0;
  }

  lemma ByRankAhead(xs: seq<Pane>, focus: Option<Pane>, watched: set<Pane>, p: Pane, q: Pane)
    requires Ahead(ByRank(xs, focus, watched), p, q) && p in xs && q in xs
    ensures Rank(p, focus, watched) < Rank(q, focus, watched)
         || (Rank(p, focus, watched) == Rank(q, focus, watched) && Ahead(xs, p, q))
  {
    hide Ahead, OfRank;
    var a, b, c := OfRank(xs, focus, watched, 0), OfRank(xs, focus, watched, 1), OfRank(xs, focus, watched, 2);
    var rp, rq := Rank(p, focus, watched), Rank(q, focus, watched);
    hide Rank;
    forall r: nat, x ensures x in OfRank(xs, focus, watched, r) <==> x in xs && Rank(x, focus, watched) == r {
      RankMembers(xs, focus, watched, r, x);
    }
    assert ByRank(xs, focus, watched) == (a + b) + c;
    AheadInConcat(a + b, c, p, q);
    if q in a + b { AheadInConcat(a, b, p, q); }
    if rp == rq { OfRankAhead(xs, focus, watched, rp, p, q); }
  }

  lemma PreferredIs(rows: seq<Row>, intents: Intents, p: Pane, q: Pane)
    requires var f, w := FocusedPane(intents), KeySet(intents.watched);
      Rank(p, f, w) < Rank(q, f, w) || (Rank(p, f, w) == Rank(q, f, w) && RowAhead(rows, p, q))
    requires p != q
    ensures Preferred(rows, intents, p, q)
  {
    hide PaneTuple, RowAhead, KeySet;
    InKeySet(intents.watched, p);
    InKeySet(intents.watched, q);
  }

  lemma TakeIs(xs: seq<Pane>, n: nat)
    requires Unique(xs)
    ensures ToSet(Take(xs, n)) <= ToSet(xs) && Unique(Take(xs, n))
    ensures |ToSet(xs)| == |xs| && |ToSet(Take(xs, n))| == if n < |xs| then n else |xs|
    ensures |xs| <= n ==> Take(xs, n) == xs
  {
    if n < |xs| {
      assert xs == xs[..n] + xs[n..];
      assert multiset(xs) == multiset(xs[..n]) + multiset(xs[n..]);
      assert forall p :: multiset(xs[..n])[p] <= multiset(xs)[p];
    }
    UniqueCard(xs);
    UniqueCard(Take(xs, n));
  }

  lemma RetainableIs(rows: seq<Row>, intents: Intents, current: seq<Row>)
    ensures ToSet(Retainable(rows, intents, current)) == KeySet(current) * Live(rows) - KeySet(intents.hidden)
    ensures Unique(Retainable(rows, intents, current))
  {
    hide KeySet;
    SelectIs(rows, KeySet(current) - KeySet(intents.hidden), {});
  }

  lemma SurvivorsAre(rows: seq<Row>, limit: nat, intents: Intents, current: seq<Row>)
    ensures var held, claim := ToSet(Survivors(rows, limit, intents, current)),
      ToSet(Retainable(rows, intents, current));
      held <= claim && |held| == (if limit < |claim| then limit else |claim|) && (|claim| <= limit ==> held == claim)
  {
    hide KeySet;
    var claim := Retainable(rows, intents, current);
    var f, w := FocusedPane(intents), KeySet(intents.watched);
    RetainableIs(rows, intents, current);
    ByRankPermutes(claim, f, w);
    assert Unique(ByRank(claim, f, w));
    UniqueCard(claim);
    TakeIs(ByRank(claim, f, w), limit);
  }

  // Who holds a socket: survivors, then waiting panes until the cap or the supply is reached.
  lemma HoldersAre(rows: seq<Row>, limit: nat, intents: Intents, current: seq<Row>)
    ensures var all, free := Holders(rows, limit, intents, current), Live(rows) - KeySet(intents.hidden);
      var held, claim := ToSet(Survivors(rows, limit, intents, current)), ToSet(Retainable(rows, intents, current));
      held <= all <= free && |all| <= limit && (|all| < limit ==> all == free) && all * claim == held
  {
    hide KeySet, Survivors, Retainable, Waiting, ToSet;
    SurvivorsAre(rows, limit, intents, current);
    RetainableIs(rows, intents, current);
    WaitingAre(rows, limit, intents, current);
    FillFree(ToSet(Survivors(rows, limit, intents, current)), ToSet(Retainable(rows, intents, current)),
      Live(rows) - KeySet(intents.hidden), ByRank(Waiting(rows, limit, intents, current), FocusedPane(intents),
        KeySet(intents.watched)), limit);
  }

  lemma WaitingAre(rows: seq<Row>, limit: nat, intents: Intents, current: seq<Row>)
    ensures ToSet(ByRank(Waiting(rows, limit, intents, current), FocusedPane(intents), KeySet(intents.watched)))
         == Live(rows) - KeySet(intents.hidden) - ToSet(Survivors(rows, limit, intents, current))
  {
    hide KeySet, Survivors, ToSet, ByRank;
    KeepIs(rows, Live(rows) - ToSet(Survivors(rows, limit, intents, current)) - KeySet(intents.hidden));
    ByRankPermutes(Waiting(rows, limit, intents, current), FocusedPane(intents), KeySet(intents.watched));
  }

  lemma FillFree(held: set<Pane>, claim: set<Pane>, free: set<Pane>, xs: seq<Pane>, limit: nat)
    requires held <= claim <= free && ToSet(xs) == free - held
    requires |held| == (if limit < |claim| then limit else |claim|) && (|claim| <= limit ==> held == claim)
    ensures var all := Fill(held, xs, limit);
      held <= all <= free && |all| <= limit && (|all| < limit ==> all == free) && all * claim == held
  {
    hide ToSet;
    FillIs(held, xs, limit);
    FillStops(held, xs, limit);
    assert held + (free - held) == free;
  }

  lemma FillStops(holding: set<Pane>, xs: seq<Pane>, limit: nat)
    ensures |holding| >= limit ==> Fill(holding, xs, limit) == holding
  {
  }

  lemma SubscribedAre(rows: seq<Row>, cap: Ceiling, intents: Intents, current: seq<Row>)
    ensures var a := Arbitrate(rows, cap, intents, current);
      ToSet(a.subscribed) == Holders(rows, a.cap, intents, current) && Unique(a.subscribed)
  {
    hide KeySet, Holders, Select, DecideAll, Releases;
    var all := Holders(rows, EffectiveCap(cap), intents, current);
    HoldersAre(rows, EffectiveCap(cap), intents, current);
    SelectIs(rows, all, {});
    assert KeySet(rows) * all - {} == all;
  }

  // ---- the obligations ----

  // I1, and no slot is left empty while a pane could use it: the cap is met or every listed pane the
  // operator did not hide holds a socket.
  lemma Bound(rows: seq<Row>, cap: Ceiling, intents: Intents, current: seq<Row>)
    ensures var a := Arbitrate(rows, cap, intents, current);
      var free := Live(rows) - KeySet(intents.hidden);
      && Unique(a.subscribed)
      && ToSet(a.subscribed) <= free
      && |a.subscribed| == (if |free| < a.cap then |free| else a.cap)
      && (a.slotFree <==> |a.subscribed| < a.cap)
  {
    hide KeySet, Holders, Survivors, Select, DecideAll, Releases;
    var limit := EffectiveCap(cap);
    var a := Arbitrate(rows, cap, intents, current);
    var all, free := Holders(rows, limit, intents, current), Live(rows) - KeySet(intents.hidden);
    HoldersAre(rows, limit, intents, current);
    SubscribedAre(rows, cap, intents, current);
    UniqueCard(a.subscribed);
    SubsetCard(all, free);
  }

  lemma SubsetCard(a: set<Pane>, b: set<Pane>)
    requires a <= b
    ensures |a| <= |b| && (|a| == |b| ==> a == b)
  {
    assert b == a + (b - a);
    assert |b| == |a| + |b - a|;
  }

  // I2 and I2': only the cap costs an incumbent its socket, down to the cap and never for a newcomer.
  lemma Retention(rows: seq<Row>, cap: Ceiling, intents: Intents, current: seq<Row>)
    ensures var a := Arbitrate(rows, cap, intents, current);
      var claim, kept := ToSet(Retainable(rows, intents, current)), ToSet(a.subscribed);
      && claim == KeySet(current) * Live(rows) - KeySet(intents.hidden)
      && |kept * claim| == (if |claim| < a.cap then |claim| else a.cap)
      && (kept - claim != {} ==> claim <= kept)
  {
    hide KeySet, Holders, Survivors, Retainable, Select, DecideAll, Releases;
    var limit := EffectiveCap(cap);
    SurvivorsAre(rows, limit, intents, current);
    HoldersAre(rows, limit, intents, current);
    SubscribedAre(rows, cap, intents, current);
    RetainableIs(rows, intents, current);
    var claim, all := ToSet(Retainable(rows, intents, current)), Holders(rows, limit, intents, current);
    var held := ToSet(Survivors(rows, limit, intents, current));
    if limit < |claim| {
      SubsetCard(held, all);
    }
  }

  // I3: a focused pane with a claim keeps its socket under any cap of at least one.
  lemma FocusSurvives(rows: seq<Row>, cap: Ceiling, intents: Intents, current: seq<Row>, p: Pane)
    requires EffectiveCap(cap) >= 1 && FocusedPane(intents) == Some(p)
    requires p in Retainable(rows, intents, current)
    ensures p in Arbitrate(rows, cap, intents, current).subscribed
  {
    hide KeySet, Holders, Retainable, Select, DecideAll, Releases;
    var limit := EffectiveCap(cap);
    var claim := Retainable(rows, intents, current);
    SubscribedAre(rows, cap, intents, current);
    HoldersAre(rows, limit, intents, current);
    var w := KeySet(intents.watched);
    var first := OfRank(claim, Some(p), w, 0);
    OfRankIs(claim, Some(p), w, 0);
    assert p in multiset(first);
    RankOfElement(claim, Some(p), w, 0, 0);
    assert first[0] == p == ByRank(claim, Some(p), w)[0];
    assert p in Survivors(rows, limit, intents, current);
    assert p in ToSet(Survivors(rows, limit, intents, current));
  }

  // I3: when a lowered cap cannot keep every claim, those kept outrank those released.
  lemma SurvivorsOutrank(rows: seq<Row>, cap: Ceiling, intents: Intents, current: seq<Row>, p: Pane, q: Pane)
    requires var a := Arbitrate(rows, cap, intents, current);
      var claim := Retainable(rows, intents, current);
      p in claim && p in a.subscribed && q in claim && q !in a.subscribed
    ensures Preferred(rows, intents, p, q)
  {
    hide KeySet, Holders, Retainable, Select, DecideAll, Releases, ByRank, Rank;
    hide Ahead, RowAhead, Preferred, FocusedPane;
    var limit := EffectiveCap(cap);
    SubscribedAre(rows, cap, intents, current);
    HoldersAre(rows, limit, intents, current);
    var claim, f, w := Retainable(rows, intents, current), FocusedPane(intents), KeySet(intents.watched);
    var order := ByRank(claim, f, w);
    ByRankPermutes(claim, f, w);
    var held := Survivors(rows, limit, intents, current);
    assert p in ToSet(held) && q !in ToSet(held) && q in ToSet(order);
    assert q in order && q in claim && p in claim;
    TakenIsAhead(order, limit, p, q);
    ByRankAhead(claim, f, w, p, q);
    AheadDiffers(order, p, q);
    if Ahead(claim, p, q) { ClaimFollowsRows(rows, intents, current, p, q); }
    PreferredIs(rows, intents, p, q);
  }

  lemma TakenIsAhead(xs: seq<Pane>, n: nat, p: Pane, q: Pane)
    requires p in Take(xs, n) && q !in Take(xs, n)
    ensures Ahead(xs, p, q)
  {
    var taken := Take(xs, n);
    var i :| 0 <= i < |taken| && taken[i] == p;
    assert xs[..i + 1] == taken[..i + 1];
    assert xs[i] == p;
  }

  lemma ClaimFollowsRows(rows: seq<Row>, intents: Intents, current: seq<Row>, p: Pane, q: Pane)
    requires Ahead(Retainable(rows, intents, current), p, q) && q in Retainable(rows, intents, current)
    ensures RowAhead(rows, p, q)
  {
    hide Ahead, RowAhead, KeySet, PaneTuple, Select;
    SelectIs(rows, KeySet(current) - KeySet(intents.hidden), {});
    assert q in ToSet(Retainable(rows, intents, current));
    SelectAhead(rows, KeySet(current) - KeySet(intents.hidden), {}, p, q);
  }

  lemma HoldersDef(rows: seq<Row>, limit: nat, intents: Intents, current: seq<Row>)
    ensures Holders(rows, limit, intents, current)
         == Fill(ToSet(Survivors(rows, limit, intents, current)),
              ByRank(Waiting(rows, limit, intents, current), FocusedPane(intents), KeySet(intents.watched)), limit)
  {
  }

  // A newcomer that got a slot outranks every pane still waiting.
  lemma NewcomersOutrank(rows: seq<Row>, cap: Ceiling, intents: Intents, current: seq<Row>, p: Pane, q: Pane)
    requires var a := Arbitrate(rows, cap, intents, current);
      p in a.subscribed && p !in Retainable(rows, intents, current)
      && q in Live(rows) - KeySet(intents.hidden) && q !in a.subscribed
    ensures Preferred(rows, intents, p, q)
  {
    hide KeySet, Holders, Survivors, Retainable, Waiting, Select, DecideAll, Releases, ByRank, Rank,
      FocusedPane, Fill, Ahead, RowAhead, Preferred;
    var limit := EffectiveCap(cap);
    var waiting, f, w := Waiting(rows, limit, intents, current), FocusedPane(intents), KeySet(intents.watched);
    SubscribedAre(rows, cap, intents, current);
    HoldersAre(rows, limit, intents, current);
    WaitingAre(rows, limit, intents, current);
    SurvivorsAre(rows, limit, intents, current);
    var held := ToSet(Survivors(rows, limit, intents, current));
    var order := ByRank(waiting, f, w);
    HoldersDef(rows, limit, intents, current);
    assert q in ToSet(order);
    assert p !in held && q in order;
    FillAhead(held, order, limit, p, q);
    AheadDiffers(order, p, q);
    ByRankPermutes(waiting, f, w);
    assert p in ToSet(order) && p in ToSet(waiting) && q in ToSet(waiting);
    ByRankAhead(waiting, f, w, p, q);
    if Ahead(waiting, p, q) { WaitingFollowsRows(rows, limit, intents, current, p, q); }
    PreferredIs(rows, intents, p, q);
  }

  lemma WaitingFollowsRows(rows: seq<Row>, limit: nat, intents: Intents, current: seq<Row>, p: Pane, q: Pane)
    requires Ahead(Waiting(rows, limit, intents, current), p, q) && q in Waiting(rows, limit, intents, current)
    ensures RowAhead(rows, p, q)
  {
    hide Ahead, RowAhead, KeySet, PaneTuple, Keep, Survivors;
    var wanted := Live(rows) - ToSet(Survivors(rows, limit, intents, current)) - KeySet(intents.hidden);
    KeepIs(rows, wanted);
    assert q in ToSet(Waiting(rows, limit, intents, current));
    KeepAhead(rows, wanted, p, q);
  }

  // Every list the arbiter answers with follows the rows it was made from.
  lemma AnswersFollowTheRows(rows: seq<Row>, cap: Ceiling, intents: Intents, current: seq<Row>, i: nat, j: nat)
    requires i < j
    ensures var a := Arbitrate(rows, cap, intents, current);
      && (j < |a.subscribed| ==> RowAhead(rows, a.subscribed[i], a.subscribed[j]))
      && (j < |a.declined| ==> RowAhead(rows, a.declined[i], a.declined[j]))
      && (j < |a.released| ==> RowAhead(current, a.released[i].pane, a.released[j].pane))
  {
    hide KeySet, Holders, Survivors, Retainable, DecideAll, Select, Releases, RowAhead, ToSet;
    var limit := EffectiveCap(cap);
    var holders, hidden := Holders(rows, limit, intents, current), KeySet(intents.hidden);
    var asked := KeySet(intents.watched) + (if FocusedPane(intents).Some? then {FocusedPane(intents).value} else {});
    if j < |Select(rows, holders, {})| { SelectFollowsRows(rows, holders, i, j); }
    if j < |Select(rows, asked - holders - hidden, {})| { SelectFollowsRows(rows, asked - holders - hidden, i, j); }
    var claim := ToSet(Retainable(rows, intents, current));
    var released := Releases(Incumbents(current), holders, Live(rows), hidden, claim);
    if j < |released| {
      var i', j' := ReleasesKeepOrder(Incumbents(current), holders, Live(rows), hidden, claim, i, j);
      SelectFollowsRows(current, KeySet(current), i', j');
    }
  }

  lemma {:induction false} ReleasesKeepOrder(incumbents: seq<Pane>, holders: set<Pane>, live: set<Pane>,
      hidden: set<Pane>, retainable: set<Pane>, i: nat, j: nat) returns (i': nat, j': nat)
    requires i < j < |Releases(incumbents, holders, live, hidden, retainable)|
    ensures var rs := Releases(incumbents, holders, live, hidden, retainable);
      i' < j' < |incumbents| && incumbents[i'] == rs[i].pane && incumbents[j'] == rs[j].pane
    decreases |incumbents|
  {
    hide ReleaseOf;
    var p, rest := incumbents[0], Releases(incumbents[1..], holders, live, hidden, retainable);
    if p in holders || ReleaseOf(p, live, hidden, retainable) == None {
      i', j' := ReleasesKeepOrder(incumbents[1..], holders, live, hidden, retainable, i, j);
      i', j' := i' + 1, j' + 1;
    } else if i > 0 {
      i', j' := ReleasesKeepOrder(incumbents[1..], holders, live, hidden, retainable, i - 1, j - 1);
      i', j' := i' + 1, j' + 1;
    } else {
      i' := 0;
      j' := ReleaseAmong(incumbents[1..], holders, live, hidden, retainable, j - 1);
      j' := j' + 1;
    }
  }

  lemma {:induction false} ReleaseAmong(incumbents: seq<Pane>, holders: set<Pane>, live: set<Pane>,
      hidden: set<Pane>, retainable: set<Pane>, j: nat) returns (j': nat)
    requires j < |Releases(incumbents, holders, live, hidden, retainable)|
    ensures j' < |incumbents| && incumbents[j'] == Releases(incumbents, holders, live, hidden, retainable)[j].pane
    decreases |incumbents|
  {
    hide ReleaseOf;
    var p := incumbents[0];
    if p in holders || ReleaseOf(p, live, hidden, retainable) == None {
      j' := ReleaseAmong(incumbents[1..], holders, live, hidden, retainable, j);
      j' := j' + 1;
    } else if j > 0 {
      j' := ReleaseAmong(incumbents[1..], holders, live, hidden, retainable, j - 1);
      j' := j' + 1;
    } else {
      j' := 0;
    }
  }

  // The cap is the whole part of a positive number, and nothing else is one.
  lemma CapExactly(rows: seq<Row>, cap: Ceiling, intents: Intents, current: seq<Row>)
    ensures var limit := Arbitrate(rows, cap, intents, current).cap;
      if cap.Finite? && cap.value > 0.0 then limit as real <= cap.value < (limit + 1) as real else limit == 0
  {
  }

  // A row addresses a pane if and only if both of its fields are strings that hold more than white space.
  lemma AddressableExactly(row: Row, p: Pane)
    ensures PaneTuple(row) == Some(p)
       <==> row == Row(Some(p.nodeId), Some(p.sessionId)) && HasInk(p.nodeId) && HasInk(p.sessionId)
  {
    forall s: string ensures HasInk(s) <==> NonBlank(Some(s)) {
      if c :| c in s && !Regex.IsSpace(c) { var i :| 0 <= i < |s| && s[i] == c; }
    }
  }

  ghost predicate HasInk(s: string) {
    exists c :: c in s && !Regex.IsSpace(c)
  }

  ghost predicate CauseIsStated(r: Release, live: set<Pane>, hidden: set<Pane>) {
    && (r.cause == LeftTheIndex <==> r.pane !in live)
    && (r.cause == OperatorHid <==> r.pane in live && r.pane in hidden)
    && (r.cause == CapLowered <==> r.pane in live && r.pane !in hidden)
  }

  function ReleasedPanes(rs: seq<Release>): seq<Pane> {
    if rs == [] then [] else [rs[0].pane] + ReleasedPanes(rs[1..])
  }

  lemma {:induction false} ReleasesAre(incumbents: seq<Pane>, holders: set<Pane>, live: set<Pane>, hidden: set<Pane>,
      retainable: set<Pane>)
    requires Unique(incumbents) && forall p <- incumbents :: p in live && p !in hidden ==> p in retainable
    ensures var rs := Releases(incumbents, holders, live, hidden, retainable);
      && Unique(ReleasedPanes(rs))
      && ToSet(ReleasedPanes(rs)) == ToSet(incumbents) - holders
      && (forall i :: 0 <= i < |rs| ==> CauseIsStated(rs[i], live, hidden))
  {
    hide CauseIsStated, Unique;
    if incumbents == [] {
      UniqueNone();
    } else {
      var p, tail := incumbents[0], incumbents[1..];
      assert incumbents == [p] + tail;
      UniqueTail(p, tail);
      ReleasesAre(tail, holders, live, hidden, retainable);
      var rest := Releases(tail, holders, live, hidden, retainable);
      if p !in holders {
        var r := Release(p, ReleaseOf(p, live, hidden, retainable).value);
        assert ([r] + rest)[1..] == rest;
        CauseOf(p, live, hidden, retainable);
        UniqueCons(p, ReleasedPanes(rest));
      }
    }
  }

  lemma CapLoweredMeans(r: Release, live: set<Pane>, hidden: set<Pane>)
    requires CauseIsStated(r, live, hidden) && r.cause == CapLowered
    ensures r.pane in live && r.pane !in hidden
  {
  }

  lemma CauseOf(p: Pane, live: set<Pane>, hidden: set<Pane>, retainable: set<Pane>)
    requires p in live && p !in hidden ==> p in retainable
    ensures var cause := ReleaseOf(p, live, hidden, retainable);
      cause.Some? && CauseIsStated(Release(p, cause.value), live, hidden)
  {
  }

  lemma UniqueNone()
    ensures Unique([])
  {
  }

  lemma UniqueTail(p: Pane, tail: seq<Pane>)
    requires Unique([p] + tail)
    ensures Unique(tail) && p !in ToSet(tail) && ToSet([p] + tail) == {p} + ToSet(tail)
  {
    assert multiset([p] + tail) == multiset{p} + multiset(tail);
    assert forall q :: multiset(tail)[q] <= multiset([p] + tail)[q];
    assert p !in multiset(tail);
  }

  lemma IncumbentsAre(current: seq<Row>)
    ensures Unique(Incumbents(current)) && ToSet(Incumbents(current)) == KeySet(current)
  {
    hide KeySet;
    SelectIs(current, KeySet(current), {});
  }

  // Every incumbent without a socket is reported once, with the one cause that is true of it; a cap is
  // blamed only when the claims outnumber it.
  lemma ReleasedExactly(rows: seq<Row>, cap: Ceiling, intents: Intents, current: seq<Row>)
    ensures var a := Arbitrate(rows, cap, intents, current);
      && Unique(ReleasedPanes(a.released))
      && ToSet(ReleasedPanes(a.released)) == KeySet(current) - ToSet(a.subscribed)
      && (forall i :: 0 <= i < |a.released| ==>
            && CauseIsStated(a.released[i], Live(rows), KeySet(intents.hidden))
            && (a.released[i].cause == CapLowered ==> |ToSet(Retainable(rows, intents, current))| > a.cap))
  {
    hide KeySet, Holders, Survivors, Retainable, Select, DecideAll, Incumbents, Releases, CauseIsStated;
    var limit := EffectiveCap(cap);
    var holders, claim := Holders(rows, limit, intents, current), ToSet(Retainable(rows, intents, current));
    SubscribedAre(rows, cap, intents, current);
    HoldersAre(rows, limit, intents, current);
    SurvivorsAre(rows, limit, intents, current);
    RetainableIs(rows, intents, current);
    var inc := Incumbents(current);
    IncumbentsAre(current);
    assert forall p :: p in inc <==> p in ToSet(inc);
    ReleasesAre(inc, holders, Live(rows), KeySet(intents.hidden), claim);
    var rs := Arbitrate(rows, cap, intents, current).released;
    forall i | 0 <= i < |rs| && rs[i].cause == CapLowered ensures |claim| > limit {
      ReleasedPaneIn(rs, i);
      CapLoweredMeans(rs[i], Live(rows), KeySet(intents.hidden));
      assert rs[i].pane in ToSet(ReleasedPanes(rs));
    }
  }

  lemma {:induction false} ReleasedPaneIn(rs: seq<Release>, i: nat)
    requires i < |rs|
    ensures rs[i].pane in ReleasedPanes(rs)
  {
    if i > 0 { ReleasedPaneIn(rs[1..], i - 1); }
  }

  // A watch (or the focus) the cap could not honour is declined, once, and nothing else is.
  lemma DeclinedExactly(rows: seq<Row>, cap: Ceiling, intents: Intents, current: seq<Row>)
    ensures var a := Arbitrate(rows, cap, intents, current);
      && Unique(a.declined)
      && (forall p :: p in a.declined <==>
            && (p in KeySet(intents.watched) || FocusedPane(intents) == Some(p))
            && p in Live(rows) && p !in KeySet(intents.hidden) && p !in a.subscribed)
      && (a.declined != [] ==> |a.subscribed| == a.cap)
  {
    hide KeySet, Holders, Select, DecideAll, Releases;
    var a := Arbitrate(rows, cap, intents, current);
    var asked := KeySet(intents.watched) + (if FocusedPane(intents).Some? then {FocusedPane(intents).value} else {});
    var holders := Holders(rows, a.cap, intents, current);
    SubscribedAre(rows, cap, intents, current);
    Bound(rows, cap, intents, current);
    SelectIs(rows, asked - holders - KeySet(intents.hidden), {});
    forall p ensures p in a.declined <==> p in ToSet(a.declined) {}
    forall p ensures p in a.subscribed <==> p in ToSet(a.subscribed) {}
    var free := Live(rows) - KeySet(intents.hidden);
    if a.declined != [] && |a.subscribed| != a.cap {
      UniqueCard(a.subscribed);
      SubsetCard(ToSet(a.subscribed), free);
      assert a.declined[0] in a.declined;
    }
  }

  // One decision for each row, whatever the row: an unaddressable row is given no cause.
  lemma DecisionsExactly(rows: seq<Row>, cap: Ceiling, intents: Intents, current: seq<Row>)
    ensures var a := Arbitrate(rows, cap, intents, current);
      |a.decisions| == |rows| && forall i :: 0 <= i < |rows| ==>
        var d := a.decisions[i];
        && d.pane == PaneTuple(rows[i])
        && (d.subscribed <==> d.pane.Some? && d.pane.value in a.subscribed)
        && (d.cause == Some(Hidden) <==> d.pane.Some? && d.pane.value in KeySet(intents.hidden))
        && (d.cause == Some(AtCap) <==> d.pane.Some? && !d.subscribed && d.pane.value !in KeySet(intents.hidden))
        && (d.cause == Some(AtCap) ==> !a.slotFree)
  {
    var a := Arbitrate(rows, cap, intents, current);
    SubscribedAre(rows, cap, intents, current);
    HoldersAre(rows, a.cap, intents, current);
    hide Holders, Select, Releases, Survivors, Retainable;
    forall p ensures p in a.subscribed <==> p in ToSet(a.subscribed) {}
    forall i | 0 <= i < |rows| && PaneTuple(rows[i]).Some? ensures PaneTuple(rows[i]).value in Live(rows) {
      InKeySet(rows, PaneTuple(rows[i]).value);
    }
  }

  // ---- the answer handed back in ----

  function RowsOf(panes: seq<Pane>): (rows: seq<Row>)
    ensures |rows| == |panes|
    ensures forall i :: 0 <= i < |panes| ==> rows[i] == Row(Some(panes[i].nodeId), Some(panes[i].sessionId))
  {
    seq(|panes|, i requires 0 <= i < |panes| => Row(Some(panes[i].nodeId), Some(panes[i].sessionId)))
  }

  lemma KeysOfAnswer(rows: seq<Row>, panes: seq<Pane>)
    requires ToSet(panes) <= KeySet(rows)
    ensures KeySet(RowsOf(panes)) == ToSet(panes)
  {
    forall p ensures p in KeySet(RowsOf(panes)) <==> p in ToSet(panes) {
      if p in ToSet(panes) {
        InKeySet(rows, p);
        var i :| 0 <= i < |panes| && panes[i] == p;
        assert PaneTuple(RowsOf(panes)[i]) == Some(p);
      }
    }
  }

  // It converges in one pass: with its answer as the incumbents, the arbiter gives the same answer.
  lemma Converges(rows: seq<Row>, cap: Ceiling, intents: Intents, current: seq<Row>)
    ensures var a := Arbitrate(rows, cap, intents, current);
      Arbitrate(rows, cap, intents, RowsOf(a.subscribed)).subscribed == a.subscribed
  {
    hide KeySet, Holders, Survivors, Retainable, Waiting, Select, DecideAll, Releases, ToSet, RowsOf;
    var a := Arbitrate(rows, cap, intents, current);
    var limit, again := a.cap, RowsOf(a.subscribed);
    SubscribedAre(rows, cap, intents, current);
    HoldersAre(rows, limit, intents, current);
    KeysOfAnswer(rows, a.subscribed);
    RetainableIs(rows, intents, again);
    SurvivorsAre(rows, limit, intents, again);
    HoldersAre(rows, limit, intents, again);
    var all, all' := Holders(rows, limit, intents, current), Holders(rows, limit, intents, again);
    assert ToSet(Retainable(rows, intents, again)) == all;
    SubsetCard(all, all');
    assert all == all';
  }

  // ---- the program ----

  // The arbiter as it is written: one pass that collects the claims, one that fills the free slots, and
  // three that name what changed.
  method SubscribedPaneSet(rows: seq<Row>, cap: Ceiling, intents: Intents, current: seq<Row>) returns (a: Arbitration)
    ensures a == Arbitrate(rows, cap, intents, current)
  {
    hide PaneTuple, KeySet;
    var limit := EffectiveCap(cap);
    var focus, watched, hidden := FocusedPane(intents), KeySet(intents.watched), KeySet(intents.hidden);
    var incumbentKeys, liveKeys := KeySet(current), KeySet(rows);

    var retained := SelectLoop(rows, incumbentKeys - hidden);
    var survivors := Take(ByRank(retained, focus, watched), limit);
    var candidates := ByRank(Keep(rows, liveKeys - ToSet(survivors) - hidden), focus, watched);
    var keys := FillLoop(ToSet(survivors), candidates, limit);
    var slotFree := |keys| < limit;

    var incumbents := SelectLoop(current, incumbentKeys);
    var released := [];
    for i := 0 to |incumbents|
      invariant released + Releases(incumbents[i..], keys, liveKeys, hidden, ToSet(retained))
             == Releases(incumbents, keys, liveKeys, hidden, ToSet(retained))
    {
      var p := incumbents[i];
      assert incumbents[i..][1..] == incumbents[i + 1..];
      if p in keys { continue; }
      var cause := ReleaseOf(p, liveKeys, hidden, ToSet(retained));
      if cause.Some? { released := released + [Release(p, cause.value)]; }
    }

    var asked := watched + (if focus.Some? then {focus.value} else {});
    var declined := SelectLoop(rows, asked - keys - hidden);
    var subscribed := SelectLoop(rows, keys);
    return Arbitration(limit, DecideAll(rows, keys, hidden), subscribed, slotFree, released, declined);
  }

  // The passes over the rows: a row that is not addressable, not wanted or already taken is skipped.
  method SelectLoop(rows: seq<Row>, wanted: set<Pane>) returns (taken: seq<Pane>)
    ensures taken == Select(rows, wanted, {})
  {
    taken := [];
    var seen := {};
    for i := 0 to |rows|
      invariant taken + Select(rows[i..], wanted, seen) == Select(rows, wanted, {})
    {
      assert rows[i..][1..] == rows[i + 1..];
      var tuple := PaneTuple(rows[i]);
      if tuple == None { continue; }
      if tuple.value !in wanted { continue; }
      if tuple.value in seen { continue; }
      seen := seen + {tuple.value};
      taken := taken + [tuple.value];
    }
  }

  method FillLoop(holding: set<Pane>, candidates: seq<Pane>, limit: nat) returns (keys: set<Pane>)
    ensures keys == Fill(holding, candidates, limit)
  {
    keys := holding;
    for i := 0 to |candidates|
      invariant Fill(keys, candidates[i..], limit) == Fill(holding, candidates, limit)
    {
      assert candidates[i..][1..] == candidates[i + 1..];
      if |keys| >= limit { break; }
      if candidates[i] in keys {
        assert keys + {candidates[i]} == keys;
        continue;
      }
      keys := keys + {candidates[i]};
    }
  }
}
