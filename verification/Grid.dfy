/**
  `apps/ui/src/home/grid.mjs`: which session rows become tiles, in what order, and where the keyboard
  stop goes when the rows change. A `char` is a Unicode scalar value; strings are compared as their UTF-16 code
  units are, which is what `<` does.
 */
module Grid {
  import opened Wrappers
  import opened SocketCap

  // `fed` is the row's own feed axis: something relays this session. `detail` is all else the row says, which is
  // what its tile carries and its mark is made from.
  datatype Session = Session(address: Row, repo: Option<string>, fed: bool, detail: string)

  datatype Tile = Tile(pane: Pane, repo: Option<string>, fed: bool, detail: string, retained: bool)

  function Stated(s: Option<string>): Option<string> {
    if s.Some? && s.value != "" then s else None
  }

  function SessionOf(t: Tile): Session {
    Session(Row(Some(t.pane.nodeId), Some(t.pane.sessionId)), t.repo, t.fed, t.detail)
  }

  // ---- the order ----

  // Beyond U+FFFF a character is two units, the first of them from U+D800 on and below U+E000.
  predicate UnitLess(a: char, b: char) {
    if (a as int > 0xFFFF) == (b as int > 0xFFFF) then a < b
    else if a as int > 0xFFFF then b as int >= 0xE000
    else (a as int) < 0xD800
  }

  predicate Less(a: string, b: string) {
    if b == "" then false
    else if a == "" then true
    else if a[0] != b[0] then UnitLess(a[0], b[0])
    else Less(a[1..], b[1..])
  }

  predicate RepoLess(a: Option<string>, b: Option<string>) {
    if a == None then false else if b == None then true else Less(a.value, b.value)
  }

  // By node, then by repo with an unstated one last, then by session.
  predicate TileLess(a: Tile, b: Tile) {
    if a.pane.nodeId != b.pane.nodeId then Less(a.pane.nodeId, b.pane.nodeId)
    else if a.repo != b.repo then RepoLess(a.repo, b.repo)
    else Less(a.pane.sessionId, b.pane.sessionId)
  }

  lemma UnitLessTransitive(a: char, b: char, c: char)
    ensures UnitLess(a, b) && UnitLess(b, c) ==> UnitLess(a, c)
  {
  }

  lemma {:induction false} LessIsStrict(a: string, b: string)
    ensures !(Less(a, b) && Less(b, a))
    ensures a != b ==> Less(a, b) || Less(b, a)
    ensures !Less(a, a)
    decreases |a|
  {
    if a != "" && b != "" {
      LessIsStrict(a[1..], b[1..]);
      LessIsStrict(a[1..], a[1..]);
      assert a == [a[0]] + a[1..] && b == [b[0]] + b[1..];
    } else if a != "" {
      LessIsStrict(a[1..], a[1..]);
    }
  }

  lemma {:induction false} LessTransitive(a: string, b: string, c: string)
    requires Less(a, b) && Less(b, c)
    ensures Less(a, c)
    decreases |a|
  {
    if a != "" && a[0] == b[0] == c[0] { LessTransitive(a[1..], b[1..], c[1..]); }
    if a != "" { UnitLessTransitive(a[0], b[0], c[0]); }
  }

  lemma RepoLessIsStrict(a: Option<string>, b: Option<string>)
    ensures !(RepoLess(a, b) && RepoLess(b, a)) && !RepoLess(a, a)
    ensures a != b ==> RepoLess(a, b) || RepoLess(b, a)
  {
    if a.Some? && b.Some? { LessIsStrict(a.value, b.value); }
    if a.Some? { LessIsStrict(a.value, a.value); }
  }

  lemma RepoLessTransitive(a: Option<string>, b: Option<string>, c: Option<string>)
    requires RepoLess(a, b) && RepoLess(b, c)
    ensures RepoLess(a, c)
  {
    if c.Some? { LessTransitive(a.value, b.value, c.value); }
  }

  lemma TileLessIsStrict(a: Tile, b: Tile)
    ensures !(TileLess(a, b) && TileLess(b, a)) && !TileLess(a, a)
    ensures a.pane != b.pane ==> TileLess(a, b) || TileLess(b, a)
  {
    hide Less, RepoLess;
    LessIsStrict(a.pane.nodeId, b.pane.nodeId);
    LessIsStrict(a.pane.sessionId, b.pane.sessionId);
    RepoLessIsStrict(a.repo, b.repo);
  }

  lemma TileLessTransitive(a: Tile, b: Tile, c: Tile)
    requires TileLess(a, b) && TileLess(b, c)
    ensures TileLess(a, c)
  {
    hide Less, RepoLess;
    var na, nb, nc := a.pane.nodeId, b.pane.nodeId, c.pane.nodeId;
    LessIsStrict(na, nc);
    LessIsStrict(na, nb);
    RepoLessIsStrict(a.repo, b.repo);
    if na != nb && nb != nc {
      LessTransitive(na, nb, nc);
    } else if na == nb == nc {
      if a.repo != b.repo && b.repo != c.repo {
        RepoLessTransitive(a.repo, b.repo, c.repo);
      } else if a.repo == b.repo == c.repo {
        LessTransitive(a.pane.sessionId, b.pane.sessionId, c.pane.sessionId);
      }
    }
  }

  // ---- the rows ----

  function Addresses(rows: seq<Session>): set<Pane> {
    set i | 0 <= i < |rows| && PaneTuple(rows[i].address).Some? :: PaneTuple(rows[i].address).value
  }

  function Panes(tiles: seq<Tile>): set<Pane> {
    set i | 0 <= i < |tiles| :: tiles[i].pane
  }

  function TileOf(p: Pane, row: Session, retained: bool): Tile {
    Tile(p, Stated(row.repo), row.fed && !retained, row.detail, retained)
  }

  // One tile for each addressable pane not seen before, from the first row that names it.
  function Collect(rows: seq<Session>, retained: bool, seen: set<Pane>): seq<Tile> {
    if rows == [] then []
    else match PaneTuple(rows[0].address)
      case Some(p) =>
        if p in seen then Collect(rows[1..], retained, seen)
        else [TileOf(p, rows[0], retained)] + Collect(rows[1..], retained, seen + {p})
      case None => Collect(rows[1..], retained, seen)
  }

  function Insert(t: Tile, xs: seq<Tile>): seq<Tile> {
    if xs != [] && TileLess(xs[0], t) then [xs[0]] + Insert(t, xs[1..]) else [t] + xs
  }

  function Sort(xs: seq<Tile>): seq<Tile> {
    if xs == [] then [] else Insert(xs[0], Sort(xs[1..]))
  }

  function Unsorted(sessions: seq<Session>, kept: seq<Session>): seq<Tile> {
    Collect(sessions, false, {}) + Collect(kept, true, Addresses(sessions))
  }

  function Rows(sessions: seq<Session>, kept: seq<Session>): seq<Tile> {
    Sort(Unsorted(sessions, kept))
  }

  ghost predicate Distinct(xs: seq<Tile>) {
    forall i, j :: 0 <= i < j < |xs| ==> xs[i].pane != xs[j].pane
  }

  ghost predicate Ordered(xs: seq<Tile>) {
    forall i, j :: 0 <= i < j < |xs| ==> TileLess(xs[i], xs[j])
  }

  lemma AddressesCons(rows: seq<Session>)
    requires rows != []
    ensures Addresses(rows) == Addresses(rows[1..])
      + (if PaneTuple(rows[0].address).Some? then {PaneTuple(rows[0].address).value} else {})
  {
    hide PaneTuple;
    var rest := rows[1..];
    forall p ensures p in Addresses(rows) <==> p in Addresses(rest) || PaneTuple(rows[0].address) == Some(p) {
      if p in Addresses(rows) {
        var i :| 0 <= i < |rows| && PaneTuple(rows[i].address) == Some(p);
        if i > 0 { assert rest[i - 1] == rows[i]; }
      }
      if p in Addresses(rest) {
        var i :| 0 <= i < |rest| && PaneTuple(rest[i].address) == Some(p);
        assert rows[i + 1] == rest[i];
      }
    }
  }

  lemma PanesCons(t: Tile, xs: seq<Tile>)
    ensures Panes([t] + xs) == {t.pane} + Panes(xs)
  {
    forall p ensures p in Panes([t] + xs) <==> p == t.pane || p in Panes(xs) {
      if p == t.pane { assert ([t] + xs)[0].pane == p; }
      if p in Panes(xs) {
        var i :| 0 <= i < |xs| && xs[i].pane == p;
        assert ([t] + xs)[i + 1].pane == p;
      }
    }
  }

  lemma {:induction false} CollectIs(rows: seq<Session>, retained: bool, seen: set<Pane>)
    ensures var c := Collect(rows, retained, seen);
      Panes(c) == Addresses(rows) - seen && Distinct(c) && forall i :: 0 <= i < |c| ==> c[i].retained == retained
  {
    hide PaneTuple, Addresses, Panes;
    if rows == [] {
      assert Addresses(rows) == {} && Panes([]) == {} by { NoRows(); }
    } else {
      AddressesCons(rows);
      match PaneTuple(rows[0].address)
      case Some(p) =>
        if p in seen {
          CollectIs(rows[1..], retained, seen);
        } else {
          CollectIs(rows[1..], retained, seen + {p});
          var rest := Collect(rows[1..], retained, seen + {p});
          PanesCons(TileOf(p, rows[0], retained), rest);
          NotAmong(rest, p);
        }
      case None => CollectIs(rows[1..], retained, seen);
    }
  }

  lemma NoRows()
    ensures Addresses([]) == {} && Panes([]) == {}
  {
  }

  lemma NotAmong(xs: seq<Tile>, p: Pane)
    requires p !in Panes(xs)
    ensures forall i :: 0 <= i < |xs| ==> xs[i].pane != p
  {
  }

  lemma PanesConcat(a: seq<Tile>, b: seq<Tile>)
    ensures Panes(a + b) == Panes(a) + Panes(b)
  {
    forall p ensures p in Panes(a + b) <==> p in Panes(a) || p in Panes(b) {
      if p in Panes(a) { var i :| 0 <= i < |a| && a[i].pane == p; assert (a + b)[i].pane == p; }
      if p in Panes(b) { var i :| 0 <= i < |b| && b[i].pane == p; assert (a + b)[|a| + i].pane == p; }
    }
  }

  lemma DistinctConcat(a: seq<Tile>, b: seq<Tile>)
    requires Distinct(a) && Distinct(b) && Panes(a) !! Panes(b)
    ensures Distinct(a + b)
  {
    var c := a + b;
    forall i, j | 0 <= i < j < |c| ensures c[i].pane != c[j].pane {
      if i < |a| <= j { assert a[i].pane in Panes(a) && b[j - |a|].pane in Panes(b); }
    }
  }

  // ---- the sort ----

  lemma {:induction false} InsertIs(t: Tile, xs: seq<Tile>)
    requires Ordered(xs) && t.pane !in Panes(xs)
    ensures Ordered(Insert(t, xs)) && multiset(Insert(t, xs)) == multiset(xs) + multiset{t}
  {
    hide TileLess;
    NotAmong(xs, t.pane);
    if xs != [] {
      TileLessIsStrict(xs[0], t);
      assert xs == [xs[0]] + xs[1..];
      if TileLess(xs[0], t) {
        PanesCons(xs[0], xs[1..]);
        InsertIs(t, xs[1..]);
        var r := Insert(t, xs[1..]);
        forall j | 0 <= j < |r| ensures TileLess(xs[0], r[j]) {
          assert r[j] in multiset(r);
          assert r[j] == t || r[j] in xs[1..];
        }
      } else {
        forall j | 0 <= j < |xs| ensures TileLess(t, xs[j]) {
          if j > 0 { TileLessTransitive(t, xs[0], xs[j]); }
        }
      }
    }
  }

  lemma PanesOfMultiset(a: seq<Tile>, b: seq<Tile>)
    requires multiset(a) == multiset(b)
    ensures Panes(a) == Panes(b)
  {
    forall t ensures t in a <==> t in b { assert t in multiset(a) <==> t in multiset(b); }
    forall p ensures p in Panes(a) <==> p in Panes(b) {
      if p in Panes(a) { var i :| 0 <= i < |a| && a[i].pane == p; assert a[i] in b; }
      if p in Panes(b) { var i :| 0 <= i < |b| && b[i].pane == p; assert b[i] in a; }
    }
  }

  lemma {:induction false} SortIs(xs: seq<Tile>)
    requires Distinct(xs)
    ensures Ordered(Sort(xs)) && multiset(Sort(xs)) == multiset(xs)
  {
    hide TileLess;
    if xs != [] {
      assert xs == [xs[0]] + xs[1..];
      SortIs(xs[1..]);
      PanesOfMultiset(xs[1..], Sort(xs[1..]));
      assert xs[0].pane !in Panes(xs[1..]);
      InsertIs(xs[0], Sort(xs[1..]));
    }
  }

  lemma OrderedHead(a: seq<Tile>)
    requires Ordered(a) && a != []
    ensures Ordered(a[1..])
    ensures forall t :: t in multiset(a) && t != a[0] ==> TileLess(a[0], t)
    ensures multiset(a) == multiset{a[0]} + multiset(a[1..])
  {
    assert a == [a[0]] + a[1..];
  }

  lemma HeadIsGone(a: seq<Tile>)
    requires Ordered(a) && a != []
    ensures forall t :: t in a[1..] <==> t in a && t != a[0]
  {
    hide TileLess;
    forall j | 1 <= j < |a| ensures a[j] != a[0] { TileLessIsStrict(a[0], a[0]); }
    assert a == [a[0]] + a[1..];
  }

  // Tiles in order are known by which they are.
  lemma {:induction false} OrderedSameTiles(a: seq<Tile>, b: seq<Tile>)
    requires Ordered(a) && Ordered(b) && forall t :: t in a <==> t in b
    ensures a == b
  {
    hide TileLess, Ordered;
    assert a != [] ==> a[0] in a && a[0] in b;
    assert b != [] ==> b[0] in b && b[0] in a;
    if a != [] && b != [] {
      OrderedHead(a);
      OrderedHead(b);
      assert a[0] in multiset(b) && b[0] in multiset(a);
      TileLessIsStrict(a[0], b[0]);
      assert a == [a[0]] + a[1..] && b == [b[0]] + b[1..];
      HeadIsGone(a);
      HeadIsGone(b);
      OrderedSameTiles(a[1..], b[1..]);
    }
  }

  // There is one arrangement in order.
  lemma OrderIsUnique(a: seq<Tile>, b: seq<Tile>)
    requires Ordered(a) && Ordered(b) && multiset(a) == multiset(b)
    ensures a == b
  {
    hide Ordered;
    forall t ensures t in a <==> t in b { assert t in multiset(a) <==> t in multiset(b); }
    OrderedSameTiles(a, b);
  }

  // The grid: one tile for each pane that is listed or kept, a listed one from its live row, in order.
  lemma RowsAre(sessions: seq<Session>, kept: seq<Session>)
    ensures var tiles := Rows(sessions, kept);
      && Panes(tiles) == Addresses(sessions) + Addresses(kept)
      && Ordered(tiles)
      && (forall t <- tiles :: t.retained <==> t.pane !in Addresses(sessions))
  {
    hide TileLess, Addresses, Panes, Sort;
    var a, b := Collect(sessions, false, {}), Collect(kept, true, Addresses(sessions));
    CollectIs(sessions, false, {});
    CollectIs(kept, true, Addresses(sessions));
    PanesConcat(a, b);
    DistinctConcat(a, b);
    SortIs(a + b);
    PanesOfMultiset(a + b, Sort(a + b));
    forall t | t in Sort(a + b) ensures t.retained <==> t.pane !in Addresses(sessions) {
      assert t in multiset(Sort(a + b));
      assert t in multiset(a + b);
      FromWhich(a, b, t);
    }
  }

  lemma FromWhich(a: seq<Tile>, b: seq<Tile>, t: Tile)
    requires t in multiset(a + b)
    ensures (t in a && t.pane in Panes(a)) || (t in b && t.pane in Panes(b))
  {
    var i :| 0 <= i < |a + b| && (a + b)[i] == t;
    if i < |a| { PaneAmong(a, i); } else { PaneAmong(b, i - |a|); }
  }

  lemma PaneAmong(xs: seq<Tile>, i: nat)
    requires i < |xs|
    ensures xs[i].pane in Panes(xs)
  {
  }

  // An empty repo is none; a retained tile is fed by nothing; all else is the row's.
  ghost predicate Says(t: Tile, row: Session) {
    && t.repo == (if row.repo == Some("") then None else row.repo)
    && (t.fed <==> row.fed && !t.retained)
    && t.detail == row.detail
  }

  // `t` says what the first row of its pane says.
  ghost predicate SaysItsRow(rows: seq<Session>, t: Tile) {
    exists i :: 0 <= i < |rows| && IsFirstRow(rows, t.pane, i) && Says(t, rows[i])
  }

  ghost predicate IsFirstRow(rows: seq<Session>, p: Pane, i: nat)
    requires i < |rows|
  {
    PaneTuple(rows[i].address) == Some(p) && forall j :: 0 <= j < i ==> PaneTuple(rows[j].address) != Some(p)
  }

  lemma SaysItsLaterRow(rows: seq<Session>, t: Tile)
    requires rows != [] && PaneTuple(rows[0].address) != Some(t.pane) && SaysItsRow(rows[1..], t)
    ensures SaysItsRow(rows, t)
  {
    hide PaneTuple;
    var rest := rows[1..];
    var i :| 0 <= i < |rest| && IsFirstRow(rest, t.pane, i) && Says(t, rest[i]);
    forall j | 0 <= j < i + 1 ensures PaneTuple(rows[j].address) != Some(t.pane) {
      if j > 0 { assert rows[j] == rest[j - 1]; }
    }
    assert rows[i + 1] == rest[i];
    assert IsFirstRow(rows, t.pane, i + 1);
  }

  lemma SaysItsFirstRow(rows: seq<Session>, p: Pane, retained: bool)
    requires rows != [] && PaneTuple(rows[0].address) == Some(p)
    ensures SaysItsRow(rows, TileOf(p, rows[0], retained))
  {
    hide PaneTuple;
    assert IsFirstRow(rows, p, 0);
  }

  lemma {:induction false} CollectSays(rows: seq<Session>, retained: bool, seen: set<Pane>, t: Tile)
    requires t in Collect(rows, retained, seen)
    ensures SaysItsRow(rows, t) && t.pane !in seen
  {
    hide PaneTuple, SaysItsRow;
    match PaneTuple(rows[0].address)
    case Some(p) =>
      if p in seen {
        CollectSays(rows[1..], retained, seen, t);
        SaysItsLaterRow(rows, t);
      } else if t in Collect(rows[1..], retained, seen + {p}) {
        CollectSays(rows[1..], retained, seen + {p}, t);
        SaysItsLaterRow(rows, t);
      } else {
        SaysItsFirstRow(rows, p, retained);
      }
    case None =>
      CollectSays(rows[1..], retained, seen, t);
      SaysItsLaterRow(rows, t);
  }

  // A tile speaks for its live row, and only a pane without one for the row it was kept with.
  lemma TilesSayTheirRows(sessions: seq<Session>, kept: seq<Session>, t: Tile)
    requires t in Rows(sessions, kept)
    ensures SaysItsRow(if t.pane in Addresses(sessions) then sessions else kept, t)
  {
    RowsAre(sessions, kept);
    hide TileLess, Addresses, Panes, Sort, SaysItsRow;
    var a, b := Collect(sessions, false, {}), Collect(kept, true, Addresses(sessions));
    UnsortedIsDistinct(sessions, kept);
    SortIs(a + b);
    CollectIs(sessions, false, {});
    CollectIs(kept, true, Addresses(sessions));
    assert t in multiset(a + b);
    FromWhich(a, b, t);
    if t in a { CollectSays(sessions, false, {}, t); } else { CollectSays(kept, true, Addresses(sessions), t); }
  }

  lemma {:induction false} InsertDistinct(t: Tile, xs: seq<Tile>)
    requires Distinct(xs) && t.pane !in Panes(xs)
    ensures Distinct(Insert(t, xs)) && Panes(Insert(t, xs)) == Panes(xs) + {t.pane}
  {
    hide TileLess;
    NotAmong(xs, t.pane);
    PanesCons(t, xs);
    if xs != [] {
      assert xs == [xs[0]] + xs[1..];
      PanesCons(xs[0], xs[1..]);
      InsertDistinct(t, xs[1..]);
      PanesCons(xs[0], Insert(t, xs[1..]));
      HeadIsAlone(xs);
      NotAmong(Insert(t, xs[1..]), xs[0].pane);
    }
  }

  lemma {:induction false} SortDistinct(xs: seq<Tile>)
    requires Distinct(xs)
    ensures Distinct(Sort(xs)) && Panes(Sort(xs)) == Panes(xs)
  {
    hide TileLess;
    if xs != [] {
      assert xs == [xs[0]] + xs[1..];
      PanesCons(xs[0], xs[1..]);
      SortDistinct(xs[1..]);
      HeadIsAlone(xs);
      InsertDistinct(xs[0], Sort(xs[1..]));
    }
  }

  lemma HeadIsAlone(xs: seq<Tile>)
    requires Distinct(xs) && xs != []
    ensures xs[0].pane !in Panes(xs[1..])
  {
    forall i | 0 <= i < |xs[1..]| ensures xs[1..][i].pane != xs[0].pane { assert xs[1..][i] == xs[i + 1]; }
  }

  lemma RowsAreDistinct(sessions: seq<Session>, kept: seq<Session>)
    ensures Distinct(Rows(sessions, kept))
  {
    UnsortedIsDistinct(sessions, kept);
    SortDistinct(Unsorted(sessions, kept));
  }

  // ---- the order, by what the strings are ----

  // The UTF-16 code units of a character.
  function Units(c: char): seq<int> {
    var n := c as int;
    if n > 0xFFFF then [0xD800 + (n - 0x10000) / 0x400, 0xDC00 + (n - 0x10000) % 0x400] else [n]
  }

  function Encoded(s: string): seq<int> {
    if s == "" then [] else Units(s[0]) + Encoded(s[1..])
  }

  predicate UnitsLess(a: seq<int>, b: seq<int>) {
    b != [] && (a == [] || a[0] < b[0] || (a[0] == b[0] && UnitsLess(a[1..], b[1..])))
  }

  lemma {:induction false} SameStart(u: seq<int>, a: seq<int>, b: seq<int>)
    ensures UnitsLess(u + a, u + b) <==> UnitsLess(a, b)
  {
    if u == [] {
      assert u + a == a && u + b == b;
    } else {
      assert (u + a)[0] == (u + b)[0] == u[0];
      assert (u + a)[1..] == u[1..] + a && (u + b)[1..] == u[1..] + b;
      SameStart(u[1..], a, b);
    }
  }

  // Different characters differ in their units, and the first unit that differs decides as the characters do.
  lemma UnitsDecide(c: char, d: char, a: seq<int>, b: seq<int>)
    requires c != d
    ensures UnitsLess(Units(c) + a, Units(d) + b) <==> UnitLess(c, d)
  {
    var m, n := c as int, d as int;
    var u, v := Units(c) + a, Units(d) + b;
    assert u[0] == Units(c)[0] && v[0] == Units(d)[0];
    if m > 0xFFFF && n > 0xFFFF {
      var x, y := m - 0x10000, n - 0x10000;
      assert x == x / 0x400 * 0x400 + x % 0x400 && y == y / 0x400 * 0x400 + y % 0x400;
      assert u[1..][0] == 0xDC00 + x % 0x400 && v[1..][0] == 0xDC00 + y % 0x400;
      assert x / 0x400 < y / 0x400 ==> x < y;
      assert y / 0x400 < x / 0x400 ==> y < x;
    }
  }

  // Strings are ordered as the sequences of their UTF-16 code units.
  lemma {:induction false} LessIsUnitOrder(a: string, b: string)
    ensures Less(a, b) <==> UnitsLess(Encoded(a), Encoded(b))
  {
    hide Units, UnitLess;
    if a != "" && b != "" {
      if a[0] == b[0] {
        LessIsUnitOrder(a[1..], b[1..]);
        SameStart(Units(a[0]), Encoded(a[1..]), Encoded(b[1..]));
      } else {
        UnitsDecide(a[0], b[0], Encoded(a[1..]), Encoded(b[1..]));
      }
    } else {
      UnitsAreSome(a);
      UnitsAreSome(b);
    }
  }

  lemma UnitsAreSome(s: string)
    ensures Encoded(s) == [] <==> s == ""
  {
    if s != "" { assert |Units(s[0])| >= 1; }
  }

  // The tiles stand by node, then by repo with the unstated last, then by session.
  lemma TilesStandInOrder(sessions: seq<Session>, kept: seq<Session>, i: nat, j: nat)
    requires i < j < |Rows(sessions, kept)|
    ensures var t, u := Rows(sessions, kept)[i], Rows(sessions, kept)[j];
      if t.pane.nodeId != u.pane.nodeId then UnitsLess(Encoded(t.pane.nodeId), Encoded(u.pane.nodeId))
      else if t.repo != u.repo then
        t.repo.Some? && (u.repo.Some? ==> UnitsLess(Encoded(t.repo.value), Encoded(u.repo.value)))
      else UnitsLess(Encoded(t.pane.sessionId), Encoded(u.pane.sessionId))
  {
    RowsAre(sessions, kept);
    hide Rows, Less, UnitsLess, Encoded, Panes, Addresses;
    var t, u := Rows(sessions, kept)[i], Rows(sessions, kept)[j];
    assert TileLess(t, u);
    LessIsUnitOrder(t.pane.nodeId, u.pane.nodeId);
    LessIsUnitOrder(t.pane.sessionId, u.pane.sessionId);
    if t.repo.Some? && u.repo.Some? { LessIsUnitOrder(t.repo.value, u.repo.value); }
  }

  // ---- the order of arrival ----

  // Rows of one pane that could become its tile would make the same tile.
  ghost predicate Agree(rows: seq<Session>, taken: set<Pane>, retained: bool) {
    forall x <- rows, y <- rows :: SamePane(x, y) && PaneTuple(x.address).value !in taken ==> SameTile(x, y, retained)
  }

  predicate SamePane(x: Session, y: Session) {
    PaneTuple(x.address).Some? && PaneTuple(x.address) == PaneTuple(y.address)
  }

  predicate SameTile(x: Session, y: Session, retained: bool) {
    Stated(x.repo) == Stated(y.repo) && (retained || x.fed == y.fed) && x.detail == y.detail
  }

  ghost predicate SameRows(a: seq<Session>, b: seq<Session>) {
    multiset(a) == multiset(b)
  }

  // The grid is the same however its rows are arranged.
  ghost predicate IgnoresArrival(sessions: seq<Session>, kept: seq<Session>) {
    forall s, k :: SameRows(s, sessions) && SameRows(k, kept) ==> Rows(s, k) == Rows(sessions, kept)
  }

  lemma SameRowsSameAddresses(a: seq<Session>, b: seq<Session>)
    requires multiset(a) == multiset(b)
    ensures Addresses(a) == Addresses(b)
    ensures forall x :: x in a <==> x in b
  {
    hide PaneTuple;
    forall x ensures x in a <==> x in b { assert x in multiset(a) <==> x in multiset(b); }
    forall p ensures p in Addresses(a) <==> p in Addresses(b) {
      if i :| 0 <= i < |a| && PaneTuple(a[i].address) == Some(p) {
        assert a[i] in b;
        var j :| 0 <= j < |b| && b[j] == a[i];
      }
      if i :| 0 <= i < |b| && PaneTuple(b[i].address) == Some(p) {
        assert b[i] in a;
        var j :| 0 <= j < |a| && a[j] == b[i];
      }
    }
  }

  // Two tiles of one pane, each saying what some row of it says.
  lemma AgreedTilesAreEqual(a: seq<Session>, b: seq<Session>, taken: set<Pane>, t: Tile, u: Tile)
    requires Agree(a, taken, t.retained) && forall x :: x in a <==> x in b
    requires SaysItsRow(a, t) && SaysItsRow(b, u) && t.pane == u.pane && t.retained == u.retained && t.pane !in taken
    ensures t == u
  {
    hide PaneTuple;
    var i :| 0 <= i < |a| && IsFirstRow(a, t.pane, i) && Says(t, a[i]);
    var j :| 0 <= j < |b| && IsFirstRow(b, u.pane, j) && Says(u, b[j]);
    assert a[i] in a && b[j] in a;
    assert SamePane(a[i], b[j]) && SameTile(a[i], b[j], t.retained);
  }

  lemma TileIsInBoth(s: seq<Session>, k: seq<Session>, s': seq<Session>, k': seq<Session>, t: Tile)
    requires multiset(s) == multiset(s') && multiset(k) == multiset(k')
    requires Agree(s, {}, false) && Agree(k, Addresses(s), true)
    requires t in Rows(s, k)
    ensures t in Rows(s', k')
  {
    hide Rows, Addresses, SaysItsRow, Agree, Ordered, Panes;
    SameRowsSameAddresses(s, s');
    SameRowsSameAddresses(k, k');
    RowsAre(s, k);
    RowsAre(s', k');
    TileHasPane(Rows(s, k), t);
    var u := TileFor(Rows(s', k'), t.pane);
    TilesSayTheirRows(s, k, t);
    TilesSayTheirRows(s', k', u);
    if t.retained { AgreedTilesAreEqual(k, k', Addresses(s), t, u); } else { AgreedTilesAreEqual(s, s', {}, t, u); }
  }

  lemma TileHasPane(xs: seq<Tile>, t: Tile)
    requires t in xs
    ensures t.pane in Panes(xs)
  {
    var i :| 0 <= i < |xs| && xs[i] == t;
    PaneAmong(xs, i);
  }

  lemma TileFor(xs: seq<Tile>, p: Pane) returns (t: Tile)
    requires p in Panes(xs)
    ensures t in xs && t.pane == p
  {
    var i :| 0 <= i < |xs| && xs[i].pane == p;
    t := xs[i];
  }

  // A pane's first row speaks for it, wherever the others stand.
  lemma FirstRowSpeaks(s: seq<Session>, k: seq<Session>, p: Pane)
    requires s != [] && PaneTuple(s[0].address) == Some(p)
    ensures TileOf(p, s[0], false) in Rows(s, k)
    ensures forall t <- Rows(s, k) :: t.pane == p ==> t == TileOf(p, s[0], false)
  {
    hide PaneTuple, Rows, Panes, Ordered;
    assert p in Addresses(s);
    RowsAre(s, k);
    forall t | t in Rows(s, k) && t.pane == p ensures t == TileOf(p, s[0], false) {
      TilesSayTheirRows(s, k, t);
      var i :| 0 <= i < |s| && IsFirstRow(s, p, i) && Says(t, s[i]);
    }
    var t := TileFor(Rows(s, k), p);
  }

  lemma FirstKeptRowSpeaks(s: seq<Session>, k: seq<Session>, p: Pane)
    requires k != [] && PaneTuple(k[0].address) == Some(p) && p !in Addresses(s)
    ensures TileOf(p, k[0], true) in Rows(s, k)
    ensures forall t <- Rows(s, k) :: t.pane == p ==> t == TileOf(p, k[0], true)
  {
    assert p in Addresses(k);
    hide PaneTuple, Rows, Panes, Ordered, Addresses;
    RowsAre(s, k);
    forall t | t in Rows(s, k) && t.pane == p ensures t == TileOf(p, k[0], true) {
      TilesSayTheirRows(s, k, t);
      var i :| 0 <= i < |k| && IsFirstRow(k, p, i) && Says(t, k[i]);
    }
    var t := TileFor(Rows(s, k), p);
  }

  // The plainest input it is seen on: two rows of one pane that state different repos, in either order.
  lemma FirstRowWins(x: Session, y: Session, kept: seq<Session>)
    requires SamePane(x, y) && !SameTile(x, y, false)
    ensures Rows([x, y], kept) != Rows([y, x], kept)
  {
    hide PaneTuple, Rows;
    var p := PaneTuple(x.address).value;
    FirstRowSpeaks([x, y], kept, p);
    FirstRowSpeaks([y, x], kept, p);
  }

  function ToFront(rows: seq<Session>, i: nat): (r: seq<Session>)
    requires i < |rows|
    ensures r != [] && r[0] == rows[i]
  {
    [rows[i]] + (rows[..i] + rows[i + 1..])
  }

  lemma ToFrontPermutes(rows: seq<Session>, i: nat)
    requires i < |rows|
    ensures multiset(ToFront(rows, i)) == multiset(rows)
  {
    assert rows == rows[..i] + [rows[i]] + rows[i + 1..];
  }

  lemma LiveRowsMustAgree(sessions: seq<Session>, kept: seq<Session>, x: Session, y: Session)
    requires IgnoresArrival(sessions, kept)
    requires x in sessions && y in sessions && SamePane(x, y)
    ensures SameTile(x, y, false)
  {
    hide PaneTuple, Rows, ToFront;
    var i :| 0 <= i < |sessions| && sessions[i] == x;
    var j :| 0 <= j < |sessions| && sessions[j] == y;
    ToFrontPermutes(sessions, i);
    ToFrontPermutes(sessions, j);
    var p := PaneTuple(x.address).value;
    FirstRowSpeaks(ToFront(sessions, i), kept, p);
    FirstRowSpeaks(ToFront(sessions, j), kept, p);
    assert Rows(ToFront(sessions, i), kept) == Rows(ToFront(sessions, j), kept);
  }

  lemma KeptRowsMustAgree(sessions: seq<Session>, kept: seq<Session>, x: Session, y: Session)
    requires IgnoresArrival(sessions, kept)
    requires x in kept && y in kept && SamePane(x, y) && PaneTuple(x.address).value !in Addresses(sessions)
    ensures SameTile(x, y, true)
  {
    hide PaneTuple, Rows, Addresses, ToFront;
    var i :| 0 <= i < |kept| && kept[i] == x;
    var j :| 0 <= j < |kept| && kept[j] == y;
    ToFrontPermutes(kept, i);
    ToFrontPermutes(kept, j);
    var p := PaneTuple(x.address).value;
    FirstKeptRowSpeaks(sessions, ToFront(kept, i), p);
    FirstKeptRowSpeaks(sessions, ToFront(kept, j), p);
    assert Rows(sessions, ToFront(kept, i)) == Rows(sessions, ToFront(kept, j));
  }

  lemma ArrivalForcesAgreement(sessions: seq<Session>, kept: seq<Session>)
    requires IgnoresArrival(sessions, kept)
    ensures Agree(sessions, {}, false) && Agree(kept, Addresses(sessions), true)
  {
    hide PaneTuple, Rows, Addresses, SameTile, IgnoresArrival;
    forall x, y | x in sessions && y in sessions && SamePane(x, y) ensures SameTile(x, y, false) {
      LiveRowsMustAgree(sessions, kept, x, y);
    }
    forall x, y | x in kept && y in kept && SamePane(x, y) && PaneTuple(x.address).value !in Addresses(sessions)
      ensures SameTile(x, y, true)
    {
      KeptRowsMustAgree(sessions, kept, x, y);
    }
  }

  // The order the rows arrive in leaves no trace in the grid if and only if the rows of each pane agree: the live
  // ones on all they say, and so the kept ones of a pane without a live row, whose feed no longer counts.
  lemma GridIgnoresArrival(sessions: seq<Session>, kept: seq<Session>)
    ensures IgnoresArrival(sessions, kept) <==> Agree(sessions, {}, false) && Agree(kept, Addresses(sessions), true)
  {
    hide Rows, Addresses, Agree, TileLess, Ordered;
    if IgnoresArrival(sessions, kept) { ArrivalForcesAgreement(sessions, kept); }
    if Agree(sessions, {}, false) && Agree(kept, Addresses(sessions), true) {
      forall s, k | SameRows(s, sessions) && SameRows(k, kept)
        ensures Rows(s, k) == Rows(sessions, kept)
      {
        RowsAre(sessions, kept);
        RowsAre(s, k);
        SameRowsSameAddresses(s, sessions);
        SameRowsSameAddresses(k, kept);
        AgreeMoves(sessions, s, {}, false);
        AgreeMoves(kept, k, Addresses(sessions), true);
        forall t ensures t in Rows(s, k) <==> t in Rows(sessions, kept) {
          if t in Rows(s, k) { TileIsInBoth(s, k, sessions, kept, t); }
          if t in Rows(sessions, kept) { TileIsInBoth(sessions, kept, s, k, t); }
        }
        OrderedSameTiles(Rows(s, k), Rows(sessions, kept));
      }
    }
  }

  lemma AgreeMoves(a: seq<Session>, b: seq<Session>, taken: set<Pane>, retained: bool)
    requires Agree(a, taken, retained) && forall x :: x in b <==> x in a
    ensures Agree(b, taken, retained)
  {
    hide PaneTuple;
  }

  lemma UnsortedIsDistinct(sessions: seq<Session>, kept: seq<Session>)
    ensures Distinct(Unsorted(sessions, kept))
  {
    hide Addresses, Panes;
    CollectIs(sessions, false, {});
    CollectIs(kept, true, Addresses(sessions));
    DistinctConcat(Collect(sessions, false, {}), Collect(kept, true, Addresses(sessions)));
  }

  // ---- the keyboard stop after a poll ----

  function Distance(i: int, j: int): nat {
    if i < j then j - i else i - j
  }

  // `j` names a surviving tile, no survivor was nearer to `at`, and of two as near the later is taken.
  ghost predicate Nearest(previous: seq<Pane>, keys: seq<Pane>, at: int, j: int) {
    && 0 <= j < |previous| && previous[j] in keys
    && forall i :: 0 <= i < |previous| && previous[i] in keys ==>
         Distance(at, j) < Distance(at, i) || i == j || (Distance(at, j) == Distance(at, i) && i < at < j)
  }

  ghost predicate FirstAt(previous: seq<Pane>, p: Pane, at: int) {
    0 <= at < |previous| && previous[at] == p && p !in previous[..at]
  }

  // The focused tile is gone, and stood at `at`.
  ghost predicate Departed(keys: seq<Pane>, focused: Option<Pane>, previous: seq<Pane>, at: int) {
    keys != [] && focused.Some? && focused.value !in keys && FirstAt(previous, focused.value, at)
  }

  ghost predicate IsNearestOrFirst(keys: seq<Pane>, previous: seq<Pane>, at: int, r: Option<Pane>)
    requires keys != []
  {
    if exists p :: p in previous && p in keys then exists j :: Nearest(previous, keys, at, j) && r == Some(previous[j])
    else r == Some(keys[0])
  }

  method FocusAfterPoll(keys: seq<Pane>, focused: Option<Pane>, previous: seq<Pane>) returns (r: Option<Pane>)
    ensures r == None <==> keys == []
    ensures r.Some? ==> r.value in keys
    ensures focused.Some? && focused.value in keys ==> r == focused
    ensures forall at :: Departed(keys, focused, previous, at) ==> IsNearestOrFirst(keys, previous, at, r)
    ensures keys != [] && (focused == None || (focused.value !in keys && focused.value !in previous))
      ==> r == Some(keys[0])
  {
    if keys == [] { return None; }
    if focused.Some? && focused.value in keys { return focused; }
    var at := -1;
    if focused.Some? {
      for i := 0 to |previous|
        invariant focused.value !in previous[..i]
      {
        if previous[i] == focused.value { at := i; break; }
      }
    }
    if at < 0 { return Some(keys[0]); }
    assert FirstAt(previous, focused.value, at);
    for d := 1 to |previous| + 1
      invariant forall i :: 0 <= i < |previous| && Distance(at, i) < d ==> previous[i] !in keys
    {
      if at + d < |previous| && previous[at + d] in keys {
        assert Nearest(previous, keys, at, at + d);
        return Some(previous[at + d]);
      }
      if 0 <= at - d && previous[at - d] in keys {
        assert Nearest(previous, keys, at, at - d);
        return Some(previous[at - d]);
      }
    }
    return Some(keys[0]);
  }
}
