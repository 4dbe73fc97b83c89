/**
  `apps/ui/src/home/SessionGrid.tsx`: the grid's own state across polls, pane reports and the
  operator's watch and hide presses, for as long as it is mounted; `HomePage` mounts it and takes it down. An
  effect is modelled as running once its render has committed, and a render it causes as following at once.
 */
module SessionGrid {
  import opened Wrappers
  import opened SocketCap
  import opened Grid

  const MAX_LIVE_PANES := 16.0

  datatype Screen = Screen(
    sessions: seq<Session>, tiles: seq<Tile>, painted: seq<Pane>, finished: set<Pane>,
    watched: seq<Pane>, hidden: seq<Pane>, subscribed: seq<Pane>)

  datatype Event = Poll(sessions: seq<Session>) | Paint(pane: Pane) | End(pane: Pane) | Press(pane: Pane, watch: bool)

  const START := Screen([], [], [], {}, [], [], [])

  // The rows of the tiles on screen that have painted.
  function Kept(tiles: seq<Tile>, painted: seq<Pane>): seq<Session> {
    if tiles == [] then []
    else (if tiles[0].pane in painted then [SessionOf(tiles[0])] else []) + Kept(tiles[1..], painted)
  }

  // The tiles that may hold a socket.
  function Dialable(tiles: seq<Tile>): seq<Pane> {
    if tiles == [] then []
    else (if tiles[0].fed || tiles[0].retained then [tiles[0].pane] else []) + Dialable(tiles[1..])
  }

  function Without(xs: seq<Pane>, gone: set<Pane>): seq<Pane> {
    if xs == [] then [] else (if xs[0] in gone then [] else [xs[0]]) + Without(xs[1..], gone)
  }

  // The arbitration, with the answer it gave last time as the incumbents.
  function Settle(s: Screen): Screen {
    var intents := Intents(None, RowsOf(s.watched), RowsOf(s.hidden));
    var rows := RowsOf(Dialable(s.tiles));
    s.(subscribed := Arbitrate(rows, Finite(MAX_LIVE_PANES), intents, RowsOf(s.subscribed)).subscribed)
  }

  // One render: the tiles of the current index and of the panes kept from the previous tiles.
  function Compose(s: Screen): Screen {
    Settle(s.(tiles := Rows(s.sessions, Kept(s.tiles, s.painted))))
  }

  // A render, and the second one that spending a finished stream's retention causes.
  function Recompose(s: Screen): Screen {
    var first := Compose(s);
    var spent := first.finished * ToSet(first.painted);
    if spent == {} then first
    else Compose(first.(finished := first.finished - spent, painted := Without(first.painted, spent)))
  }

  function Step(s: Screen, e: Event): Screen {
    match e
    case Poll(sessions) => Recompose(s.(sessions := sessions))
    case Paint(p) => if p in s.painted then s else Recompose(s.(painted := s.painted + [p]))
    case End(p) => s.(finished := s.finished + {p})
    case Press(p, watch) => Settle(Pressed(s, p, watch))
  }

  function Pressed(s: Screen, p: Pane, watch: bool): Screen {
    var watched, hidden := Without(s.watched, {p}), Without(s.hidden, {p});
    s.(watched := if watch then watched + [p] else watched, hidden := if watch then hidden else hidden + [p])
  }

  function RunFrom(s: Screen, events: seq<Event>): Screen
    decreases |events|
  {
    if events == [] then s else RunFrom(Step(s, events[0]), events[1..])
  }

  function Run(events: seq<Event>): Screen {
    if events == [] then START else Step(Run(events[..|events| - 1]), events[|events| - 1])
  }

  // ---- what the run has seen ----

  ghost predicate Listed(events: seq<Event>, p: Pane) {
    exists i :: 0 <= i < |events| && events[i].Poll? && p in Addresses(events[i].sessions)
  }

  // The last thing `p` reported is that it paints.
  predicate Streaming(events: seq<Event>, p: Pane) {
    events != [] &&
    var e := events[|events| - 1];
    if e == Paint(p) then true else if e == End(p) then false else Streaming(events[..|events| - 1], p)
  }

  // What the operator pressed last on `p`.
  function LastPress(events: seq<Event>, p: Pane): Option<bool> {
    if events == [] then None
    else
      var e := events[|events| - 1];
      if e.Press? && e.pane == p then Some(e.watch) else LastPress(events[..|events| - 1], p)
  }

  // ---- the parts ----

  ghost predicate Addressable(p: Pane) {
    PaneTuple(Row(Some(p.nodeId), Some(p.sessionId))) == Some(p)
  }

  ghost predicate TilesAddressable(tiles: seq<Tile>) {
    forall p <- Panes(tiles) :: Addressable(p)
  }

  lemma {:induction false} KeptIs(tiles: seq<Tile>, painted: seq<Pane>)
    requires TilesAddressable(tiles)
    ensures Addresses(Kept(tiles, painted)) == Panes(tiles) * ToSet(painted)
  {
    hide PaneTuple, Addresses, Panes, ToSet;
    if tiles == [] {
      NoRows();
    } else {
      assert tiles == [tiles[0]] + tiles[1..];
      PanesCons(tiles[0], tiles[1..]);
      KeptIs(tiles[1..], painted);
      var p := tiles[0].pane;
      assert p in ToSet(painted) <==> p in painted by { InToSet(painted, p); }
      if p in painted {
        assert Addressable(p);
        assert Kept(tiles, painted)[1..] == Kept(tiles[1..], painted);
        AddressesCons(Kept(tiles, painted));
      } else {
        assert Kept(tiles, painted) == Kept(tiles[1..], painted);
      }
    }
  }

  lemma InToSet(xs: seq<Pane>, p: Pane)
    ensures p in ToSet(xs) <==> p in xs
  {
  }

  lemma {:induction false} WithoutIs(xs: seq<Pane>, gone: set<Pane>)
    ensures ToSet(Without(xs, gone)) == ToSet(xs) - gone
    ensures Unique(xs) ==> Unique(Without(xs, gone))
  {
    if xs != [] {
      assert xs == [xs[0]] + xs[1..];
      WithoutIs(xs[1..], gone);
      if Unique(xs) { UniqueTail(xs[0], xs[1..]); }
      assert ToSet(xs) == {xs[0]} + ToSet(xs[1..]);
      var rest := Without(xs[1..], gone);
      if xs[0] in gone {
        assert Without(xs, gone) == rest;
      } else {
        assert ToSet([xs[0]] + rest) == {xs[0]} + ToSet(rest);
        if Unique(xs) { UniqueCons(xs[0], rest); }
      }
    }
  }

  lemma AddressesAreAddressable(rows: seq<Session>)
    ensures forall p <- Addresses(rows) :: Addressable(p)
  {
  }

  lemma ComposeIs(s: Screen)
    requires TilesAddressable(s.tiles)
    ensures Panes(Compose(s).tiles) == Addresses(s.sessions) + Panes(s.tiles) * ToSet(s.painted)
    ensures TilesAddressable(Compose(s).tiles)
  {
    hide PaneTuple, Addresses, Panes, Rows, ToSet, Settle;
    SettleIs(s.(tiles := Rows(s.sessions, Kept(s.tiles, s.painted))));
    KeptIs(s.tiles, s.painted);
    RowsAre(s.sessions, Kept(s.tiles, s.painted));
    AddressesAreAddressable(s.sessions);
  }

  lemma SettleIs(s: Screen)
    ensures Settle(s) == s.(subscribed := Settle(s).subscribed)
  {
  }

  lemma Spending(index: set<Pane>, tiles: set<Pane>, painted: set<Pane>, finished: set<Pane>)
    ensures var spent := finished * painted;
      && painted - spent == painted - finished
      && finished - spent == finished - painted
      && index + (index + tiles * painted) * (painted - spent) == index + (tiles * painted - finished)
      && (spent == {} ==> painted - finished == painted)
      && (spent == {} ==> finished - painted == finished)
      && (spent == {} ==> index + tiles * painted == index + (tiles * painted - finished))
  {
  }

  // What a recomposition leaves: the index, and the tiles that have painted and are not finished.
  lemma RecomposeIs(s: Screen)
    requires TilesAddressable(s.tiles)
    ensures var s' := Recompose(s);
      && Panes(s'.tiles) == Addresses(s.sessions) + (Panes(s.tiles) * ToSet(s.painted) - s.finished)
      && TilesAddressable(s'.tiles)
      && s'.sessions == s.sessions && s'.watched == s.watched && s'.hidden == s.hidden
      && ToSet(s'.painted) == ToSet(s.painted) - s.finished
      && s'.finished == s.finished - ToSet(s.painted)
  {
    hide PaneTuple, Addresses, Panes, Rows, ToSet, Settle, TilesAddressable;
    SettleIs(s.(tiles := Rows(s.sessions, Kept(s.tiles, s.painted))));
    ComposeIs(s);
    var first := Compose(s);
    var spent := first.finished * ToSet(first.painted);
    Spending(Addresses(s.sessions), Panes(s.tiles), ToSet(s.painted), s.finished);
    if spent != {} {
      var next := first.(finished := first.finished - spent, painted := Without(first.painted, spent));
      WithoutIs(first.painted, spent);
      SettleIs(next.(tiles := Rows(next.sessions, Kept(next.tiles, next.painted))));
      ComposeIs(next);
    }
  }

  // ---- retention over whole runs ----

  // What every run keeps: a tile was listed in some poll; one that is no longer listed has painted; and a
  // pane that counts as painted and not finished did paint, with no end reported since.
  ghost predicate Accounted(events: seq<Event>, s: Screen) {
    && TilesAddressable(s.tiles)
    && (forall p <- Panes(s.tiles) :: Listed(events, p))
    && (forall p <- Panes(s.tiles) :: p in Addresses(s.sessions) || p in ToSet(s.painted))
    && (forall p <- ToSet(s.painted) :: p in s.finished || Streaming(events, p))
    && (forall p <- Addresses(s.sessions) :: Listed(events, p))
  }

  lemma ListedLater(events: seq<Event>, p: Pane)
    requires events != []
    ensures Listed(events[..|events| - 1], p) ==> Listed(events, p)
    ensures events[|events| - 1].Poll? && p in Addresses(events[|events| - 1].sessions) ==> Listed(events, p)
  {
    var before := events[..|events| - 1];
    if i :| 0 <= i < |before| && before[i].Poll? && p in Addresses(before[i].sessions) {
      assert events[i] == before[i];
    }
  }

  lemma {:induction false} RunIsAccounted(events: seq<Event>)
    ensures Accounted(events, Run(events))
    decreases |events|
  {
    hide Recompose, Settle, Addresses, Panes, ToSet, TilesAddressable;
    if events == [] {
      Nothing();
    } else {
      var before, e := events[..|events| - 1], events[|events| - 1];
      var s := Run(before);
      RunIsAccounted(before);
      forall p ensures Listed(before, p) ==> Listed(events, p)
               ensures e.Poll? && p in Addresses(e.sessions) ==> Listed(events, p) { ListedLater(events, p); }
      hide Listed;
      match e
      case Poll(sessions) =>
        RecomposeIs(s.(sessions := sessions));
      case Paint(p) =>
        InToSet(s.painted, p);
        if p !in s.painted {
          ToSetSnoc(s.painted, p);
          RecomposeIs(s.(painted := s.painted + [p]));
        }
      case End(p) =>
      case Press(p, watch) =>
        SettleIs(Pressed(s, p, watch));
    }
  }

  lemma Nothing()
    ensures TilesAddressable(START.tiles) && Panes(START.tiles) == {} && ToSet(START.painted) == {}
      && Addresses(START.sessions) == {}
  {
  }

  lemma ToSetSnoc(xs: seq<Pane>, p: Pane)
    ensures ToSet(xs + [p]) == ToSet(xs) + {p}
  {
  }

  // After a poll, a tile is in the index, or its row was listed by an earlier poll and its pane is
  // still streaming: no ghost pane.
  lemma NoGhostPane(events: seq<Event>, sessions: seq<Session>, p: Pane)
    requires p in Panes(Run(events + [Poll(sessions)]).tiles)
    ensures p in Addresses(sessions) || (Listed(events, p) && Streaming(events, p))
    ensures Streaming(events + [Poll(sessions)], p) == Streaming(events, p)
  {
    hide Recompose, Addresses, Panes, ToSet;
    var all := events + [Poll(sessions)];
    assert all[..|all| - 1] == events;
    RunIsAccounted(events);
    RecomposeIs(Run(events).(sessions := sessions));
  }

  // ---- exactly when a departed tile goes ----

  ghost predicate OnScreen(s: Screen, p: Pane) {
    p in Panes(s.tiles)
  }

  // On screen, painted, and no end of its stream pending.
  ghost predicate Reading(s: Screen, p: Pane) {
    OnScreen(s, p) && p in ToSet(s.painted) && p !in s.finished
  }

  // The operator is reading a pane whose stream goes on: while the grid is mounted no event but its own end
  // takes it away.
  lemma {:induction false} ReadingIsKept(s: Screen, events: seq<Event>, p: Pane)
    requires TilesAddressable(s.tiles) && Reading(s, p)
    requires End(p) !in events
    ensures Reading(RunFrom(s, events), p)
    decreases |events|
  {
    hide Recompose, Settle, Addresses, Panes, ToSet, TilesAddressable;
    if events != [] {
      StepKeeps(s, events[0]);
      assert forall e :: e in events[1..] ==> e in events;
      ReadingIsKept(Step(s, events[0]), events[1..], p);
    }
  }

  lemma StepKeeps(s: Screen, e: Event)
    requires TilesAddressable(s.tiles)
    ensures TilesAddressable(Step(s, e).tiles)
    ensures forall p :: Reading(s, p) && e != End(p) ==> Reading(Step(s, e), p)
  {
    hide Recompose, Settle, Addresses, Panes, ToSet, TilesAddressable;
    match e
    case Poll(sessions) => RecomposeIs(s.(sessions := sessions));
    case Paint(p) =>
      if p !in s.painted {
        ToSetSnoc(s.painted, p);
        RecomposeIs(s.(painted := s.painted + [p]));
      }
    case End(p) =>
    case Press(p, watch) => SettleIs(Pressed(s, p, watch));
  }

  // A departed pane whose stream has ended is gone at the next recomposition, and does not come back
  // until its row does.
  lemma StepSpends(s: Screen, e: Event, p: Pane)
    requires TilesAddressable(s.tiles) && p !in Addresses(s.sessions)
    requires e.Poll? ==> p !in Addresses(e.sessions)
    requires OnScreen(s, p) ==> p in s.finished
    ensures var s' := Step(s, e);
      && p !in Addresses(s'.sessions)
      && (OnScreen(s', p) ==> p in s'.finished)
      && (e.Poll? ==> !OnScreen(s', p))
  {
    hide Recompose, Settle, Addresses, Panes, ToSet, TilesAddressable;
    match e
    case Poll(sessions) => RecomposeIs(s.(sessions := sessions));
    case Paint(q) =>
      if q !in s.painted {
        ToSetSnoc(s.painted, q);
        RecomposeIs(s.(painted := s.painted + [q]));
      }
    case End(q) =>
    case Press(q, watch) => SettleIs(Pressed(s, q, watch));
  }

  lemma {:induction false} SpentIsGone(s: Screen, events: seq<Event>, p: Pane)
    requires TilesAddressable(s.tiles) && p !in Addresses(s.sessions)
    requires forall e :: e in events && e.Poll? ==> p !in Addresses(e.sessions)
    requires OnScreen(s, p) ==> p in s.finished
    requires events != [] && events[|events| - 1].Poll?
    ensures !OnScreen(RunFrom(s, events), p)
    decreases |events|
  {
    hide Step, Addresses, Panes, TilesAddressable;
    StepSpends(s, events[0], p);
    StepKeeps(s, events[0]);
    if |events| > 1 {
      assert forall e :: e in events[1..] ==> e in events;
      assert events[1..][|events| - 2] == events[|events| - 1];
      SpentIsGone(Step(s, events[0]), events[1..], p);
    } else {
      assert events[1..] == [];
    }
  }

  // Once its row has left, a painted tile is on screen after a poll if and only if no end of its stream
  // was pending and none was reported since; a repaint after the end does not save it.
  lemma {:induction false} RetainedExactly(s: Screen, events: seq<Event>, p: Pane)
    requires TilesAddressable(s.tiles) && OnScreen(s, p) && p in ToSet(s.painted)
    requires p !in Addresses(s.sessions) && forall e :: e in events && e.Poll? ==> p !in Addresses(e.sessions)
    requires events != [] && events[|events| - 1].Poll?
    ensures OnScreen(RunFrom(s, events), p) <==> p !in s.finished && End(p) !in events
    decreases |events|
  {
    hide Step, Addresses, Panes, ToSet, TilesAddressable;
    if p in s.finished {
      SpentIsGone(s, events, p);
    } else if End(p) !in events {
      ReadingIsKept(s, events, p);
    } else if events[0] == End(p) {
      EndMarks(s, p);
      StepKeeps(s, events[0]);
      assert events[1..] != [] && events[1..][|events| - 2] == events[|events| - 1];
      assert forall e :: e in events[1..] ==> e in events;
      SpentIsGone(Step(s, events[0]), events[1..], p);
    } else {
      StepKeeps(s, events[0]);
      StepIndex(s, events[0]);
      assert events == [events[0]] + events[1..];
      assert events[1..] != [] && events[1..][|events| - 2] == events[|events| - 1];
      assert forall e :: e in events[1..] ==> e in events;
      RetainedExactly(Step(s, events[0]), events[1..], p);
    }
  }

  lemma EndMarks(s: Screen, p: Pane)
    ensures p in Step(s, End(p)).finished && Step(s, End(p)).sessions == s.sessions && Step(s, End(p)).tiles == s.tiles
  {
  }

  lemma StepIndex(s: Screen, e: Event)
    requires TilesAddressable(s.tiles)
    ensures Step(s, e).sessions == if e.Poll? then e.sessions else s.sessions
  {
    hide Recompose, Settle, Addresses, Panes, ToSet, TilesAddressable;
    match e
    case Poll(sessions) => RecomposeIs(s.(sessions := sessions));
    case Paint(p) => if p !in s.painted { RecomposeIs(s.(painted := s.painted + [p])); }
    case End(p) =>
    case Press(p, watch) => SettleIs(Pressed(s, p, watch));
  }

  // What has gone stays gone until a poll lists it.
  lemma AbsentStaysAbsent(s: Screen, e: Event, p: Pane)
    requires TilesAddressable(s.tiles) && p !in Addresses(s.sessions) && !OnScreen(s, p)
    requires e.Poll? ==> p !in Addresses(e.sessions)
    ensures !OnScreen(Step(s, e), p) && p !in Addresses(Step(s, e).sessions)
  {
    hide Recompose, Settle, Addresses, Panes, ToSet, TilesAddressable;
    match e
    case Poll(sessions) => RecomposeIs(s.(sessions := sessions));
    case Paint(q) => if q !in s.painted { RecomposeIs(s.(painted := s.painted + [q])); }
    case End(q) =>
    case Press(q, watch) => SettleIs(Pressed(s, q, watch));
  }

  lemma {:induction false} AbsentOverRun(s: Screen, events: seq<Event>, p: Pane)
    requires TilesAddressable(s.tiles) && p !in Addresses(s.sessions) && !OnScreen(s, p)
    requires forall e :: e in events && e.Poll? ==> p !in Addresses(e.sessions)
    ensures !OnScreen(RunFrom(s, events), p)
    decreases |events|
  {
    hide Step, Addresses, Panes, TilesAddressable;
    if events != [] {
      AbsentStaysAbsent(s, events[0], p);
      StepKeeps(s, events[0]);
      assert forall e :: e in events[1..] ==> e in events;
      AbsentOverRun(Step(s, events[0]), events[1..], p);
    }
  }

  // What leaves the tiles as they are: every event but a poll and a first byte.
  lemma StepWithoutRender(s: Screen, e: Event)
    requires !e.Poll? && (e.Paint? ==> e.pane in s.painted)
    ensures var s' := Step(s, e);
      s'.tiles == s.tiles && s'.painted == s.painted && s'.sessions == s.sessions && s.finished <= s'.finished
  {
    if e.Press? { SettleIs(Pressed(s, e.pane, e.watch)); }
    hide Recompose, Settle;
  }

  // The end is spent by any recomposition, not only by a poll: with the end of a departed tile pending, the
  // tile is there between polls for exactly as long as no other pane paints for the first time.
  lemma {:induction false} EndIsSpentExactly(s: Screen, events: seq<Event>, p: Pane)
    requires TilesAddressable(s.tiles) && p !in Addresses(s.sessions)
    requires OnScreen(s, p) && p in s.finished && p in ToSet(s.painted)
    requires forall e <- events :: !e.Poll?
    ensures OnScreen(RunFrom(s, events), p) <==> forall q :: Paint(q) in events ==> q in s.painted
    decreases |events|
  {
    hide Step, Addresses, Panes, ToSet, TilesAddressable;
    if events != [] {
      var e, rest := events[0], events[1..];
      assert events == [e] + rest;
      assert forall x <- rest :: x in events;
      StepKeeps(s, e);
      if e.Paint? && e.pane !in s.painted {
        AnotherPaneSpendsTheEnd(s, e.pane, p);
        AbsentOverRun(Step(s, e), rest, p);
        assert Paint(e.pane) in events;
      } else {
        StepWithoutRender(s, e);
        EndIsSpentExactly(Step(s, e), rest, p);
      }
    }
  }

  lemma AnotherPaneSpendsTheEnd(s: Screen, q: Pane, p: Pane)
    requires TilesAddressable(s.tiles) && p !in Addresses(s.sessions) && p in s.finished && q !in s.painted
    ensures !OnScreen(Step(s, Paint(q)), p) && Step(s, Paint(q)).sessions == s.sessions
  {
    hide Recompose, Settle, Addresses, Panes, ToSet, TilesAddressable;
    RecomposeIs(s.(painted := s.painted + [q]));
  }

  // ---- sockets over whole runs ----

  // The listed panes something feeds.
  function Fed(sessions: seq<Session>): set<Pane> {
    set t | t in Collect(sessions, false, {}) && t.fed :: t.pane
  }

  lemma {:induction false} DialableMember(tiles: seq<Tile>, p: Pane)
    ensures p in Dialable(tiles) <==> exists t :: t in tiles && t.pane == p && (t.fed || t.retained)
  {
    if tiles != [] {
      assert tiles == [tiles[0]] + tiles[1..];
      DialableMember(tiles[1..], p);
    }
  }

  lemma DialableIs(sessions: seq<Session>, kept: seq<Session>)
    ensures ToSet(Dialable(Rows(sessions, kept))) == Fed(sessions) + (Addresses(kept) - Addresses(sessions))
  {
    hide Addresses, Panes, Sort, Collect, Dialable, TileLess;
    var a, b := Collect(sessions, false, {}), Collect(kept, true, Addresses(sessions));
    var tiles := Rows(sessions, kept);
    CollectIs(sessions, false, {});
    CollectIs(kept, true, Addresses(sessions));
    UnsortedIsDistinct(sessions, kept);
    SortIs(a + b);
    forall t ensures t in tiles <==> t in a || t in b { assert t in multiset(tiles) <==> t in multiset(a + b); }
    forall p ensures p in Dialable(tiles) <==> p in Fed(sessions) || p in Panes(b) {
      DialableMember(tiles, p);
      InPanes(b, p);
      if t :| t in tiles && t.pane == p && (t.fed || t.retained) {
        if t in a { assert !t.retained && t.fed; }
      }
      if t :| t in b && t.pane == p { assert t in tiles && t.retained; }
    }
  }

  lemma InPanes(tiles: seq<Tile>, p: Pane)
    ensures p in Panes(tiles) <==> exists t :: t in tiles && t.pane == p
  {
    if t :| t in tiles && t.pane == p { var i :| 0 <= i < |tiles| && tiles[i] == t; assert tiles[i].pane == p; }
    if p in Panes(tiles) { var i :| 0 <= i < |tiles| && tiles[i].pane == p; assert tiles[i] in tiles; }
  }

  lemma KeysOf(xs: seq<Pane>, p: Pane)
    ensures p in KeySet(RowsOf(xs)) <==> p in xs && Addressable(p)
  {
    var rows := RowsOf(xs);
    if p in KeySet(rows) { var i :| 0 <= i < |rows| && PaneTuple(rows[i]) == Some(p); assert xs[i] == p; }
    if p in xs && Addressable(p) { var i :| 0 <= i < |xs| && xs[i] == p; assert PaneTuple(rows[i]) == Some(p); }
  }

  // One arbitration on the grid's own tiles: within the cap, as full as the cap lets it be, only tiles
  // that may hold a socket and are not hidden; and no such tile that held one loses it.
  lemma SettleKeeps(s: Screen)
    requires TilesAddressable(s.tiles) && |s.subscribed| <= 16
    ensures var after, may := Settle(s).subscribed, ToSet(Dialable(s.tiles)) - ToSet(s.hidden);
      && Unique(after) && ToSet(after) <= may
      && |after| == (if |may| < 16 then |may| else 16)
      && ToSet(s.subscribed) * may <= ToSet(after)
  {
    hide Arbitrate, KeySet, Live, Retainable, Dialable, RowsOf, TilesAddressable, ToSet, Unique;
    var rows, cap := RowsOf(Dialable(s.tiles)), Finite(MAX_LIVE_PANES);
    var intents, current := Intents(None, RowsOf(s.watched), RowsOf(s.hidden)), RowsOf(s.subscribed);
    SettleSets(s);
    Bound(rows, cap, intents, current);
    Retention(rows, cap, intents, current);
    CapIsSixteen(rows, cap, intents, current);
    LiveIs(rows);
    var claim := ToSet(Retainable(rows, intents, current));
    ToSetCard(s.subscribed);
    SubsetCard(claim, ToSet(s.subscribed));
    SubsetCard(ToSet(Settle(s).subscribed) * claim, claim);
  }

  lemma LiveIs(rows: seq<Row>)
    ensures Live(rows) == KeySet(rows)
  {
  }

  // The arbiter's sets, in the grid's terms.
  lemma SettleSets(s: Screen)
    requires TilesAddressable(s.tiles)
    ensures var rows, hidden := KeySet(RowsOf(Dialable(s.tiles))), KeySet(RowsOf(s.hidden));
      var current := KeySet(RowsOf(s.subscribed));
      var may := ToSet(Dialable(s.tiles)) - ToSet(s.hidden);
      rows - hidden == may && current * rows - hidden == ToSet(s.subscribed) * may
  {
    hide KeySet, PaneTuple, Dialable, RowsOf, TilesAddressable, Addressable;
    forall p ensures p in Dialable(s.tiles) ==> Addressable(p) {
      if p in Dialable(s.tiles) { DialableAddressable(s.tiles, p); }
    }
    forall p ensures p in KeySet(RowsOf(Dialable(s.tiles))) <==> p in Dialable(s.tiles) && Addressable(p) {
      KeysOf(Dialable(s.tiles), p);
    }
    forall p ensures p in KeySet(RowsOf(s.hidden)) <==> p in s.hidden && Addressable(p) { KeysOf(s.hidden, p); }
    forall p ensures p in KeySet(RowsOf(s.subscribed)) <==> p in s.subscribed && Addressable(p) {
      KeysOf(s.subscribed, p);
    }
  }

  lemma CapIsSixteen(rows: seq<Row>, cap: Ceiling, intents: Intents, current: seq<Row>)
    requires cap == Finite(MAX_LIVE_PANES)
    ensures Arbitrate(rows, cap, intents, current).cap == 16
  {
  }

  lemma {:induction false} ToSetCard(xs: seq<Pane>)
    ensures |ToSet(xs)| <= |xs|
  {
    if xs != [] {
      assert xs == [xs[0]] + xs[1..];
      ToSetCard(xs[1..]);
      assert ToSet(xs) == {xs[0]} + ToSet(xs[1..]);
    }
  }

  lemma DialableAddressable(tiles: seq<Tile>, p: Pane)
    requires TilesAddressable(tiles) && p in Dialable(tiles)
    ensures Addressable(p)
  {
    hide PaneTuple, Panes, Dialable;
    DialableMember(tiles, p);
    InPanes(tiles, p);
  }

  // The panes whose socket a state may keep.
  ghost function May(s: Screen): set<Pane> {
    ToSet(Dialable(s.tiles)) - ToSet(s.hidden)
  }

  ghost predicate Sound(s: Screen) {
    && TilesAddressable(s.tiles)
    && Unique(s.subscribed) && |s.subscribed| <= 16
    && ToSet(s.subscribed) <= May(s)
    && |s.subscribed| == if |May(s)| < 16 then |May(s)| else 16
  }

  lemma ComposeKeeps(s: Screen)
    requires TilesAddressable(s.tiles) && |s.subscribed| <= 16
    ensures var s' := Compose(s); Sound(s') && ToSet(s.subscribed) * May(s') <= ToSet(s'.subscribed)
    ensures Compose(s).hidden == s.hidden
    ensures ToSet(Dialable(Compose(s).tiles))
      == Fed(s.sessions) + (Panes(s.tiles) * ToSet(s.painted) - Addresses(s.sessions))
  {
    hide Addresses, Panes, Rows, Settle, Dialable, Fed, ToSet, TilesAddressable, Unique, Kept;
    var shown := s.(tiles := Rows(s.sessions, Kept(s.tiles, s.painted)));
    ComposeIs(s);
    SettleIs(shown);
    SettleKeeps(shown);
    KeptIs(s.tiles, s.painted);
    DialableIs(s.sessions, Kept(s.tiles, s.painted));
  }

  // A recomposition, both renders of it, takes no socket from a tile that may still hold one.
  lemma RecomposeKeeps(s: Screen)
    requires TilesAddressable(s.tiles) && |s.subscribed| <= 16
    ensures Sound(Recompose(s)) && Recompose(s).hidden == s.hidden
    ensures var s' := Recompose(s); ToSet(s.subscribed) * May(s') <= ToSet(s'.subscribed)
  {
    hide Compose, Addresses, Panes, Fed, ToSet, Dialable, Without, TilesAddressable, Unique;
    ComposeKeeps(s);
    ComposeIs(s);
    var first := Compose(s);
    var spent := first.finished * ToSet(first.painted);
    if spent != {} {
      var next := first.(finished := first.finished - spent, painted := Without(first.painted, spent));
      WithoutIs(first.painted, spent);
      ComposeIs(next);
      ComposeKeeps(next);
      ComposeFrame(s);
      ComposeFrame(next);
      assert May(Compose(next)) <= May(first);
    }
  }

  lemma ComposeFrame(s: Screen)
    ensures Compose(s).sessions == s.sessions && Compose(s).hidden == s.hidden
    ensures Compose(s).painted == s.painted && Compose(s).finished == s.finished
  {
    SettleIs(s.(tiles := Rows(s.sessions, Kept(s.tiles, s.painted))));
    hide Settle, Rows;
  }

  // No event takes the socket of a pane that may still hold one; the cap never evicts.
  lemma NoEviction(s: Screen, e: Event)
    requires Sound(s)
    ensures Sound(Step(s, e))
    ensures ToSet(s.subscribed) * May(Step(s, e)) <= ToSet(Step(s, e).subscribed)
  {
    hide Recompose, Settle, Addresses, Panes, ToSet, TilesAddressable, Dialable, Unique, Without;
    match e
    case Poll(sessions) => RecomposeKeeps(s.(sessions := sessions));
    case Paint(p) => if p !in s.painted { RecomposeKeeps(s.(painted := s.painted + [p])); }
    case End(p) =>
    case Press(p, watch) =>
      SettleIs(Pressed(s, p, watch));
      SettleKeeps(Pressed(s, p, watch));
  }

  lemma {:induction false} RunIsSound(events: seq<Event>)
    ensures Sound(Run(events))
    decreases |events|
  {
    hide Step, TilesAddressable;
    if events == [] {
      Nothing();
    } else {
      RunIsSound(events[..|events| - 1]);
      NoEviction(Run(events[..|events| - 1]), events[|events| - 1]);
    }
  }

  lemma {:induction false} KeptMember(tiles: seq<Tile>, painted: seq<Pane>, row: Session)
    requires row in Kept(tiles, painted)
    ensures exists t :: t in tiles && row == SessionOf(t)
  {
    var rest := Kept(tiles[1..], painted);
    if row in rest {
      KeptMember(tiles[1..], painted, row);
      var t :| t in tiles[1..] && row == SessionOf(t);
      assert t in tiles;
    } else {
      assert tiles[0] in tiles && row == SessionOf(tiles[0]);
    }
  }

  ghost predicate SaysTheSame(t: Tile, u: Tile) {
    t.pane == u.pane && t.repo == (if u.repo == Some("") then None else u.repo) && t.detail == u.detail && !t.fed
  }

  // A kept tile goes on saying what it said; only its feed is gone.
  lemma KeptTilesSayTheSame(s: Screen, t: Tile)
    requires t in Compose(s).tiles && t.pane !in Addresses(s.sessions)
    ensures exists u :: u in s.tiles && SaysTheSame(t, u)
  {
    var kept := Kept(s.tiles, s.painted);
    SettleIs(s.(tiles := Rows(s.sessions, kept)));
    hide Settle, Rows, Addresses, Panes, Ordered;
    RowsAre(s.sessions, kept);
    TilesSayTheirRows(s.sessions, kept, t);
    var i :| 0 <= i < |kept| && IsFirstRow(kept, t.pane, i) && Says(t, kept[i]);
    KeptMember(s.tiles, s.painted, kept[i]);
    var u :| u in s.tiles && kept[i] == SessionOf(u);
    assert SaysTheSame(t, u);
  }

  // ---- who gets a slot ----

  // Exactly the tiles that are fed by their first live row, and the kept ones, may hold a socket.
  lemma DialableExactly(sessions: seq<Session>, kept: seq<Session>, p: Pane)
    ensures p in Dialable(Rows(sessions, kept))
       <==> (exists i :: 0 <= i < |sessions| && IsFirstRow(sessions, p, i) && sessions[i].fed)
            || p in Addresses(kept) - Addresses(sessions)
  {
    hide Rows, Addresses, Panes, Ordered, PaneTuple, Dialable;
    RowsAre(sessions, kept);
    DialableMember(Rows(sessions, kept), p);
    InPanes(Rows(sessions, kept), p);
    forall t | t in Rows(sessions, kept) && t.pane == p ensures TileIsFed(sessions, kept, t) {
      TileFedExactly(sessions, kept, t);
    }
    if i :| 0 <= i < |sessions| && IsFirstRow(sessions, p, i) && sessions[i].fed { FirstRowIsListed(sessions, p, i); }
  }

  ghost predicate TileIsFed(sessions: seq<Session>, kept: seq<Session>, t: Tile) {
    && (t.retained <==> t.pane in Addresses(kept) - Addresses(sessions))
    && (t.fed <==> exists i :: 0 <= i < |sessions| && IsFirstRow(sessions, t.pane, i) && sessions[i].fed)
  }

  lemma FirstRowIsListed(sessions: seq<Session>, p: Pane, i: nat)
    requires i < |sessions| && IsFirstRow(sessions, p, i)
    ensures p in Addresses(sessions)
  {
  }

  lemma FirstRowIsOne(sessions: seq<Session>, p: Pane, i: nat, j: nat)
    requires i < |sessions| && j < |sessions| && IsFirstRow(sessions, p, i) && IsFirstRow(sessions, p, j)
    ensures i == j
  {
  }

  lemma TileFedExactly(sessions: seq<Session>, kept: seq<Session>, t: Tile)
    requires t in Rows(sessions, kept)
    ensures TileIsFed(sessions, kept, t)
  {
    hide Rows, Addresses, Panes, Ordered, PaneTuple, IsFirstRow;
    RowsAre(sessions, kept);
    TileHasPane(Rows(sessions, kept), t);
    TilesSayTheirRows(sessions, kept, t);
    forall i: nat | i < |sessions| && IsFirstRow(sessions, t.pane, i) ensures t.pane in Addresses(sessions) {
      FirstRowIsListed(sessions, t.pane, i);
    }
    if t.pane in Addresses(sessions) {
      var j :| 0 <= j < |sessions| && IsFirstRow(sessions, t.pane, j) && Says(t, sessions[j]);
      forall i: nat | i < |sessions| && IsFirstRow(sessions, t.pane, i) ensures i == j {
        FirstRowIsOne(sessions, t.pane, i, j);
      }
    }
  }

  // Some tile of `p` stands before every tile of `q`.
  ghost predicate TileAhead(tiles: seq<Tile>, p: Pane, q: Pane) {
    exists i :: 0 <= i < |tiles| && tiles[i].pane == p && forall j :: 0 <= j <= i ==> tiles[j].pane != q
  }

  lemma {:induction false} DialableAhead(tiles: seq<Tile>, p: Pane, q: Pane)
    requires Ahead(Dialable(tiles), p, q) && q in Dialable(tiles)
    requires forall i, j :: 0 <= i < j < |tiles| ==> tiles[i].pane != tiles[j].pane
    ensures TileAhead(tiles, p, q)
  {
    hide Ahead;
    AheadDiffers(Dialable(tiles), p, q);
    var t, rest := tiles[0], Dialable(tiles[1..]);
    assert tiles == [t] + tiles[1..];
    if t.fed || t.retained {
      AheadTail(t.pane, rest, p, q);
      if t.pane == p {
        FirstTileIsAhead(tiles, p, q);
      } else {
        assert q in rest;
        DialableAhead(tiles[1..], p, q);
        TileAheadCons(tiles, p, q);
      }
    } else {
      assert [] + rest == rest;
      DialableMember(tiles[1..], q);
      DialableAhead(tiles[1..], p, q);
      var u :| u in tiles[1..] && u.pane == q && (u.fed || u.retained);
      TileAheadCons(tiles, p, q);
    }
  }

  lemma FirstTileIsAhead(tiles: seq<Tile>, p: Pane, q: Pane)
    requires tiles != [] && tiles[0].pane == p && p != q
    ensures TileAhead(tiles, p, q)
  {
  }

  lemma TileAheadCons(tiles: seq<Tile>, p: Pane, q: Pane)
    requires tiles != [] && TileAhead(tiles[1..], p, q) && tiles[0].pane != q
    ensures TileAhead(tiles, p, q)
  {
    var rest := tiles[1..];
    var i :| 0 <= i < |rest| && rest[i].pane == p && forall j :: 0 <= j <= i ==> rest[j].pane != q;
    forall j | 0 <= j <= i + 1 ensures tiles[j].pane != q { if j > 0 { assert tiles[j] == rest[j - 1]; } }
    assert tiles[i + 1].pane == p;
  }

  lemma RowsOfAhead(xs: seq<Pane>, p: Pane, q: Pane)
    requires RowAhead(RowsOf(xs), p, q) && Addressable(q)
    ensures Ahead(xs, p, q)
  {
    var rows := RowsOf(xs);
    var i :| 0 <= i < |rows| && PaneTuple(rows[i]) == Some(p) && NoRowOf(rows, q, i);
    assert xs[i] == p;
    forall j | 0 <= j <= i ensures xs[j] != q { assert PaneTuple(rows[j]) != Some(q); }
    assert q !in xs[..i + 1];
  }

  lemma WatchedRows(xs: seq<Pane>, hidden: seq<Pane>, p: Pane)
    requires Addressable(p)
    ensures IsWatched(Intents(None, RowsOf(xs), RowsOf(hidden)), p) <==> p in xs
  {
    var intents := Intents(None, RowsOf(xs), RowsOf(hidden));
    if p in xs { var i :| 0 <= i < |xs| && xs[i] == p; assert PaneTuple(intents.watched[i]) == Some(p); }
    if i :| 0 <= i < |intents.watched| && PaneTuple(intents.watched[i]) == Some(p) { assert xs[i] == p; }
  }

  // `p` gets a socket that `q` could have had.
  ghost predicate Passes(held: seq<Pane>, after: Screen, p: Pane, q: Pane) {
    p in after.subscribed && p !in held && q in May(after) && q !in after.subscribed
  }

  // The watched one before the other, and of two alike in that the one that stands first.
  ghost predicate ComesFirst(s: Screen, p: Pane, q: Pane) {
    && (q in s.watched ==> p in s.watched)
    && ((p in s.watched <==> q in s.watched) ==> TileAhead(s.tiles, p, q))
  }

  // A watch counts: of two tiles that may hold a socket, the one that newly gets it comes first.
  lemma SlotsGoByIntent(s: Screen, p: Pane, q: Pane)
    requires TilesAddressable(s.tiles) && Distinct(s.tiles)
    ensures Passes(s.subscribed, Settle(s), p, q) ==> ComesFirst(s, p, q)
  {
    hide Settle, May, TilesAddressable, Distinct, ComesFirst;
    SettleIs(s);
    SettledMay(s);
    if Passes(s.subscribed, Settle(s), p, q) { PassedComesFirst(s, p, q); }
  }

  lemma SettledMay(s: Screen)
    ensures May(Settle(s)) == May(s)
  {
    SettleIs(s);
    hide Settle;
  }

  lemma PassedComesFirst(s: Screen, p: Pane, q: Pane)
    requires TilesAddressable(s.tiles) && Distinct(s.tiles)
    requires p in Settle(s).subscribed && p !in s.subscribed
    requires q in May(s) && q !in Settle(s).subscribed
    ensures ComesFirst(s, p, q)
  {
    hide Arbitrate, KeySet, Live, Retainable, RowsOf, Dialable, Ahead, RowAhead, PaneTuple, TilesAddressable, IsWatched;
    var rows, cap := RowsOf(Dialable(s.tiles)), Finite(MAX_LIVE_PANES);
    var intents, current := Intents(None, RowsOf(s.watched), RowsOf(s.hidden)), RowsOf(s.subscribed);
    SettleSets(s);
    LiveIs(rows);
    RetainableIs(rows, intents, current);
    assert p in ToSet(Retainable(rows, intents, current)) <==> p in Retainable(rows, intents, current);
    Bound(rows, cap, intents, current);
    assert p in ToSet(Settle(s).subscribed);
    assert p in May(s);
    assert q in Dialable(s.tiles) && p in Dialable(s.tiles);
    DialableAddressable(s.tiles, q);
    DialableAddressable(s.tiles, p);
    KeysOf(s.subscribed, p);
    NewcomersOutrank(rows, cap, intents, current, p, q);
    WatchedRows(s.watched, s.hidden, p);
    WatchedRows(s.watched, s.hidden, q);
    if RowAhead(rows, p, q) {
      RowsOfAhead(Dialable(s.tiles), p, q);
      DialableAhead(s.tiles, p, q);
    }
  }

  // No pane has two tiles.
  lemma {:induction false} TilesAreDistinct(events: seq<Event>)
    ensures Distinct(Run(events).tiles)
    decreases |events|
  {
    hide Settle, Rows, Distinct;
    if events == [] {
      NothingIsDistinct();
    } else {
      var s, e := Run(events[..|events| - 1]), events[|events| - 1];
      TilesAreDistinct(events[..|events| - 1]);
      match e
      case Poll(sessions) => RecomposedTiles(s.(sessions := sessions));
      case Paint(p) => RecomposedTiles(s.(painted := s.painted + [p]));
      case End(p) =>
      case Press(p, watch) => SettleIs(Pressed(s, p, watch));
    }
  }

  lemma NothingIsDistinct()
    ensures Distinct(START.tiles)
  {
  }

  lemma RecomposedTiles(s: Screen)
    ensures Distinct(Recompose(s).tiles)
  {
    hide Settle, Rows, Distinct, Kept;
    ComposedTiles(s);
    var first := Compose(s);
    var spent := first.finished * ToSet(first.painted);
    if spent != {} {
      ComposedTiles(first.(finished := first.finished - spent, painted := Without(first.painted, spent)));
    }
  }

  lemma ComposedTiles(s: Screen)
    ensures Distinct(Compose(s).tiles)
  {
    RowsAreDistinct(s.sessions, Kept(s.tiles, s.painted));
    SettleIs(s.(tiles := Rows(s.sessions, Kept(s.tiles, s.painted))));
    hide Settle, Rows, Distinct, Kept;
  }

  // So after any run a press counts: a pane that gets a slot by it, while `q` could have had one, is watched if `q`
  // is, and stands first if both are or neither is.
  lemma PressCounts(events: seq<Event>, press: Event, p: Pane, q: Pane)
    requires press.Press?
    ensures var s, s' := Run(events), Step(Run(events), press); Passes(s.subscribed, s', p, q) ==> ComesFirst(s', p, q)
  {
    var pressed := Pressed(Run(events), press.pane, press.watch);
    SettleIs(pressed);
    TilesAreDistinct(events);
    RunIsAccounted(events);
    hide Run, Settle, TileAhead, Distinct, TilesAddressable, Dialable, ToSet, Without, Passes;
    SlotsGoByIntent(pressed, p, q);
  }

  // ---- the operator's presses over whole runs ----

  lemma {:induction false} PressesAreKept(events: seq<Event>)
    ensures var s := Run(events);
      && Unique(s.watched) && Unique(s.hidden)
      && (forall p :: p in ToSet(s.watched) <==> LastPress(events, p) == Some(true))
      && (forall p :: p in ToSet(s.hidden) <==> LastPress(events, p) == Some(false))
    decreases |events|
  {
    hide Recompose, Settle, ToSet, Unique, Without;
    if events == [] {
      NoPresses();
    } else {
      var before, e := events[..|events| - 1], events[|events| - 1];
      var s := Run(before);
      PressesAreKept(before);
      RunIsAccounted(before);
      match e
      case Poll(sessions) => RecomposeIs(s.(sessions := sessions));
      case Paint(p) => if p !in s.painted { RecomposeIs(s.(painted := s.painted + [p])); }
      case End(p) =>
      case Press(p, watch) =>
        SettleIs(Pressed(s, p, watch));
        WithoutIs(s.watched, {p});
        WithoutIs(s.hidden, {p});
        SnocIs(Without(s.watched, {p}), p);
        SnocIs(Without(s.hidden, {p}), p);
    }
  }

  lemma NoPresses()
    ensures ToSet([]) == {} && Unique([])
  {
  }

  lemma SnocIs(xs: seq<Pane>, p: Pane)
    requires p !in ToSet(xs)
    ensures ToSet(xs + [p]) == ToSet(xs) + {p}
    ensures Unique(xs) ==> Unique(xs + [p])
  {
    assert multiset(xs + [p]) == multiset(xs) + multiset{p};
    assert p !in multiset(xs);
  }

  // ---- the component ----

  class Component {
    var sessions: seq<Session>      // the polled status
    var previous: seq<Tile>         // previousRef: the tiles on screen
    var painted: seq<Pane>
    var finished: set<Pane>         // finishedRef
    var watched: seq<Pane>
    var hidden: seq<Pane>
    var subscribed: seq<Pane>

    function Shown(): Screen
      reads this
    {
      Screen(sessions, previous, painted, finished, watched, hidden, subscribed)
    }

    constructor ()
      ensures Shown() == START
    {
      sessions, previous, painted, finished := [], [], [], {};
      watched, hidden, subscribed := [], [], [];
    }

    method Arbiter()
      modifies this`subscribed
      ensures Shown() == Settle(old(Shown()))
    {
      var intents := Intents(None, RowsOf(watched), RowsOf(hidden));
      var answer := SubscribedPaneSet(RowsOf(Dialable(previous)), Finite(MAX_LIVE_PANES), intents, RowsOf(subscribed));
      subscribed := answer.subscribed;
    }

    // One commit and its effects; the result says which finished panes lost their retention.
    method Commit() returns (spent: set<Pane>)
      modifies this`previous, this`subscribed
      ensures Shown() == Compose(old(Shown()))
      ensures spent == finished * ToSet(painted)
    {
      hide Arbitrate, Rows;
      previous := Rows(sessions, Kept(previous, painted));
      Arbiter();
      spent := set p | p in finished && p in painted;
    }

    method Render()
      modifies this
      ensures Shown() == Recompose(old(Shown()))
    {
      hide Compose;
      label before:
      var spent := Commit();
      if spent == {} { return; }
      finished := finished - spent;
      painted := Without(painted, spent);
      assert Shown() == Compose(old@before(Shown())).(finished := finished, painted := painted);
      var none := Commit();
    }

    method OnPoll(status: seq<Session>)
      modifies this
      ensures Shown() == Step(old(Shown()), Poll(status))
    {
      hide Recompose;
      sessions := status;
      Render();
    }

    // A pane reports a byte, the end of its stream, both or neither. The byte is queued for the next render and
    // the end is marked at once, so the end counts first.
    method Report(key: Pane, byte: bool, over: bool)
      modifies this
      ensures Shown() == RunFrom(old(Shown()), (if over then [End(key)] else []) + (if byte then [Paint(key)] else []))
    {
      hide Recompose;
      ghost var s := old(Shown());
      assert [End(key)] + [] == [End(key)] && [] + [Paint(key)] == [Paint(key)];
      assert RunFrom(s, [End(key)]) == Step(s, End(key));
      assert RunFrom(s, [Paint(key)]) == Step(s, Paint(key));
      assert ([End(key)] + [Paint(key)])[1..] == [Paint(key)];
      assert RunFrom(s, [End(key), Paint(key)]) == RunFrom(Step(s, End(key)), [Paint(key)]);
      if over { assert RunFrom(Step(s, End(key)), [Paint(key)]) == Step(Step(s, End(key)), Paint(key)); }
      if over { finished := finished + {key}; }
      if byte && key !in painted {
        painted := painted + [key];
        Render();
      }
    }

    method Watch(pane: Pane, next: bool)
      modifies this
      ensures Shown() == Step(old(Shown()), Press(pane, next))
    {
      hide Settle, Recompose, Without;
      var keptWatched, keptHidden := Without(watched, {pane}), Without(hidden, {pane});
      watched := if next then keptWatched + [pane] else keptWatched;
      hidden := if next then keptHidden else keptHidden + [pane];
      Arbiter();
    }
  }
}
