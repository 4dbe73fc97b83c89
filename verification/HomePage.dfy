/**
  `apps/ui/src/home/Home.tsx` around the session grid: which polls the grid is mounted for. A poll that lists no
  session takes the grid down with all its state, and the next one that does puts up an empty one. The first load
  and its retry never meet a mounted grid, so the page here begins once it has a payload.
 */
module HomePage {
  import opened Wrappers
  import opened SocketCap
  import opened Grid
  import opened SessionGrid

  // What `page-state.mjs` calls addressable: both halves of the tuple, blank or not.
  predicate HasTuple(s: Session) {
    && s.address.nodeId.Some? && s.address.nodeId.value != ""
    && s.address.sessionId.Some? && s.address.sessionId.value != ""
  }

  predicate Populated(sessions: seq<Session>) {
    exists i :: 0 <= i < |sessions| && HasTuple(sessions[i])
  }

  // The grid, while there is one. What a pane or a press reports to a grid that is gone is lost.
  function PageStep(page: Option<Screen>, e: Event): Option<Screen> {
    if e.Poll? then
      if !Populated(e.sessions) then None
      else Some(SessionGrid.Step(if page.Some? then page.value else START, e))
    else if page.Some? then Some(SessionGrid.Step(page.value, e))
    else None
  }

  function PageRunFrom(page: Option<Screen>, events: seq<Event>): Option<Screen>
    decreases |events|
  {
    if events == [] then page else PageRunFrom(PageStep(page, events[0]), events[1..])
  }

  function PageRun(events: seq<Event>): Option<Screen> {
    if events == [] then None else PageStep(PageRun(events[..|events| - 1]), events[|events| - 1])
  }

  ghost predicate AllPopulated(events: seq<Event>) {
    forall e <- events :: e.Poll? ==> Populated(e.sessions)
  }

  // ---- runs ----

  lemma {:induction false} RunFromConcat(page: Option<Screen>, a: seq<Event>, b: seq<Event>)
    ensures PageRunFrom(page, a + b) == PageRunFrom(PageRunFrom(page, a), b)
    decreases |a|
  {
    hide Step;
    if a == [] {
      assert a + b == b;
    } else {
      assert (a + b)[1..] == a[1..] + b;
      RunFromConcat(PageStep(page, a[0]), a[1..], b);
    }
  }

  lemma RunFromOne(page: Option<Screen>, e: Event)
    ensures PageRunFrom(page, [e]) == PageStep(page, e)
  {
    hide Step;
    assert [e][1..] == [];
  }

  // The first poll that lists nothing, and what comes before and after it.
  lemma EmptyPollAt(page: Option<Screen>, events: seq<Event>) returns (i: nat)
    requires !AllPopulated(events)
    ensures i < |events| && PageRunFrom(page, events[..i + 1]) == None
    ensures PageRunFrom(page, events) == PageRunFrom(None, events[i + 1..])
  {
    i :| 0 <= i < |events| && events[i].Poll? && !Populated(events[i].sessions);
    assert events[..i + 1] == events[..i] + [events[i]] && events == events[..i + 1] + events[i + 1..];
    RunFromConcat(page, events[..i], [events[i]]);
    RunFromOne(PageRunFrom(page, events[..i]), events[i]);
    RunFromConcat(page, events[..i + 1], events[i + 1..]);
  }

  // Polls that list a session leave the grid to itself.
  lemma {:induction false} GridRunsOn(s: Screen, events: seq<Event>)
    requires AllPopulated(events)
    ensures PageRunFrom(Some(s), events) == Some(SessionGrid.RunFrom(s, events))
    decreases |events|
  {
    hide SessionGrid.Step, Populated;
    if events != [] {
      assert events[0] in events && forall e <- events[1..] :: e in events;
      GridRunsOn(SessionGrid.Step(s, events[0]), events[1..]);
    }
  }

  // The events the grid that is up has seen: none from before it was mounted.
  function Life(events: seq<Event>): seq<Event> {
    if events == [] then []
    else
      var before, e := Life(events[..|events| - 1]), events[|events| - 1];
      if e.Poll? then (if Populated(e.sessions) then before + [e] else [])
      else if before == [] then [] else before + [e]
  }

  lemma GridSnoc(events: seq<Event>, e: Event)
    ensures SessionGrid.Run(events + [e]) == SessionGrid.Step(SessionGrid.Run(events), e)
    ensures SessionGrid.Run([]) == START
  {
    hide SessionGrid.Step;
    assert (events + [e])[..|events|] == events;
  }

  lemma LifeSnoc(events: seq<Event>, e: Event)
    ensures Life(events + [e]) ==
      if e.Poll? && !Populated(e.sessions) then []
      else if e.Poll? || Life(events) != [] then Life(events) + [e]
      else []
    ensures PageRun(events + [e]) == PageStep(PageRun(events), e)
    ensures Life([]) == [] && PageRun([]) == None
  {
    hide PageStep, Populated;
    assert (events + [e])[..|events|] == events;
  }

  // The page is the run of the grid over its own life, and no more.
  lemma {:induction false} PageIsOneLife(events: seq<Event>)
    ensures PageRun(events) == if Life(events) == [] then None else Some(SessionGrid.Run(Life(events)))
    ensures AllPopulated(Life(events))
    decreases |events|
  {
    hide SessionGrid.Step, SessionGrid.Run, Populated, Life, PageRun;
    if events == [] {
      LifeSnoc([], End(Pane("", "")));
    } else {
      var before, e := events[..|events| - 1], events[|events| - 1];
      assert events == before + [e];
      PageIsOneLife(before);
      LifeSnoc(before, e);
      GridSnoc(Life(before), e);
      assert forall x <- Life(before) + [e] :: x in Life(before) || x == e;
    }
  }

  // After any poll, of any page, the grid is up if and only if some listed row has a node id and a session id that
  // are not empty.
  lemma GridIsUpExactly(page: Option<Screen>, sessions: seq<Session>)
    ensures PageStep(page, Poll(sessions)).Some?
       <==> exists s :: s in sessions && NamesBoth(s.address.nodeId, s.address.sessionId)
  {
    hide SessionGrid.Step;
    if i :| 0 <= i < |sessions| && HasTuple(sessions[i]) {
      assert sessions[i] in sessions && NamesBoth(sessions[i].address.nodeId, sessions[i].address.sessionId);
    }
    if s :| s in sessions && NamesBoth(s.address.nodeId, s.address.sessionId) {
      var i :| 0 <= i < |sessions| && sessions[i] == s;
      assert HasTuple(sessions[i]);
    }
  }

  ghost predicate NamesBoth(nodeId: Option<string>, sessionId: Option<string>) {
    nodeId.Some? && sessionId.Some? && |nodeId.value| > 0 && |sessionId.value| > 0
  }

  lemma ListingPopulates(sessions: seq<Session>)
    ensures Addresses(sessions) != {} ==> Populated(sessions)
  {
    if p :| p in Addresses(sessions) {
      var i :| 0 <= i < |sessions| && PaneTuple(sessions[i].address) == Some(p);
      assert HasTuple(sessions[i]);
    }
  }

  lemma PollShows(page: Option<Screen>, sessions: seq<Session>, p: Pane)
    requires page.Some? ==> TilesAddressable(page.value.tiles)
    requires p in Addresses(sessions)
    ensures Shows(PageStep(page, Poll(sessions)), p)
  {
    ListingPopulates(sessions);
    Nothing();
    hide Addresses, Recompose, TilesAddressable, Panes, Populated, ToSet;
    var s := if page.Some? then page.value else START;
    RecomposeIs(s.(sessions := sessions));
  }

  // And in every run each pane the poll lists is then a tile of it.
  lemma ListedIsShown(events: seq<Event>, sessions: seq<Session>)
    ensures Addresses(sessions) != {} ==> PageRun(events + [Poll(sessions)]).Some?
    ensures forall p <- Addresses(sessions) :: Shows(PageRun(events + [Poll(sessions)]), p)
  {
    hide Addresses, TilesAddressable, SessionGrid.Run, SessionGrid.Step, Populated, PageRun, OnScreen, Life;
    LifeSnoc(events, Poll(sessions));
    PageIsOneLife(events);
    RunIsAccounted(Life(events));
    ListingPopulates(sessions);
    forall p | p in Addresses(sessions) ensures Shows(PageStep(PageRun(events), Poll(sessions)), p) {
      PollShows(PageRun(events), sessions, p);
    }
  }

  // ---- retention, on the page ----

  ghost predicate Reads(page: Option<Screen>, p: Pane) {
    page.Some? && Reading(page.value, p)
  }

  ghost predicate Shows(page: Option<Screen>, p: Pane) {
    page.Some? && OnScreen(page.value, p)
  }

  // A tile whose stream goes on is read throughout a run if and only if each poll in it lists some session.
  lemma ReadingIsKeptExactly(s: Screen, events: seq<Event>, p: Pane)
    requires TilesAddressable(s.tiles) && Reading(s, p)
    requires End(p) !in events
    ensures (forall k :: 0 <= k <= |events| ==> Reads(PageRunFrom(Some(s), events[..k]), p)) <==> AllPopulated(events)
  {
    hide Reading, TilesAddressable, SessionGrid.RunFrom;
    if AllPopulated(events) {
      forall k | 0 <= k <= |events| ensures Reads(PageRunFrom(Some(s), events[..k]), p) {
        assert forall e :: e in events[..k] ==> e in events;
        GridRunsOn(s, events[..k]);
        ReadingIsKept(s, events[..k], p);
      }
    } else {
      var i := EmptyPollAt(Some(s), events);
      assert !Reads(PageRunFrom(Some(s), events[..i + 1]), p);
    }
  }

  lemma FirstPollIs(row: Session, p: Pane)
    requires PaneTuple(row.address) == Some(p)
    ensures var s := SessionGrid.Step(START, Poll([row]));
      TilesAddressable(s.tiles) && OnScreen(s, p) && s.painted == [] && s.finished == {}
    ensures Populated([row])
  {
    assert HasTuple([row][0]);
    assert p in Addresses([row]) by { assert PaneTuple([row][0].address) == Some(p); }
    Nothing();
    hide Recompose, Addresses, Panes, ToSet, TilesAddressable;
    RecomposeIs(START.(sessions := [row]));
    NoneIsEmpty(SessionGrid.Step(START, Poll([row])).painted);
  }

  lemma NoneIsEmpty(xs: seq<Pane>)
    ensures ToSet(xs) == {} <==> xs == []
  {
    if xs != [] { assert xs[0] in ToSet(xs); }
  }

  lemma FirstByteReads(s: Screen, p: Pane)
    requires TilesAddressable(s.tiles) && OnScreen(s, p) && s.painted == [] && s.finished == {}
    ensures Reading(SessionGrid.Step(s, Paint(p)), p)
  {
    hide Recompose, Addresses, Panes, ToSet, TilesAddressable;
    ToSetSnoc([], p);
    assert [] + [p] == [p];
    RecomposeIs(s.(painted := [p]));
  }

  // So the page's only session is never kept: it is read, its row leaves, and the grid leaves with it.
  lemma OnlySessionIsNotKept(row: Session, p: Pane, left: seq<Session>)
    requires PaneTuple(row.address) == Some(p) && !Populated(left)
    ensures Reads(PageRun([Poll([row]), Paint(p)]), p)
    ensures PageRun([Poll([row]), Paint(p), Poll(left)]) == None
  {
    hide SessionGrid.Step, Populated, Reading, OnScreen, TilesAddressable, PageRun;
    LifeSnoc([], Poll([row]));
    LifeSnoc([Poll([row])], Paint(p));
    LifeSnoc([Poll([row]), Paint(p)], Poll(left));
    assert [] + [Poll([row])] == [Poll([row])] && [Poll([row])] + [Paint(p)] == [Poll([row]), Paint(p)];
    assert [Poll([row]), Paint(p)] + [Poll(left)] == [Poll([row]), Paint(p), Poll(left)];
    FirstPollIs(row, p);
    FirstByteReads(SessionGrid.Step(START, Poll([row])), p);
  }

  // A grid that comes back knows nothing of the one that was there.
  lemma RestartForgets(page: Option<Screen>, gone: seq<Session>, back: seq<Session>)
    requires !Populated(gone) && Populated(back)
    ensures var again := PageStep(PageStep(page, Poll(gone)), Poll(back));
      && again == PageRun([Poll(back)]) && again.Some?
      && Panes(again.value.tiles) == Addresses(back)
      && ToSet(again.value.painted) == {} && again.value.watched == [] && again.value.hidden == []
  {
    assert [Poll(back)][..0] == [];
    Nothing();
    hide Recompose, Addresses, Panes, ToSet, TilesAddressable, Populated;
    RecomposeIs(START.(sessions := back));
  }

  lemma {:induction false} NeverShown(page: Option<Screen>, events: seq<Event>, p: Pane)
    requires page.Some? ==> TilesAddressable(page.value.tiles) && p !in Addresses(page.value.sessions)
    requires page.Some? ==> !OnScreen(page.value, p)
    requires forall e :: e in events && e.Poll? ==> p !in Addresses(e.sessions)
    ensures !Shows(PageRunFrom(page, events), p)
    decreases |events|
  {
    hide SessionGrid.Step, Populated, TilesAddressable, OnScreen, Addresses;
    if events != [] {
      NothingShown(p);
      var s := if page.Some? then page.value else START;
      StepKeeps(s, events[0]);
      AbsentStaysAbsent(s, events[0], p);
      assert forall e :: e in events[1..] ==> e in events;
      NeverShown(PageStep(page, events[0]), events[1..], p);
    }
  }

  lemma NothingShown(p: Pane)
    ensures TilesAddressable(START.tiles) && p !in Addresses(START.sessions) && !OnScreen(START, p)
  {
    Nothing();
  }

  // Once its row has left, a painted tile is on screen after a poll if and only if no end of its stream was
  // pending or reported since and each poll listed some other session.
  lemma RetainedExactly(s: Screen, events: seq<Event>, p: Pane)
    requires TilesAddressable(s.tiles) && OnScreen(s, p) && p in ToSet(s.painted)
    requires p !in Addresses(s.sessions) && forall e :: e in events && e.Poll? ==> p !in Addresses(e.sessions)
    requires events != [] && events[|events| - 1].Poll?
    ensures Shows(PageRunFrom(Some(s), events), p) <==> p !in s.finished && End(p) !in events && AllPopulated(events)
  {
    hide Addresses, TilesAddressable, OnScreen, ToSet, SessionGrid.RunFrom;
    if AllPopulated(events) {
      GridRunsOn(s, events);
      SessionGrid.RetainedExactly(s, events, p);
    } else {
      var i := EmptyPollAt(Some(s), events);
      assert forall e :: e in events[i + 1..] ==> e in events;
      NeverShown(None, events[i + 1..], p);
    }
  }

  // Between polls, a departed tile whose end is pending is there exactly until another pane's first byte.
  lemma EndIsSpentExactly(s: Screen, events: seq<Event>, p: Pane)
    requires TilesAddressable(s.tiles) && p !in Addresses(s.sessions)
    requires OnScreen(s, p) && p in s.finished && p in ToSet(s.painted)
    requires forall e <- events :: !e.Poll?
    ensures Shows(PageRunFrom(Some(s), events), p) <==> forall q :: Paint(q) in events ==> q in s.painted
  {
    hide Addresses, TilesAddressable, OnScreen, ToSet, SessionGrid.RunFrom;
    GridRunsOn(s, events);
    SessionGrid.EndIsSpentExactly(s, events, p);
  }

  // A finished tile whose row has left is gone after the next poll, and stays gone until its row returns.
  lemma SpentIsGone(page: Option<Screen>, events: seq<Event>, p: Pane)
    requires page.Some? ==> TilesAddressable(page.value.tiles) && p !in Addresses(page.value.sessions)
    requires page.Some? && OnScreen(page.value, p) ==> p in page.value.finished
    requires forall e :: e in events && e.Poll? ==> p !in Addresses(e.sessions)
    requires events != [] && events[|events| - 1].Poll?
    ensures !Shows(PageRunFrom(page, events), p)
  {
    hide Addresses, TilesAddressable, OnScreen, SessionGrid.RunFrom;
    if page.None? {
      NeverShown(None, events, p);
    } else if AllPopulated(events) {
      GridRunsOn(page.value, events);
      SessionGrid.SpentIsGone(page.value, events, p);
    } else {
      var i := EmptyPollAt(page, events);
      assert forall e :: e in events[i + 1..] ==> e in events;
      NeverShown(None, events[i + 1..], p);
    }
  }

  // No ghost pane: a tile after a poll is listed by it, or since this grid went up an earlier poll listed it and
  // the last thing it reported is that it paints.
  lemma NoGhostPane(events: seq<Event>, sessions: seq<Session>, p: Pane)
    requires Shows(PageRun(events + [Poll(sessions)]), p)
    ensures p in Addresses(sessions) || (Listed(Life(events), p) && Streaming(Life(events), p))
  {
    hide SessionGrid.Run, Addresses, OnScreen, Listed, Streaming, Populated;
    var all := events + [Poll(sessions)];
    assert all[..|all| - 1] == events;
    PageIsOneLife(all);
    PanesOfShown(PageRun(all).value, p);
    SessionGrid.NoGhostPane(Life(events), sessions, p);
  }

  lemma PanesOfShown(s: Screen, p: Pane)
    ensures OnScreen(s, p) <==> p in Panes(s.tiles)
  {
  }

  // ---- sockets and intents, on the page ----

  // The page lets go of its sockets in one way only, a poll that lists no session; any other event keeps the
  // socket of every tile that may still hold one.
  lemma NoEviction(s: Screen, e: Event)
    requires Sound(s)
    ensures PageStep(Some(s), e) == None <==> e.Poll? && !Populated(e.sessions)
    ensures var next := PageStep(Some(s), e);
      next.Some? ==> Sound(next.value) && ToSet(s.subscribed) * May(next.value) <= ToSet(next.value.subscribed)
  {
    hide Sound, SessionGrid.Step, May, ToSet, Populated;
    SessionGrid.NoEviction(s, e);
  }

  lemma RunIsSound(events: seq<Event>)
    ensures PageRun(events).Some? ==> Sound(PageRun(events).value)
  {
    hide Sound, SessionGrid.Run;
    PageIsOneLife(events);
    SessionGrid.RunIsSound(Life(events));
  }

  // The intents are what the operator pressed last on each pane since this grid went up.
  lemma PressesAreKept(events: seq<Event>)
    requires PageRun(events).Some?
    ensures var s := PageRun(events).value;
      && Unique(s.watched) && Unique(s.hidden)
      && (forall p :: p in ToSet(s.watched) <==> LastPress(Life(events), p) == Some(true))
      && (forall p :: p in ToSet(s.hidden) <==> LastPress(Life(events), p) == Some(false))
  {
    hide SessionGrid.Run, Unique, ToSet, LastPress;
    PageIsOneLife(events);
    SessionGrid.PressesAreKept(Life(events));
  }

  // ---- the component ----

  class Home {
    var grid: Component?

    ghost function Shown(): Option<Screen>
      reads this, grid
    {
      if grid == null then None else Some(grid.Shown())
    }

    constructor ()
      ensures Shown() == None
    {
      grid := null;
    }

    method OnPoll(status: seq<Session>)
      modifies this, grid
      ensures Shown() == PageStep(old(Shown()), Poll(status))
      ensures grid == null || grid == old(grid) || fresh(grid)
      ensures grid != null <==> exists s :: s in status && NamesBoth(s.address.nodeId, s.address.sessionId)
    {
      hide SessionGrid.Step;
      GridIsUpExactly(old(Shown()), status);
      if !Populated(status) {
        grid := null;
        return;
      }
      if grid == null { grid := new Component(); }
      grid.OnPoll(status);
    }
  }
}
