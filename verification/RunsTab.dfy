/**
  The runs tab of `apps/ui/src/board/DetailPanel.tsx`: numbered requests of which only the latest applies.
  `load` is modelled by what it does before its await (`Begin`) and after it (`Settle`), with any events
  in between. A stopped poll starts no request, so every request is for the item on show.
 */
module RunsTab {
  import opened Wrappers

  // `fetchedAt` is when the answer came; the strip prints it as "refreshed … ago".
  datatype View = Loading | Ready(item: string, runs: string, fetchedAt: int) | Failed

  datatype Request = Request(item: string, silent: bool)

  datatype Tab = Tab(
    item: string, view: View,
    req: nat,                         // reqRef
    lastRuns: Option<string>,
    pending: map<nat, Request>,
    applied: seq<nat>)                // the requests whose outcome reached the view

  datatype Outcome = Runs(body: string, at: int) | Error

  datatype Event =
    | Open(item: string)              // the tab mounts, or its item changes
    | Poll                            // the cadence, or the refresh control
    | Settle(n: nat, outcome: Outcome)

  const CLOSED := Tab("", Loading, 0, None, map[], [])

  function Begin(t: Tab, silent: bool): Tab {
    t.(req := t.req + 1,
       view := if silent then t.view else Loading,
       pending := t.pending[t.req + 1 := Request(t.item, silent)])
  }

  function Finish(t: Tab, n: nat, outcome: Outcome): Tab
    requires n in t.pending
  {
    var silent := t.pending[n].silent;
    var rest := t.(pending := t.pending - {n});
    if t.req != n then rest
    else match outcome
      case Runs(body, at) =>
        rest.(view := Ready(t.pending[n].item, body, at), lastRuns := Some(body), applied := t.applied + [n])
      case Error => if silent then rest else rest.(view := Failed, applied := t.applied + [n])
  }

  function Step(t: Tab, e: Event): Tab {
    match e
    case Open(item) => Begin(t.(item := item), false)
    case Poll => Begin(t, true)
    case Settle(n, outcome) => if n in t.pending then Finish(t, n, outcome) else t
  }

  function Run(events: seq<Event>): Tab {
    if events == [] then CLOSED else Step(Run(events[..|events| - 1]), events[|events| - 1])
  }

  // ---- what every run keeps ----

  ghost predicate Increasing(xs: seq<nat>) {
    forall i, j :: 0 <= i < j < |xs| ==> xs[i] < xs[j]
  }

  ghost predicate Sound(t: Tab) {
    && (forall n <- t.pending :: 1 <= n <= t.req)
    && (t.req in t.pending ==> t.pending[t.req].item == t.item)
    && (t.req in t.pending && !t.pending[t.req].silent ==> t.view == Loading)
    && (t.view.Ready? ==> t.view.item == t.item && t.lastRuns == Some(t.view.runs))
    && Increasing(t.applied)
    && (forall i :: 0 <= i < |t.applied| ==> t.applied[i] <= t.req)
    && (t.applied != [] && t.applied[|t.applied| - 1] == t.req ==> t.req !in t.pending)
  }

  lemma StepKeeps(t: Tab, e: Event)
    requires Sound(t)
    ensures Sound(Step(t, e))
  {
    var t' := Step(t, e);
    if e.Settle? && e.n in t.pending && e.n == t.req && t'.applied != t.applied {
      assert t'.applied == t.applied + [t.req];
      forall i | 0 <= i < |t.applied| ensures t.applied[i] < t.req {
        assert t.applied[i] <= t.applied[|t.applied| - 1];
      }
    }
  }

  // The requests that reach the view do so in increasing order, and a ready view is the shown item's.
  lemma {:induction false} LatestRequestWins(events: seq<Event>)
    ensures var t := Run(events); Sound(t) && Increasing(t.applied) && (t.view.Ready? ==> t.view.item == t.item)
    decreases |events|
  {
    hide Step;
    if events != [] {
      LatestRequestWins(events[..|events| - 1]);
      StepKeeps(Run(events[..|events| - 1]), events[|events| - 1]);
    }
  }

  function RunFrom(t: Tab, events: seq<Event>): Tab
    decreases |events|
  {
    if events == [] then t else RunFrom(Step(t, events[0]), events[1..])
  }

  lemma {:induction false} RequestsOnlyGrow(t: Tab, events: seq<Event>)
    ensures t.req <= RunFrom(t, events).req
    decreases |events|
  {
    if events != [] { RequestsOnlyGrow(Step(t, events[0]), events[1..]); }
  }

  // Once an item's load (or any later one) has begun, no answer to an earlier request is ever applied,
  // whatever happens in between: it is taken off the list of what is in flight, and that is all.
  lemma EarlierAnswersNeverLand(t: Tab, begun: Event, events: seq<Event>, n: nat, outcome: Outcome)
    requires n <= t.req && !begun.Settle?
    ensures var t' := RunFrom(Step(t, begun), events);
      n in t'.pending ==> Step(t', Settle(n, outcome)) == t'.(pending := t'.pending - {n})
  {
    RequestsOnlyGrow(Step(t, begun), events);
    hide RunFrom;
  }

  predicate IsQuiet(e: Event) {
    e == Poll || (e.Settle? && e.outcome == Error)
  }

  // Only opening an item takes a ready view down: it outlasts every poll and every failure, silent or not.
  lemma {:induction false} ReadyViewStands(t: Tab, events: seq<Event>)
    requires Sound(t) && t.view.Ready?
    requires forall e <- events :: IsQuiet(e)
    ensures Sound(RunFrom(t, events)) && RunFrom(t, events).view == t.view
    decreases |events|
  {
    if events != [] {
      StepKeeps(t, events[0]);
      hide Sound;
      QuietStep(t, events[0]);
      assert forall e <- events[1..] :: e in events;
      ReadyViewStands(Step(t, events[0]), events[1..]);
    }
  }

  lemma QuietStep(t: Tab, e: Event)
    requires Sound(t) && t.view.Ready? && IsQuiet(e)
    ensures Step(t, e).view == t.view
  {
  }

  // What the cadence is told: over a ready view, an answer reads as unchanged exactly when it changes nothing
  // but the time it was fetched at.
  lemma UnchangedMeansSameRuns(t: Tab, n: nat, body: string, at: int)
    requires Sound(t) && n in t.pending && n == t.req && t.view.Ready?
    ensures t.lastRuns == Some(body) <==> Step(t, Settle(n, Runs(body, at))).view == t.view.(fetchedAt := at)
    ensures Step(t, Settle(n, Runs(body, at))).view == t.view <==> t.lastRuns == Some(body) && t.view.fetchedAt == at
  {
  }

  // ---- an item's first load, over the events since ----

  function Polls(events: seq<Event>): nat {
    if events == [] then 0 else Polls(events[..|events| - 1]) + if events[|events| - 1] == Poll then 1 else 0
  }

  predicate Answered(events: seq<Event>, n: nat) {
    exists i :: 0 <= i < |events| && events[i].Settle? && events[i].n == n
  }

  // Event `i` reaches the view of an item whose first load is request `first`: it is the first answer to the latest
  // request begun by then, and no poll's failure.
  predicate LandsAmong(first: nat, events: seq<Event>, i: nat)
    requires i < |events|
  {
    events[i].Settle? && events[i].n == first + Polls(events[..i]) && !Answered(events[..i], events[i].n)
    && (events[i].outcome.Runs? || events[i].n == first)
  }

  predicate NothingLands(first: nat, events: seq<Event>) {
    forall i :: 0 <= i < |events| ==> !LandsAmong(first, events, i)
  }

  predicate StaysOpen(events: seq<Event>) {
    forall e <- events :: !e.Open?
  }

  lemma {:induction false} RunFromSnoc(t: Tab, events: seq<Event>, e: Event)
    ensures RunFrom(t, events + [e]) == Step(RunFrom(t, events), e)
    decreases |events|
  {
    hide Step;
    if events == [] {
      assert [e][1..] == [];
    } else {
      assert (events + [e])[1..] == events[1..] + [e];
      RunFromSnoc(Step(t, events[0]), events[1..], e);
    }
  }

  lemma AnsweredSnoc(events: seq<Event>, e: Event, n: nat)
    ensures Answered(events + [e], n) <==> Answered(events, n) || (e.Settle? && e.n == n)
  {
    var all := events + [e];
    assert all[|events|] == e;
    if i :| 0 <= i < |events| && events[i].Settle? && events[i].n == n { assert all[i] == events[i]; }
  }

  // An answer comes after its request.
  predicate AnswersAreAsked(first: nat, events: seq<Event>) {
    forall i :: 0 <= i < |events| && events[i].Settle? ==> events[i].n <= first + Polls(events[..i])
  }

  // What the events since the opening say of the state: the requests are numbered by the polls, and those without
  // an answer are pending.
  ghost predicate ToldBy(first: nat, events: seq<Event>, t: Tab) {
    && t.req == first + Polls(events)
    && (forall n: nat :: Answered(events, n) ==> n <= t.req)
    && (forall n: nat :: n >= first ==> (n in t.pending <==> n <= t.req && !Answered(events, n)))
    && (forall n: nat :: n >= first && n in t.pending ==> (t.pending[n].silent <==> n > first))
    && (t.view == Failed ==> Answered(events, first))
  }

  lemma StepIsTold(first: nat, events: seq<Event>, t: Tab, e: Event)
    requires ToldBy(first, events, t) && !e.Open? && (e.Settle? ==> e.n <= t.req)
    ensures ToldBy(first, events + [e], Step(t, e))
  {
    assert (events + [e])[..|events|] == events;
    forall n: nat ensures Answered(events + [e], n) <==> Answered(events, n) || (e.Settle? && e.n == n) {
      AnsweredSnoc(events, e, n);
    }
    hide Answered;
  }

  lemma {:induction false} SinceOpening(t: Tab, item: string, events: seq<Event>)
    requires forall n <- t.pending :: n <= t.req
    requires StaysOpen(events) && AnswersAreAsked(t.req + 1, events)
    ensures ToldBy(t.req + 1, events, RunFrom(Step(t, Open(item)), events))
    decreases |events|
  {
    hide ToldBy, Polls, Answered;
    if events == [] {
      OpeningIsTold(t, item);
    } else {
      var before, e := events[..|events| - 1], events[|events| - 1];
      assert events == before + [e];
      assert forall i :: 0 <= i < |before| ==> before[..i] == events[..i];
      assert e in events && forall x <- before :: x in events;
      SinceOpening(t, item, before);
      RunFromSnoc(Step(t, Open(item)), before, e);
      ToldNumber(t.req + 1, before, RunFrom(Step(t, Open(item)), before));
      StepIsTold(t.req + 1, before, RunFrom(Step(t, Open(item)), before), e);
    }
  }

  lemma OpeningIsTold(t: Tab, item: string)
    requires forall n <- t.pending :: n <= t.req
    ensures ToldBy(t.req + 1, [], Step(t, Open(item))) && Step(t, Open(item)).view == Loading
  {
  }

  lemma ToldNumber(first: nat, events: seq<Event>, t: Tab)
    requires ToldBy(first, events, t)
    ensures t.req == first + Polls(events)
  {
  }

  // An event lands in a state it is told of exactly when the events say so.
  lemma LandingIsTold(first: nat, before: seq<Event>, t: Tab, e: Event)
    requires ToldBy(first, before, t) && !e.Open?
    ensures var lands := LandsAmong(first, before + [e], |before|);
      Step(t, e).view == Loading <==> t.view == Loading && !lands
  {
    assert (before + [e])[..|before|] == before;
    hide Answered, Polls;
  }

  // An item is left loading if and only if no answer since it was opened lands: each was to a request that a poll
  // had overtaken, or was itself a poll's failure.
  lemma {:induction false} LeftLoadingExactly(t: Tab, item: string, events: seq<Event>)
    requires forall n <- t.pending :: n <= t.req
    requires StaysOpen(events) && AnswersAreAsked(t.req + 1, events)
    ensures RunFrom(Step(t, Open(item)), events).view == Loading <==> NothingLands(t.req + 1, events)
    decreases |events|
  {
    hide ToldBy, LandsAmong, Polls;
    var begun, first := Step(t, Open(item)), t.req + 1;
    OpeningIsTold(t, item);
    if events != [] {
      var before, e := events[..|events| - 1], events[|events| - 1];
      assert events == before + [e];
      assert forall i :: 0 <= i < |before| ==> before[..i] == events[..i];
      assert e in events && forall x <- before :: x in events;
      LeftLoadingExactly(t, item, before);
      SinceOpening(t, item, before);
      RunFromSnoc(begun, before, e);
      LandingIsTold(t.req + 1, before, RunFrom(begun, before), e);
      forall i: nat | i < |before| ensures LandsAmong(first, events, i) <==> LandsAmong(first, before, i) {
        LandsEarlier(first, before, e, i);
      }
    }
  }

  lemma LandsEarlier(first: nat, before: seq<Event>, e: Event, i: nat)
    requires i < |before|
    ensures LandsAmong(first, before + [e], i) <==> LandsAmong(first, before, i)
  {
    assert (before + [e])[..i] == before[..i];
  }

  lemma {:induction false} NoPolls(events: seq<Event>)
    ensures Polls(events) == 0 <==> Poll !in events
  {
    if events != [] {
      NoPolls(events[..|events| - 1]);
      assert events == events[..|events| - 1] + [events[|events| - 1]];
    }
  }

  // The first load's failure is shown if and only if no poll has begun since the item was opened.
  lemma FirstFailureIsShown(t: Tab, item: string, events: seq<Event>)
    requires forall n <- t.pending :: n <= t.req
    requires StaysOpen(events) && AnswersAreAsked(t.req + 1, events) && !Answered(events, t.req + 1)
    ensures Step(RunFrom(Step(t, Open(item)), events), Settle(t.req + 1, Error)).view == Failed <==> Poll !in events
  {
    SinceOpening(t, item, events);
    NoPolls(events);
    hide Polls, Answered, RunFrom, StaysOpen, AnswersAreAsked;
  }

  // What is shown is the item opened last: nothing but an opening changes which it is.
  lemma {:induction false} ItemStands(t: Tab, item: string, events: seq<Event>)
    requires StaysOpen(events)
    ensures RunFrom(Step(t, Open(item)), events).item == item
    decreases |events|
  {
    if events != [] {
      var before, e := events[..|events| - 1], events[|events| - 1];
      assert events == before + [e];
      assert e in events && forall x <- before :: x in events;
      ItemStands(t, item, before);
      RunFromSnoc(Step(t, Open(item)), before, e);
    }
  }

  // The polls that a tab with a first load outstanding may begin and see fail, one after another.
  function FailedPolls(first: nat, k: nat): seq<Event>
    decreases k
  {
    if k == 0 then [] else [Poll, Settle(first, Error)] + FailedPolls(first + 1, k - 1)
  }

  lemma {:induction false} FailedPollsLeaveLoading(t: Tab, k: nat)
    requires t.view == Loading && forall n <- t.pending :: n <= t.req
    ensures var t' := RunFrom(t, FailedPolls(t.req + 1, k));
      t'.view == Loading && t'.pending == t.pending && t'.req == t.req + k && t'.item == t.item
    decreases k
  {
    if k > 0 {
      var events := FailedPolls(t.req + 1, k);
      var asked := Step(t, Poll);
      var answered := Step(asked, Settle(t.req + 1, Error));
      assert answered.pending == t.pending;
      assert events[1..][1..] == FailedPolls(t.req + 2, k - 1) && events[1..][0] == Settle(t.req + 1, Error);
      assert RunFrom(t, events) == RunFrom(asked, events[1..]) == RunFrom(answered, events[1..][1..]);
      FailedPollsLeaveLoading(answered, k - 1);
    }
  }

  // So a first load that outlasts the poll's interval can fail unseen: after any number of polls, at least one,
  // with every request answered and every one of them failed, the tab still says it is loading.
  lemma LoadingCanOutlastEveryAnswer(t: Tab, item: string, k: nat)
    requires t.pending == map[] && k > 0
    ensures var begun := Step(t, Open(item));
      var t' := Step(RunFrom(begun, FailedPolls(begun.req + 1, k)), Settle(begun.req, Error));
      t'.view == Loading && t'.pending == map[]
  {
    FailedPollsLeaveLoading(Step(t, Open(item)), k);
  }

  // Whatever came before, a good answer to the latest request is the view, and stays it over polls and failures.
  lemma LatestAnswerIsShown(t: Tab, n: nat, body: string, at: int, events: seq<Event>)
    requires Sound(t) && n in t.pending && n == t.req
    requires forall e <- events :: IsQuiet(e)
    ensures RunFrom(Step(t, Settle(n, Runs(body, at))), events).view == Ready(t.item, body, at)
  {
    StepKeeps(t, Settle(n, Runs(body, at)));
    hide Sound;
    LatestAnswerLands(t, n, body, at);
    ReadyViewStands(Step(t, Settle(n, Runs(body, at))), events);
  }

  lemma LatestAnswerLands(t: Tab, n: nat, body: string, at: int)
    requires Sound(t) && n in t.pending && n == t.req
    ensures Step(t, Settle(n, Runs(body, at))).view == Ready(t.item, body, at)
  {
  }

  // ---- the component ----

  class Component {
    var item: string
    var view: View
    var req: nat
    var lastRuns: Option<string>
    var pending: map<nat, Request>
    ghost var applied: seq<nat>

    ghost function State(): Tab
      reads this
    {
      Tab(item, view, req, lastRuns, pending, applied)
    }

    constructor ()
      ensures State() == CLOSED
    {
      item, view, req, lastRuns, pending, applied := "", Loading, 0, None, map[], [];
    }

    // `load` up to its await.
    method Load(silent: bool) returns (myReq: nat)
      modifies this
      ensures State() == Begin(old(State()), silent) && myReq == req
    {
      req := req + 1;
      myReq := req;
      if !silent { view := Loading; }
      pending := pending[myReq := Request(item, silent)];
    }

    method OnOpen(next: string)
      modifies this
      ensures State() == Step(old(State()), Open(next))
    {
      item := next;
      var n := Load(false);
    }

    method OnPoll()
      modifies this
      ensures State() == Step(old(State()), Poll)
    {
      var n := Load(true);
    }

    // `load` from its await on; it returns whether the answer differs from the last, for the cadence.
    method Resume(myReq: nat, outcome: Outcome) returns (changed: Option<bool>)
      requires myReq in pending
      modifies this
      ensures State() == Step(old(State()), Settle(myReq, outcome))
      ensures changed == if myReq == req && outcome.Runs? then Some(old(lastRuns) != Some(outcome.body)) else None
    {
      var request := pending[myReq];
      pending := pending - {myReq};
      if req != myReq { return None; }
      match outcome
      case Runs(body, at) =>
        changed := Some(lastRuns != Some(body));
        lastRuns := Some(body);
        view := Ready(request.item, body, at);
        applied := applied + [myReq];
      case Error =>
        changed := None;
        if !request.silent {
          view := Failed;
          applied := applied + [myReq];
        }
    }
  }
}
