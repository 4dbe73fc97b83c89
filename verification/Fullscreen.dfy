/**
  The shell's one fullscreen slot: the state machine of `apps/ui/src/app/shell-layout.mjs`
  (`fullscreenReducer`) and the adoption of a live node by `useFullscreenSlot` in
  `apps/ui/src/app/Shell.tsx`. Events change the state at once; the adoption effect runs at a later
  commit, and any number of events may come between two commits.
 */
module Fullscreen {
  import opened Wrappers

  // A caller's request. `node` stands for the live element it hands over, `home` for whether it says
  // where that element came from.
  datatype Request = Request(id: string, node: nat, home: bool, claimsEscape: bool)

  // Where a node is: where it came from, in the overlay's host, or in a host that was taken down.
  datatype Place = AtHome | InHost | Detached

  datatype Slot = Slot(
    occupant: Option<Request>,      // the machine's state
    request: Option<Request>,       // requestRef
    committed: Option<string>,      // the occupant id the effect last ran for
    running: Option<Request>,       // the request the effect's cleanup closes over
    host: set<nat>,                 // the nodes in the overlay's host
    detached: set<nat>,
    adoptions: multiset<nat>,       // one for each time a node entered the host
    dismissals: multiset<nat>)      // one for each onDismiss

  datatype Event = Present(request: Request) | Dismiss(id: Option<string>) | Escape | Commit

  const EMPTY := Slot(None, None, None, None, {}, {}, multiset{}, multiset{})

  // ---- the machine ----

  function Present1(occupant: Option<Request>, r: Request): Option<Request> {
    if r.id == "" then occupant
    else if occupant.Some? && occupant.value.id == r.id then occupant
    else Some(r)
  }

  function Dismiss1(occupant: Option<Request>, id: Option<string>): Option<Request> {
    if occupant.Some? && id.Some? && id.value != occupant.value.id then occupant else None
  }

  function Escape1(occupant: Option<Request>): Option<Request> {
    if occupant.Some? && occupant.value.claimsEscape then occupant else None
  }

  function IdOf(occupant: Option<Request>): Option<string> {
    if occupant.Some? then Some(occupant.value.id) else None
  }

  // ---- the effect ----

  function Cleanup(s: Slot): Slot {
    if s.running.None? then s
    else
      var r := s.running.value;
      s.(running := None,
         host := if r.home then s.host - {r.node} else s.host,
         dismissals := s.dismissals + multiset{r.node})
  }

  function Adopt(s: Slot): Slot {
    var id := IdOf(s.occupant);
    if id.None? || s.request.None? || s.request.value.id != id.value then s
    else
      var r := s.request.value;
      s.(running := Some(r), host := s.host + {r.node}, detached := s.detached - {r.node},
         adoptions := s.adoptions + multiset{r.node})
  }

  // The host is rendered only while there is an occupant; what is left in it goes with it.
  function Unmount(s: Slot): Slot {
    if s.occupant.None? then s.(host := {}, detached := s.detached + s.host) else s
  }

  function Effect(s: Slot): Slot {
    if IdOf(s.occupant) == s.committed then s
    else Unmount(Adopt(Cleanup(s))).(committed := IdOf(s.occupant))
  }

  function Step(s: Slot, e: Event): Slot {
    match e
    case Present(r) => s.(request := Some(r), occupant := Present1(s.occupant, r))
    case Dismiss(id) => s.(occupant := Dismiss1(s.occupant, id))
    case Escape => s.(occupant := Escape1(s.occupant))
    case Commit => Effect(s)
  }

  function PlaceOf(s: Slot, node: nat): Place {
    if node in s.host then InHost else if node in s.detached then Detached else AtHome
  }

  function Run(events: seq<Event>): Slot {
    if events == [] then EMPTY else Step(Run(events[..|events| - 1]), events[|events| - 1])
  }

  function RunFrom(s: Slot, events: seq<Event>): Slot
    decreases |events|
  {
    if events == [] then s else RunFrom(Step(s, events[0]), events[1..])
  }

  // ---- what the door's callers keep to ----

  // An id names one request, with an id, a node of its own and a home.
  ghost predicate Proper(r: Request, book: map<string, Request>) {
    r.id != "" && r.home && r.id in book && book[r.id] == r
  }

  ghost predicate NodesDiffer(book: map<string, Request>) {
    forall a, b :: a in book && b in book && a != b ==> book[a].node != book[b].node
  }

  ghost predicate ProperRun(events: seq<Event>, book: map<string, Request>) {
    NodesDiffer(book) && forall i :: 0 <= i < |events| && events[i].Present? ==> Proper(events[i].request, book)
  }

  // ---- what every run keeps ----

  ghost predicate Kept(s: Slot, book: map<string, Request>) {
    && (s.occupant.Some? ==> Proper(s.occupant.value, book) && s.request == s.occupant)
    && (s.request.Some? ==> Proper(s.request.value, book))
    && (s.running.Some? ==> Proper(s.running.value, book))
    && IdOf(s.running) == s.committed
    && s.host == (if s.running.Some? then {s.running.value.node} else {})
    && s.detached == {}
    && s.adoptions == s.dismissals + (if s.running.Some? then multiset{s.running.value.node} else multiset{})
  }

  lemma StepKeeps(s: Slot, e: Event, book: map<string, Request>)
    requires NodesDiffer(book) && Kept(s, book)
    requires e.Present? ==> Proper(e.request, book)
    ensures Kept(Step(s, e), book)
  {
    if e.Commit? { EffectKeeps(s, book); }
  }

  lemma EffectKeeps(s: Slot, book: map<string, Request>)
    requires NodesDiffer(book) && Kept(s, book)
    ensures Kept(Effect(s), book)
  {
    if IdOf(s.occupant) != s.committed {
      var cleaned := Cleanup(s);
      assert cleaned.host == {} && cleaned.dismissals == s.adoptions;
      var adopted := Adopt(cleaned);
      assert adopted.running == s.occupant;
    }
  }

  lemma {:induction false} RunKeeps(events: seq<Event>, book: map<string, Request>)
    requires ProperRun(events, book)
    ensures Kept(Run(events), book)
    decreases |events|
  {
    hide Step, Kept, Proper;
    if events == [] {
      StartsKept(book);
    } else {
      RunKeeps(events[..|events| - 1], book);
      StepKeeps(Run(events[..|events| - 1]), events[|events| - 1], book);
    }
  }

  lemma StartsKept(book: map<string, Request>)
    ensures Kept(EMPTY, book)
  {
  }

  // After a commit the host holds the presented occupant's node and no other, and every other node
  // that was ever handed over is at its home.
  lemma OnlyTheOccupantIsHosted(events: seq<Event>, book: map<string, Request>, node: nat)
    requires ProperRun(events, book)
    ensures var s := Run(events + [Commit]);
      PlaceOf(s, node) == if s.occupant.Some? && s.occupant.value.node == node then InHost else AtHome
  {
    hide Proper;
    assert (events + [Commit])[..|events|] == events;
    RunKeeps(events, book);
    StepKeeps(Run(events), Commit, book);
    var s := Run(events + [Commit]);
    CommitSettles(Run(events));
    if s.occupant.Some? { SameIdSameRequest(s, book); }
  }

  lemma CommitSettles(s: Slot)
    ensures Step(s, Commit).committed == IdOf(s.occupant) && Step(s, Commit).occupant == s.occupant
  {
  }

  lemma SameIdSameRequest(s: Slot, book: map<string, Request>)
    requires Kept(s, book) && s.occupant.Some? && s.committed == IdOf(s.occupant)
    ensures s.running == s.occupant
  {
  }

  // The adoption that stands is the one whose cleanup is still to come.
  ghost predicate Stands(s: Slot, node: nat) {
    s.running.Some? && s.running.value.node == node
  }

  ghost predicate Counted(s: Slot, node: nat) {
    s.adoptions[node] == s.dismissals[node] + if Stands(s, node) then 1 else 0
  }

  lemma StepCounts(s: Slot, e: Event, node: nat)
    requires Counted(s, node)
    ensures Counted(Step(s, e), node)
  {
    if e.Commit? {
      assert Counted(Cleanup(s), node) && Cleanup(s).running.None?;
      assert Counted(Adopt(Cleanup(s)), node);
    }
  }

  // Each adoption is undone once, with one `onDismiss`, whatever the callers do; only the one that stands is still
  // owed its own, and for callers that keep to the door it is the node in the host.
  lemma {:induction false} AdoptionsAreUndoneOnce(events: seq<Event>, book: map<string, Request>, node: nat)
    ensures var s := Run(events); s.adoptions[node] == s.dismissals[node] + if Stands(s, node) then 1 else 0
    ensures ProperRun(events, book) ==> (Stands(Run(events), node) <==> PlaceOf(Run(events), node) == InHost)
    decreases |events|
  {
    hide Step, Kept, ProperRun;
    if ProperRun(events, book) {
      RunKeeps(events, book);
      KeptStands(Run(events), book, node);
    }
    if events != [] {
      AdoptionsAreUndoneOnce(events[..|events| - 1], book, node);
      StepCounts(Run(events[..|events| - 1]), events[|events| - 1], node);
    }
  }

  lemma KeptStands(s: Slot, book: map<string, Request>, node: nat)
    requires Kept(s, book)
    ensures Stands(s, node) <==> PlaceOf(s, node) == InHost
  {
  }

  // A dismiss that carries the id of a replaced occupant changes nothing at all.
  lemma StaleDismissIsHarmless(s: Slot, id: string)
    requires s.occupant.Some? ==> s.occupant.value.id != id
    ensures Step(s, Dismiss(Some(id))) == s
  {
  }

  // Being replaced is being told, if and only if the occupant had been shown: one that is replaced
  // before its commit is neither adopted nor told.
  lemma ReplacedIsToldIffShown(s: Slot, book: map<string, Request>, first: Request, second: Request)
    requires NodesDiffer(book) && Kept(s, book)
    requires Proper(first, book) && Proper(second, book) && first.id != second.id
    ensures var s' := Step(Step(Step(s, Present(first)), Present(second)), Commit);
      var shown := s.committed == Some(first.id);
      && s'.dismissals[first.node] == s.dismissals[first.node] + (if shown then 1 else 0)
      && s'.adoptions[first.node] == s.adoptions[first.node]
      && first.node !in s'.host
  {
    var s1 := Step(s, Present(first));
    var s2 := Step(s1, Present(second));
    StepKeeps(s, Present(first), book);
    StepKeeps(s1, Present(second), book);
    StepKeeps(s2, Commit, book);
    assert first.node != second.node;
    assert s2.running == s.running && s2.committed == s.committed && s2.dismissals == s.dismissals
      && s2.adoptions == s.adoptions;
    assert s2.occupant == Some(second);
    hide Kept;
    if s.running.Some? { RunningIs(s, book, first); RunningIs(s, book, second); }
    else { NotRunning(s, book); }
  }

  predicate IsWayOut(r: Request, e: Event) {
    e == Dismiss(None) || e == Dismiss(Some(r.id)) || (e == Escape && !r.claimsEscape)
  }

  // The three ways out, each of which empties the host and tells the occupant that was shown, once.
  lemma WaysOutTellOnce(s: Slot, book: map<string, Request>, r: Request, out: Event)
    requires NodesDiffer(book) && Kept(s, book)
    requires s.occupant == Some(r) && s.committed == Some(r.id)
    requires IsWayOut(r, out)
    ensures var s' := Step(Step(s, out), Commit);
      s'.occupant == None && s'.host == {} && PlaceOf(s', r.node) == AtHome
        && s'.dismissals == s.dismissals + multiset{r.node}
  {
  }

  predicate LeavesAlone(r: Request, e: Event) {
    match e
    case Present(next) => next.id == r.id || next.id == ""
    case Dismiss(id) => id.Some? && id.value != r.id
    case Escape => r.claimsEscape
    case Commit => true
  }

  // And there are no others: an occupant stays over a run exactly as long as each event is a request of its
  // own, a dismiss aimed at another, a commit, or an escape it claims.
  lemma {:induction false} OccupantStays(s: Slot, r: Request, events: seq<Event>)
    requires s.occupant == Some(r)
    ensures (forall e <- events :: LeavesAlone(r, e)) ==> RunFrom(s, events).occupant == Some(r)
    ensures events != [] && !LeavesAlone(r, events[0]) ==> Step(s, events[0]).occupant != Some(r)
    decreases |events|
  {
    if events != [] && LeavesAlone(r, events[0]) {
      OccupantStays(Step(s, events[0]), r, events[1..]);
    }
  }

  lemma NotRunning(s: Slot, book: map<string, Request>)
    requires Kept(s, book) && s.running.None?
    ensures s.committed == None && s.host == {}
  {
  }

  lemma RunningIs(s: Slot, book: map<string, Request>, r: Request)
    requires NodesDiffer(book) && Kept(s, book) && s.running.Some? && Proper(r, book)
    ensures s.running.value.node == r.node <==> s.committed == Some(r.id)
    ensures s.running.value.home && s.host == {s.running.value.node}
  {
  }

  // ---- where the callers' side of the bargain is broken ----

  // The host holds the presented occupant's node, alone.
  ghost predicate HostsItsOccupant(s: Slot) {
    s.host == if s.occupant.Some? then {s.occupant.value.node} else {}
  }

  // ---- exactly when a commit leaves the host right ----

  // The effect will adopt: the last request is under the occupant's id.
  predicate Takes(s: Slot) {
    s.occupant.Some? && s.request.Some? && s.request.value.id == s.occupant.value.id
  }

  // What the cleanup leaves in the host.
  function Left(s: Slot): set<nat> {
    if s.running.Some? && s.running.value.home then s.host - {s.running.value.node} else s.host
  }

  // What a caller could look at before the commit.
  ghost predicate Fits(s: Slot) {
    s.occupant.Some? ==>
      var node := s.occupant.value.node;
      if IdOf(s.occupant) == s.committed then s.host == {node}
      else Left(s) <= {node} && (Takes(s) ==> s.request.value.node == node) && (Takes(s) || Left(s) != {})
  }

  // What every run keeps, of any callers at all.
  ghost predicate Anchored(s: Slot) {
    && (s.committed.None? ==> s.running.None? && s.host == {})
    && (s.running.Some? ==> s.committed == Some(s.running.value.id) && s.running.value.node in s.host)
  }

  lemma {:induction false} RunIsAnchored(events: seq<Event>)
    ensures Anchored(Run(events))
    decreases |events|
  {
    if events != [] { RunIsAnchored(events[..|events| - 1]); }
  }

  // Over every run, right or wrong until then, a commit leaves the occupant's node in the host, alone, if and only
  // if the state before it fits.
  lemma CommitExactly(events: seq<Event>)
    ensures HostsItsOccupant(Run(events + [Commit])) <==> Fits(Run(events))
  {
    assert (events + [Commit])[..|events|] == events;
    RunIsAnchored(events);
    CommitFits(Run(events));
  }

  lemma CommitFits(s: Slot)
    requires Anchored(s)
    ensures HostsItsOccupant(Step(s, Commit)) <==> Fits(s)
  {
    if IdOf(s.occupant) != s.committed && s.occupant.Some? {
      var node := s.occupant.value.node;
      var taken := if Takes(s) then {s.request.value.node} else {};
      assert Step(s, Commit).host == Left(s) + taken;
      assert Left(s) + taken == {node} <==> Left(s) <= {node} && taken <= {node} && (taken != {} || Left(s) != {}) by {
        Singleton(Left(s), taken, node);
      }
      if Takes(s) { assert s.request.value.node in taken; }
    }
  }

  lemma Singleton(a: set<nat>, b: set<nat>, x: nat)
    ensures a + b == {x} <==> a <= {x} && b <= {x} && (b != {} || a != {})
  {
    if a <= {x} && b <= {x} && a != {} { var y :| y in a; assert y in {x}; }
    if a <= {x} && b <= {x} && b != {} { var y :| y in b; assert y in {x}; }
    if a + b == {x} { assert a <= a + b && b <= a + b && x in a + b; }
  }

  // ---- between two commits ----

  // One adoption stands, of a request with an id, and its node is in the host alone; or nothing was ever adopted
  // since the host was last empty.
  ghost predicate Between(s: Slot) {
    && s.committed == IdOf(s.running)
    && s.host == (if s.running.Some? then {s.running.value.node} else {})
    && (s.running.Some? ==> s.running.value.id != "")
  }

  ghost predicate NoCommit(events: seq<Event>) {
    forall e <- events :: e != Commit
  }

  lemma {:induction false} WindowKeepsBetween(s: Slot, events: seq<Event>)
    requires Between(s) && NoCommit(events)
    ensures Between(RunFrom(s, events)) && RunFrom(s, events).running == s.running
    decreases |events|
  {
    if events != [] {
      assert events[0] in events && forall e <- events[1..] :: e in events;
      WindowKeepsBetween(Step(s, events[0]), events[1..]);
    }
  }

  // The three ways a window may end well: with nobody presented; with the node that is shown, under its id; or with
  // a newcomer that the effect takes in with its own node, while the one that is shown can leave or is that node.
  ghost predicate EndsWell(s: Slot) {
    || s.occupant.None?
    || (IdOf(s.occupant) == s.committed && s.running.Some? && s.occupant.value.node == s.running.value.node)
    || (IdOf(s.occupant) != s.committed
        && (Takes(s) ==> s.request.value.node == s.occupant.value.node)
        && (if s.running.Some? && !s.running.value.home then s.running.value.node == s.occupant.value.node
            else Takes(s)))
  }

  // However many requests, dismisses and escapes come between two commits, the second leaves the host right if and
  // only if they end well.
  lemma WindowExactly(s: Slot, events: seq<Event>)
    requires Between(s) && NoCommit(events)
    ensures Between(RunFrom(s, events))
    ensures HostsItsOccupant(Step(RunFrom(s, events), Commit)) <==> EndsWell(RunFrom(s, events))
  {
    WindowKeepsBetween(s, events);
    hide RunFrom;
  }

  // And after it the next window begins: the slot is between commits again if and only if nobody is presented, or
  // the id did not change, or the effect took the newcomer in and the host is its alone.
  lemma NextWindow(s: Slot)
    requires Between(s) && (s.occupant.Some? ==> s.occupant.value.id != "")
    ensures Between(Step(s, Commit))
       <==> s.occupant.None? || IdOf(s.occupant) == s.committed
            || (Takes(s) && (s.running.Some? && !s.running.value.home ==> s.running.value.node == s.request.value.node))
  {
  }

  // `r` is presented and shown.
  ghost predicate IsShown(s: Slot, r: Request) {
    && r.id != "" && s.occupant == s.running == Some(r) && s.committed == Some(r.id)
    && s.host == {r.node} && s.detached == {}
  }

  // Nobody is.
  ghost predicate IsIdle(s: Slot) {
    s.occupant == s.running == None && s.committed == None && s.host == {} && s.detached == {}
  }

  // Replacing a shown occupant leaves the host right if and only if the new request is no replacement, or the old
  // one has a home to go to, or both bring one node.
  lemma ReplacedExactly(s: Slot, r: Request, next: Request)
    requires IsShown(s, r)
    ensures HostsItsOccupant(Step(Step(s, Present(next)), Commit))
       <==> next.id == "" || next.id == r.id || r.home || r.node == next.node
  {
    WindowExactly(s, [Present(next)]);
    RunOne(s, Present(next));
  }

  // Dismissing it and presenting another before the commit does so if and only if the other is no request, or
  // takes the same id with the same node, or takes another id and the old occupant can leave.
  lemma DismissedThenPresentedExactly(s: Slot, r: Request, out: Event, next: Request)
    requires IsShown(s, r) && IsWayOut(r, out)
    ensures HostsItsOccupant(Step(Step(Step(s, out), Present(next)), Commit))
       <==> next.id == "" || r.node == next.node || (next.id != r.id && r.home)
  {
    WindowExactly(s, [out, Present(next)]);
    RunTwo(s, out, Present(next));
  }

  // Two requests before the first commit: the occupant is hosted if and only if the second has an id, and under
  // the id of the first brings its node.
  lemma PresentedTwiceExactly(s: Slot, r: Request, next: Request)
    requires IsIdle(s) && r.id != ""
    ensures HostsItsOccupant(Step(Step(Step(s, Present(r)), Present(next)), Commit))
       <==> next.id != "" && (next.id == r.id ==> next.node == r.node)
  {
    WindowExactly(s, [Present(r), Present(next)]);
    RunTwo(s, Present(r), Present(next));
  }

  // Dismissing it alone always empties the host; a node without a home is lost with it.
  lemma DismissedExactly(s: Slot, r: Request, out: Event)
    requires IsShown(s, r) && IsWayOut(r, out)
    ensures var s' := Step(Step(s, out), Commit);
      HostsItsOccupant(s') && PlaceOf(s', r.node) == if r.home then AtHome else Detached
  {
  }

  // A node that was lost with its host is found again by the next request that brings it with a home.
  lemma LostNodeComesBack(s: Slot, r: Request)
    requires s.occupant == s.running == None && s.committed == None && s.host == {}
    requires r.id != "" && r.home
    ensures var shown := Step(Step(s, Present(r)), Commit);
      PlaceOf(shown, r.node) == InHost && PlaceOf(Step(Step(shown, Dismiss(None)), Commit), r.node) == AtHome
  {
  }

  lemma {:induction false} RunIs(events: seq<Event>)
    ensures Run(events) == RunFrom(EMPTY, events)
    decreases |events|
  {
    hide Step;
    if events != [] {
      var before, e := events[..|events| - 1], events[|events| - 1];
      assert events == before + [e];
      RunIs(before);
      RunFromSnoc(EMPTY, before, e);
    }
  }

  lemma {:induction false} RunFromSnoc(s: Slot, events: seq<Event>, e: Event)
    ensures RunFrom(s, events + [e]) == Step(RunFrom(s, events), e)
    decreases |events|
  {
    hide Step;
    if events == [] {
      assert [e][1..] == [];
    } else {
      assert (events + [e])[1..] == events[1..] + [e];
      RunFromSnoc(Step(s, events[0]), events[1..], e);
    }
  }

  lemma RunOne(s: Slot, e: Event)
    ensures RunFrom(s, [e]) == Step(s, e)
  {
    hide Step;
    assert [e][1..] == [];
  }

  lemma RunTwo(s: Slot, e: Event, f: Event)
    ensures RunFrom(s, [e, f]) == Step(Step(s, e), f)
  {
    hide Step;
    assert [e, f][1..] == [f] && [f][1..] == [];
    assert RunFrom(s, [e, f]) == RunFrom(Step(s, e), [f]);
    assert RunFrom(Step(s, e), [f]) == RunFrom(Step(Step(s, e), f), []);
  }

  lemma {:induction false} RunFromConcat(s: Slot, a: seq<Event>, b: seq<Event>)
    ensures RunFrom(s, a + b) == RunFrom(RunFrom(s, a), b)
    decreases |a|
  {
    hide Step;
    if a == [] {
      assert a + b == b;
    } else {
      assert (a + b)[1..] == a[1..] + b;
      RunFromConcat(Step(s, a[0]), a[1..], b);
    }
  }

  // From the start, one request and a commit show it.
  lemma ShownFirst(r: Request, rest: seq<Event>) returns (s: Slot)
    requires r.id != ""
    ensures IsShown(s, r) && s.dismissals == multiset{}
    ensures Run([Present(r), Commit] + rest) == RunFrom(s, rest)
  {
    s := Step(Step(EMPTY, Present(r)), Commit);
    RunTwo(EMPTY, Present(r), Commit);
    RunIs([Present(r), Commit] + rest);
    RunFromConcat(EMPTY, [Present(r), Commit], rest);
  }

  // With no home to return to, a replaced occupant stays in the host beside its successor.
  lemma HomelessStays(r: Request, next: Request)
    requires r.id != "" && !r.home && next.id != "" && next.id != r.id
    ensures var s := Run([Present(r), Commit, Present(next), Commit]);
      s.occupant == Some(next) && s.host == {r.node, next.node}
  {
    var s := ShownFirst(r, [Present(next), Commit]);
    RunTwo(s, Present(next), Commit);
    assert [Present(r), Commit] + [Present(next), Commit] == [Present(r), Commit, Present(next), Commit];
  }

  // An id reused for another node between two commits: the old node stays up, the new one never is, and
  // nobody is told.
  lemma RemountUnderOneIdIsMissed(r: Request, again: Request)
    requires again.id == r.id != ""
    ensures var s := Run([Present(r), Commit, Dismiss(Some(r.id)), Present(again), Commit]);
      s.occupant == Some(again) && s.host == {r.node} && s.dismissals == multiset{}
  {
    var rest := [Dismiss(Some(r.id)), Present(again), Commit];
    var s := ShownFirst(r, rest);
    assert rest[1..] == [Present(again), Commit];
    RunTwo(Step(s, Dismiss(Some(r.id))), Present(again), Commit);
    assert [Present(r), Commit] + rest == [Present(r), Commit, Dismiss(Some(r.id)), Present(again), Commit];
  }

  // Two requests under one new id between two commits: the second's node is taken in for the first, which stays
  // the occupant. Every request here may have an id and a home.
  lemma SharedIdTakesTheOther(r: Request, first: Request, second: Request)
    requires r.id != "" && r.home && first.id == second.id != "" && first.id != r.id
    ensures var s := Run([Present(r), Commit, Present(first), Present(second), Commit]);
      s.occupant == Some(first) && s.host == {second.node}
  {
    var rest := [Present(first), Present(second), Commit];
    var s := ShownFirst(r, rest);
    assert rest[1..] == [Present(second), Commit];
    RunTwo(Step(s, Present(first)), Present(second), Commit);
    assert [Present(r), Commit] + rest == [Present(r), Commit, Present(first), Present(second), Commit];
  }

  // A request without an id is ignored by the machine but not by the ref, so the occupant presented just
  // before it is never adopted.
  lemma NamelessRequestStrands(r: Request, nameless: Request)
    requires r.id != "" && nameless.id == ""
    ensures var s := Run([Present(r), Present(nameless), Commit]);
      s.occupant == Some(r) && s.host == {} && s.running == None
  {
    var events := [Present(r), Present(nameless), Commit];
    RunIs(events);
    assert events[1..] == [Present(nameless), Commit];
    assert RunFrom(EMPTY, events) == RunFrom(Step(EMPTY, Present(r)), events[1..]);
    RunTwo(Step(EMPTY, Present(r)), Present(nameless), Commit);
  }

  // ---- the component ----

  class FullscreenSlot {
    var occupant: Option<Request>
    var request: Option<Request>
    var committed: Option<string>
    var running: Option<Request>
    var host: set<nat>
    var detached: set<nat>
    ghost var adoptions: multiset<nat>
    ghost var dismissals: multiset<nat>

    ghost function State(): Slot
      reads this
    {
      Slot(occupant, request, committed, running, host, detached, adoptions, dismissals)
    }

    constructor ()
      ensures State() == EMPTY
    {
      occupant, request, committed, running := None, None, None, None;
      host, detached := {}, {};
      adoptions, dismissals := multiset{}, multiset{};
    }

    method OnPresent(r: Request)
      modifies this
      ensures State() == Step(old(State()), Present(r))
    {
      request := Some(r);
      if r.id == "" { return; }
      if occupant.Some? && occupant.value.id == r.id { return; }
      occupant := Some(r);
    }

    // `id` is absent for the shell's own exit control.
    method OnDismiss(id: Option<string>)
      modifies this
      ensures State() == Step(old(State()), Dismiss(id))
    {
      if occupant.None? { return; }
      if id.Some? && id.value != occupant.value.id { return; }
      occupant := None;
    }

    method OnEscape()
      modifies this
      ensures State() == Step(old(State()), Escape)
    {
      if occupant.Some? && occupant.value.claimsEscape { return; }
      occupant := None;
    }

    // The effect's cleanup: the node goes home, then its caller is told.
    method CleanUp()
      modifies this
      ensures State() == Cleanup(old(State()))
    {
      if running.None? { return; }
      if running.value.home { host := host - {running.value.node}; }
      dismissals := dismissals + multiset{running.value.node};
      running := None;
    }

    // The effect's body.
    method TakeIn()
      modifies this
      ensures State() == Adopt(old(State()))
    {
      if occupant.None? || request.None? || request.value.id != occupant.value.id { return; }
      var node := request.value.node;
      if node !in host { host := host + {node}; }
      detached := detached - {node};
      adoptions := adoptions + multiset{node};
      running := request;
    }

    // The effect is keyed on the occupant's id: the old key's cleanup, then the new key's body.
    method RunEffect()
      modifies this
      ensures State() == Step(old(State()), Commit)
    {
      hide Cleanup, Adopt;
      if IdOf(occupant) == committed { return; }
      CleanupFrame(State());
      CleanUp();
      AdoptFrame(State());
      TakeIn();
      if occupant.None? { host, detached := {}, detached + host; }
      committed := IdOf(occupant);
    }
  }

  lemma CleanupFrame(s: Slot)
    ensures Cleanup(s).occupant == s.occupant && Cleanup(s).committed == s.committed
  {
  }

  lemma AdoptFrame(s: Slot)
    ensures Adopt(s).occupant == s.occupant && Adopt(s).committed == s.committed
  {
  }
}
