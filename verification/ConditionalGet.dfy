/**
  The conditional GET of `apps/ui/src/board/api.ts` (`getJson`) and `apps/ui/src/fleet/api.ts`
  (`fleetApi.status`): a module-level map of the last tagged answer per route, read when a request is sent
  and written when its body has been parsed, with any number of requests in between.

  The server follows RFC 9110: it may answer 304 (section 15.4.5) only to a request whose `If-None-Match`
  names its current tag under the weak comparison of section 8.8.3.2 (section 13.1.2).
 */
module ConditionalGet {
  import opened Wrappers

  // What a route holds: a document and, when the route tags its answers, a tag.
  datatype Content = Content(json: string, etag: Option<string>)

  // A parsed body is an object: `id` is its identity, and two parses never give the same object.
  datatype Parsed = Parsed(id: nat, json: string)

  datatype Entry = Entry(etag: string, body: Parsed)

  datatype Response = NotModified | Okay(json: string, etag: Option<string>) | Refused

  // A request in flight; `held` is what the server held when it answered.
  datatype Call =
    | Sent(route: string, last: Option<Entry>)
    | Answered(route: string, last: Option<Entry>, response: Response, held: string)
    | Returned(body: Parsed, held: string)
    | Threw

  // `named` records which document each tag of a route has stood for; `parsed` is every object made so far.
  datatype World = World(
    server: map<string, Content>, named: map<(string, string), string>,
    tagged: map<string, Entry>, calls: map<nat, Call>, parsed: seq<string>)

  datatype How = Full | Unchanged | Refuse

  datatype Event =
    | Change(route: string, content: Content)
    | Send(id: nat, route: string)
    | Serve(id: nat, how: How)
    | Settle(id: nat)         // the response, with its body parsed, reaches the code
    | SettleBroken(id: nat)   // the connection or the parse fails

  // Weak comparison looks at the opaque tag only.
  function Opaque(etag: string): string {
    if |etag| >= 2 && etag[..2] == "W/" then etag[2..] else etag
  }

  function Lookup(tagged: map<string, Entry>, route: string): Option<Entry> {
    if route in tagged then Some(tagged[route]) else None
  }

  // An empty tag is falsy, and counts as none.
  function Stored(tagged: map<string, Entry>, route: string, etag: Option<string>, body: Parsed): map<string, Entry> {
    if etag.Some? && etag.value != "" then tagged[route := Entry(etag.value, body)] else tagged - {route}
  }

  function Respond(content: Content, how: How): Response {
    match how
    case Full => Okay(content.json, content.etag)
    case Unchanged => NotModified
    case Refuse => Refused
  }

  // What `getJson` does with a response: the outcome, and the map it leaves.
  function Finish(tagged: map<string, Entry>, route: string, last: Option<Entry>, response: Response,
      nextId: nat): (Option<Parsed>, map<string, Entry>) {
    match response
    case NotModified => (if last.Some? then Some(last.value.body) else None, tagged)
    case Refused => (None, tagged)
    case Okay(json, etag) => (Some(Parsed(nextId, json)), Stored(tagged, route, etag, Parsed(nextId, json)))
  }

  predicate MayServe(w: World, c: Call, how: How) {
    c.Sent? && (
      match how
      case Refuse => true
      case Full => c.route in w.server
      case Unchanged =>
        c.route in w.server && c.last.Some? && w.server[c.route].etag.Some?
        && Opaque(c.last.value.etag) == Opaque(w.server[c.route].etag.value))
  }

  predicate Enabled(w: World, e: Event) {
    match e
    case Change(_, _) => true
    case Send(id, _) => id !in w.calls
    case Serve(id, how) => id in w.calls && MayServe(w, w.calls[id], how)
    case Settle(id) => id in w.calls && w.calls[id].Answered?
    case SettleBroken(id) => id in w.calls && (w.calls[id].Sent? || w.calls[id].Answered?)
  }

  function Next(w: World, e: Event): World
    requires Enabled(w, e)
  {
    match e
    case Change(route, content) =>
      w.(server := w.server[route := content],
         named := if content.etag.Some? then w.named[(route, Opaque(content.etag.value)) := content.json] else w.named)
    case Send(id, route) =>
      w.(calls := w.calls[id := Sent(route, Lookup(w.tagged, route))])
    case Serve(id, how) =>
      var c := w.calls[id];
      var content := if c.route in w.server then w.server[c.route] else Content("", None);
      w.(calls := w.calls[id := Answered(c.route, c.last, Respond(content, how), content.json)])
    case Settle(id) =>
      var c := w.calls[id];
      var (body, tagged) := Finish(w.tagged, c.route, c.last, c.response, |w.parsed|);
      w.(tagged := tagged,
         calls := w.calls[id := if body.Some? then Returned(body.value, c.held) else Threw],
         parsed := if c.response.Okay? then w.parsed + [c.response.json] else w.parsed)
    case SettleBroken(id) =>
      w.(calls := w.calls[id := Threw])
  }

  // A tag names one document per route: a change that reuses a tag brings the same document.
  predicate Honest(w: World, e: Event) {
    e.Change? && e.content.etag.Some? ==>
      var key := (e.route, Opaque(e.content.etag.value));
      key in w.named ==> w.named[key] == e.content.json
  }

  const EMPTY := World(map[], map[], map[], map[], [])

  ghost predicate IsRun(w: World, events: seq<Event>)
    decreases |events|
  {
    events == [] || (Enabled(w, events[0]) && Honest(w, events[0]) && IsRun(Next(w, events[0]), events[1..]))
  }

  function RunFrom(w: World, events: seq<Event>): World
    requires IsRun(w, events)
    decreases |events|
  {
    if events == [] then w else RunFrom(Next(w, events[0]), events[1..])
  }

  // ---- what every run keeps ----

  ghost predicate NamedBy(w: World, route: string, entry: Entry) {
    (route, Opaque(entry.etag)) in w.named && w.named[(route, Opaque(entry.etag))] == entry.body.json
  }

  ghost predicate RealObject(w: World, body: Parsed) {
    body.id < |w.parsed| && w.parsed[body.id] == body.json
  }

  ghost predicate GoodEntry(w: World, route: string, entry: Entry) {
    entry.etag != "" && NamedBy(w, route, entry) && RealObject(w, entry.body)
  }

  ghost predicate GoodLast(w: World, route: string, last: Option<Entry>) {
    last.Some? ==> GoodEntry(w, route, last.value)
  }

  ghost predicate NamesWhatItHolds(w: World, route: string, content: Content) {
    content.etag.Some? ==>
      (route, Opaque(content.etag.value)) in w.named && w.named[(route, Opaque(content.etag.value))] == content.json
  }

  ghost predicate GoodCall(w: World, c: Call) {
    match c
    case Sent(route, last) => GoodLast(w, route, last)
    case Answered(route, last, response, held) =>
      GoodLast(w, route, last) && (
        match response
        case NotModified => last.Some? && last.value.body.json == held
        case Okay(json, etag) => json == held && NamesWhatItHolds(w, route, Content(json, etag))
        case Refused => true)
    case Returned(body, held) => body.json == held && RealObject(w, body)
    case Threw => true
  }

  ghost predicate Good(w: World) {
    && (forall route <- w.server :: NamesWhatItHolds(w, route, w.server[route]))
    && (forall route <- w.tagged :: GoodEntry(w, route, w.tagged[route]))
    && (forall id <- w.calls :: GoodCall(w, w.calls[id]))
  }

  // Names are never withdrawn and objects never altered, so what held goes on holding.
  ghost predicate Grows(w: World, w': World) {
    && (forall key <- w.named :: key in w'.named && w'.named[key] == w.named[key])
    && |w.parsed| <= |w'.parsed| && w'.parsed[..|w.parsed|] == w.parsed
  }

  lemma GoodEntryGrows(w: World, w': World, route: string, entry: Entry)
    requires Grows(w, w') && GoodEntry(w, route, entry)
    ensures GoodEntry(w', route, entry)
  {
    assert w'.parsed[..|w.parsed|][entry.body.id] == w'.parsed[entry.body.id];
  }

  lemma GoodCallGrows(w: World, w': World, c: Call)
    requires Grows(w, w') && GoodCall(w, c)
    ensures GoodCall(w', c)
  {
    if (c.Sent? || c.Answered?) && c.last.Some? { GoodEntryGrows(w, w', c.route, c.last.value); }
    if c.Returned? { assert w'.parsed[..|w.parsed|][c.body.id] == w'.parsed[c.body.id]; }
  }

  lemma StepGrows(w: World, e: Event)
    requires Enabled(w, e) && Honest(w, e)
    ensures Grows(w, Next(w, e))
  {
    match e
    case Settle(id) =>
      if w.calls[id].response.Okay? { assert (w.parsed + [w.calls[id].response.json])[..|w.parsed|] == w.parsed; }
    case Change(route, content) =>
    case Send(id, route) =>
    case Serve(id, how) =>
    case SettleBroken(id) =>
  }

  // The call an event touches ends up good.
  lemma TouchedCallIsGood(w: World, e: Event, id: nat)
    requires Good(w) && Enabled(w, e) && Honest(w, e)
    requires (e.Send? && e.id == id) || (e.Serve? && e.id == id) || (e.Settle? && e.id == id)
      || (e.SettleBroken? && e.id == id)
    ensures id in Next(w, e).calls && GoodCall(Next(w, e), Next(w, e).calls[id])
  {
    var w' := Next(w, e);
    StepGrows(w, e);
    match e
    case Send(_, route) =>
    case Serve(_, how) =>
      var c := w.calls[id];
      GoodCallGrows(w, w', c);
    case Settle(_) =>
      var c := w.calls[id];
      GoodCallGrows(w, w', c);
    case SettleBroken(_) =>
  }

  lemma StepKeepsGood(w: World, e: Event)
    requires Good(w) && Enabled(w, e) && Honest(w, e)
    ensures Good(Next(w, e))
  {
    var w' := Next(w, e);
    StepGrows(w, e);
    hide Grows, GoodCall, GoodEntry;
    forall route | route in w'.server ensures NamesWhatItHolds(w', route, w'.server[route]) {
      ServerStaysNamed(w, e, route);
    }
    forall route | route in w'.tagged ensures GoodEntry(w', route, w'.tagged[route]) {
      TaggedStaysGood(w, e, route);
    }
    forall id | id in w'.calls ensures GoodCall(w', w'.calls[id]) {
      if (e.Send? && e.id == id) || (e.Serve? && e.id == id) || (e.Settle? && e.id == id)
        || (e.SettleBroken? && e.id == id)
      {
        TouchedCallIsGood(w, e, id);
      } else {
        GoodCallGrows(w, w', w.calls[id]);
      }
    }
  }

  lemma ServerStaysNamed(w: World, e: Event, route: string)
    requires Good(w) && Enabled(w, e) && Honest(w, e) && route in Next(w, e).server
    ensures NamesWhatItHolds(Next(w, e), route, Next(w, e).server[route])
  {
    StepGrows(w, e);
  }

  lemma TaggedStaysGood(w: World, e: Event, route: string)
    requires Good(w) && Enabled(w, e) && Honest(w, e) && route in Next(w, e).tagged
    ensures GoodEntry(Next(w, e), route, Next(w, e).tagged[route])
  {
    var w' := Next(w, e);
    StepGrows(w, e);
    if route in w.tagged && w'.tagged[route] == w.tagged[route] {
      GoodEntryGrows(w, w', route, w.tagged[route]);
    } else {
      assert e.Settle?;
      var c := w.calls[e.id];
      assert GoodCall(w, c) && c.response.Okay?;
      GoodCallGrows(w, w', c);
    }
  }

  // Whatever the interleaving: each successful read returns what the server held when it answered it.
  lemma {:induction false} ReadsAreCurrent(w: World, events: seq<Event>, id: nat)
    requires Good(w) && IsRun(w, events)
    ensures Good(RunFrom(w, events))
    ensures var w' := RunFrom(w, events);
      id in w'.calls && w'.calls[id].Returned? ==> w'.calls[id].body.json == w'.calls[id].held
    decreases |events|
  {
    hide Enabled, Honest, Next;
    if events != [] {
      StepKeepsGood(w, events[0]);
      ReadsAreCurrent(Next(w, events[0]), events[1..], id);
    }
  }

  // An object answered twice is the same document twice, so a surface may take identity for "unchanged".
  lemma SameObjectSameDocument(events: seq<Event>, id: nat, id': nat)
    requires IsRun(EMPTY, events)
    requires id in RunFrom(EMPTY, events).calls && RunFrom(EMPTY, events).calls[id].Returned?
    requires id' in RunFrom(EMPTY, events).calls && RunFrom(EMPTY, events).calls[id'].Returned?
    requires RunFrom(EMPTY, events).calls[id].body.id == RunFrom(EMPTY, events).calls[id'].body.id
    ensures RunFrom(EMPTY, events).calls[id].held == RunFrom(EMPTY, events).calls[id'].held
  {
    ReadsAreCurrent(EMPTY, events, id);
  }

  // ---- the uncached client ----

  datatype PlainCall = Asked(route: string) | Got(answer: Option<string>) | Gave(document: string) | Lost

  // A client that keeps nothing and asks for the whole document every time.
  datatype Plain = Plain(server: map<string, string>, calls: map<nat, PlainCall>)

  predicate PlainEnabled(p: Plain, e: Event) {
    match e
    case Change(_, _) => true
    case Send(id, _) => id !in p.calls
    case Serve(id, how) => id in p.calls && p.calls[id].Asked? && (how == Refuse || p.calls[id].route in p.server)
    case Settle(id) => id in p.calls && p.calls[id].Got?
    case SettleBroken(id) => id in p.calls && (p.calls[id].Asked? || p.calls[id].Got?)
  }

  function PlainNext(p: Plain, e: Event): Plain
    requires PlainEnabled(p, e)
  {
    match e
    case Change(route, content) => p.(server := p.server[route := content.json])
    case Send(id, route) => p.(calls := p.calls[id := Asked(route)])
    case Serve(id, how) =>
      p.(calls := p.calls[id := Got(if how == Refuse then None else Some(p.server[p.calls[id].route]))])
    case Settle(id) =>
      p.(calls := p.calls[id := if p.calls[id].answer.Some? then Gave(p.calls[id].answer.value) else Lost])
    case SettleBroken(id) => p.(calls := p.calls[id := Lost])
  }

  ghost predicate PlainIsRun(p: Plain, events: seq<Event>)
    decreases |events|
  {
    events == [] || (PlainEnabled(p, events[0]) && PlainIsRun(PlainNext(p, events[0]), events[1..]))
  }

  function PlainRunFrom(p: Plain, events: seq<Event>): Plain
    requires PlainIsRun(p, events)
    decreases |events|
  {
    if events == [] then p else PlainRunFrom(PlainNext(p, events[0]), events[1..])
  }

  function PlainOf(c: Call): PlainCall {
    match c
    case Sent(route, _) => Asked(route)
    case Answered(_, _, response, held) => Got(if response == Refused then None else Some(held))
    case Returned(body, _) => Gave(body.json)
    case Threw => Lost
  }

  function PlainServer(server: map<string, Content>): map<string, string> {
    map route | route in server :: server[route].json
  }

  function PlainCalls(calls: map<nat, Call>): map<nat, PlainCall> {
    map id | id in calls :: PlainOf(calls[id])
  }

  function Forget(w: World): Plain {
    Plain(PlainServer(w.server), PlainCalls(w.calls))
  }

  lemma PlainCallsUpdate(calls: map<nat, Call>, id: nat, c: Call)
    ensures PlainCalls(calls[id := c]) == PlainCalls(calls)[id := PlainOf(c)]
    ensures id in PlainCalls(calls) <==> id in calls
    ensures id in calls ==> PlainCalls(calls)[id] == PlainOf(calls[id])
  {
  }

  lemma PlainServerUpdate(server: map<string, Content>, route: string, content: Content)
    ensures PlainServer(server[route := content]) == PlainServer(server)[route := content.json]
    ensures route in PlainServer(server) <==> route in server
    ensures route in server ==> PlainServer(server)[route] == server[route].json
  {
  }

  lemma StepRefines(w: World, e: Event)
    requires Good(w) && Enabled(w, e)
    ensures PlainEnabled(Forget(w), e) && Forget(Next(w, e)) == PlainNext(Forget(w), e)
  {
    hide PlainCalls, PlainServer;
    match e
    case Change(route, content) => PlainServerUpdate(w.server, route, content);
    case Send(id, route) => PlainCallsUpdate(w.calls, id, Sent(route, Lookup(w.tagged, route)));
    case Serve(id, how) =>
      PlainServerUpdate(w.server, w.calls[id].route, Content("", None));
      PlainCallsUpdate(w.calls, id, Next(w, e).calls[id]);
    case Settle(id) =>
      assert GoodCall(w, w.calls[id]);
      PlainCallsUpdate(w.calls, id, Next(w, e).calls[id]);
    case SettleBroken(id) => PlainCallsUpdate(w.calls, id, Threw);
  }

  // Seen without its cache, every run is a run of the uncached client: event by event, answer by answer.
  lemma {:induction false} RefinesPlainGet(w: World, events: seq<Event>)
    requires Good(w) && IsRun(w, events)
    ensures PlainIsRun(Forget(w), events)
    ensures Forget(RunFrom(w, events)) == PlainRunFrom(Forget(w), events)
    decreases |events|
  {
    hide Enabled, Honest, Next, PlainEnabled, PlainNext, Forget, Good;
    if events != [] {
      StepRefines(w, events[0]);
      StepKeepsGood(w, events[0]);
      RefinesPlainGet(Next(w, events[0]), events[1..]);
    }
  }

  // The condition on tags is needed: reuse a tag the client holds for another document, and the next
  // read of the route returns the old one.
  lemma ReusedTagIsSeen(w: World, route: string, json: string, id: nat)
    requires Good(w) && route in w.tagged && id !in w.calls
    requires json != w.tagged[route].body.json
    ensures var reuse := Change(route, Content(json, Some(w.tagged[route].etag)));
      !Honest(w, reuse)
      && var w1 := Next(w, reuse);
      Enabled(w1, Send(id, route))
      && var w2 := Next(w1, Send(id, route));
      Enabled(w2, Serve(id, Unchanged))
      && var w3 := Next(w2, Serve(id, Unchanged));
      Enabled(w3, Settle(id))
      && Next(w3, Settle(id)).calls[id] == Returned(w.tagged[route].body, json)
  {
  }

  // ---- what the next request carries ----

  // The pair a request sent now would close over, and the tag it would carry.
  function NextLast(w: World, id: nat, route: string): Option<Entry>
    requires id !in w.calls
  {
    Next(w, Send(id, route)).calls[id].last
  }

  function NextTag(w: World, id: nat, route: string): Option<string>
    requires id !in w.calls
  {
    var last := NextLast(w, id, route);
    if last.Some? then Some(last.value.etag) else None
  }

  // A good answer with a tag is remembered: while that tag stands for the server, the next read of the route sends
  // it, may be answered 304, and then returns the very object the first read returned.
  lemma TaggedReadIsRemembered(w: World, id: nat, next: nat, json: string, etag: string)
    requires id in w.calls && w.calls[id].Answered? && w.calls[id].response == Okay(json, Some(etag)) && etag != ""
    requires next !in w.calls && next != id
    ensures var route, w1 := w.calls[id].route, Next(w, Settle(id));
      && w1.calls[id].Returned? && w1.calls[id].body.json == json
      && NextTag(w1, next, route) == Some(etag)
      && var w2 := Next(w1, Send(next, route));
      (route in w.server && w.server[route].etag == Some(etag) ==>
        && Enabled(w2, Serve(next, Unchanged))
        && var w3 := Next(w2, Serve(next, Unchanged));
        && Enabled(w3, Settle(next))
        && var w4 := Next(w3, Settle(next));
        w4.calls[next].Returned? && w4.calls[next].body == w1.calls[id].body && w4.tagged == w1.tagged)
  {
  }

  // A full answer is the document and the tag the server holds, both as they are.
  lemma FullAnswersWhole(w: World, id: nat)
    requires Enabled(w, Serve(id, Full))
    ensures var w', route := Next(w, Serve(id, Full)), w.calls[id].route;
      var content := w.server[route];
      w'.calls[id] == Answered(route, w.calls[id].last, Okay(content.json, content.etag), content.json)
  {
  }

  // A good answer without a tag, or with an empty one, leaves the next read of the route untagged.
  lemma UntaggedReadForgets(w: World, id: nat, next: nat, json: string, etag: Option<string>)
    requires id in w.calls && w.calls[id].Answered? && w.calls[id].response == Okay(json, etag)
    requires etag == None || etag == Some("")
    requires next !in w.calls && next != id
    ensures var w1 := Next(w, Settle(id));
      w1.calls[id].Returned? && w1.calls[id].body.json == json && NextTag(w1, next, w.calls[id].route) == None
  {
  }

  // The event is a good answer to a read of `route`.
  predicate Renews(w: World, e: Event, route: string) {
    && e.Settle? && e.id in w.calls && w.calls[e.id].Answered?
    && w.calls[e.id].response.Okay? && w.calls[e.id].route == route
  }

  // Nothing else touches what the next read of a route closes over: no 304, refusal, broken connection, send, answer
  // or change, and no answer for another route.
  lemma OnlyAGoodAnswerRenews(w: World, e: Event, route: string, next: nat)
    requires Enabled(w, e) && !Renews(w, e, route)
    requires next !in w.calls && next !in Next(w, e).calls
    ensures NextLast(Next(w, e), next, route) == NextLast(w, next, route)
  {
  }

  ghost predicate NeverRenews(w: World, events: seq<Event>, route: string)
    requires IsRun(w, events)
    decreases |events|
  {
    events == [] || (!Renews(w, events[0], route) && NeverRenews(Next(w, events[0]), events[1..], route))
  }

  // So over any run without a good answer for it, a route's next read carries what it would have carried before.
  lemma {:induction false} TagOutlastsTheRest(w: World, events: seq<Event>, route: string, next: nat)
    requires IsRun(w, events) && NeverRenews(w, events, route)
    requires next !in w.calls && next !in RunFrom(w, events).calls
    ensures NextLast(RunFrom(w, events), next, route) == NextLast(w, next, route)
    decreases |events|
  {
    if events != [] {
      CallsStay(Next(w, events[0]), events[1..], next);
      OnlyAGoodAnswerRenews(w, events[0], route, next);
      hide Next, Enabled, Renews, NextLast;
      TagOutlastsTheRest(Next(w, events[0]), events[1..], route, next);
    }
  }

  lemma {:induction false} CallsStay(w: World, events: seq<Event>, id: nat)
    requires IsRun(w, events)
    ensures id in w.calls ==> id in RunFrom(w, events).calls
    decreases |events|
  {
    if events != [] { CallsStay(Next(w, events[0]), events[1..], id); }
  }

  // A 304 may answer a tag that is the server's up to its weakness mark, on either side, and no other.
  lemma WeakTagsMatch(w: World, c: Call, etag: string)
    requires c.Sent? && c.last.Some? && c.route in w.server && w.server[c.route].etag == Some(etag)
    requires |etag| < 2 || etag[..2] != "W/"
    requires |c.last.value.etag| < 2 || c.last.value.etag[..2] != "W/" || c.last.value.etag == "W/" + etag
    ensures MayServe(w, c, Unchanged) <==> c.last.value.etag == etag || c.last.value.etag == "W/" + etag
  {
    assert ("W/" + etag)[2..] == etag && ("W/" + etag)[..2] == "W/";
  }

  // ---- the fleet's copy of the cache ----

  datatype Scope = Global | Local

  function StatusRoute(scope: Option<Scope>): string {
    match scope
    case None => "/api/mesh/status"
    case Some(Global) => "/api/mesh/status?scope=global"
    case Some(Local) => "/api/mesh/status?scope=local"
  }

  // Each scope keeps its own tag: an answer for one leaves the entry of the others as it was.
  lemma ScopesKeepTheirOwn(tagged: map<string, Entry>, s: Option<Scope>, t: Option<Scope>, last: Option<Entry>,
      response: Response, nextId: nat)
    requires s != t
    ensures Lookup(Finish(tagged, StatusRoute(s), last, response, nextId).1, StatusRoute(t))
      == Lookup(tagged, StatusRoute(t))
  {
    var common := "/api/mesh/status";
    assert StatusRoute(Some(Global))[|common| + 7] == 'g' && StatusRoute(Some(Local))[|common| + 7] == 'l';
    assert |StatusRoute(None)| == |common|;
  }

  // ---- the program ----

  // `getJson` between its awaits: `Begin` runs up to the fetch, `Complete` from the parsed response on.
  class Client {
    var tagged: map<string, Entry>

    constructor ()
      ensures tagged == map[]
    {
      tagged := map[];
    }

    // The entry read here is the one a 304 will be answered from, whatever happens to the map meanwhile.
    method Begin(route: string) returns (last: Option<Entry>, ifNoneMatch: Option<string>)
      ensures last == Lookup(tagged, route)
      ensures ifNoneMatch == if route in tagged then Some(tagged[route].etag) else None
    {
      if route in tagged {
        last, ifNoneMatch := Some(tagged[route]), Some(tagged[route].etag);
      } else {
        last, ifNoneMatch := None, None;
      }
    }

    method Complete(route: string, last: Option<Entry>, response: Response, nextId: nat) returns (body: Option<Parsed>)
      modifies this
      ensures (body, tagged) == Finish(old(tagged), route, last, response, nextId)
      ensures response.NotModified? ==> tagged == old(tagged)
      ensures response.NotModified? ==> body == if last.Some? then Some(last.value.body) else None
      ensures response.Refused? ==> tagged == old(tagged) && body == None
      ensures response.Okay? ==> body == Some(Parsed(nextId, response.json))
      ensures response.Okay? && response.etag.Some? && response.etag.value != "" ==>
        tagged == old(tagged)[route := Entry(response.etag.value, Parsed(nextId, response.json))]
      ensures response.Okay? && (response.etag == None || response.etag == Some("")) ==> tagged == old(tagged) - {route}
    {
      if response.NotModified? && last.Some? { return Some(last.value.body); }
      if !response.Okay? { return None; }
      var parsed := Parsed(nextId, response.json);
      if response.etag.Some? && response.etag.value != "" {
        tagged := tagged[route := Entry(response.etag.value, parsed)];
      } else {
        tagged := tagged - {route};
      }
      return Some(parsed);
    }
  }
}
