/**
  The fleet page's three narrowings and the address that carries them: the change handlers and the
  `popstate` listener of `apps/ui/src/fleet/Fleet.tsx` over the readers and writers of
  `apps/ui/src/fleet/scope.mjs`. A search string is its list of name-value pairs, as in section 6.2 of the
  WHATWG URL Standard.
 */
module FleetAddress {
  import opened Wrappers
  import Regex

  type Search = seq<(string, string)>

  datatype Scope = Global | Local

  // ---- URLSearchParams ----

  function Get(s: Search, name: string): Option<string> {
    if s == [] then None else if s[0].0 == name then Some(s[0].1) else Get(s[1..], name)
  }

  function Delete(s: Search, name: string): Search {
    if s == [] then [] else (if s[0].0 == name then [] else [s[0]]) + Delete(s[1..], name)
  }

  // The first pair of that name takes the value where it stands, the others go; with none, one is added.
  function Set(s: Search, name: string, value: string): Search {
    if s == [] then [(name, value)]
    else if s[0].0 == name then [(name, value)] + Delete(s[1..], name)
    else [s[0]] + Set(s[1..], name, value)
  }

  // ---- scope.mjs ----

  function ScopeWord(scope: Scope): string {
    match scope
    case Global => "global"
    case Local => "local"
  }

  function ScopeFrom(s: Search): Scope {
    if Get(s, "scope") == Some("local") then Local else Global
  }

  function WithScope(s: Search, scope: Scope): Search {
    Set(s, "scope", ScopeWord(scope))
  }

  predicate IsBlank(repo: Option<string>) {
    repo.None? || forall i :: 0 <= i < |repo.value| ==> Regex.IsSpace(repo.value[i])
  }

  function RepoFrom(s: Search): Option<string> {
    if IsBlank(Get(s, "repo")) then None else Get(s, "repo")
  }

  function WithRepo(s: Search, repo: Option<string>): Search {
    if IsBlank(repo) then Delete(s, "repo") else Set(s, "repo", repo.value)
  }

  const DEFAULT_STATUS := "open"

  predicate IsStatus(filter: string) {
    filter in {"open", "all", "not-started", "in-progress", "in-review", "blocked", "done"}
  }

  function StatusFrom(s: Search): string {
    match Get(s, "status")
    case Some(raw) => if IsStatus(raw) then raw else DEFAULT_STATUS
    case None => DEFAULT_STATUS
  }

  function WithStatus(s: Search, filter: string): Search {
    if !IsStatus(filter) || filter == DEFAULT_STATUS then Delete(s, "status") else Set(s, "status", filter)
  }

  // ---- the page ----

  datatype Page = Page(scope: Scope, repo: Option<string>, status: string, entries: seq<Search>, at: nat)

  datatype Event =
    | ChangeScope(scope: Scope)
    | ChangeRepo(repo: Option<string>)
    | ChangeStatus(filter: string)
    | Travel(delta: int)          // Back and Forward; out of range, the browser does nothing

  ghost predicate Valid(p: Page) {
    p.at < |p.entries|
  }

  function Address(p: Page): Search
    requires Valid(p)
  {
    p.entries[p.at]
  }

  function Mount(s: Search): Page {
    Page(ScopeFrom(s), RepoFrom(s), StatusFrom(s), [s], 0)
  }

  // `pushState`: the entries ahead are dropped.
  function Push(p: Page, s: Search): Page
    requires Valid(p)
  {
    p.(entries := p.entries[..p.at + 1] + [s], at := p.at + 1)
  }

  function Reread(p: Page): Page
    requires Valid(p)
  {
    p.(scope := ScopeFrom(Address(p)), repo := RepoFrom(Address(p)), status := StatusFrom(Address(p)))
  }

  function Step(p: Page, e: Event): (p': Page)
    requires Valid(p)
    ensures Valid(p')
  {
    var search := Address(p);
    match e
    case ChangeScope(next) => Push(p.(scope := next), WithScope(search, next))
    case ChangeRepo(next) =>
      if RepoFrom(search) == next then p else Push(p.(repo := next), WithRepo(search, next))
    case ChangeStatus(next) =>
      if StatusFrom(search) == next then p
      else Push(p.(status := StatusFrom(WithStatus([], next))), WithStatus(search, next))
    case Travel(delta) =>
      if 0 <= p.at + delta < |p.entries| then Reread(p.(at := p.at + delta)) else p
  }

  function RunFrom(p: Page, events: seq<Event>): (p': Page)
    requires Valid(p)
    ensures Valid(p')
    decreases |events|
  {
    if events == [] then p else RunFrom(Step(p, events[0]), events[1..])
  }

  ghost predicate Agrees(p: Page)
    requires Valid(p)
  {
    p.scope == ScopeFrom(Address(p)) && p.repo == RepoFrom(Address(p)) && p.status == StatusFrom(Address(p))
  }

  // ---- reading back what was written ----

  lemma {:induction false} GetAfterDelete(s: Search, name: string, other: string)
    ensures Get(Delete(s, name), other) == if other == name then None else Get(s, other)
  {
    if s != [] {
      GetAfterDelete(s[1..], name, other);
      var rest := Delete(s[1..], name);
      assert ([s[0]] + rest)[1..] == rest && [] + rest == rest;
    }
  }

  lemma {:induction false} GetAfterSet(s: Search, name: string, value: string, other: string)
    ensures Get(Set(s, name, value), other) == if other == name then Some(value) else Get(s, other)
  {
    if s != [] {
      GetAfterSet(s[1..], name, value, other);
      GetAfterDelete(s[1..], name, other);
      var rest, gone := Set(s[1..], name, value), Delete(s[1..], name);
      assert ([s[0]] + rest)[1..] == rest && ([(name, value)] + gone)[1..] == gone;
    }
  }

  // Every other pair keeps its value, its repeats and its place among the others.
  lemma {:induction false} OthersAreKept(s: Search, name: string, value: string)
    ensures Delete(Set(s, name, value), name) == Delete(s, name)
    ensures Delete(Delete(s, name), name) == Delete(s, name)
  {
    if s != [] {
      OthersAreKept(s[1..], name, value);
      var rest, gone := Set(s[1..], name, value), Delete(s[1..], name);
      assert ([s[0]] + rest)[1..] == rest && ([(name, value)] + gone)[1..] == gone && ([s[0]] + gone)[1..] == gone
        && [] + gone == gone;
    }
  }

  // The first pair of a name decides what is read, by the words it may hold.
  ghost predicate FirstIs(s: Search, name: string, value: string) {
    exists i :: 0 <= i < |s| && s[i] == (name, value) && forall j :: 0 <= j < i ==> s[j].0 != name
  }

  lemma {:induction false} GetIsFirst(s: Search, name: string, value: string)
    ensures Get(s, name) == Some(value) <==> FirstIs(s, name, value)
  {
    if s != [] {
      GetIsFirst(s[1..], name, value);
      if s[0].0 == name {
        if i :| 0 <= i < |s| && s[i] == (name, value) && forall j :: 0 <= j < i ==> s[j].0 != name { assert i == 0; }
      } else {
        FirstLater(s, name, value);
      }
    }
  }

  lemma FirstLater(s: Search, name: string, value: string)
    requires s != [] && s[0].0 != name
    ensures FirstIs(s, name, value) <==> FirstIs(s[1..], name, value)
  {
    if i :| 0 <= i < |s| && s[i] == (name, value) && forall j :: 0 <= j < i ==> s[j].0 != name {
      assert s[1..][i - 1] == (name, value) && forall j :: 0 <= j < i - 1 ==> s[1..][j] == s[j + 1];
    }
    if i :| 0 <= i < |s[1..]| && s[1..][i] == (name, value) && forall j :: 0 <= j < i ==> s[1..][j].0 != name {
      forall j | 0 <= j < i + 1 ensures s[j].0 != name { if j > 0 { assert s[j] == s[1..][j - 1]; } }
      assert s[i + 1] == (name, value);
    }
  }

  ghost predicate HasInk(s: string) {
    exists c :: c in s && !Regex.IsSpace(c)
  }

  lemma BlankExactly(s: string)
    ensures IsBlank(Some(s)) <==> !HasInk(s)
    ensures IsBlank(None)
  {
    if c :| c in s && !Regex.IsSpace(c) { var i :| 0 <= i < |s| && s[i] == c; }
  }

  // What an address says: local only if its first scope is, the first repo unless it is blank, and the first status
  // if it is one of the seven words; without the key, or with anything else in it, global, no repo and open.
  lemma ReadersExactly(s: Search, value: string)
    ensures ScopeFrom(s) == Local <==> FirstIs(s, "scope", "local")
    ensures RepoFrom(s) == Some(value) <==> FirstIs(s, "repo", value) && HasInk(value)
    ensures value in {"all", "not-started", "in-progress", "in-review", "blocked", "done"} ==>
      (StatusFrom(s) == value <==> FirstIs(s, "status", value))
    ensures StatusFrom(s) in {"open", "all", "not-started", "in-progress", "in-review", "blocked", "done"}
  {
    hide Get, FirstIs, IsBlank, HasInk;
    GetIsFirst(s, "scope", "local");
    GetIsFirst(s, "repo", value);
    GetIsFirst(s, "status", value);
    BlankExactly(value);
    if Get(s, "repo").Some? { BlankExactly(Get(s, "repo").value); }
    BlankNone();
  }

  // Each control writes its own key and leaves the other narrowings, and every key it does not know, alone.
  lemma ScopeIsWritten(s: Search, scope: Scope)
    ensures ScopeFrom(WithScope(s, scope)) == scope
    ensures RepoFrom(WithScope(s, scope)) == RepoFrom(s) && StatusFrom(WithScope(s, scope)) == StatusFrom(s)
    ensures Delete(WithScope(s, scope), "scope") == Delete(s, "scope")
  {
    hide Get, Set, Delete, IsBlank, IsStatus;
    Reads(s, "scope", ScopeWord(scope));
    assert "scope" != "repo" && "scope" != "status";
    assert ScopeWord(Global) != "local";
  }

  lemma RepoIsWritten(s: Search, repo: Option<string>)
    ensures RepoFrom(WithRepo(s, repo)) == if IsBlank(repo) then None else repo
    ensures ScopeFrom(WithRepo(s, repo)) == ScopeFrom(s) && StatusFrom(WithRepo(s, repo)) == StatusFrom(s)
    ensures Delete(WithRepo(s, repo), "repo") == Delete(s, "repo")
  {
    hide Get, Set, Delete, IsBlank, IsStatus;
    Reads(s, "repo", if repo.None? then "" else repo.value);
    assert "scope" != "repo" && "repo" != "status";
    BlankNone();
    if repo.Some? { assert Some(repo.value) == repo; }
  }

  lemma StatusIsWritten(s: Search, filter: string)
    ensures StatusFrom(WithStatus(s, filter)) == if IsStatus(filter) then filter else DEFAULT_STATUS
    ensures ScopeFrom(WithStatus(s, filter)) == ScopeFrom(s) && RepoFrom(WithStatus(s, filter)) == RepoFrom(s)
    ensures Delete(WithStatus(s, filter), "status") == Delete(s, "status")
  {
    hide Get, Set, Delete, IsBlank, IsStatus;
    Reads(s, "status", filter);
    assert "scope" != "status" && "repo" != "status";
    DefaultIsAStatus();
  }

  lemma BlankNone()
    ensures IsBlank(None)
  {
  }

  lemma DefaultIsAStatus()
    ensures IsStatus(DEFAULT_STATUS)
  {
  }

  lemma Reads(s: Search, name: string, value: string)
    ensures forall other :: Get(Set(s, name, value), other) == if other == name then Some(value) else Get(s, other)
    ensures forall other :: Get(Delete(s, name), other) == if other == name then None else Get(s, other)
    ensures Delete(Set(s, name, value), name) == Delete(s, name) == Delete(Delete(s, name), name)
  {
    hide Get, Set, Delete;
    OthersAreKept(s, name, value);
    forall other ensures Get(Set(s, name, value), other) == if other == name then Some(value) else Get(s, other) {
      GetAfterSet(s, name, value, other);
    }
    forall other ensures Get(Delete(s, name), other) == if other == name then None else Get(s, other) {
      GetAfterDelete(s, name, other);
    }
  }

  // ---- the page and its address ----

  // What the pickers hand over: no repo, or one that is not blank.
  predicate Offered(e: Event) {
    e.ChangeRepo? && e.repo.Some? ==> !IsBlank(e.repo)
  }

  lemma PushedAddress(p: Page, s: Search)
    requires Valid(p)
    ensures Valid(Push(p, s)) && Address(Push(p, s)) == s && |Push(p, s).entries| == p.at + 2
    ensures Push(p, s).entries[..p.at + 1] == p.entries[..p.at + 1]
  {
  }

  // A step parts page and address exactly when it asks for a blank repo.
  lemma StepAgrees(p: Page, e: Event)
    requires Valid(p) && Agrees(p)
    ensures Agrees(Step(p, e)) <==> Offered(e)
  {
    hide Get, Set, Delete, IsBlank, IsStatus, Push, ScopeFrom, RepoFrom, StatusFrom, WithScope, WithRepo, WithStatus;
    var s := Address(p);
    match e
    case ChangeScope(next) =>
      ScopeIsWritten(s, next);
      PushedAddress(p.(scope := next), WithScope(s, next));
      PushedFields(p.(scope := next), WithScope(s, next));
    case ChangeRepo(next) =>
      RepoIsWritten(s, next);
      PushedAddress(p.(repo := next), WithRepo(s, next));
      PushedFields(p.(repo := next), WithRepo(s, next));
      RepoReadings(s);
      BlankNone();
    case ChangeStatus(next) =>
      StatusIsWritten(s, next);
      StatusIsWritten([], next);
      var written := p.(status := StatusFrom(WithStatus([], next)));
      PushedAddress(written, WithStatus(s, next));
      PushedFields(written, WithStatus(s, next));
    case Travel(delta) =>
  }

  lemma PushedFields(p: Page, s: Search)
    requires Valid(p)
    ensures var q := Push(p, s); q.scope == p.scope && q.repo == p.repo && q.status == p.status && q.at == p.at + 1
  {
  }

  // Over any run of changes and moves the narrowings are what the readers give on the address.
  lemma {:induction false} AddressAndPageAgree(p: Page, events: seq<Event>)
    requires Valid(p) && Agrees(p)
    requires forall e <- events :: Offered(e)
    ensures Agrees(RunFrom(p, events))
    decreases |events|
  {
    hide Agrees, Step;
    if events != [] {
      StepAgrees(p, events[0]);
      assert forall e <- events[1..] :: e in events;
      AddressAndPageAgree(Step(p, events[0]), events[1..]);
    }
  }

  // A blank repo is the one request that parts them: the page filters by it, the address drops it.
  lemma BlankRepoParts(p: Page, blank: string)
    requires Valid(p) && Agrees(p) && IsBlank(Some(blank))
    ensures var q := Step(p, ChangeRepo(Some(blank)));
      q.repo == Some(blank) && RepoFrom(Address(q)) == None && !Agrees(q)
      && |q.entries| == p.at + 2
  {
    var s := Address(p);
    RepoIsWritten(s, Some(blank));
    PushedAddress(p.(repo := Some(blank)), WithRepo(s, Some(blank)));
    hide Get, Delete, Set, WithRepo;
  }

  // ---- what is pushed ----

  // A repo or status change pushes an entry exactly when it asks for another value than the address
  // reads; the value it reads afterwards is another one, but for a blank repo asked of an unfiltered page
  // and for an unknown status asked of the default one.
  lemma PushesOnlyAChange(p: Page, repo: Option<string>, filter: string)
    requires Valid(p)
    ensures var q, was := Step(p, ChangeRepo(repo)), RepoFrom(Address(p));
      && (q != p <==> was != repo)
      && (q != p ==> q.at == p.at + 1 && (RepoFrom(Address(q)) == was <==> was == None && IsBlank(repo)))
    ensures var q, was := Step(p, ChangeStatus(filter)), StatusFrom(Address(p));
      && (q != p <==> was != filter)
      && (q != p ==> q.at == p.at + 1)
      && (q != p ==> (StatusFrom(Address(q)) == was <==> was == DEFAULT_STATUS && !IsStatus(filter)))
  {
    hide Get, Set, Delete, IsBlank, IsStatus, Push, WithScope, WithRepo, WithStatus;
    var s := Address(p);
    RepoIsWritten(s, repo);
    StatusIsWritten(s, filter);
    RepoReadings(s);
    PushedAddress(p.(repo := repo), WithRepo(s, repo));
    PushedFields(p.(repo := repo), WithRepo(s, repo));
    var written := p.(status := StatusFrom(WithStatus([], filter)));
    PushedAddress(written, WithStatus(s, filter));
    PushedFields(written, WithStatus(s, filter));
  }

  // A change does what it says: the page and the address take the value asked for, the other two narrowings stay on
  // both, the address keeps all its other pairs, and the entry is one more after the one on show.
  lemma ChangesAreMade(p: Page, scope: Scope, repo: Option<string>, filter: string)
    requires Valid(p)
    ensures var q := Step(p, ChangeScope(scope));
      && q.scope == ScopeFrom(Address(q)) == scope && q.repo == p.repo && q.status == p.status
      && RepoFrom(Address(q)) == RepoFrom(Address(p)) && StatusFrom(Address(q)) == StatusFrom(Address(p))
      && Delete(Address(q), "scope") == Delete(Address(p), "scope") && IsNext(p, q)
    ensures repo != RepoFrom(Address(p)) ==>
      var q := Step(p, ChangeRepo(repo));
      && q.repo == repo && RepoFrom(Address(q)) == (if IsBlank(repo) then None else repo)
      && q.scope == p.scope && q.status == p.status
      && ScopeFrom(Address(q)) == ScopeFrom(Address(p)) && StatusFrom(Address(q)) == StatusFrom(Address(p))
      && Delete(Address(q), "repo") == Delete(Address(p), "repo") && IsNext(p, q)
    ensures filter != StatusFrom(Address(p)) ==>
      var q := Step(p, ChangeStatus(filter));
      && q.status == StatusFrom(Address(q)) == (if IsStatus(filter) then filter else "open")
      && q.scope == p.scope && q.repo == p.repo
      && ScopeFrom(Address(q)) == ScopeFrom(Address(p)) && RepoFrom(Address(q)) == RepoFrom(Address(p))
      && Delete(Address(q), "status") == Delete(Address(p), "status") && IsNext(p, q)
  {
    hide Get, Set, Delete, IsBlank, IsStatus, Push, WithScope, WithRepo, WithStatus, ScopeFrom, RepoFrom, StatusFrom;
    var s := Address(p);
    ScopeIsWritten(s, scope);
    RepoIsWritten(s, repo);
    StatusIsWritten(s, filter);
    StatusIsWritten([], filter);
    var written := p.(status := StatusFrom(WithStatus([], filter)));
    PushedAddress(p.(scope := scope), WithScope(s, scope));
    PushedFields(p.(scope := scope), WithScope(s, scope));
    PushedAddress(p.(repo := repo), WithRepo(s, repo));
    PushedFields(p.(repo := repo), WithRepo(s, repo));
    PushedAddress(written, WithStatus(s, filter));
    PushedFields(written, WithStatus(s, filter));
  }

  // One entry more than `p` shows, and none ahead.
  ghost predicate IsNext(p: Page, q: Page)
    requires Valid(p)
  {
    q.at == p.at + 1 && |q.entries| == p.at + 2 && q.entries[..p.at + 1] == p.entries[..p.at + 1]
  }

  lemma RepoReadings(s: Search)
    ensures RepoFrom(s).Some? ==> !IsBlank(RepoFrom(s))
    ensures IsStatus(StatusFrom(s))
  {
  }

  // ---- Back ----

  // The entries up to the one shown are never rewritten by a change.
  lemma {:induction false} ChangesOnlyAdd(p: Page, events: seq<Event>)
    requires Valid(p) && forall e <- events :: !e.Travel?
    ensures var q := RunFrom(p, events); p.at <= q.at && q.entries[..p.at + 1] == p.entries[..p.at + 1]
    decreases |events|
  {
    hide WithScope, WithRepo, WithStatus, ScopeFrom, RepoFrom, StatusFrom;
    if events != [] {
      var q := Step(p, events[0]);
      assert q == p || (q.at == p.at + 1 && q.entries[..p.at + 1] == p.entries[..p.at + 1]);
      assert forall e <- events[1..] :: e in events;
      ChangesOnlyAdd(q, events[1..]);
      var r := RunFrom(q, events[1..]);
      assert r.entries[..p.at + 1] == r.entries[..q.at + 1][..p.at + 1];
      assert q.entries[..p.at + 1] == q.entries[..q.at + 1][..p.at + 1];
    }
  }

  // However many changes were made, going Back over the entries they pushed restores the address and the
  // three narrowings that were there.
  lemma BackUndoesChanges(p: Page, events: seq<Event>)
    requires Valid(p) && Agrees(p) && forall e <- events :: !e.Travel?
    ensures var q := RunFrom(p, events);
      var back := Step(q, Travel(p.at - q.at));
      Address(back) == Address(p) && (back.scope, back.repo, back.status) == (p.scope, p.repo, p.status)
        && back.at == p.at
  {
    hide RunFrom, ScopeFrom, RepoFrom, StatusFrom;
    ChangesOnlyAdd(p, events);
    var q := RunFrom(p, events);
    assert q.entries[p.at] == q.entries[..p.at + 1][p.at] == p.entries[..p.at + 1][p.at];
  }

  // Any move shows what the entry it lands on says, and Forward returns from Back.
  lemma MovesShowTheirEntry(p: Page, k: int)
    requires Valid(p) && Agrees(p) && 0 <= k <= p.at
    ensures var back := Step(p, Travel(-k));
      && back.at == p.at - k && Address(back) == p.entries[p.at - k] && Agrees(back)
      && Step(back, Travel(k)) == p
    ensures forall far :: p.at + far < 0 || p.at + far >= |p.entries| ==> Step(p, Travel(far)) == p
  {
    hide ScopeFrom, RepoFrom, StatusFrom;
  }

  // ---- the component ----

  class Fleet {
    var scope: Scope
    var repo: Option<string>
    var workStatus: string
    var entries: seq<Search>
    var at: nat

    function State(): Page
      reads this
    {
      Page(scope, repo, workStatus, entries, at)
    }

    constructor (search: Search)
      ensures State() == Mount(search) && Valid(State()) && Agrees(State())
      ensures Address(State()) == search && |entries| == 1
    {
      scope, repo, workStatus := ScopeFrom(search), RepoFrom(search), StatusFrom(search);
      entries, at := [search], 0;
    }

    method PushAddress(search: Search)
      requires Valid(State())
      modifies this`entries, this`at
      ensures State() == Push(old(State()), search)
    {
      entries := entries[..at + 1] + [search];
      at := at + 1;
    }

    method OnScopeChange(next: Scope)
      requires Valid(State())
      modifies this
      ensures State() == Step(old(State()), ChangeScope(next))
    {
      scope := next;
      PushAddress(WithScope(entries[at], next));
    }

    method OnRepoChange(next: Option<string>)
      requires Valid(State())
      modifies this
      ensures State() == Step(old(State()), ChangeRepo(next))
    {
      var search := entries[at];
      if RepoFrom(search) == next { return; }
      repo := next;
      PushAddress(WithRepo(search, next));
    }

    method OnWorkStatusChange(next: string)
      requires Valid(State())
      modifies this
      ensures State() == Step(old(State()), ChangeStatus(next))
    {
      var search := entries[at];
      if StatusFrom(search) == next { return; }
      workStatus := StatusFrom(WithStatus([], next));
      PushAddress(WithStatus(search, next));
    }

    // The browser moves in its history and, where it can, tells the page.
    method OnPopState(delta: int)
      requires Valid(State())
      modifies this
      ensures State() == Step(old(State()), Travel(delta))
    {
      if !(0 <= at + delta < |entries|) { return; }
      at := at + delta;
      var search := entries[at];
      scope := ScopeFrom(search);
      repo := RepoFrom(search);
      workStatus := StatusFrom(search);
    }
  }
}
