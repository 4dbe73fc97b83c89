/**
  The board's read model, `apps/ui/src/board/model.ts`: what is derived from the flat list of work items,
  and the lane buckets of `apps/ui/src/board/BoardLanes.tsx`. `backlog` is the wire's `number === null`.
 */
module BoardModel {
  import opened Lists
  import opened Wrappers
  import Regex

  datatype Kind = Milestone | Story | Task | Uat | Spike | Chore | Prototype

  datatype Item = Item(ref: string, kind: Kind, status: Option<string>, parent: Option<string>, backlog: bool,
    archived: bool)

  datatype MilestoneCard = MilestoneCard(
    item: Item, num: string, stories: seq<Item>,
    total: nat, done: nat, inReview: nat, inProgress: nat, blocked: nat, notStarted: nat)

  datatype Derived = Derived(
    items: seq<Item>, milestones: seq<MilestoneCard>, uat: seq<Item>, otherDrivers: seq<Item>, backlog: seq<Item>,
    byRef: map<string, Item>, doneMilestones: nat, activeMilestones: nat, blockedGates: nat, archivedMilestones: nat)

  // ---- references ----

  predicate IsDigit(c: char) {
    '0' <= c <= '9'
  }

  function DigitValue(c: char): nat
    requires IsDigit(c)
  {
    (c - '0') as int
  }

  function Digits(s: string, value: nat): nat
  {
    if s != "" && IsDigit(s[0]) then Digits(s[1..], value * 10 + DigitValue(s[0])) else value
  }

  // `Number.parseInt(s, 10)`: white space, a sign, then as many digits as there are; none is not a number.
  function ParseInt(s: string): Option<int> {
    var t := Regex.TrimLeft(s);
    var signed := t != "" && (t[0] == '-' || t[0] == '+');
    var u := if signed then t[1..] else t;
    if u == "" || !IsDigit(u[0]) then None
    else
      var n: int := Digits(u, 0);
      Some(if signed && t[0] == '-' then -n else n)
  }

  predicate SameMilestone(parent: Option<string>, milestoneRef: string) {
    parent.Some? && (
      parent.value == milestoneRef ||
      (ParseInt(parent.value).Some? && ParseInt(milestoneRef).Some?
        && ParseInt(parent.value) == ParseInt(milestoneRef)))
  }

  datatype Key = Number(value: int) | Name(ref: string)

  // What a reference is compared by.
  function KeyOf(ref: string): Key {
    match ParseInt(ref)
    case Some(n) => Number(n)
    case None => Name(ref)
  }

  lemma SameMilestoneIsSameKey(parent: Option<string>, milestoneRef: string)
    ensures SameMilestone(parent, milestoneRef) <==> parent.Some? && KeyOf(parent.value) == KeyOf(milestoneRef)
  {
    hide ParseInt;
  }

  // ---- what a reference reads as ----

  function DigitChar(d: nat): char
    requires d < 10
  {
    '0' + d as char
  }

  function Decimal(n: nat): string {
    if n < 10 then [DigitChar(n)] else Decimal(n / 10) + [DigitChar(n % 10)]
  }

  ghost predicate AllDigits(s: string) {
    forall c <- s :: IsDigit(c)
  }

  lemma {:induction false} DigitsThrough(a: string, b: string, value: nat)
    requires AllDigits(a)
    ensures Digits(a + b, value) == Digits(b, Digits(a, value))
  {
    if a == "" {
      assert a + b == b;
    } else {
      assert a[0] in a && forall c <- a[1..] :: c in a;
      assert (a + b)[0] == a[0] && (a + b)[1..] == a[1..] + b;
      DigitsThrough(a[1..], b, value * 10 + DigitValue(a[0]));
    }
  }

  lemma {:induction false} DecimalIs(n: nat)
    ensures AllDigits(Decimal(n)) && Decimal(n) != "" && Digits(Decimal(n), 0) == n
  {
    if n < 10 {
      assert Decimal(n)[1..] == "";
    } else {
      DecimalIs(n / 10);
      var last := [DigitChar(n % 10)];
      DigitsThrough(Decimal(n / 10), last, 0);
      assert last[1..] == "";
      assert Digits(last, n / 10) == n / 10 * 10 + n % 10;
    }
  }

  lemma {:induction false} ZerosAreNothing(zeros: string)
    requires forall c <- zeros :: c == '0'
    ensures AllDigits(zeros) && Digits(zeros, 0) == 0
  {
    if zeros != "" {
      assert zeros == [zeros[0]] + zeros[1..];
      assert zeros[0] in zeros && forall c <- zeros[1..] :: c in zeros;
      ZerosAreNothing(zeros[1..]);
    }
  }

  lemma DigitsStop(rest: string, value: nat)
    requires rest != "" ==> !IsDigit(rest[0])
    ensures Digits(rest, value) == value
  {
  }

  lemma {:induction false} SpacesGo(space: string, s: string)
    requires (forall c <- space :: Regex.IsSpace(c)) && (s != "" ==> !Regex.IsSpace(s[0]))
    ensures Regex.TrimLeft(space + s) == s
  {
    hide Regex.IsSpace;
    if space == "" {
      assert space + s == s;
    } else {
      assert space[0] in space && forall c <- space[1..] :: c in space;
      assert (space + s)[0] == space[0] && (space + s)[1..] == space[1..] + s;
      SpacesGo(space[1..], s);
    }
  }

  lemma NumberStarts(zeros: string, n: nat, rest: string)
    requires forall c <- zeros :: c == '0'
    requires rest != "" ==> !IsDigit(rest[0])
    ensures var number := zeros + (Decimal(n) + rest);
      number != "" && IsDigit(number[0]) && Digits(number, 0) == n
  {
    ZerosAreNothing(zeros);
    DecimalIs(n);
    DigitsThrough(zeros, Decimal(n) + rest, 0);
    DigitsThrough(Decimal(n), rest, 0);
    DigitsStop(rest, n);
    if zeros != "" { assert zeros[0] in zeros; } else { assert Decimal(n)[0] in Decimal(n); }
  }

  lemma DigitIsNoSpace(c: char)
    ensures IsDigit(c) || c == '-' || c == '+' ==> !Regex.IsSpace(c)
    ensures IsDigit(c) ==> c != '-' && c != '+'
  {
  }

  // A reference is read as the number it starts with: after any white space and a sign, with any zeros before the
  // number and anything but a digit after it.
  lemma ReadsItsNumber(space: string, sign: string, zeros: string, n: nat, rest: string)
    requires forall c <- space :: Regex.IsSpace(c)
    requires sign == "" || sign == "+" || sign == "-"
    requires forall c <- zeros :: c == '0'
    requires rest != "" ==> !IsDigit(rest[0])
    ensures KeyOf(space + (sign + (zeros + (Decimal(n) + rest))))
         == Number(if sign == "-" then -(n as int) else n as int)
  {
    hide Regex.IsSpace, Digits, Decimal;
    var number := zeros + (Decimal(n) + rest);
    NumberStarts(zeros, n, rest);
    DigitIsNoSpace(number[0]);
    DigitIsNoSpace('-');
    DigitIsNoSpace('+');
    var s := sign + number;
    SpacesGo(space, s);
    if sign == "" { assert s == number; } else { assert s[0] == sign[0] && s[1..] == number; }
  }

  // And one that starts with none is read as itself.
  lemma ReadsItself(space: string, sign: string, rest: string)
    requires forall c <- space :: Regex.IsSpace(c)
    requires sign == "" || sign == "+" || sign == "-"
    requires rest != "" ==> !IsDigit(rest[0])
    requires sign == "" && rest != "" ==> rest[0] != '+' && rest[0] != '-' && !Regex.IsSpace(rest[0])
    ensures KeyOf(space + (sign + rest)) == Name(space + (sign + rest))
  {
    hide Regex.IsSpace, Digits;
    DigitIsNoSpace('-');
    DigitIsNoSpace('+');
    var s := sign + rest;
    SpacesGo(space, s);
    if sign == "" { assert s == rest; } else { assert s[0] == sign[0] && s[1..] == rest; }
  }

  // ---- the derivation ----

  predicate IsMilestone(i: Item) {
    i.kind == Milestone && i.parent == None
  }

  predicate IsOtherDriver(i: Item) {
    i.kind == Spike || i.kind == Chore || i.kind == Prototype
  }

  predicate IsStoryOf(i: Item, ref: string) {
    i.kind == Story && SameMilestone(i.parent, ref)
  }

  predicate IsUat(i: Item) {
    i.kind == Uat
  }

  predicate IsBacklogRow(i: Item) {
    i.backlog
  }

  predicate InStream(i: Item) {
    !IsBacklogRow(i)
  }

  function Backlog(items: seq<Item>): seq<Item> {
    Filter(items, IsBacklogRow)
  }

  function Stream(items: seq<Item>): seq<Item> {
    Filter(items, InStream)
  }

  function Tally(stories: seq<Item>, status: string): nat {
    |Filter(stories, (s: Item) => s.status == Some(status))|
  }

  function CardOf(stream: seq<Item>, item: Item): MilestoneCard {
    var stories := Filter(stream, (s: Item) => IsStoryOf(s, item.ref));
    MilestoneCard(item, item.ref, stories, |stories|,
      Tally(stories, "done"), Tally(stories, "in-review"), Tally(stories, "in-progress"), Tally(stories, "blocked"),
        Tally(stories, "not-started"))
  }

  function Cards(stream: seq<Item>): seq<MilestoneCard> {
    Map(Filter(stream, IsMilestone), item => CardOf(stream, item))
  }

  function ByRef(stream: seq<Item>): map<string, Item> {
    if stream == [] then map[] else ByRef(stream[..|stream| - 1])[stream[|stream| - 1].ref := stream[|stream| - 1]]
  }

  function InState(milestones: seq<MilestoneCard>, status: string): nat {
    |Filter(milestones, (m: MilestoneCard) => m.item.status == Some(status))|
  }

  function Archived(milestones: seq<MilestoneCard>): nat {
    |Filter(milestones, (m: MilestoneCard) => m.item.archived)|
  }

  function Derive(items: seq<Item>): Derived {
    var stream := Stream(items);
    var milestones := Cards(stream);
    var uat := Filter(stream, IsUat);
    Derived(items, milestones, uat, Filter(stream, IsOtherDriver), Backlog(items), ByRef(stream),
      InState(milestones, "done"),
      InState(milestones, "in-progress"),
      Tally(uat, "blocked"),
      Archived(milestones))
  }

  function GatesFor(d: Derived, ref: string): seq<Item> {
    Filter(d.uat, (u: Item) => SameMilestone(u.parent, ref))
  }

  function FindCard(cards: seq<MilestoneCard>, p: MilestoneCard -> bool): (r: Option<MilestoneCard>)
    ensures r.Some? ==> r.value in cards && p(r.value)
    ensures r.None? ==> forall m <- cards :: !p(m)
  {
    if cards == [] then None else if p(cards[0]) then Some(cards[0]) else FindCard(cards[1..], p)
  }

  function MilestoneOfGate(d: Derived, gate: Item): Option<MilestoneCard> {
    if gate.parent == None then None
    else FindCard(d.milestones, (m: MilestoneCard) => SameMilestone(gate.parent, m.num))
  }

  // ---- lanes ----

  datatype Lane = NotStarted | InProgress | InReview | Blocked | Done

  datatype LaneCard = LaneCard(item: Item, tag: string)

  // The lane a status maps to; a word with no lane has none, and its card is dropped.
  function LaneFor(status: Option<string>): Option<Lane> {
    match status
    case None => Some(NotStarted)
    case Some(word) =>
      if word == "not-started" || word == "paused" then Some(NotStarted)
      else if word == "in-progress" || word == "active" then Some(InProgress)
      else if word == "in-review" then Some(InReview)
      else if word == "blocked" then Some(Blocked)
      else if word == "done" || word == "abandoned" then Some(Done)
      else None
  }

  function DriverTag(i: Item): string {
    match i.kind
    case Prototype => "prototype · " + (if i.status.Some? then i.status.value else "active")
    case Spike => "spike"
    case Chore => "chore"
    case Milestone => "milestone"
    case Story => "story"
    case Task => "task"
    case Uat => "uat"
  }

  predicate IsHot(i: Item) {
    i.status == Some("in-review") || i.status == Some("blocked")
  }

  datatype Focus = All | On(ref: string)

  function Tagged(items: seq<Item>, tag: string): seq<LaneCard> {
    Map(items, i => LaneCard(i, tag))
  }

  function StoryCards(m: MilestoneCard, stories: seq<Item>): seq<LaneCard> {
    Tagged(stories, "in " + m.num)
  }

  function HotCards(milestones: seq<MilestoneCard>): seq<LaneCard> {
    if milestones == [] then []
    else StoryCards(milestones[0], Filter(milestones[0].stories, IsHot)) + HotCards(milestones[1..])
  }

  function MilestoneLaneCards(milestones: seq<MilestoneCard>): seq<LaneCard> {
    Map(milestones, (m: MilestoneCard) => LaneCard(m.item, "milestone"))
  }

  function DriverCards(drivers: seq<Item>): seq<LaneCard> {
    Map(drivers, i => LaneCard(i, DriverTag(i)))
  }

  // The cards a focus places, in the order it places them.
  function Placed(d: Derived, focus: Focus): seq<LaneCard> {
    match focus
    case All =>
      MilestoneLaneCards(d.milestones) + HotCards(d.milestones) + Tagged(d.uat, "uat") + DriverCards(d.otherDrivers)
    case On(ref) =>
      (match FindCard(d.milestones, (m: MilestoneCard) => m.num == ref)
       case Some(m) => StoryCards(m, m.stories)
       case None => [])
      + Tagged(GatesFor(d, ref), "uat")
  }

  function InLane(cards: seq<LaneCard>, lane: Lane): seq<LaneCard> {
    Filter(cards, (c: LaneCard) => LaneFor(c.item.status) == Some(lane))
  }

  // ---- the derivation, proved ----

  ghost predicate DistinctKeys(milestones: seq<MilestoneCard>) {
    forall i, j :: 0 <= i < j < |milestones| ==> KeyOf(milestones[i].num) != KeyOf(milestones[j].num)
  }

  // Nothing is lost or invented by the partition, and only `backlog` sees a backlog row.
  lemma BacklogIsApart(items: seq<Item>, x: Item)
    ensures var d := Derive(items);
      && multiset(d.backlog)[x] == (if x.backlog then multiset(items)[x] else 0)
      && multiset(Stream(items))[x] == (if x.backlog then 0 else multiset(items)[x])
      && (x.backlog ==> x !in d.uat && x !in d.otherDrivers && x !in d.byRef.Values)
      && (x.backlog ==> forall m <- d.milestones :: m.item != x && x !in m.stories)
  {
    var d, stream := Derive(items), Stream(items);
    FilterCount(items, IsBacklogRow, x);
    FilterCount(items, InStream, x);
    FilterMember(items, InStream, x);
    hide ParseInt, KeyOf;
    if x.backlog {
      assert x !in stream;
      FilterMember(stream, IsUat, x);
      FilterMember(stream, IsOtherDriver, x);
      ByRefIs(stream);
      forall m | m in d.milestones ensures m.item != x && x !in m.stories {
        CardIsFromStream(stream, m);
        FilterMember(stream, (s: Item) => IsStoryOf(s, m.num), x);
      }
    }
  }

  lemma CardIsFromStream(stream: seq<Item>, m: MilestoneCard)
    requires m in Cards(stream)
    ensures m == CardOf(stream, m.item) && m.num == m.item.ref && m.item in stream && IsMilestone(m.item)
    ensures m.stories == Filter(stream, (s: Item) => IsStoryOf(s, m.num))
  {
    var ms := Filter(stream, IsMilestone);
    MapLength(ms, item => CardOf(stream, item));
    var i :| 0 <= i < |Cards(stream)| && Cards(stream)[i] == m;
    FilterMember(stream, IsMilestone, ms[i]);
  }

  // Which rows are gates, other drivers and milestones, and how often each is listed.
  lemma DerivedExactly(items: seq<Item>, x: Item)
    ensures var d := Derive(items);
      && d.items == items
      && multiset(d.uat)[x] == (if !x.backlog && x.kind == Uat then multiset(items)[x] else 0)
      && multiset(d.otherDrivers)[x]
         == (if !x.backlog && x.kind in {Spike, Chore, Prototype} then multiset(items)[x] else 0)
    ensures (exists m :: m in Derive(items).milestones && m.item == x)
       <==> x in items && !x.backlog && x.kind == Milestone && x.parent == None
  {
    hide CardOf, IsStoryOf, ByRef;
    var stream := Stream(items);
    FilterCount(items, InStream, x);
    FilterMember(items, InStream, x);
    FilterCount(stream, IsUat, x);
    FilterCount(stream, IsOtherDriver, x);
    var ms := Filter(stream, IsMilestone);
    FilterMember(stream, IsMilestone, x);
    MapLength(ms, item => CardOf(stream, item));
    if x in ms {
      var i :| 0 <= i < |ms| && ms[i] == x;
      CardItem(stream, x);
      assert Cards(stream)[i] == CardOf(stream, x) && Cards(stream)[i] in Cards(stream);
    }
    if m :| m in Cards(stream) && m.item == x {
      CardIsFromStream(stream, m);
      FilterMember(stream, IsMilestone, m.item);
    }
  }

  ghost predicate NoneAfter(stream: seq<Item>, ref: string, i: int) {
    forall j :: i < j < |stream| && 0 <= j ==> stream[j].ref != ref
  }

  // `x` is the last row of `stream` with that reference.
  ghost predicate IsLastWith(stream: seq<Item>, ref: string, x: Item) {
    exists i :: 0 <= i < |stream| && stream[i] == x && x.ref == ref && NoneAfter(stream, ref, i)
  }

  // The map holds exactly the stream's references, and for each its last row.
  lemma {:induction false} ByRefIs(stream: seq<Item>)
    ensures forall x <- stream :: x.ref in ByRef(stream)
    ensures forall ref <- ByRef(stream) :: IsLastWith(stream, ref, ByRef(stream)[ref])
    ensures forall x <- ByRef(stream).Values :: x in stream
    decreases |stream|
  {
    if stream != [] {
      var n := |stream| - 1;
      var before, last := stream[..n], stream[n];
      assert stream == before + [last];
      ByRefIs(before);
      hide IsLastWith;
      forall ref | ref in ByRef(stream) ensures IsLastWith(stream, ref, ByRef(stream)[ref]) {
        LastOfSnoc(before, last, ref, ByRef(stream)[ref]);
      }
      forall x | x in ByRef(stream).Values ensures x in stream {
        var ref :| ref in ByRef(stream) && ByRef(stream)[ref] == x;
        if ref != last.ref { assert x in ByRef(before).Values; }
      }
    }
  }

  lemma LastOfSnoc(before: seq<Item>, last: Item, ref: string, x: Item)
    requires if ref == last.ref then x == last else IsLastWith(before, ref, x)
    ensures IsLastWith(before + [last], ref, x)
  {
    var all := before + [last];
    if ref == last.ref {
      assert all[|before|] == x;
    } else {
      var i :| 0 <= i < |before| && before[i] == x && x.ref == ref && NoneAfter(before, ref, i);
      assert all[i] == x;
    }
  }

  // ---- milestones and their stories ----

  // How often `x` is listed as a story, over all milestones.
  function StoryListings(milestones: seq<MilestoneCard>, x: Item): nat {
    if milestones == [] then 0 else multiset(milestones[0].stories)[x] + StoryListings(milestones[1..], x)
  }

  ghost predicate HasMilestone(milestones: seq<MilestoneCard>, x: Item) {
    exists m :: m in milestones && SameMilestone(x.parent, m.num)
  }

  ghost predicate FromStream(stream: seq<Item>, milestones: seq<MilestoneCard>) {
    forall m <- milestones :: m.stories == Filter(stream, (s: Item) => IsStoryOf(s, m.num))
  }

  // With distinct keys a story is listed once per row, under its one milestone, and never without one.
  lemma {:induction false} StoriesAreListedOnce(stream: seq<Item>, milestones: seq<MilestoneCard>, x: Item)
    requires FromStream(stream, milestones) && DistinctKeys(milestones)
    ensures StoryListings(milestones, x)
         == if x.kind == Story && HasMilestone(milestones, x) then multiset(stream)[x] else 0
  {
    hide SameMilestone, KeyOf, DistinctKeys, HasMilestone, IsStoryOf;
    if milestones == [] {
      NoMilestones(x);
    } else {
      var m, rest := milestones[0], milestones[1..];
      assert milestones == [m] + rest;
      assert forall k <- rest :: k in milestones;
      FirstOrRest(m, rest, x);
      StoriesAreListedOnce(stream, rest, x);
      FilterCount(stream, (s: Item) => IsStoryOf(s, m.num), x);
      StoryOfIs(x, m.num);
    }
  }

  lemma StoryOfIs(x: Item, ref: string)
    ensures IsStoryOf(x, ref) <==> x.kind == Story && SameMilestone(x.parent, ref)
  {
  }

  lemma NoMilestones(x: Item)
    ensures !HasMilestone([], x)
  {
  }

  lemma FirstOrRest(m: MilestoneCard, rest: seq<MilestoneCard>, x: Item)
    requires DistinctKeys([m] + rest)
    ensures DistinctKeys(rest)
    ensures HasMilestone([m] + rest, x) <==> SameMilestone(x.parent, m.num) || HasMilestone(rest, x)
    ensures !(SameMilestone(x.parent, m.num) && HasMilestone(rest, x))
  {
    hide SameMilestone, KeyOf;
    var all := [m] + rest;
    forall i, j | 0 <= i < j < |rest| ensures KeyOf(rest[i].num) != KeyOf(rest[j].num) {
      assert all[i + 1] == rest[i] && all[j + 1] == rest[j];
    }
    SameMilestoneIsSameKey(x.parent, m.num);
    if k :| k in rest && SameMilestone(x.parent, k.num) {
      assert k in all;
      var i :| 0 <= i < |rest| && rest[i] == k;
      assert all[0] == m && all[i + 1] == k;
      SameMilestoneIsSameKey(x.parent, k.num);
    }
    assert m in all;
  }

  lemma DeriveStories(items: seq<Item>)
    ensures FromStream(Stream(items), Derive(items).milestones)
  {
    hide Stream, IsStoryOf;
    var stream := Stream(items);
    forall m | m in Cards(stream) ensures m.stories == Filter(stream, (s: Item) => IsStoryOf(s, m.num)) {
      CardIsFromStream(stream, m);
    }
  }

  // The keys are needed: two milestones share a story exactly when their keys are equal and one has it.
  lemma StoriesAreSharedOnEqualKeys(items: seq<Item>, m: MilestoneCard, n: MilestoneCard, x: Item)
    requires m in Derive(items).milestones && n in Derive(items).milestones && x in m.stories
    ensures x in n.stories <==> KeyOf(m.num) == KeyOf(n.num)
  {
    var stream := Stream(items);
    DeriveStories(items);
    hide Stream, SameMilestone, KeyOf, ParseInt;
    FilterMember(stream, (s: Item) => IsStoryOf(s, m.num), x);
    FilterMember(stream, (s: Item) => IsStoryOf(s, n.num), x);
    SameMilestoneIsSameKey(x.parent, m.num);
    SameMilestoneIsSameKey(x.parent, n.num);
  }

  predicate Governed(status: Option<string>) {
    status.Some? && status.value in {"done", "in-review", "in-progress", "blocked", "not-started"}
  }

  lemma {:induction false} TalliesAddUp(stories: seq<Item>)
    ensures |stories| == Tally(stories, "done") + Tally(stories, "in-review") + Tally(stories, "in-progress")
                       + Tally(stories, "blocked") + Tally(stories, "not-started")
                       + |Filter(stories, (s: Item) => !Governed(s.status))|
  {
    if stories != [] { TalliesAddUp(stories[1..]); }
  }

  // A card's total is its five tallies and the stories with no governed status.
  lemma TotalsAddUp(items: seq<Item>, m: MilestoneCard)
    requires m in Derive(items).milestones
    ensures m.total == m.done + m.inReview + m.inProgress + m.blocked + m.notStarted
      + |Filter(m.stories, (s: Item) => !Governed(s.status))|
  {
    CardIsFromStream(Stream(items), m);
    hide Stream, IsStoryOf, Tally;
    TalliesAddUp(m.stories);
  }

  // With distinct keys, a gate's milestone is the one whose gates include it, and the other way round.
  lemma GatesAndMilestonesMatch(d: Derived, gate: Item, m: MilestoneCard)
    requires DistinctKeys(d.milestones) && gate in d.uat && m in d.milestones
    ensures gate in GatesFor(d, m.num) <==> MilestoneOfGate(d, gate) == Some(m)
  {
    hide SameMilestone, KeyOf, ParseInt;
    FilterMember(d.uat, (u: Item) => SameMilestone(u.parent, m.num), gate);
    SameMilestoneIsSameKey(gate.parent, m.num);
    var found := FindCard(d.milestones, (k: MilestoneCard) => SameMilestone(gate.parent, k.num));
    if found.Some? {
      SameMilestoneIsSameKey(gate.parent, found.value.num);
      var i :| 0 <= i < |d.milestones| && d.milestones[i] == m;
      var j :| 0 <= j < |d.milestones| && d.milestones[j] == found.value;
    }
  }

  // ---- lanes, proved ----

  function CountItem(cards: seq<LaneCard>, x: Item): nat {
    if cards == [] then 0 else (if cards[0].item == x then 1 else 0) + CountItem(cards[1..], x)
  }

  lemma {:induction false} CountConcat(a: seq<LaneCard>, b: seq<LaneCard>, x: Item)
    ensures CountItem(a + b, x) == CountItem(a, x) + CountItem(b, x)
  {
    if a == [] { assert a + b == b; } else { CountConcat(a[1..], b, x); assert (a + b)[1..] == a[1..] + b; }
  }

  lemma CountHead(xs: seq<Item>, x: Item)
    requires xs != []
    ensures multiset(xs)[x] == (if xs[0] == x then 1 else 0) + multiset(xs[1..])[x]
  {
    assert xs == [xs[0]] + xs[1..];
    assert multiset(xs) == multiset{xs[0]} + multiset(xs[1..]);
  }

  lemma {:induction false} CountMap(xs: seq<Item>, f: Item -> LaneCard, x: Item)
    requires forall i :: f(i).item == i
    ensures CountItem(Map(xs, f), x) == multiset(xs)[x]
  {
    if xs != [] {
      CountMap(xs[1..], f, x);
      CountHead(xs, x);
      assert Map(xs, f)[0] == f(xs[0]) && Map(xs, f)[1..] == Map(xs[1..], f);
    }
  }

  lemma CountTagged(xs: seq<Item>, tag: string, x: Item)
    ensures CountItem(Tagged(xs, tag), x) == multiset(xs)[x]
  {
    CountMap(xs, i => LaneCard(i, tag), x);
  }

  lemma TaggedLength(xs: seq<Item>, tag: string)
    ensures |Tagged(xs, tag)| == |xs|
  {
    MapLength(xs, i => LaneCard(i, tag));
  }

  lemma {:induction false} CountCards(stream: seq<Item>, ms: seq<Item>, f: MilestoneCard -> LaneCard, x: Item)
    requires forall m :: f(m).item == m.item
    ensures CountItem(Map(Map(ms, item => CardOf(stream, item)), f), x) == multiset(ms)[x]
  {
    hide CardOf;
    if ms != [] {
      CountCards(stream, ms[1..], f, x);
      CountHead(ms, x);
      var g := item => CardOf(stream, item);
      assert Map(ms, g)[1..] == Map(ms[1..], g);
      var cards := Map(Map(ms, g), f);
      assert cards[1..] == Map(Map(ms[1..], g), f);
      CardItem(stream, ms[0]);
    }
  }

  lemma CardItem(stream: seq<Item>, item: Item)
    ensures CardOf(stream, item).item == item
  {
  }

  lemma {:induction false} CountHot(milestones: seq<MilestoneCard>, x: Item)
    ensures CountItem(HotCards(milestones), x) == if IsHot(x) then StoryListings(milestones, x) else 0
  {
    if milestones != [] {
      var m := milestones[0];
      CountHot(milestones[1..], x);
      CountConcat(StoryCards(m, Filter(m.stories, IsHot)), HotCards(milestones[1..]), x);
      CountTagged(Filter(m.stories, IsHot), "in " + m.num, x);
      FilterCount(m.stories, IsHot, x);
    }
  }

  lemma {:induction false} CountInLane(cards: seq<LaneCard>, lane: Lane, x: Item)
    ensures CountItem(InLane(cards, lane), x) == if LaneFor(x.status) == Some(lane) then CountItem(cards, x) else 0
  {
    hide LaneFor;
    if cards != [] {
      CountInLane(cards[1..], lane, x);
      var rest := InLane(cards[1..], lane);
      assert ([cards[0]] + rest)[1..] == rest && [] + rest == rest;
    }
  }

  // What the board shows under `all`.
  ghost predicate OnTheBoard(d: Derived, x: Item) {
    !x.backlog && (IsMilestone(x) || x.kind == Uat || IsOtherDriver(x)
      || (x.kind == Story && IsHot(x) && HasMilestone(d.milestones, x)))
  }

  lemma CountMilestoneCards(items: seq<Item>, x: Item)
    ensures CountItem(MilestoneLaneCards(Derive(items).milestones), x)
         == if !x.backlog && IsMilestone(x) then multiset(items)[x] else 0
  {
    hide CardOf;
    var stream := Stream(items);
    CountCards(stream, Filter(stream, IsMilestone), (m: MilestoneCard) => LaneCard(m.item, "milestone"), x);
    FilterCount(stream, IsMilestone, x);
    FilterCount(items, InStream, x);
  }

  lemma CountGateCards(items: seq<Item>, x: Item)
    ensures CountItem(Tagged(Derive(items).uat, "uat"), x)
         == if !x.backlog && x.kind == Uat then multiset(items)[x] else 0
  {
    var stream := Stream(items);
    CountTagged(Derive(items).uat, "uat", x);
    FilterCount(stream, IsUat, x);
    FilterCount(items, InStream, x);
  }

  lemma CountDriverCards(items: seq<Item>, x: Item)
    ensures CountItem(DriverCards(Derive(items).otherDrivers), x)
         == if !x.backlog && IsOtherDriver(x) then multiset(items)[x] else 0
  {
    hide DriverTag;
    var stream := Stream(items);
    CountMap(Derive(items).otherDrivers, i => LaneCard(i, DriverTag(i)), x);
    FilterCount(stream, IsOtherDriver, x);
    FilterCount(items, InStream, x);
  }

  lemma CountHotCards(items: seq<Item>, x: Item)
    requires DistinctKeys(Derive(items).milestones)
    ensures var d := Derive(items);
      CountItem(HotCards(d.milestones), x)
      == if !x.backlog && x.kind == Story && IsHot(x) && HasMilestone(d.milestones, x) then multiset(items)[x] else 0
  {
    CountHot(Derive(items).milestones, x);
    DeriveStories(items);
    FilterCount(items, InStream, x);
    hide DistinctKeys, HasMilestone, FromStream;
    StoriesAreListedOnce(Stream(items), Derive(items).milestones, x);
  }

  lemma CountPlacedAll(items: seq<Item>, x: Item)
    requires DistinctKeys(Derive(items).milestones)
    ensures var d := Derive(items);
      CountItem(Placed(d, All), x) == if OnTheBoard(d, x) then multiset(items)[x] else 0
  {
    hide Derive, MilestoneLaneCards, Tagged, DriverCards, HotCards, DistinctKeys, HasMilestone;
    var d := Derive(items);
    CountMilestoneCards(items, x);
    CountHotCards(items, x);
    CountGateCards(items, x);
    CountDriverCards(items, x);
    var a, b, c, e := MilestoneLaneCards(d.milestones), HotCards(d.milestones), Tagged(d.uat, "uat"),
      DriverCards(d.otherDrivers);
    CountConcat(a, b, x);
    CountConcat(a + b, c, x);
    CountConcat(a + b + c, e, x);
  }

  // Under `all`, with distinct keys, each row the board shows stands in one lane, its status's own, once;
  // a row whose status names no lane stands in none.
  lemma LanesHoldTheBoard(items: seq<Item>, lane: Lane, x: Item)
    requires DistinctKeys(Derive(items).milestones)
    ensures var d := Derive(items);
      CountItem(InLane(Placed(d, All), lane), x)
      == if LaneFor(x.status) == Some(lane) && OnTheBoard(d, x) then multiset(items)[x] else 0
  {
    hide LaneFor, Derive, Placed, OnTheBoard, DistinctKeys;
    CountPlacedAll(items, x);
    CountInLane(Placed(Derive(items), All), lane, x);
  }

  lemma CountGatesFor(items: seq<Item>, ref: string, x: Item)
    ensures CountItem(Tagged(GatesFor(Derive(items), ref), "uat"), x)
         == if !x.backlog && x.kind == Uat && SameMilestone(x.parent, ref) then multiset(items)[x] else 0
  {
    hide CardOf, SameMilestone, Cards, ByRef;
    var d := Derive(items);
    CountTagged(GatesFor(d, ref), "uat", x);
    FilterCount(d.uat, (u: Item) => SameMilestone(u.parent, ref), x);
    FilterCount(Stream(items), IsUat, x);
    FilterCount(items, InStream, x);
  }

  lemma CountStoriesOf(items: seq<Item>, m: MilestoneCard, x: Item)
    requires m in Derive(items).milestones
    ensures CountItem(StoryCards(m, m.stories), x)
         == if !x.backlog && x.kind == Story && SameMilestone(x.parent, m.num) then multiset(items)[x] else 0
  {
    hide CardOf, SameMilestone;
    CardIsFromStream(Stream(items), m);
    CountTagged(m.stories, "in " + m.num, x);
    FilterCount(Stream(items), (s: Item) => IsStoryOf(s, m.num), x);
    FilterCount(items, InStream, x);
  }

  // What `all` shows, row by row.
  lemma BoardShowsExactly(items: seq<Item>, x: Item)
    requires DistinctKeys(Derive(items).milestones)
    ensures CountItem(Placed(Derive(items), All), x)
         == if !x.backlog && ((x.kind == Milestone && x.parent == None) || x.kind in {Uat, Spike, Chore, Prototype}
                || (x.kind == Story && x.status in {Some("in-review"), Some("blocked")}
                    && HasMilestone(Derive(items).milestones, x)))
            then multiset(items)[x] else 0
  {
    hide Derive, Placed, DistinctKeys, HasMilestone;
    CountPlacedAll(items, x);
  }

  // The words of each lane: the governed one and, for a prototype, its own.
  lemma LanesByWord(cards: seq<LaneCard>, c: LaneCard)
    ensures c in InLane(cards, NotStarted)
       <==> c in cards && c.item.status in {None, Some("not-started"), Some("paused")}
    ensures c in InLane(cards, InProgress) <==> c in cards && c.item.status in {Some("in-progress"), Some("active")}
    ensures c in InLane(cards, InReview) <==> c in cards && c.item.status == Some("in-review")
    ensures c in InLane(cards, Blocked) <==> c in cards && c.item.status == Some("blocked")
    ensures c in InLane(cards, Done) <==> c in cards && c.item.status in {Some("done"), Some("abandoned")}
  {
    hide InLane, LaneFor;
    InLaneMember(cards, NotStarted, c);
    InLaneMember(cards, InProgress, c);
    InLaneMember(cards, InReview, c);
    InLaneMember(cards, Blocked, c);
    InLaneMember(cards, Done, c);
    WordLanes(c.item.status);
  }

  lemma InLaneMember(cards: seq<LaneCard>, lane: Lane, c: LaneCard)
    ensures c in InLane(cards, lane) <==> c in cards && LaneFor(c.item.status) == Some(lane)
  {
    hide LaneFor;
    FilterMember(cards, (d: LaneCard) => LaneFor(d.item.status) == Some(lane), c);
  }

  lemma WordLanes(status: Option<string>)
    ensures LaneFor(status) == Some(NotStarted) <==> status in {None, Some("not-started"), Some("paused")}
    ensures LaneFor(status) == Some(InProgress) <==> status in {Some("in-progress"), Some("active")}
    ensures LaneFor(status) == Some(InReview) <==> status == Some("in-review")
    ensures LaneFor(status) == Some(Blocked) <==> status == Some("blocked")
    ensures LaneFor(status) == Some(Done) <==> status in {Some("done"), Some("abandoned")}
  {
  }

  // Under a milestone's focus the lanes hold its stories and its gates, each row once.
  lemma LanesHoldTheFocus(items: seq<Item>, ref: string, lane: Lane, x: Item)
    ensures CountItem(InLane(Placed(Derive(items), On(ref)), lane), x)
         == if LaneFor(x.status) == Some(lane) && !x.backlog && SameMilestone(x.parent, ref)
               && (x.kind == Uat || (x.kind == Story && HasCard(Derive(items), ref)))
            then multiset(items)[x] else 0
  {
    hide LaneFor, InLane, Derive, GatesFor, StoryCards, Tagged, SameMilestone;
    var d := Derive(items);
    var found := FindCard(d.milestones, (m: MilestoneCard) => m.num == ref);
    var stories := if found.Some? then StoryCards(found.value, found.value.stories) else [];
    CountConcat(stories, Tagged(GatesFor(d, ref), "uat"), x);
    CountInLane(Placed(d, On(ref)), lane, x);
    CountGatesFor(items, ref, x);
    if found.Some? { CountStoriesOf(items, found.value, x); }
  }

  // The test of the empty-milestone screen.
  predicate EmptyScreen(d: Derived, ref: string) {
    var m := FindCard(d.milestones, (m: MilestoneCard) => m.num == ref);
    m.Some? && m.value.stories == [] && GatesFor(d, ref) == []
  }

  lemma {:induction false} NoLaneNoCard(cards: seq<LaneCard>)
    ensures (forall lane :: InLane(cards, lane) == []) <==> forall c <- cards :: LaneFor(c.item.status) == None
  {
    if cards != [] {
      NoLaneNoCard(cards[1..]);
      assert cards == [cards[0]] + cards[1..];
      var first := LaneFor(cards[0].item.status);
      forall lane ensures InLane(cards, lane) == [] <==> first != Some(lane) && InLane(cards[1..], lane) == [] {}
      if LaneFor(cards[0].item.status).Some? { assert InLane(cards, LaneFor(cards[0].item.status).value) != []; }
    }
  }

  // Focused on any reference, of the board or not: the empty screen is shown exactly for a milestone of the board
  // with nothing to place, and the lanes are all empty without it exactly when no status placed names a lane and
  // either something is placed or the board has no such milestone. The plainest case of the latter is a board with
  // neither the milestone nor a gate for it, where nothing is placed.
  lemma EmptyScreenMeansEmptyLanes(d: Derived, ref: string)
    ensures EmptyScreen(d, ref) <==> HasCard(d, ref) && Placed(d, On(ref)) == []
    ensures AllEmpty(Placed(d, On(ref))) <==> NoneHasALane(Placed(d, On(ref)))
    ensures AllEmpty(Placed(d, On(ref))) && !EmptyScreen(d, ref)
       <==> NoneHasALane(Placed(d, On(ref))) && (!HasCard(d, ref) || Placed(d, On(ref)) != [])
  {
    hide LaneFor, GatesFor, InLane;
    var found := FindCard(d.milestones, (m: MilestoneCard) => m.num == ref);
    if found.Some? { TaggedLength(found.value.stories, "in " + found.value.num); }
    TaggedLength(GatesFor(d, ref), "uat");
    NoLaneNoCard(Placed(d, On(ref)));
  }

  ghost predicate HasCard(d: Derived, ref: string) {
    exists m :: m in d.milestones && m.num == ref
  }

  ghost predicate AllEmpty(cards: seq<LaneCard>) {
    forall lane :: InLane(cards, lane) == []
  }

  ghost predicate NoneHasALane(cards: seq<LaneCard>) {
    forall c <- cards :: LaneFor(c.item.status) == None
  }

  // ---- the counts of the breadcrumb ----

  function AllCards(cards: seq<LaneCard>): seq<LaneCard> {
    InLane(cards, NotStarted) + InLane(cards, InProgress) + InLane(cards, InReview) + InLane(cards, Blocked)
      + InLane(cards, Done)
  }

  function WithStatus(cards: seq<LaneCard>, word: string): nat {
    |Filter(cards, (c: LaneCard) => c.item.status == Some(word))|
  }

  lemma {:induction false} StatusInLane(cards: seq<LaneCard>, word: string, lane: Lane)
    requires LaneFor(Some(word)).Some?
    requires word == "in-review" || word == "blocked"
    ensures WithStatus(InLane(cards, lane), word)
         == if LaneFor(Some(word)) == Some(lane) then |InLane(cards, lane)| else 0
  {
    if cards != [] {
      StatusInLane(cards[1..], word, lane);
      var rest := InLane(cards[1..], lane);
      assert ([cards[0]] + rest)[1..] == rest && [] + rest == rest;
    }
  }

  // The counts are the heights of their lanes.
  lemma CountsAreLaneHeights(cards: seq<LaneCard>)
    ensures WithStatus(AllCards(cards), "in-review") == |InLane(cards, InReview)|
    ensures WithStatus(AllCards(cards), "blocked") == |InLane(cards, Blocked)|
  {
    forall word | word == "in-review" || word == "blocked"
      ensures WithStatus(AllCards(cards), word) == |InLane(cards, LaneFor(Some(word)).value)|
    {
      var p := (c: LaneCard) => c.item.status == Some(word);
      var a, b, c, d, e := InLane(cards, NotStarted), InLane(cards, InProgress), InLane(cards, InReview),
        InLane(cards, Blocked), InLane(cards, Done);
      FilterConcat(a, b, p);
      FilterConcat(a + b, c, p);
      FilterConcat(a + b + c, d, p);
      FilterConcat(a + b + c + d, e, p);
      StatusInLane(cards, word, NotStarted);
      StatusInLane(cards, word, InProgress);
      StatusInLane(cards, word, InReview);
      StatusInLane(cards, word, Blocked);
      StatusInLane(cards, word, Done);
    }
  }

  // ---- tallies and tags ----

  // The tally that counts a lane's stories.
  function TallyOf(m: MilestoneCard, lane: Lane): nat {
    match lane
    case NotStarted => m.notStarted
    case InProgress => m.inProgress
    case InReview => m.inReview
    case Blocked => m.blocked
    case Done => m.done
  }

  function WordOf(lane: Lane): string {
    match lane
    case NotStarted => "not-started"
    case InProgress => "in-progress"
    case InReview => "in-review"
    case Blocked => "blocked"
    case Done => "done"
  }

  predicate HasNoStatus(x: Item) {
    x.status == None
  }

  ghost predicate DeclaredWords(xs: seq<Item>) {
    forall x <- xs :: HasNoStatus(x) || Governed(x.status)
  }

  lemma LaneOfDeclared(x: Item, lane: Lane)
    requires HasNoStatus(x) || Governed(x.status)
    ensures LaneFor(x.status) == Some(lane)
       <==> x.status == Some(WordOf(lane)) || (HasNoStatus(x) && lane == NotStarted)
  {
  }

  lemma {:induction false} LaneHoldsTally(m: MilestoneCard, xs: seq<Item>, lane: Lane)
    requires DeclaredWords(xs)
    ensures |InLane(StoryCards(m, xs), lane)|
         == Tally(xs, WordOf(lane)) + if lane == NotStarted then |Filter(xs, HasNoStatus)| else 0
  {
    hide LaneFor, WordOf, HasNoStatus;
    if xs != [] {
      assert xs[0] in xs && forall x <- xs[1..] :: x in xs;
      LaneHoldsTally(m, xs[1..], lane);
      LaneOfDeclared(xs[0], lane);
      var cards := StoryCards(m, xs);
      assert cards[0] == LaneCard(xs[0], "in " + m.num) && cards[1..] == StoryCards(m, xs[1..]);
      NoStatusIsNoWord(xs[0], lane);
    }
  }

  lemma NoStatusIsNoWord(x: Item, lane: Lane)
    ensures !(HasNoStatus(x) && x.status == Some(WordOf(lane)))
  {
  }

  // Under a milestone's focus a lane is as high as the milestone's own tally for it, its stories without a
  // status on the first, and the gates that stand there.
  lemma FocusedLanesAreTallies(items: seq<Item>, ref: string, m: MilestoneCard, lane: Lane)
    requires FindCard(Derive(items).milestones, (k: MilestoneCard) => k.num == ref) == Some(m)
    requires DeclaredWords(m.stories)
    ensures var d := Derive(items);
      |InLane(Placed(d, On(ref)), lane)|
      == TallyOf(m, lane) + (if lane == NotStarted then |Filter(m.stories, HasNoStatus)| else 0)
        + |InLane(Tagged(GatesFor(d, ref), "uat"), lane)|
  {
    var d := Derive(items);
    CardIsFromStream(Stream(items), m);
    LaneHoldsTally(m, m.stories, lane);
    hide LaneFor, GatesFor, IsStoryOf, Stream, Tally;
    FilterConcat(StoryCards(m, m.stories), Tagged(GatesFor(d, ref), "uat"),
      (c: LaneCard) => LaneFor(c.item.status) == Some(lane));
  }

  // What a card's tag says of its item: a story's names a milestone it belongs to.
  ghost predicate TagFits(d: Derived, c: LaneCard) {
    match c.item.kind
    case Milestone => c.tag == "milestone"
    case Uat => c.tag == "uat"
    case Spike => c.tag == "spike"
    case Chore => c.tag == "chore"
    case Prototype => c.tag == "prototype · " + if c.item.status.Some? then c.item.status.value else "active"
    case Story => exists m :: m in d.milestones && SameMilestone(c.item.parent, m.num) && c.tag == "in " + m.num
    case Task => false
  }

  lemma TaggedMember(xs: seq<Item>, tag: string, c: LaneCard)
    requires c in Tagged(xs, tag)
    ensures c.item in xs && c.tag == tag
  {
    MapMember(xs, i => LaneCard(i, tag), c);
  }

  lemma {:induction false} HotMember(milestones: seq<MilestoneCard>, c: LaneCard)
    requires c in HotCards(milestones)
    ensures exists m :: m in milestones && c.item in m.stories && c.tag == "in " + m.num
  {
    hide IsHot, StoryCards;
    var m := milestones[0];
    if c in HotCards(milestones[1..]) {
      HotMember(milestones[1..], c);
      var k :| k in milestones[1..] && c.item in k.stories && c.tag == "in " + k.num;
      assert k in milestones;
    } else {
      StoryCardMember(m, Filter(m.stories, IsHot), c);
      FilterMember(m.stories, IsHot, c.item);
      assert m in milestones;
    }
  }

  lemma StoryCardMember(m: MilestoneCard, stories: seq<Item>, c: LaneCard)
    requires c in StoryCards(m, stories)
    ensures c.item in stories && c.tag == "in " + m.num
  {
    TaggedMember(stories, "in " + m.num, c);
  }

  lemma StoryTagFits(items: seq<Item>, m: MilestoneCard, c: LaneCard)
    requires m in Derive(items).milestones && c.item in m.stories && c.tag == "in " + m.num
    ensures TagFits(Derive(items), c)
  {
    CardIsFromStream(Stream(items), m);
    hide Stream, Derive, SameMilestone;
    FilterMember(Stream(items), (s: Item) => IsStoryOf(s, m.num), c.item);
  }

  lemma GateTagFits(items: seq<Item>, gates: seq<Item>, c: LaneCard)
    requires c in Tagged(gates, "uat") && forall g <- gates :: g.kind == Uat
    ensures TagFits(Derive(items), c)
  {
    hide Derive;
    TaggedMember(gates, "uat", c);
  }

  lemma GatesAreUat(items: seq<Item>, ref: string)
    ensures forall g <- Derive(items).uat :: g.kind == Uat
    ensures forall g <- GatesFor(Derive(items), ref) :: g.kind == Uat
  {
    forall g | g in Derive(items).uat ensures g.kind == Uat { FilterMember(Stream(items), IsUat, g); }
    forall g | g in GatesFor(Derive(items), ref) ensures g.kind == Uat {
      FilterMember(Derive(items).uat, (u: Item) => SameMilestone(u.parent, ref), g);
    }
  }

  lemma MilestoneTagFits(items: seq<Item>, c: LaneCard)
    requires c in MilestoneLaneCards(Derive(items).milestones)
    ensures TagFits(Derive(items), c)
  {
    var d := Derive(items);
    MapMember(d.milestones, (m: MilestoneCard) => LaneCard(m.item, "milestone"), c);
    var m :| m in d.milestones && LaneCard(m.item, "milestone") == c;
    CardIsFromStream(Stream(items), m);
  }

  lemma DriverTagFits(items: seq<Item>, c: LaneCard)
    requires c in DriverCards(Derive(items).otherDrivers)
    ensures TagFits(Derive(items), c)
  {
    var d := Derive(items);
    MapMember(d.otherDrivers, i => LaneCard(i, DriverTag(i)), c);
    FilterMember(Stream(items), IsOtherDriver, c.item);
  }

  // Every card placed carries the tag its item calls for.
  lemma TagsFit(items: seq<Item>, focus: Focus, c: LaneCard)
    requires c in Placed(Derive(items), focus)
    ensures TagFits(Derive(items), c)
  {
    hide Derive, TagFits, DriverCards, MilestoneLaneCards, HotCards, StoryCards, Tagged, GatesFor;
    var d := Derive(items);
    match focus
    case All =>
      GatesAreUat(items, "");
      if c in MilestoneLaneCards(d.milestones) {
        MilestoneTagFits(items, c);
      } else if c in HotCards(d.milestones) {
        HotMember(d.milestones, c);
        var m :| m in d.milestones && c.item in m.stories && c.tag == "in " + m.num;
        StoryTagFits(items, m, c);
      } else if c in Tagged(d.uat, "uat") {
        GateTagFits(items, d.uat, c);
      } else {
        DriverTagFits(items, c);
      }
    case On(ref) =>
      GatesAreUat(items, ref);
      var found := FindCard(d.milestones, (m: MilestoneCard) => m.num == ref);
      if c in Tagged(GatesFor(d, ref), "uat") {
        GateTagFits(items, GatesFor(d, ref), c);
      } else {
        StoryCardMember(found.value, found.value.stories, c);
        StoryTagFits(items, found.value, c);
      }
  }

  // The overview's counters are the lane cards of the milestones that say so.
  lemma CountersAreCards(items: seq<Item>)
    ensures var d := Derive(items);
      var cards := MilestoneLaneCards(d.milestones);
      && d.doneMilestones == WithStatus(cards, "done")
      && d.activeMilestones == WithStatus(cards, "in-progress")
      && d.blockedGates == |InLane(Tagged(d.uat, "uat"), Blocked)|
      && d.archivedMilestones == |Filter(cards, (c: LaneCard) => c.item.archived)|
  {
    hide MilestoneLaneCards, WithStatus, InState, Cards, Stream;
    StateCounts(Cards(Stream(items)), "done");
    StateCounts(Cards(Stream(items)), "in-progress");
    ArchivedCounts(Cards(Stream(items)));
    BlockedCounts(Derive(items).uat);
  }

  lemma {:induction false} ArchivedCounts(milestones: seq<MilestoneCard>)
    ensures Archived(milestones) == |Filter(MilestoneLaneCards(milestones), (c: LaneCard) => c.item.archived)|
  {
    if milestones != [] {
      ArchivedCounts(milestones[1..]);
      var f := (m: MilestoneCard) => LaneCard(m.item, "milestone");
      assert Map(milestones, f)[1..] == Map(milestones[1..], f);
    }
  }

  lemma {:induction false} BlockedCounts(gates: seq<Item>)
    ensures Tally(gates, "blocked") == |InLane(Tagged(gates, "uat"), Blocked)|
  {
    if gates != [] {
      BlockedCounts(gates[1..]);
      assert Tagged(gates, "uat")[0] == LaneCard(gates[0], "uat");
      assert Tagged(gates, "uat")[1..] == Tagged(gates[1..], "uat");
    }
  }

  lemma {:induction false} StateCounts(milestones: seq<MilestoneCard>, word: string)
    ensures InState(milestones, word) == WithStatus(MilestoneLaneCards(milestones), word)
  {
    if milestones != [] {
      StateCounts(milestones[1..], word);
      var f := (m: MilestoneCard) => LaneCard(m.item, "milestone");
      assert Map(milestones, f)[1..] == Map(milestones[1..], f);
    }
  }

  // ---- the program ----

  method DeriveBoard(items: seq<Item>) returns (d: Derived)
    ensures d == Derive(items)
  {
    hide CardOf, IsStoryOf, IsMilestone, IsOtherDriver;
    var stream := Stream(items);
    var byRef: map<string, Item> := map[];
    for i := 0 to |stream|
      invariant byRef == ByRef(stream[..i])
    {
      assert stream[..i + 1][..i] == stream[..i];
      byRef := byRef[stream[i].ref := stream[i]];
    }
    assert stream[..|stream|] == stream;
    var milestones := Cards(stream);
    var uat := Filter(stream, IsUat);
    return Derived(items, milestones, uat, Filter(stream, IsOtherDriver), Backlog(items), byRef,
      InState(milestones, "done"),
      InState(milestones, "in-progress"),
      Tally(uat, "blocked"),
      Archived(milestones));
  }

  // The lane arrays the placement pushes into.
  class LaneBuckets {
    var out: map<Lane, seq<LaneCard>>

    // What has been placed so far.
    ghost var placed: seq<LaneCard>

    ghost predicate Valid()
      reads this
    {
      forall lane: Lane :: lane in out && out[lane] == InLane(placed, lane)
    }

    constructor ()
      ensures Valid() && placed == []
    {
      out := map[NotStarted := [], InProgress := [], InReview := [], Blocked := [], Done := []];
      placed := [];
      new;
      forall lane: Lane ensures lane in out && out[lane] == [] {
        match lane
        case NotStarted =>
        case InProgress =>
        case InReview =>
        case Blocked =>
        case Done =>
      }
    }

    // A card whose status names no lane is dropped.
    method Place(item: Item, tag: string)
      requires Valid()
      modifies this
      ensures Valid() && placed == old(placed) + [LaneCard(item, tag)]
    {
      var card := LaneCard(item, tag);
      forall lane: Lane
        ensures InLane(placed + [card], lane)
             == InLane(placed, lane) + (if LaneFor(item.status) == Some(lane) then [card] else [])
      {
        FilterConcat(placed, [card], (c: LaneCard) => LaneFor(c.item.status) == Some(lane));
      }
      var lane := LaneFor(item.status);
      if lane.Some? { out := out[lane.value := out[lane.value] + [card]]; }
      placed := placed + [card];
    }

    method PlaceAll(items: seq<Item>, tag: string)
      requires Valid()
      modifies this
      ensures Valid() && placed == old(placed) + Tagged(items, tag)
    {
      for i := 0 to |items|
        invariant Valid()
        invariant placed + Tagged(items[i..], tag) == old(placed) + Tagged(items, tag)
      {
        assert items[i..][1..] == items[i + 1..];
        Place(items[i], tag);
      }
    }

    method PlaceMilestones(milestones: seq<MilestoneCard>)
      requires Valid()
      modifies this
      ensures Valid() && placed == old(placed) + MilestoneLaneCards(milestones)
    {
      for i := 0 to |milestones|
        invariant Valid()
        invariant placed + MilestoneLaneCards(milestones[i..]) == old(placed) + MilestoneLaneCards(milestones)
      {
        assert milestones[i..][1..] == milestones[i + 1..];
        Place(milestones[i].item, "milestone");
      }
    }

    method PlaceHotOf(m: MilestoneCard)
      requires Valid()
      modifies this
      ensures Valid() && placed == old(placed) + StoryCards(m, Filter(m.stories, IsHot))
    {
      hide IsHot;
      for j := 0 to |m.stories|
        invariant Valid()
        invariant placed + StoryCards(m, Filter(m.stories[j..], IsHot))
          == old(placed) + StoryCards(m, Filter(m.stories, IsHot))
      {
        assert m.stories[j..][1..] == m.stories[j + 1..];
        ghost var rest := Filter(m.stories[j + 1..], IsHot);
        assert [] + rest == rest && ([m.stories[j]] + rest)[1..] == rest;
        if IsHot(m.stories[j]) { Place(m.stories[j], "in " + m.num); }
      }
    }

    method PlaceHot(milestones: seq<MilestoneCard>)
      requires Valid()
      modifies this
      ensures Valid() && placed == old(placed) + HotCards(milestones)
    {
      hide StoryCards, Filter;
      for i := 0 to |milestones|
        invariant Valid()
        invariant placed + HotCards(milestones[i..]) == old(placed) + HotCards(milestones)
      {
        assert milestones[i..][1..] == milestones[i + 1..];
        PlaceHotOf(milestones[i]);
      }
    }

    method PlaceDrivers(drivers: seq<Item>)
      requires Valid()
      modifies this
      ensures Valid() && placed == old(placed) + DriverCards(drivers)
    {
      for i := 0 to |drivers|
        invariant Valid()
        invariant placed + DriverCards(drivers[i..]) == old(placed) + DriverCards(drivers)
      {
        assert drivers[i..][1..] == drivers[i + 1..];
        Place(drivers[i], DriverTag(drivers[i]));
      }
    }
  }

  method LaneCards(d: Derived, focus: Focus) returns (out: map<Lane, seq<LaneCard>>)
    ensures forall lane: Lane :: lane in out && out[lane] == InLane(Placed(d, focus), lane)
  {
    hide InLane, Tagged, HotCards, DriverCards, MilestoneLaneCards;
    var buckets := new LaneBuckets();
    match focus {
      case All =>
        buckets.PlaceMilestones(d.milestones);
        buckets.PlaceHot(d.milestones);
        buckets.PlaceAll(d.uat, "uat");
        buckets.PlaceDrivers(d.otherDrivers);
      case On(ref) =>
        var m := FindCard(d.milestones, (m: MilestoneCard) => m.num == ref);
        if m.Some? { buckets.PlaceAll(m.value.stories, "in " + m.value.num); }
        buckets.PlaceAll(GatesFor(d, ref), "uat");
        assert Placed(d, focus) == (if m.Some? then StoryCards(m.value, m.value.stories) else [])
          + Tagged(GatesFor(d, ref), "uat");
    }
    assert buckets.placed == Placed(d, focus);
    out := buckets.out;
  }
}
