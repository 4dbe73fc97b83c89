# Verified models of the UI's run-keeping logic

Dafny models of the parts of `apps/ui/src` that decide something: a text scanner and the document cleaner built on
it, the conditional-GET cache, the arbiter that shares out terminal sockets and the session grid that feeds it, the
shell's fullscreen slot, the fleet page's address, the runs tab, the board's derivation and lanes, and a handful of
list and drag algorithms. `dafny verify dfyconfig.toml` checks everything.

Code that works step by step keeps that form: a method with the source's loops, or a class with the source's mutable
fields, each tied by its `ensures` to a function or a relation that says what it computes. The lemmas are about those
functions, and, where there is a state, about every run of its events.

| file | models |
|---|---|
| `Regex.dfy` | leftmost, lazy or greedy matching and replacement, for the expressions the code uses |
| `Markdown.dfy` | the comment scanner, against the regular expression it stands for, and its fixed point |
| `CleanDoc.dfy` | frontmatter, comment, leading-space and newline passes, and how they compose |
| `ConditionalGet.dfy` | `getJson` and `fleetApi.status` with any number of requests in flight |
| `SocketCap.dfy` | the arbiter of live panes under a cap |
| `Grid.dfy`, `SessionGrid.dfy` | the tiles, their order and focus; retention, arbitration and intents while the grid is mounted |
| `HomePage.dfy` | the page around the grid, which mounts it and takes it down, and what that does to the same results |
| `Fullscreen.dfy` | the slot's machine and the adoption of a live node |
| `FleetAddress.dfy` | three narrowings and the address that carries them, under push, Back and Forward |
| `RunsTab.dfy` | numbered requests of which only the latest applies |
| `BoardModel.dfy` | what is derived from the work items, and the lanes |
| `TasksTab.dfy`, `Overview.dfy`, `ListField.dfy` | rule groups, backlog buckets, comma-separated fields |
| `DragHandle.dfy` | the dock's clamp, its drag and its keys |
| `Lists.dfy`, `Wrappers.dfy` | filter and map with their counts; `Option` |

## What the proofs found

Where the code and what is written about it differ, the models follow the code.

- **Home page.** `apps/ui/src/home/SessionGrid.tsx:92-97` promises that a tile being read is not removed by a poll. A
  poll that lists no session removes the whole grid, with its tiles, sockets and intents, so the page's only session is
  never kept (`OnlySessionIsNotKept`); a tile whose stream goes on is kept throughout a run if and only if each poll in
  it lists some session (`ReadingIsKeptExactly`). What comes back starts empty (`RestartForgets`).
- **Session grid.** `apps/ui/src/home/SessionGrid.tsx:103-105` says a finished stream's retention is spent on the next
  poll. It is spent at any recomposition: between polls the tile is there exactly until some other pane's first byte
  (`EndIsSpentExactly`), and a repaint after the end does not save it (`RetainedExactly`).
- **Grid order.** The order rows arrive in leaves no trace exactly when the rows of each pane agree; of two that do not,
  the first decides (`GridIgnoresArrival`, `FirstRowWins`). This is about the function alone: the index it is given
  holds one row per pane (`packages/mesh/src/global-query.mjs:222-275`).
- **Fullscreen.** Being replaced is being told if and only if the occupant had been shown (`ReplacedIsToldIffShown`):
  one that is replaced before its commit never hears of it. Which commits leave the occupant's node in the host and no
  other is stated exactly, for every run of any callers (`CommitExactly`) and for any number of requests, dismisses and
  escapes between two commits (`WindowExactly`). The failing runs are a request with no home (`HomelessStays`), an id
  reused for another node (`RemountUnderOneIdIsMissed`), two requests under one new id (`SharedIdTakesTheOther`) and a
  request without an id (`NamelessRequestStrands`).
- **Fleet.** The page and its address part exactly when a blank repo is asked for (`StepAgrees`, `BlankRepoParts`). A
  repo or status change pushes an entry whose own value is unchanged exactly for a blank repo asked of an unfiltered
  page and for an unknown status asked of the default one (`PushesOnlyAChange`).
- **Runs tab.** A failed first load is shown if and only if no poll has begun meanwhile (`FirstFailureIsShown`), so the
  tab can say it is loading after every request has failed (`LoadingCanOutlastEveryAnswer`). It is left loading exactly
  while every answer comes to a request a poll has overtaken, or is a poll's failure (`LeftLoadingExactly`).
- **Conditional GET.** The refinement rests on a tag naming one document per route; reuse a tag the client holds and the
  next read returns the old document (`ReusedTagIsSeen`).
- **Board.** Two milestones share a story exactly when their keys are equal (`StoriesAreSharedOnEqualKeys`). Five empty
  lanes stand without the empty screen exactly when no status placed names a lane and either something is placed or the
  board has no milestone of the focused reference (`EmptyScreenMeansEmptyLanes`).
- **List fields.** The field re-renders its own list at each keystroke, and what is typed at its end is lost if and only
  if it is commas and white space: a separator is gone before the next value can follow it (`TypedSeparatorIsLost`).

## Model

| member | source | states |
|---|---|---|
| Markdown.CommentEnds | apps/ui/src/board/Markdown.tsx:206-207 | the lazy comment expression matches exactly at an opener that has a close, and ends at its first `-->` or `--!>` |
| Markdown.UnclosedStaysUnclosed | apps/ui/src/board/Markdown.tsx:219 | if an opener has no close, no later position matches: the scanner may stop at the first unclosed `<!--` |
| Markdown.HtmlCommentsOnce | apps/ui/src/board/Markdown.tsx:208-223 | the nested scan returns what deleting all successive leftmost lazy matches returns, and looks at no more positions than the text has characters |
| Markdown.OnePass | apps/ui/src/board/Markdown.tsx:206-223 | one pass yields a subsequence, leaves a comment-free text alone and otherwise takes at least seven characters |
| Markdown.StripIsClean | apps/ui/src/board/Markdown.tsx:42-52 | the fixed point has no complete comment, is a subsequence of the text, strips to itself, and is the text exactly when that had no comment |
| Markdown.OneCommentGoes | apps/ui/src/board/Markdown.tsx:44-52 | a text with one opener and a close for it keeps all before and all after the comment, unless the two together make one |
| Markdown.StripHtmlComments | apps/ui/src/board/Markdown.tsx:44-52 | the do-while loop returns the text after some number of passes, at most a seventh of its length, that one more pass leaves as it is: no comment in it, and a subsequence of the text |
| CleanDoc.CleanDocKeeps | apps/ui/src/board/DetailPanel.tsx:894-898 | every document: the result is its body without comments, from the first character on that is no white space, with the third and later of newlines in a row left out, and nothing else |
| CleanDoc.CleanDocLeavesClean | apps/ui/src/board/DetailPanel.tsx:894-898 | a document without frontmatter, comment, leading white space or three newlines in a row is returned as it is |
| CleanDoc.CleanDocIsClean | apps/ui/src/board/DetailPanel.tsx:891-898 | the cleaned document has no complete comment, no leading white space and no three newlines in a row: no pass recreates what an earlier one removed |
| CleanDoc.CollapseMakesNoComment | apps/ui/src/board/DetailPanel.tsx:897 | a comment in the collapsed text is a comment of the text before the collapse |
| CleanDoc.CollapseRuns | apps/ui/src/board/DetailPanel.tsx:897 | a run of newlines keeps its length up to two and is two beyond that |
| CleanDoc.FrontmatterIsDropped | apps/ui/src/board/DetailPanel.tsx:895 | a frontmatter block, each line end LF or CR LF and any content but a closing line, is removed whole and alone with the line end after it, if there is one |
| CleanDoc.OnlyFrontmatterIsDropped | apps/ui/src/board/DetailPanel.tsx:895 | a document that the first pass changes begins with such a block |
| ConditionalGet.StepKeepsGood | apps/ui/src/board/api.ts:229-249 | every send, answer, settlement, failure and server change keeps each stored pair, and each pair a request closed over, the document its tag names |
| ConditionalGet.ReadsAreCurrent | apps/ui/src/board/api.ts:231-249 | in every interleaving a successful read returns what the server held when it answered that request |
| ConditionalGet.RefinesPlainGet | apps/ui/src/board/api.ts:231-249 | with the cache forgotten, every run is event by event a run of an uncached client |
| ConditionalGet.SameObjectSameDocument | apps/ui/src/board/api.ts:226-228 | two reads that return the same object returned the same document, so identity may be read as unchanged |
| ConditionalGet.TaggedReadIsRemembered | apps/ui/src/board/api.ts:231-249 | after a good answer with a tag the next read of the route sends it, may be answered 304, and then returns the very object of the first read |
| ConditionalGet.UntaggedReadForgets | apps/ui/src/board/api.ts:245-247 | after a good answer without a tag, or with an empty one, the next read sends none |
| ConditionalGet.TagOutlastsTheRest | apps/ui/src/board/api.ts:234-238 | over any run without a good answer for a route, 304s, refusals, broken answers and other routes' answers included, its next read closes over what it would have before |
| ConditionalGet.WeakTagsMatch | apps/ui/src/board/api.ts:233 | a 304 may answer a tag that is the server's but for the weakness mark, and no other |
| ConditionalGet.ReusedTagIsSeen | apps/ui/src/board/api.ts:233-234 | the condition on tags is needed: a server that reuses a held tag for another document makes the next read return the old one |
| ConditionalGet.ScopesKeepTheirOwn | apps/ui/src/fleet/api.ts:404-425 | an answer for one scope leaves the stored pair of every other scope as it was |
| ConditionalGet.Client.Begin | apps/ui/src/board/api.ts:231-233 | the pair read before the fetch and the tag sent with it |
| ConditionalGet.Client.Complete | apps/ui/src/board/api.ts:234-249 | the outcome and the whole new map, case by case: unchanged on 304 and on refusal, the tag and the very parsed body stored on a tagged answer, the route deleted on an untagged one |
| SocketCap.KeyInjective | apps/ui/src/home/socket-cap.mjs:97-99 | panes whose node ids hold no NUL are told apart by their keys |
| SocketCap.Bound | apps/ui/src/home/socket-cap.mjs:151-153 | the answer is duplicate-free, within the cap, only of listed panes not hidden, and as large as the cap or the supply allows |
| SocketCap.Retention | apps/ui/src/home/socket-cap.mjs:154-161 | only the cap costs a listed, unhidden incumbent its socket, down to the cap exactly, and none loses it while a newcomer holds one |
| SocketCap.FocusSurvives | apps/ui/src/home/socket-cap.mjs:215-223 | a focused incumbent keeps its socket under any cap of at least one |
| SocketCap.SurvivorsOutrank | apps/ui/src/home/socket-cap.mjs:215-223 | under a lowered cap an incumbent that is kept comes before one that is released: the focused pane, then a watched one, then by first row |
| SocketCap.NewcomersOutrank | apps/ui/src/home/socket-cap.mjs:225-240 | a newcomer that got a slot comes before every listed, unhidden pane without one in the same order |
| SocketCap.AnswersFollowTheRows | apps/ui/src/home/socket-cap.mjs:265-343 | the subscribed and the declined follow the rows, and the released the incumbents, by first row |
| SocketCap.CapExactly | apps/ui/src/home/socket-cap.mjs:122-136 | the cap is the whole part of a positive number and otherwise zero |
| SocketCap.AddressableExactly | apps/ui/src/home/socket-cap.mjs:86-95 | a row addresses a pane if and only if both of its fields hold more than white space |
| SocketCap.ByRankSorts | apps/ui/src/home/socket-cap.mjs:190-194 | the sort by rank is stable: earlier in it is higher in rank, or of equal rank and earlier in the rows |
| SocketCap.ReleasedExactly | apps/ui/src/home/socket-cap.mjs:265-306 | each incumbent without a socket is reported once with the one true cause, and the cap is blamed only when claims outnumber it |
| SocketCap.DeclinedExactly | apps/ui/src/home/socket-cap.mjs:308-329 | exactly the watched or focused panes the cap could not honour are declined, once each |
| SocketCap.DecisionsExactly | apps/ui/src/home/socket-cap.mjs:242-263 | one decision a row; hidden and at-cap causes are given exactly where they hold, and never to an unaddressable row |
| SocketCap.Converges | apps/ui/src/home/socket-cap.mjs:172-353 | with its answer as the incumbents the arbiter gives the same answer, so the grid's feedback settles in one pass |
| SocketCap.SubscribedPaneSet | apps/ui/src/home/socket-cap.mjs:172-353 | the imperative passes compute the arbitration the lemmas above are about |
| Grid.TileLessIsStrict | apps/ui/src/home/grid.mjs:114-126 | the tile order is asymmetric and irreflexive, and decides between any two different panes |
| Grid.TileLessTransitive | apps/ui/src/home/grid.mjs:114-126 | the tile order is transitive |
| Grid.LessIsUnitOrder | apps/ui/src/home/grid.mjs:114-126 | strings are ordered as the sequences of their UTF-16 code units |
| Grid.TilesStandInOrder | apps/ui/src/home/grid.mjs:114-126 | the tiles stand by node, then by repo with the unstated last, then by session |
| Grid.RowsAre | apps/ui/src/home/grid.mjs:128-164 | the grid has one tile for each pane listed or kept, in order, marked retained exactly when it is not listed |
| Grid.TilesSayTheirRows | apps/ui/src/home/grid.mjs:77-93 | a tile speaks for the first live row of its pane, and only without one for the row it was kept with |
| Grid.OrderIsUnique | apps/ui/src/home/grid.mjs:114-126 | the tiles have one sorted arrangement |
| Grid.GridIgnoresArrival | apps/ui/src/home/grid.mjs:128-164 | every arrangement of the rows gives the same grid if and only if the live rows of each pane say the same, and the kept rows of a pane with no live row say the same but for their feed |
| Grid.FirstRowWins | apps/ui/src/home/grid.mjs:145-155 | two rows of one pane that disagree give two different grids in their two orders |
| Grid.FocusAfterPoll | apps/ui/src/home/grid.mjs:235-256 | the focus stays on a surviving tile, and otherwise goes to the nearest survivor of the previous order, the later on a tie, or to the first tile |
| SessionGrid.RecomposeIs | apps/ui/src/home/SessionGrid.tsx:105-112 | a recomposition leaves exactly the index and the tiles that have painted and are not finished, and spends exactly the finished that had painted |
| SessionGrid.KeptTilesSayTheSame | apps/ui/src/home/SessionGrid.tsx:106-111 | a tile kept without a live row goes on saying what it said |
| SessionGrid.DialableExactly | apps/ui/src/home/grid.mjs:181-185 | exactly the tiles fed by their first live row and the kept ones may hold a socket |
| SessionGrid.SlotsGoByIntent | apps/ui/src/home/SessionGrid.tsx:114-141 | a tile that newly gets a socket is watched if one that could have had it is, and stands first if both are or neither is |
| SessionGrid.PressCounts | apps/ui/src/home/SessionGrid.tsx:201-212 | so after any run a watch or hide press counts |
| HomePage.NoGhostPane | apps/ui/src/home/SessionGrid.tsx:92-111 | after a poll a tile is in the index, or since the grid went up was listed by an earlier poll and last reported that it paints |
| HomePage.ReadingIsKeptExactly | apps/ui/src/home/Home.tsx:214-216 | a tile whose stream does not end is read throughout a run if and only if each poll in the run lists some session |
| HomePage.OnlySessionIsNotKept | apps/ui/src/home/page-state.mjs:165 | with one session on the page, read and then unlisted, the grid goes with its row |
| HomePage.RestartForgets | apps/ui/src/home/Home.tsx:214-216 | the grid that comes back is the one a first poll puts up: no kept tile, no paint, no intent |
| HomePage.PageIsOneLife | apps/ui/src/home/Home.tsx:214-216 | over every run the page is the grid's own run since it was last mounted, over polls that each list a session |
| HomePage.GridIsUpExactly | apps/ui/src/home/page-state.mjs:83-95 | after any poll, of any page, the grid is up if and only if some listed row has a non-empty node id and a non-empty session id |
| HomePage.ListedIsShown | apps/ui/src/home/Home.tsx:214-216 | in every run each pane that a poll lists is then a tile |
| HomePage.RetainedExactly | apps/ui/src/home/SessionGrid.tsx:98-108 | a painted tile whose row has left is on screen after later polls if and only if no end of its stream was pending or reported and each poll listed some session |
| HomePage.SpentIsGone | apps/ui/src/home/SessionGrid.tsx:148-161 | a finished tile whose row has left is gone after the next poll and stays gone until its row returns |
| HomePage.EndIsSpentExactly | apps/ui/src/home/SessionGrid.tsx:156-161 | between polls a departed tile with its end pending is on screen if and only if no pane has painted for the first time |
| HomePage.RunIsSound | apps/ui/src/home/SessionGrid.tsx:114-141 | in every run, while the grid is up, the sockets are duplicate-free, only on tiles that may hold one, and sixteen or as many as such tiles |
| HomePage.NoEviction | apps/ui/src/home/SessionGrid.tsx:201-204 | no event takes the socket of a tile that may still hold one, except a poll that lists no session, which takes them all |
| HomePage.PressesAreKept | apps/ui/src/home/SessionGrid.tsx:205-212 | watched and hidden are duplicate-free and hold exactly the panes whose last press since the grid went up put them there |
| SessionGrid.Component.Commit | apps/ui/src/home/SessionGrid.tsx:105-161 | one render's tiles, arbitration and effect, and the retentions it spends |
| SessionGrid.Component.Render | apps/ui/src/home/SessionGrid.tsx:105-161 | the render and the second one that spending causes are one recomposition |
| SessionGrid.Component.Report | apps/ui/src/home/SessionGrid.tsx:175-189 | an end and a byte reported together are the end and then the paint, as the end is marked at once and the paint is rendered later |
| HomePage.Home.OnPoll | apps/ui/src/home/Home.tsx:214-218 | the grid is polled, put up empty and polled, or taken down |
| SessionGrid.Component.Watch | apps/ui/src/home/SessionGrid.tsx:205-212 | the whole new state of a watch or hide press |
| Fullscreen.RunKeeps | apps/ui/src/app/Shell.tsx:745-792 | for callers with one id a node and a home, every run keeps the host, the effect's closure and the counts of adoptions and dismissals in step |
| Fullscreen.OnlyTheOccupantIsHosted | apps/ui/src/app/Shell.tsx:763-792 | after a commit the presented occupant's node is in the host and every other node is at its home |
| Fullscreen.AdoptionsAreUndoneOnce | apps/ui/src/app/Shell.tsx:777-791 | in every run, of any callers, each adoption has one `onDismiss` except the one that stands; for callers with one id a node and a home, that one is the node in the host |
| Fullscreen.StaleDismissIsHarmless | apps/ui/src/app/shell-layout.mjs:924-935 | a dismiss with the id of an occupant that is not presented changes nothing |
| Fullscreen.ReplacedIsToldIffShown | apps/ui/src/app/Shell.tsx:779-786 | a replaced occupant is told once if it had been shown and never otherwise |
| Fullscreen.WaysOutTellOnce | apps/ui/src/app/Shell.tsx:777-791 | the shell's control, the occupant's own dismiss and an unclaimed escape each empty the host, send the node home and tell the occupant once |
| Fullscreen.OccupantStays | apps/ui/src/app/shell-layout.mjs:872-946 | an occupant stays over a run of its own requests, dismisses aimed at others, commits and escapes it claims, and any other event takes it away |
| Fullscreen.CommitExactly | apps/ui/src/app/Shell.tsx:763-792 | after every run of any callers, a commit leaves the occupant's node in the host, alone, if and only if what the cleanup leaves and what the effect takes in are that node |
| Fullscreen.WindowExactly | apps/ui/src/app/Shell.tsx:745-792 | over any requests, dismisses and escapes between two commits, the second does so if and only if nobody is presented, or the shown node still is, or the newcomer is taken in with its own node and the shown one can leave |
| Fullscreen.NextWindow | apps/ui/src/app/Shell.tsx:763-792 | and when the next such window begins: nobody is presented, the id did not change, or the newcomer was taken in and is alone |
| Fullscreen.ReplacedExactly | apps/ui/src/app/Shell.tsx:763-792 | after a shown occupant gets a successor the host holds the occupant's node alone if and only if the request names no other id, or the old one has a home, or both bring one node |
| Fullscreen.DismissedThenPresentedExactly | apps/ui/src/app/Shell.tsx:763-792 | the same after a dismiss and a request before one commit: if and only if the request has no id, or brings the same node, or has another id and the old occupant a home |
| Fullscreen.PresentedTwiceExactly | apps/ui/src/app/Shell.tsx:748-751 | the same after two requests before the first commit: if and only if the second has an id and under the first's id brings its node |
| Fullscreen.DismissedExactly | apps/ui/src/app/Shell.tsx:777-791 | a dismissed occupant leaves the host empty, and its node at home if it has one and otherwise in the host that was taken down |
| Fullscreen.LostNodeComesBack | apps/ui/src/app/Shell.tsx:763-792 | a node lost with its host is at home again after the next request that brings it with a home is dismissed |
| Fullscreen.HomelessStays | apps/ui/src/app/Shell.tsx:778 | from the start: shown and then replaced, an occupant that named no home stays in the host beside its successor |
| Fullscreen.RemountUnderOneIdIsMissed | apps/ui/src/app/Shell.tsx:763-792 | from the start: shown, dismissed and presented again under its id before a commit, the old node stays up and nobody is told |
| Fullscreen.SharedIdTakesTheOther | apps/ui/src/app/Shell.tsx:748-768 | from the start: of two requests under one new id before a commit the first is the occupant and the second's node is in the host |
| Fullscreen.NamelessRequestStrands | apps/ui/src/app/Shell.tsx:748-751 | from the start: a request without an id leaves the occupant presented before it unadopted |
| Fullscreen.FullscreenSlot.OnPresent | apps/ui/src/app/Shell.tsx:748-752 | the new ref and the new machine state |
| Fullscreen.FullscreenSlot.OnDismiss | apps/ui/src/app/shell-layout.mjs:924-946 | a dismiss empties the slot unless its id is another's |
| Fullscreen.FullscreenSlot.OnEscape | apps/ui/src/app/shell-layout.mjs:896-913 | escape empties the slot unless the occupant claims the key |
| Fullscreen.FullscreenSlot.RunEffect | apps/ui/src/app/Shell.tsx:763-792 | the cleanup of the old id and then the body for the new one, or nothing when the id is the same |
| FleetAddress.ScopeIsWritten | apps/ui/src/fleet/scope.mjs:42-56 | the scope writer is read back, and leaves the other two readings and every other pair alone |
| FleetAddress.RepoIsWritten | apps/ui/src/fleet/scope.mjs:99-148 | the same for the repo writer, which reads back a blank repo as none |
| FleetAddress.StatusIsWritten | apps/ui/src/fleet/scope.mjs:583-598 | the same for the status writer, which reads back an unknown word as the default |
| FleetAddress.ReadersExactly | apps/ui/src/fleet/scope.mjs:50-586 | an address is local only if its first scope says so, its repo is the first one unless blank, and its status the first one that is among the seven words, else open |
| FleetAddress.ChangesAreMade | apps/ui/src/fleet/Fleet.tsx:496-527 | each change gives page and address the value asked for, keeps the other narrowings and pairs, and adds one entry after the one on show |
| FleetAddress.OthersAreKept | apps/ui/src/fleet/scope.mjs:132-148 | with the key itself removed, setting or deleting it changes nothing, order and repeats included |
| FleetAddress.StepAgrees | apps/ui/src/fleet/Fleet.tsx:496-527 | an event keeps page and address in agreement if and only if it does not ask for a blank repo |
| FleetAddress.AddressAndPageAgree | apps/ui/src/fleet/Fleet.tsx:431-442 | over every run of the page's own changes and history moves the three narrowings are what the readers give on the address |
| FleetAddress.BlankRepoParts | apps/ui/src/fleet/Fleet.tsx:515-520 | a blank repo filters the page, is dropped by the address and pushes an entry |
| FleetAddress.PushesOnlyAChange | apps/ui/src/fleet/Fleet.tsx:515-527 | a repo or status change pushes exactly when it asks for another value than the address reads, and the two cases where the value read stays the same |
| FleetAddress.ChangesOnlyAdd | apps/ui/src/fleet/Fleet.tsx:688-694 | changes never rewrite the history up to the entry on show |
| FleetAddress.BackUndoesChanges | apps/ui/src/fleet/Fleet.tsx:431-442 | going back over any number of changes restores the address and all three narrowings |
| FleetAddress.MovesShowTheirEntry | apps/ui/src/fleet/Fleet.tsx:434-439 | a move back shows what its entry says, and Forward returns from it to the very same page |
| FleetAddress.Fleet.OnScopeChange | apps/ui/src/fleet/Fleet.tsx:496-499 | the new scope and the pushed entry |
| FleetAddress.Fleet.OnRepoChange | apps/ui/src/fleet/Fleet.tsx:515-520 | nothing, or the new repo and the pushed entry |
| FleetAddress.Fleet.OnWorkStatusChange | apps/ui/src/fleet/Fleet.tsx:522-527 | nothing, or the status as the address will read it and the pushed entry |
| FleetAddress.Fleet.OnPopState | apps/ui/src/fleet/Fleet.tsx:434-439 | the three narrowings reread from the address moved to |
| RunsTab.LatestRequestWins | apps/ui/src/board/DetailPanel.tsx:636-662 | in every run the requests applied strictly increase and a ready view is the shown item's |
| RunsTab.ItemStands | apps/ui/src/board/DetailPanel.tsx:664-670 | the item on show is the one opened last, over any events since |
| RunsTab.EarlierAnswersNeverLand | apps/ui/src/board/DetailPanel.tsx:642-650 | once a load or poll has begun, no answer to an earlier request has any effect, whatever happens in between |
| RunsTab.ReadyViewStands | apps/ui/src/board/DetailPanel.tsx:655-659 | a ready view outlasts any run of polls and failures, silent or not |
| RunsTab.UnchangedMeansSameRuns | apps/ui/src/board/DetailPanel.tsx:649-653 | over a ready view an answer reads as unchanged to the cadence exactly when it changes nothing but the time it was fetched at |
| RunsTab.FirstFailureIsShown | apps/ui/src/board/DetailPanel.tsx:655-659 | over any events since an item was opened, the failure of its first load is shown if and only if no poll is among them |
| RunsTab.LeftLoadingExactly | apps/ui/src/board/DetailPanel.tsx:642-662 | over any events since an item was opened, it is left loading if and only if each answer was to a request that a poll had overtaken, or was a poll's failure |
| RunsTab.LoadingCanOutlastEveryAnswer | apps/ui/src/board/DetailPanel.tsx:642-670 | after any number of failed polls, at least one, and then the failed first load, nothing is pending and the tab still says it is loading |
| RunsTab.LatestAnswerIsShown | apps/ui/src/board/DetailPanel.tsx:648-654 | a good answer to the latest request is the view, and stays it over any run of polls and failures |
| RunsTab.Component.Load | apps/ui/src/board/DetailPanel.tsx:642-646 | the number drawn and the view up to the await |
| RunsTab.Component.Resume | apps/ui/src/board/DetailPanel.tsx:647-660 | the new state after the await, and whether the answer changed |
| BoardModel.SameMilestoneIsSameKey | apps/ui/src/board/model.ts:67-74 | the comparison is equality of keys: the number a reference starts with, or else the reference |
| BoardModel.ReadsItsNumber | apps/ui/src/board/model.ts:70-73 | a reference is read as the decimal number it starts with, after white space, a sign and zeros, whatever follows it |
| BoardModel.ReadsItself | apps/ui/src/board/model.ts:67-69 | a reference that starts with no number is read as itself |
| BoardModel.DerivedExactly | apps/ui/src/board/model.ts:88-92 | which rows are gates, other drivers and milestones, and how often each is listed |
| BoardModel.BacklogIsApart | apps/ui/src/board/model.ts:76-89 | every row is in exactly one of backlog and stream, and nothing but `backlog` sees a backlog row |
| BoardModel.ByRefIs | apps/ui/src/board/model.ts:85-86 | the map holds exactly the stream's references, each with its last row |
| BoardModel.StoriesAreListedOnce | apps/ui/src/board/model.ts:93-95 | with distinct keys each story is listed once per row under its one milestone |
| BoardModel.StoriesAreSharedOnEqualKeys | apps/ui/src/board/model.ts:67-95 | a story of one milestone is also the other's exactly when the keys are equal |
| BoardModel.TotalsAddUp | apps/ui/src/board/model.ts:95-102 | a total is the five tallies plus the stories with no governed status |
| BoardModel.GatesAndMilestonesMatch | apps/ui/src/board/model.ts:140-151 | with distinct keys a gate is among a milestone's gates if and only if that milestone is the gate's |
| BoardModel.DeriveBoard | apps/ui/src/board/model.ts:80-132 | the loop and the filters compute the derivation the lemmas are about |
| BoardModel.LanesHoldTheBoard | apps/ui/src/board/model.ts:186-221 | under `all`, with distinct keys, each row the board shows stands in the lane of its status, as often as it is a row, and in no other |
| BoardModel.BoardShowsExactly | apps/ui/src/board/model.ts:203-214 | what `all` places, by kind, parent and status |
| BoardModel.LanesByWord | apps/ui/src/board/model.ts:153-176 | the status words of each lane, a prototype's own included |
| BoardModel.LanesHoldTheFocus | apps/ui/src/board/model.ts:209-219 | under a milestone's focus the lanes hold exactly its stories and its gates, each once |
| BoardModel.FocusedLanesAreTallies | apps/ui/src/board/model.ts:95-102 | under a milestone's focus each lane is as high as the milestone's own tally for it plus the gates in it, and the first also its stories without a status |
| BoardModel.TagsFit | apps/ui/src/board/model.ts:178-219 | every card placed carries the tag of its kind: a story's names a milestone it belongs to, a prototype's its own word |
| BoardModel.CountersAreCards | apps/ui/src/board/model.ts:115-118 | the four counters count the milestone cards done, in progress and archived, and the gates in the blocked lane |
| BoardModel.EmptyScreenMeansEmptyLanes | apps/ui/src/board/BoardLanes.tsx:101 | for every focused reference: the empty screen is shown exactly for a milestone of the board with nothing placed, and when all lanes are empty without it |
| BoardModel.CountsAreLaneHeights | apps/ui/src/board/BoardLanes.tsx:59-64 | the review and blocked counts are the heights of their lanes |
| BoardModel.LaneCards | apps/ui/src/board/model.ts:189-221 | the pushes into the five arrays give each lane its cards in placement order |
| BoardModel.LaneBuckets.Place | apps/ui/src/board/model.ts:197-200 | a card is appended to the lane of its status, and to no other |
| TasksTab.RuleGroups | apps/ui/src/board/TasksTab.tsx:81-95 | the groups are non-empty runs of one rule, adjacent ones differ, they concatenate to the scenarios, and each start is the length of those before it |
| TasksTab.GroupingIsUnique | apps/ui/src/board/TasksTab.tsx:81-95 | there is one such grouping |
| TasksTab.LastIsMaximal | apps/ui/src/board/TasksTab.tsx:86-92 | a run reaches back as far as its rule does |
| TasksTab.RulesAreTheirs | apps/ui/src/board/TasksTab.tsx:88-92 | a group's rule is its scenarios' title, or none where theirs is null or missing |
| Overview.Buckets | apps/ui/src/board/Overview.tsx:130-136 | root first, then the other paths in order of first appearance, each bucket holding its own rows in wire order, and no row without one |
| Overview.BucketsPermuteTheRows | apps/ui/src/board/Overview.tsx:118-136 | the buckets together are the rows, each once |
| Overview.PathsAreTheirs | apps/ui/src/board/Overview.tsx:131-135 | a bucket's path is its rows' own, and the root holds those with an empty one or none |
| ListField.SplitListIsClean | apps/ui/src/config/App.tsx:1209-1211 | whatever is typed, the list has no empty, padded or comma-holding entry |
| ListField.ReadsTheTexts | apps/ui/src/config/App.tsx:1209-1211 | what is read of a typed text is the values between its commas, each as it stands between the white space around it, in order |
| ListField.EveryTextIsTyped | apps/ui/src/config/App.tsx:1209-1211 | and every text is such pieces with commas between them |
| ListField.JoinSnoc | apps/ui/src/config/App.tsx:573 | what is shown is the values with a comma and a space between each two |
| ListField.SplitUndoesJoin | apps/ui/src/config/App.tsx:573 | the rendering of any list of such entries is read back as that list |
| ListField.RereadingIsStable | apps/ui/src/config/App.tsx:578 | rendering and reading again leaves the list of any typed string as it is |
| ListField.TypedSeparatorIsLost | apps/ui/src/config/App.tsx:573 | what is typed at the end leaves the list, and what the field shows, as it was if and only if it is all commas and white space |
| DragHandle.ClampIsNearest | apps/ui/src/terminal/clamp.mjs:98-134 | the clamp gives an allowed height, fixes every allowed one and passes over none on its way; the ceiling wins over the minimum |
| DragHandle.DrawnIsAllowed | apps/ui/src/terminal/TerminalControl.tsx:646-650 | every height drawn in any run, the default included, is one the box allows |
| DragHandle.OpensAt | apps/ui/src/terminal/clamp.mjs:98-121 | the dock opens at 280, or at half of a box smaller than twice that |
| DragHandle.ReleasedMovesNothing | apps/ui/src/terminal/TerminalDragHandle.tsx:71-81 | from a release to the next press the pointer moves nothing |
| DragHandle.LastMoveAlone | apps/ui/src/terminal/TerminalDragHandle.tsx:71-77 | a move asks for the start height plus its own travel, whatever moves, keys, box changes and renders came since the press |
| DragHandle.LastMoveIsDrawn | apps/ui/src/terminal/TerminalDragHandle.tsx:66-77 | in an unchanged box the height drawn is the clamp of the last move, and back at its start the pointer restores the start height |
| DragHandle.KeysMoveTheDock | apps/ui/src/terminal/TerminalDragHandle.tsx:87-94 | a key moves the drawn height by its step or to the end of the range, and does nothing only at that end |
| DragHandle.HoldingReachesTheFloor | apps/ui/src/terminal/TerminalDragHandle.tsx:87-94 | any number of presses walks down one step each until the floor |
| DragHandle.KeysMoveAResizedDock | apps/ui/src/terminal/TerminalControl.tsx:646-665 | after any change of the box, whatever height was stored, a key steps from the height drawn and is dead only at the end of the new range |
| DragHandle.Dock.OnPointerMove | apps/ui/src/terminal/TerminalDragHandle.tsx:71-77 | nothing without a drag, and otherwise the delta from the drag's start applied to the drawn height |
| DragHandle.Dock.OnKeyDown | apps/ui/src/terminal/TerminalDragHandle.tsx:87-94 | the two arrow keys step, any other key does nothing |

## Left out

- Rendering, class names, focus and ARIA wiring, timers, sockets and layout measurement: kept only as the events they cause.
- React itself: an effect runs once its render has committed, a render it causes follows at once, and a state update is one step; in the drag handle the render is a step of its own.
- Strings are sequences of Unicode scalar values: a lone surrogate is not one, and lengths count characters, not UTF-16 code units. The tile order compares code units all the same.
- Integers are exact: `parseInt` beyond 2^53 is not rounded.
- `URLSearchParams` encoding: a search string is its list of pairs, so percent-encoding and `+` are not modelled.
- A host without `history`, where `pushAddress` changes the page and not the address.
- `SocketCap.KeyInjective`: the converse is not stated; a pane is its own key everywhere else, which that lemma justifies for node ids without NUL.
- The grid's tile keys: a tile's key is its pane, not the encoded string built from it.
- The session grid's marks, announcements and summary, and the roving stop's click handler: one focus function is proved, the sentences are not.
- The fullscreen slot's layout ticks, focus trap and focus restore.
- The home page's first load, its retry and its failed card: none of them has a grid mounted.
- `RunsTab`: the cadence of the poll; a poll is an event that may come at any time.
- Board: the "Show archived" toggle, whose rows and label can disagree when a silent load that was sent before the toggle lands after it; no claim is made about it.
- Board: a status that names a property every JavaScript object has, such as `constructor`, which a lookup in an object literal would find.
- Work items: title, directory, ask, execution and dates, which no derivation here reads.
- Client coordinates are reals and not binary floating point; a height is the integer its clamp gives.
- Config: `validateDraft`, `toggleRuntime` and nested settings edits: easy members only.
- Full HTML comment tokenization, which the scanner does not implement.
