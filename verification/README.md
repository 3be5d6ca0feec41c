# Verification of the sidebar server's state machines

This project models the state-keeping core of tail-claude-mux in Dafny and proves what it
promises: the agent tracker with the scan fold and the prune pipeline that drive it, the
delegation talkback protocol, the tmux header sync, and the codecs and loops beside them
(WebSocket framing, shell quoting, the transcript cursor, the sidebar window, the process
walk, the session order).

`dafny verify dfyconfig.toml` checks the whole project.

## How it is built

Code that changes state is a class with the program's fields, whose methods are proved
against functions and relations on values; the theorems are about those. Where the program
walks a Go map, whose order is random, the loop picks any remaining key and the relation
allows every order, so a theorem about it holds for all of them. What each of these functions
does to which row, field and number is stated without naming it, for the tracker in the
`Effects` modules and for the others beside their theorems.

| files | what they hold |
|---|---|
| `AgentModel`, `TrackerSpec` | rows, keys, and what each tracker operation does to one session |
| `EventEffects`, `ScanEffects`, `UpkeepEffects` | what each operation leaves of each row, flag and counter, read off the state before it |
| `TrackerInvariants`, `MissGrace` | what holds over all runs, and about the miss grace |
| `ScanOwnership`, `OwnRows`, `FallbackPool`, `PaneCoverage` | who owns a pane after a whole scan, which panes are sure of a claim beforehand, how many rows are left for the others, and when every pane keeps its row |
| `Reordering`, `WorstOrder`, `EveryOrder`, `BoundRows` | the map order that costs a pane its row wherever one can, and hence exactly when every order keeps all panes |
| `LostPanes`, `SafeScans`, `Fixtures` | literal scans that lose a pane and that lose none |
| `OrderIndependence`, `ScanDeterminism`, `ClaimIntegrity` | when steps, events and scans have one outcome for every map order, and what claims do to other threads and panes |
| `PrunePipeline`, `ScanFold`, `WaitingRuns` | the maintenance of every state build, the fold of pane-scan readings, and waiting rows over whole runs |
| `AgentTracker`, `ServerLoops` | the tracker with its row maps on the heap, and the server code that drives it |
| `DelegationLog`, `DelegationRuns`, `DelegationServer` | the message log, its runs, and the store and server |
| `TmuxOptions`, `HeaderPlan`, `HeaderColours`, `HeaderSync` | tmux as the sync sees it, the planner, what a window shows, and the cache over all runs |
| `ShellQuoting`, `WebSocketFrames`, `WebSocketConn`, `ThinkingCursor`, `SidebarWindow`, `ProcWalk`, `SessionOrder` | one component each |
| `Wrappers`, `StringOrder` | optional values, duplicate-free sequences, induction over steps, subset sizes, sorted strings |

## What turned out otherwise than the comments say

- A scan does not always leave every unsuppressed pane with a row. A pane that is sure of no
  row of its own may fall back on a pid-less row that a later pane's thread owns; that pane
  then restamps it (`LostPanes.CrossedRowLosesAPane`, and exactly when in
  `PaneCoverage.FrontPaneTakesIff`). A thread's row that carries a later pane's pid is
  deleted by that pane (`PaneCoverage.CrossedPidLosesIff`). There is no third way
  (`PaneCoverage.LostIsTaken`). `PaneCoverage.EveryPaneOwned` reads both off the rows
  beforehand, and `EveryOrder.EveryOrderKeepsIff` shows that reading exact: where a row is
  crossed some map order loses a pane.
- A prompt can vanish unanswered within one scan: when a row's process has moved to another
  thread and a later pane runs the old one, the row is deleted and minted anew as idle
  (`WaitingRuns.PromptLostInOneScan`, and exactly when in `WaitingRuns.KeptInScanIff`). A row
  that is there throughout waits until its thread answers (`WaitingRuns.WaitingUntilAnswered`).
- A scan whose first step deletes the session's last row stamps its panes onto a map the
  session no longer has (`LostPanes.DetachedScanLosesItsPanes`);
  `ScanOwnership.DetachedIff` says exactly when. The model keeps this aliasing: row maps are
  heap objects, and the scan holds one across the deletion.
- The fallback on pid-less rows checks neither the row's thread nor its pane: a row can take
  another thread's name, or be taken from a pane the same scan sees next. `ClaimIntegrity`
  has an input for each and the exact conditions.
- The header sync's comment says a failed write heals itself on the next broadcast. It does
  for windows that host an agent; an aborted cleanup is forgotten
  (`HeaderSync.AbortedCleanupIsForgotten`), and `HeaderSync.CompletedSyncCleansIff` says
  exactly when a sync leaves tmux clean.
- The sidebar window fits its pane only from eight rows on; below that it need not
  (`SidebarWindow.SevenRowsAreTooFew`).

## Model

| member | source | states |
|---|---|---|
| `TrackerInvariants.OneRowPerProcessAlways` | apps/server-go/internal/tracker/tracker.go:309-326 | In every state of every run of events, scans, sweeps, reconciles, prunes, dismissals and focus changes, no two rows of a session share an agent and a nonzero pid; flags and miss counters exist only for existing rows; an unseen row is terminal or waiting; a counter lies between 1 and the threshold less one |
| `TrackerInvariants.NextKeepsInv` | apps/server-go/internal/tracker/tracker.go:148-166 | Every single operation keeps that invariant, from any state that has it |
| `TrackerInvariants.EventKeepsInv` | apps/server-go/internal/tracker/tracker.go:241-374 | A hook event keeps the invariant whichever rows the random map order lets it supersede or graduate |
| `TrackerInvariants.ScanKeepsInv` | apps/server-go/internal/tracker/tracker.go:654-879 | A whole pane scan keeps the invariant for every choice the map order leaves open, including the scan that loses the session map |
| `TrackerInvariants.SupersedingKeepsPane` | apps/server-go/internal/tracker/tracker.go:309-326 | An event that takes over a same-process row with a pane ends with its own row on a pane and holding that pid, and the old row is gone |
| `TrackerInvariants.SupersededIsUnique` | apps/server-go/internal/tracker/tracker.go:315-326 | Under one row per process at most one row can be superseded, so the order of the loop cannot matter |
| `TrackerInvariants.RebindingKeepsInv` | apps/server-go/internal/tracker/tracker.go:784-789 | Binding a row to a pane and retiring the other rows of its pid leaves one row for the process |
| `EventEffects.EventFlags` | apps/server-go/internal/tracker/tracker.go:364-373 | A live event of a done, failed, interrupted or waiting row makes the row unseen if it is a seed or its session is not active, and else leaves the flag; an event of a running or idle row clears it; every other row keeps its flag |
| `EventEffects.EventFields` | apps/server-go/internal/tracker/tracker.go:262-306 | The stored row has the event's identity, status, time and call; pid, thread name, subagent and title are the event's or else the earlier row's, the first-seen time the earlier row's, else the event's, else its time |
| `EventEffects.EventRemoves` | apps/server-go/internal/tracker/tracker.go:309-355 | A live event removes exactly the other rows of its process if there are any, else at most one scanned row without a thread that it may stand for, and one if there is one, with their flags and counters; every other row stays as it was |
| `EventEffects.EventBinding` | apps/server-go/internal/tracker/tracker.go:262-279 | Pane, liveness and position of the stored row are the event's, else those of an earlier row that had a pane, else of the one row it removes; a scanned row that gives its pane gives its liveness too |
| `EventEffects.EventEnds` | apps/server-go/internal/tracker/tracker.go:244-254 | An ended event removes its own row, flag and counter and nothing else, and suppresses that row's pane until five seconds later |
| `ScanEffects.SparesAreOpen` | apps/server-go/internal/tracker/tracker.go:663-677 | The spare panes of an agent are counted as the positions of its panes on which no alive row with a pane is |
| `ScanEffects.ExcusedAreCovered` | apps/server-go/internal/tracker/tracker.go:679-689 | Of an agent's rows whose pane is gone a scan excuses as many as the agent has open panes, all of them if there are as many, and none if an alive row is on each of its panes |
| `ScanEffects.StepOneAtRow` | apps/server-go/internal/tracker/tracker.go:679-705 | A row that is not gone stays; an excused one loses its counter; any other counts one miss more, and at the threshold exits and gives up its pane, or goes when a scan had minted it for the pane |
| `ScanEffects.ClaimsByRank` | apps/server-go/internal/tracker/tracker.go:715-766 | A pane claims the free row of its thread, else one of its process whose thread does not contradict it, else one without a pid on the pane, else any without a pid, and claims none only if there is none of these |
| `ScanEffects.MintsWithoutClaim` | apps/server-go/internal/tracker/tracker.go:796-817 | Without a row to claim a pane mints nothing before the end of its suppression, and then under its thread's key, or under its own when it knows no thread or an alive row with another pid holds that key |
| `ScanEffects.KeptRowSays` | apps/server-go/internal/tracker/tracker.go:766-850 | The row a pane keeps is alive on it at its window and pane index under its title, without a counter; a row that was there keeps everything else but its name and, when restamped, its pid; a new one is idle since now and has the pane's pid and thread |
| `ScanEffects.KeptRowDisplaces` | apps/server-go/internal/tracker/tracker.go:881-930 | Of the other rows those of the pane's process go, those alive on the pane for another process that is gone exit and leave it, and the rest, with flags and counters, stay as they were |
| `ScanEffects.GhostsExit` | apps/server-go/internal/tracker/tracker.go:863-876 | After the panes' turns, in their order from what step 1 leaves, exactly the unclaimed rows of watchers without a liveness whose status is done, error, interrupted, waiting or idle exit |
| `UpkeepEffects.SweepExitsTheGone` | apps/server-go/internal/tracker/tracker.go:632-650 | A sweep exits exactly the rows with a nonzero pid that is not alive, of those that neither exited nor ended their turn |
| `UpkeepEffects.ReconcileAsksTheStale` | apps/server-go/internal/tracker/tracker.go:590-615 | A reconcile turns a running alive row with a pid, older than the limit, done when its process has ended, restarts its clock when it is working, and changes no other row |
| `UpkeepEffects.PruneRemovesTheStuck` | apps/server-go/internal/tracker/tracker.go:569-588 | The prune of running rows removes exactly those older than the limit that are not alive or older than thirty minutes |
| `UpkeepEffects.PruneRemovesTheExited` | apps/server-go/internal/tracker/tracker.go:617-630 | The prune of dead rows removes exactly the exited ones that are not running |
| `UpkeepEffects.BuildAtRow` | apps/server-go/internal/server/server.go:707-717 | What a build makes of one row, with its limits of one, three and thirty minutes |
| `UpkeepEffects.DismissalRemovesOne` | apps/server-go/internal/tracker/tracker.go:543-567 | A dismissal removes one row of the agent that has each identifier given, with its flag and counter, and nothing exactly when there is none |
| `ScanOwnership.OnlyLiveProcessesShareAPane` | apps/server-go/internal/tracker/tracker.go:902-930 | After the whole scan every alive same-agent row on a scanned pane, other than the row kept for it, has a nonzero live pid different from the scanned one |
| `ScanOwnership.PaneStaysOwnedIff` | apps/server-go/internal/tracker/tracker.go:707-861 | The row a pane got still owns it at the end of the scan if and only if no later pane of the agent keeps that row or carries its pid; the lemmas of PaneCoverage say when that is so from the state before |
| `PaneCoverage.EveryPaneOwned` | apps/server-go/internal/tracker/tracker.go:707-861 | Every scanned pane that is not end-suppressed ends with the row it got, an alive one of its agent, provided thread ids are distinct, the session keeps its map, and on the rows before the scan no claimable thread row carries the pid of a pane behind its own or is a pid-less one that a pane in front may fall back on: a pane may when neither its own thread, its process nor a row on it is sure to be claimed instead, the thread's pane is sure of nothing else either, and the thread's pool holds no more rows than panes in front of it that may take one; the pool is the thread's row and the agent's pid-less rows on no pane in front, and a pane sure of a row outside the pool takes none of it |
| `PaneCoverage.LostIsTaken` | apps/server-go/internal/tracker/tracker.go:707-861 | A pane that got a row and lost it lost it to a later pane: either its thread's row carried that pane's pid from the start, or it fell back on the pid-less row of that pane's thread and that pane, with nothing to claim, minted over it |
| `ScanOwnership.DetachedIff` | apps/server-go/internal/tracker/tracker.go:227-233 | Step 1 drops the session map if and only if the session has rows and each was minted for a pane that is gone, is on its last grace scan, and has no pane of its agent without an alive row on it, whatever the map order excuses |
| `ScanOwnership.DetachedScanIsEmpty` | apps/server-go/internal/tracker/tracker.go:656-714 | Every scan before which that holds ends without a row, whatever panes it sees |
| `PaneCoverage.AllKeepIff` | apps/server-go/internal/tracker/tracker.go:707-861 | In a scan that suppresses nothing and whose processes live, and in which each pane is sure of its own row, or its agent has at most one pid-less row, or each of its panes that may take a pid-less row does, or no pane may fall back on a later pane's row, all panes end with the row they got, in whatever order, if and only if no row that step 1 leaves is crossed in either way |
| `PaneCoverage.AllKeepBeforehandIff` | apps/server-go/internal/tracker/tracker.go:707-861 | The same decided by the rows before the scan, while no row is on its last grace scan |
| `PaneCoverage.CrossedPidLosesIff` | apps/server-go/internal/tracker/tracker.go:715-789 | In every scan in which a claimable thread row carries a later pane's live pid, the thread's pane gets the row, and loses it exactly when the later pane gets one, which it does unless suppressed |
| `PaneCoverage.FallbackLosesIff` | apps/server-go/internal/tracker/tracker.go:751-850 | A pane that got the row of a later pane's thread loses it if and only if that pane gets the row as well |
| `PaneCoverage.FrontPaneTakesIff` | apps/server-go/internal/tracker/tracker.go:743-850 | If the row of a pane's thread is its agent's only pid-less row, a pane in front gets it if and only if it is the agent's first that is not sure of its own and none before it retires the row; it then loses it if and only if the thread's pane is not sure of another |
| `PaneCoverage.FrontPaneFallsBack` | apps/server-go/internal/tracker/tracker.go:743-850 | The same from the rows before the scan, suppressed panes included: the first pane not sure of its own falls back on the row, and loses it to the thread's pane when that is not suppressed and its process has no row |
| `FallbackPool.PoolSuffices` | apps/server-go/internal/tracker/tracker.go:743-764 | With more rows in its pool than panes in front of it that may take one, a pane finds a row to claim whatever rows the map order gives the others, unless the row of its thread was retired from a pane in front |
| `FallbackPool.PoolIsEmpty` | apps/server-go/internal/tracker/tracker.go:743-764 | Where none of the agent's pid-less rows is on a scanned pane of it and each of its panes is sure of a row with a pid or has none, a pane finds no pid-less row left if its pool holds no more rows than panes in front of it that may take one |
| `EveryOrder.EveryOrderKeepsIff` | apps/server-go/internal/tracker/tracker.go:707-861 | In a scan that suppresses nothing and whose processes live, where pid-less rows on scanned panes are alive, all panes end with the row they got in every map order of step 2 if and only if no row that step 1 leaves is crossed in either way |
| `EveryOrder.AllOrdersKeepIff` | apps/server-go/internal/tracker/tracker.go:654-879 | The same decided by the rows before the scan for every map order of both steps, while no row is on its last grace scan |
| `WorstOrder.SomeOrderLoses` | apps/server-go/internal/tracker/tracker.go:715-850 | Where a pane may fall back on a later pane's row some map order of the same scan lets a pane take that row and the thread's pane mint over it |
| `Reordering.Rechoose` | apps/server-go/internal/tracker/tracker.go:721-764 | Whatever happened before its turn, a pane may as well claim any row the rules allow, and the scan goes on to its end |
| `BoundRows.NoStraysInRuns` | apps/server-go/internal/tracker/tracker.go:262-269 | In every run whose hooks name neither pane nor liveness, as the watchers' do not, a row on a pane is alive or exited, which is the premise of the two results on every order |
| `OwnRows.FreeRowWaits` | apps/server-go/internal/tracker/tracker.go:709-764 | A row that every pane in front of pane i leaves alone, read off the rows before the first pane's turn, is unchanged and unclaimed at pane i's turn |
| `OwnRows.MatchedExactly` | apps/server-go/internal/tracker/tracker.go:722-764 | Where the map order cannot matter and every pane in front kept a row, a pane finds a row of its thread or process only if it was sure of one beforehand |
| `ScanOwnership.PaneStepHasShape` | apps/server-go/internal/tracker/tracker.go:709-861 | Whichever branch a pane takes, its row is bound, the other rows of its pid go, and no other row changes except that it may lose this pane |
| `OrderIndependence.ClaimIsForced` | apps/server-go/internal/tracker/tracker.go:722-764 | The claim is the thread row, else the unique row with the pid, else a pid-less row; two possible claims differ only among pid-less rows that agree on being bound to the pane |
| `OrderIndependence.OneClaimIff` | apps/server-go/internal/tracker/tracker.go:722-764 | At most one row may be claimed if and only if the pane's thread or process has a claimable row, or exactly one pid-less row is on the pane, or none is and there is at most one pid-less row |
| `OrderIndependence.PaneStepForcedIff` | apps/server-go/internal/tracker/tracker.go:709-861 | The step of a pane has one outcome for every map order if and only if that holds |
| `OrderIndependence.EventForcedIff` | apps/server-go/internal/tracker/tracker.go:241-374 | An event has one outcome for every map order if and only if it is an end, its process has another row, or at most one synthetic row may graduate |
| `LostPanes.CrossedRowLosesAPane` | apps/server-go/internal/tracker/tracker.go:796-850 | A concrete scan in which an unsuppressed pane ends without a row: its pid-less claim is restamped by the pane of that row's own thread |
| `LostPanes.DetachedScanLosesItsPanes` | apps/server-go/internal/tracker/tracker.go:656-714 | A concrete scan in which step 1 deletes the last row and the pane stamped afterwards is lost with the detached map |
| `ScanDeterminism.ExcusedIsForcedIff` | apps/server-go/internal/tracker/tracker.go:663-689 | Which missing rows step 1 excuses is independent of the map order if and only if each agent has no scanned pane without an alive row on it, or at least as many as rows whose pane is gone |
| `ScanDeterminism.ScanIsDeterministic` | apps/server-go/internal/tracker/tracker.go:654-879 | A whole scan ends in one session, with the same row kept for each pane, for every map order of all its loops, when that holds and for each pane its thread, its process or its only bound row is sure to decide the claim, or its agent has at most one pid-less row |
| `SafeScans.TwoPidlessRowsAreDecided` | apps/server-go/internal/tracker/tracker.go:722-757 | A concrete session and scan with two pid-less rows of one agent that meet those premises and the ones of EveryPaneOwned, one pane by thread and one by its bound row |
| `SafeScans.SpareRowKeepsEveryPane` | apps/server-go/internal/tracker/tracker.go:743-757 | A concrete session and scan that meet the premises of EveryPaneOwned though no order decides the second pane's claim: the first pane takes the row on it, by fallback or by thread, and leaves two rows for two panes |
| `ClaimIntegrity.RenamedByAnotherThread` | apps/server-go/internal/tracker/tracker.go:751-782 | A concrete step in which the pid-less row of one thread takes the name of another, none of its own candidates deciding the claim |
| `ClaimIntegrity.BindingStaysIff` | apps/server-go/internal/tracker/tracker.go:743-757 | A pid-less row of another thread that is on another pane stays there for every map order if and only if the scanned pane's thread, process or own pid-less row decides the claim |
| `ClaimIntegrity.TakenFromAnotherPane` | apps/server-go/internal/tracker/tracker.go:743-757 | A concrete step in which a new pane takes the row that is on a pane the same scan sees next |
| `MissGrace.StepOneRetiresExactlyDue` | apps/server-go/internal/tracker/tracker.go:679-705 | Step 1 deletes exactly the due synthetic rows, and changes exactly the other due rows |
| `MissGrace.CounterIsEarned` | apps/server-go/internal/tracker/tracker.go:690-695 | In every run a counter never exceeds the number of scans that missed the row since it was absent, excused, claimed or minted |
| `MissGrace.RetiredOnlyAfterGrace` | apps/server-go/internal/tracker/tracker.go:679-705 | In every run step 1 retires a row only when it was really missed at least threshold times since then |
| `PrunePipeline.BuildKeepsExactlySurvivors` | apps/server-go/internal/server/server.go:712-717 | A build keeps a row if and only if it is not running and not exited, or running and recent, alive below the 30 minute ceiling, or confirmed or ended by the probe; kept rows have their reconciled value |
| `PrunePipeline.BuildLeavesNoDeadRow` | apps/server-go/internal/tracker/tracker.go:569-630 | After a build an exited row is running, and every running row is at most 180 s old, or alive and at most 30 min old |
| `PrunePipeline.ConfirmedRowSurvives` | apps/server-go/internal/tracker/tracker.go:590-615 | An alive running row with a pid, stale past 60 s and probed working, survives however old it was with a fresh clock; one probed ended turns done |
| `PrunePipeline.BuildIsIdempotent` | apps/server-go/internal/server/server.go:707-717 | A second build at the same time changes nothing, side tables included |
| `ScanFold.WaitingLeavesOnlyWhenAnswered` | apps/server-go/internal/server/watch.go:96-107 | A waiting row leaves its state if and only if the reading records, at a time strictly after the row's, that the agent is working, done, interrupted or failed, and then is running, done, interrupted or failed; otherwise the session is unchanged; an approval keeps the description and verb of the call |
| `ScanFold.FileEndsWaitIff` | apps/server-go/internal/ccwatch/ccwatch.go:220-281 | A session file ends a wait if and only if its status was recorded strictly after the row went waiting and is busy, updated within thirty minutes, and then the row runs, or idle, and then it is done; with any other file the session is unchanged |
| `ScanFold.FileOverOther` | apps/server-go/internal/ccwatch/ccwatch.go:220-247 | Of a row that is not waiting, or of none, a file with a dialog open since after the row's latest event makes a waiting one at that time, a file in a shell a running one, and any other file nothing |
| `ScanFold.ReadingSets` | apps/server-go/internal/server/watch.go:107-113 | A reading without a dialog to record gives a row that is not waiting the status of its verdict, and leaves the session alone when it has none |
| `ScanFold.DialogRestoresWaiting` | apps/server-go/internal/tracker/tracker.go:107-129 | A reading makes a row wait exactly when it records a dialog opened after the row's latest event; the row takes the dialog's time and keeps its call's description and verb |
| `ScanFold.WaitingDoesNotFlap` | apps/server-go/internal/server/watch.go:96-113 | Over any sequence of readings a waiting row, and its session, are unchanged until one of them answers strictly later |
| `ScanFold.FileReadingIsIdempotent` | apps/server-go/internal/ccwatch/ccwatch.go:220-281 | A reading taken from a session file settles the row: the unchanged file read again at any later time, when a busy one may have turned hung, leaves the row's status |
| `WaitingRuns.WaitingUntilAnswered` | apps/server-go/internal/server/watch.go:96-113 | Over any run that interleaves events and readings of other threads, scans, sweeps, reconciles, prunes, dismissals and focus changes, a waiting row keeps its status, time and call while it exists; a reading of its own thread ends the wait if and only if it records, strictly after the row went waiting, that the agent is working, done, interrupted or failed, and leaves the session alone otherwise |
| `WaitingRuns.KeptInScanIff` | apps/server-go/internal/tracker/tracker.go:733-850 | A scan that suppresses nothing and whose processes live, and that leaves a thread's row, has kept it at every pane's turn if and only if no pane in front of the thread's carries its pid, except one of unknown thread while the row has not exited, which claims it by the pid |
| `WaitingRuns.WaitingThroughScans` | apps/server-go/internal/server/watch.go:96-113 | So over runs of such scans, the row not moved, it is enough that the row is there after each move |
| `WaitingRuns.UnmovedIsKept` | apps/server-go/internal/tracker/tracker.go:784-850 | Of that the half that needs no live process: without a pane of the thread behind another pane with the row's pid the row was kept at every turn |
| `WaitingRuns.PromptLostInOneScan` | apps/server-go/internal/tracker/tracker.go:784-850 | A concrete scan without that proviso: the row is deleted with its pid's new thread and minted idle for the pane that runs the old one, its prompt unanswered |
| `ServerLoops.FoldReading` | apps/server-go/internal/server/watch.go:96-113 | The fold of one reading into the tracker is that reading's step on its session and no other; for a reading of a thread it reports a change exactly when the row's status became another |
| `ServerLoops.PrepareState` | apps/server-go/internal/server/server.go:712-717 | Reconcile, then both prunes, in place, gives every session its specified build |
| `AgentTracker.FindClaim` | apps/server-go/internal/tracker/tracker.go:722-764 | One pass over the rows in any order, leaving early only at the thread row, returns a row the pane may claim, and none exactly when there is none |
| `AgentTracker.FindGraduate` | apps/server-go/internal/tracker/tracker.go:329-350 | One pass in any order finds a synthetic row that may graduate, and none exactly when there is none |
| `AgentTracker.CountSpares` | apps/server-go/internal/tracker/tracker.go:663-677 | The spare panes of each agent are those no alive row is bound to; ScanEffects.SparesAreOpen counts them |
| `AgentTracker.Tracker.ApplyEvent` | apps/server-go/internal/tracker/tracker.go:241-374 | Folding an event in place is the event step on its session, leaves every other session as it was, keeps the tracker valid, and keeps the session's last thirty event times |
| `AgentTracker.Tracker.RetireMissing` | apps/server-go/internal/tracker/tracker.go:679-705 | Step 1 in place gives the specified session for some admissible set of excused rows, loses the session map exactly when no row is left, and reports a change exactly when a row changed |
| `AgentTracker.Tracker.RetireSupersededPidRows` | apps/server-go/internal/tracker/tracker.go:886-900 | Deletes exactly the other rows of the agent that hold the pid, with their side-table entries, and reports exactly whether there were any |
| `AgentTracker.Tracker.RetireDisplacedPaneRows` | apps/server-go/internal/tracker/tracker.go:912-930 | Exits and unbinds exactly the other alive rows on the pane whose pid is another and dead or unknown, and reports exactly whether there were any |
| `AgentTracker.Tracker.BindPane` | apps/server-go/internal/tracker/tracker.go:709-861 | Step 2 for one pane in place: claim, suppression or mint, then both retirements; a change is reported exactly when more than a title changed |
| `AgentTracker.Tracker.BindDetached` | apps/server-go/internal/tracker/tracker.go:709-861 | Step 2 on a map the session no longer has changes no row of any session |
| `AgentTracker.Tracker.ExitSeedGhosts` | apps/server-go/internal/tracker/tracker.go:863-876 | Step 3 exits exactly the unclaimed non-synthetic rows of unset liveness that are terminal, idle or waiting |
| `AgentTracker.Tracker.ApplyPanePresence` | apps/server-go/internal/tracker/tracker.go:654-879 | A whole scan in place, with the local map alias as the program has it, is a scan step on its session and touches no other; it reports a change exactly when step 1 retires a row, some pane's turn changes more than a title, or step 3 exits a row |
| `AgentTracker.Tracker.RunLivenessSweepOnce` | apps/server-go/internal/tracker/tracker.go:632-648 | Every session is swept, and a change is reported exactly when some session changed |
| `AgentTracker.Tracker.ReconcileStaleRunning` | apps/server-go/internal/tracker/tracker.go:590-615 | Every session is reconciled against the probe, and a change is reported exactly when some row's status changed |
| `AgentTracker.Tracker.PruneStuckRunning` | apps/server-go/internal/tracker/tracker.go:569-588 | Exactly the stuck running rows go, with their side-table entries |
| `AgentTracker.Tracker.PruneExited` | apps/server-go/internal/tracker/tracker.go:617-630 | Exactly the exited rows that are not running go, with their side-table entries |
| `AgentTracker.Tracker.Dismiss` | apps/server-go/internal/tracker/tracker.go:543-567 | Removes one row that matches every given identifier, and nothing exactly when none does |
| `AgentTracker.Tracker.MarkAllSeen` | apps/server-go/internal/tracker/tracker.go:517-526 | Clears the session's flags, changes nothing else, and reports whether any was set |
| `AgentTracker.Tracker.HandleFocus` | apps/server-go/internal/tracker/tracker.go:528-533 | The focused session becomes the only active one, its flags go, and nothing else changes |
| `AgentTracker.Tracker.GetEvent` | apps/server-go/internal/tracker/tracker.go:425-456 | Returns the row under the thread's or the pane's key when the agent is known, else a row the scan of the session wants, and none exactly when it wants none |
| `DelegationRuns.PostOutcome` | apps/server-go/internal/server/delegationmessage.go:63-121 | For every input of a post: a note or an ask of the delegate with fitting text and no reply is stored as it is under the fresh id and time, unmarked; so is an answer of the orchestrator with fitting text to an existing ask without one; anything else leaves the log with the refusal the program gives, in its order of checks |
| `DelegationRuns.AppendOutcome` | apps/server-go/internal/delegation/messages.go:155-175 | The store accepts a message by its text, its sender and kind, and whether it replies, and says which of these refuses it |
| `DelegationRuns.LostRecordRefuses` | apps/server-go/internal/server/delegationmessage.go:95-121 | A delegation without a record refuses every answer, for what it replies to before the record, and a follow-up to its only ask; with a record both do what a post of the answer and the routing do |
| `DelegationRuns.PostedAskIsOpen` | apps/server-go/internal/delegation/messages.go:128-153 | In every reachable log an ask the delegate posts is then the last of the unanswered asks, which are otherwise as before |
| `DelegationRuns.TakeOutcome` | apps/server-go/internal/server/wait.go:170-199 | A take marks exactly the delegate's unmarked messages with its time, hands out exactly those, and changes nothing else |
| `DelegationRuns.AnswerableMember` | apps/server-go/internal/server/followup.go:167-180 | A follow-up may answer exactly the delivered asks of the delegate that are waited for and that no answer names |
| `DelegationRuns.AnswersAreUniqueAndCausal` | apps/server-go/internal/server/delegationmessage.go:63-121 | In every log reachable by any interleaving of posts, answers, routed follow-ups and takes, each answer replies to a delegate ask earlier in the log and no ask has two answers; ids are unique, entries valid, and delivered delegate messages precede undelivered ones |
| `DelegationRuns.BatchesAreTheDelivered` | apps/server-go/internal/server/wait.go:170-199 | At every moment of every run the batches handed out so far, one after the other, are exactly the delivered delegate messages in log order |
| `DelegationRuns.OrderedDelivery` | apps/server-go/internal/server/wait.go:170-199 | Right after any take the batches together are all delegate messages of the log, in order |
| `DelegationRuns.HandedOutOnce` | apps/server-go/internal/server/wait.go:170-199 | No message id is in two batches, or twice in one |
| `DelegationRuns.EntriesNeverChange` | apps/server-go/internal/delegation/messages.go:28-109 | Between any two moments of a run the log keeps its entries and only appends; an entry changes only by becoming delivered, once |
| `DelegationRuns.DeliveredIsPrefix` | apps/server-go/internal/delegation/messages.go:83-109 | The delivered messages are a prefix of the delegate messages |
| `DelegationRuns.TakeExtendsDelivered` | apps/server-go/internal/server/wait.go:170-199 | A take leaves the delivered messages as they were followed by its batch |
| `DelegationRuns.RoutingAnswersTheOnlyAsk` | apps/server-go/internal/server/followup.go:161-195 | Follow-up routing appends one answer, to that ask, exactly when a single ask is unanswered, delivered and waited for and the text fits; otherwise it changes nothing and says that there is no such ask, more than one, or that the text is empty or too long |
| `DelegationRuns.UnansweredAgrees` | apps/server-go/internal/delegation/messages.go:128-153 | An ask listed as unanswered exists and has no answer, and conversely, so a routed answer cannot be refused for either |
| `DelegationServer.Store.AppendMessage` | apps/server-go/internal/delegation/messages.go:27-56 | Appends the message under the fresh id, unmarked, unless the record is missing or the message invalid; no other log changes |
| `DelegationServer.Store.UndeliveredFromDelegate` | apps/server-go/internal/delegation/messages.go:65-81 | The undelivered delegate messages, in log order |
| `DelegationServer.Store.MarkDelivered` | apps/server-go/internal/delegation/messages.go:83-109 | Marks exactly the named undelivered delegate messages and nothing else |
| `DelegationServer.Store.AnswerFor` | apps/server-go/internal/delegation/messages.go:111-126 | Returns an answer naming the ask, and none exactly when there is none |
| `DelegationServer.Store.ListUnansweredAsks` | apps/server-go/internal/delegation/messages.go:128-153 | The delegate asks no answer names, in log order |
| `DelegationServer.Server.FindAsk` | apps/server-go/internal/server/delegationmessage.go:257-264 | Finds the ask exactly when a delegate ask has that id |
| `DelegationServer.Server.AppendDelegationAnswer` | apps/server-go/internal/server/delegationmessage.go:94-121 | The whole reply and the whole new log of an answer, with its refusals and the lost record |
| `DelegationServer.Server.HandleDelegationMessage` | apps/server-go/internal/server/delegationmessage.go:63-92 | The critical section of a posted message: its reply and its new log, which DelegationRuns.PostOutcome spells out, and no other log changes |
| `DelegationServer.Server.TakeUndeliveredDelegateMessages` | apps/server-go/internal/server/wait.go:170-199 | List, mark by id and read again together hand out exactly the undelivered messages in their delivered form |
| `DelegationServer.Server.AnswerableAsks` | apps/server-go/internal/server/followup.go:167-180 | The unanswered asks that are delivered and that the delegation has a waiter for |
| `DelegationServer.Server.RouteFollowupToAsk` | apps/server-go/internal/server/followup.go:161-195 | The critical section of a follow-up is the specified routing, the lost record included |
| `DelegationServer.Server.RegisterAnswerWaiter` | apps/server-go/internal/server/delegationmessage.go:231-239 | One more waiter for the ask; every count in the map stays positive |
| `DelegationServer.Server.UnregisterAnswerWaiter` | apps/server-go/internal/server/delegationmessage.go:240-248 | One waiter less, the entry going with the last; every count stays positive |
| `DelegationServer.RegistryCountsPolls` | apps/server-go/internal/server/delegationmessage.go:231-255 | After any interleaving of polls the registry holds exactly the asks with outstanding polls, each with registrations minus unregistrations |
| `HeaderSync.CacheIsAlwaysSound` | apps/server-go/internal/theming/header.go:351-393 | After any mix of completed syncs, read failures, empty listings, disables, writes aborted at any command, and windows opening, closing and moving in between, a live window's cached triple is what tmux carries |
| `HeaderSync.PlansNameLiveWindows` | apps/server-go/internal/theming/header.go:143-152 | In every run no planned command names a window that was dead at the listing |
| `HeaderSync.WriteCompletesIff` | apps/server-go/internal/theming/header.go:381-390 | A non-empty write completes exactly when nothing interrupts it and no window it names closed after the listing |
| `HeaderSync.UnbrokenRunsAreExact` | apps/server-go/internal/theming/header.go:168-189 | Without write failures or disables the live windows carrying options are exactly the cached ones |
| `HeaderSync.CompletedSyncIsExactOnHosts` | apps/server-go/internal/theming/header.go:383-392 | From every sound state, and so whatever failed before, a completed sync leaves every live window hosting an agent with exactly the name, glyph and colour of its row to be shown |
| `HeaderSync.CompletedSyncCleansIff` | apps/server-go/internal/theming/header.go:383-392 | A completed sync leaves no option on a window without an agent if and only if every live window that carried options was cached or hosts an agent |
| `HeaderSync.AbortedCleanupIsForgotten` | apps/server-go/internal/theming/header.go:383-388 | A concrete aborted cleanup that the next completed sync does not repair |
| `HeaderSync.UnchangedWorldIsQuiet` | apps/server-go/internal/theming/header.go:156-160 | A sync of an unchanged world after a completed one issues no command |
| `HeaderSync.Syncer.Sync` | apps/server-go/internal/theming/header.go:351-393 | One broadcast takes exactly the step its inputs and the outside call for, and leaves cache and tmux accordingly |
| `HeaderColours.DominantIsShown` | apps/server-go/internal/theming/header.go:222-240 | Of the alive rows of the leading name the first failed one is picked, else the first running one, else the first waiting one, else the first |
| `HeaderColours.WindowShows` | apps/server-go/internal/theming/header.go:213-318 | A window hosting alive agents shows claude-code, else codex, else amp, else the first, under that name's glyph or the generic one, blue for a running picked row, yellow for a waiting one, red for a failed one and green for any other, and default for transparent |
| `HeaderColours.WantedShows` | apps/server-go/internal/theming/header.go:197-249 | Exactly the windows with an alive row on a listed pane want a triple, each the one just said; one with a single row shows its agent in the colour of its status |
| `HeaderPlan.PickAgentForWindow` | apps/server-go/internal/theming/header.go:86-100 | Returns the first priority name present, else the first name, else generic |
| `HeaderPlan.PickDominant` | apps/server-go/internal/theming/header.go:227-240 | Returns the first agent of the dominant name with the highest severity |
| `HeaderPlan.ComputeWindowStates` | apps/server-go/internal/theming/header.go:194-249 | The windows in first-seen order, and for exactly the windows hosting an alive agent in a listed pane the triple of their agents |
| `HeaderPlan.PlanHeaderSync` | apps/server-go/internal/theming/header.go:133-192 | The wanted states are right and the commands hold for each window exactly the three it needs or none: first the set commands in first-seen order, then the unset commands of the stale windows in ascending order; a disabled plan is empty |
| `StringOrder.LeqIsLexicographic` | apps/server-go/internal/theming/header.go:182-189 | The ascending order of the stale windows: behind the common beginning one name has nothing or the smaller character |
| `HeaderPlan.WantedIsUnique` | apps/server-go/internal/theming/header.go:194-249 | Sessions and panes decide the wanted states |
| `HeaderPlan.PlanEmptyIff` | apps/server-go/internal/theming/header.go:154-189 | A plan is empty exactly when every wanted window is cached as wanted and every other cached window is dead |
| `TmuxOptions.ExecPerWindow` | apps/server-go/internal/theming/header.go:417-430 | A completed chain changes each window by exactly the commands naming it, however the windows are mixed |
| `ShellQuoting.BuildSpawnAgentCommand` | apps/server-go/internal/tmux/spawnagent.go:195-216 | Read by a shell the command is sh, -c and a wrapper; read by the inner shell up to its first separator the wrapper is exactly the agent, "--" and the prompt, or the override and the prompt |
| `ShellQuoting.NestedQuotingIsUndone` | apps/server-go/internal/tmux/spawnagent.go:195-204 | The same for every argv, whatever characters it holds, empty arguments included |
| `ShellQuoting.QuotedIsRead` | apps/server-go/internal/tmux/spawnagent.go:214-216 | A quoted argument is read back as itself, and what follows it is read next |
| `ShellQuoting.JoinedIsRead` | apps/server-go/internal/tmux/spawnagent.go:201-202 | Joined arguments are read back one by one, so the separator behind them is the first the shell sees |
| `ShellQuoting.CommandDeterminesArgv` | apps/server-go/internal/tmux/spawnagent.go:195-204 | Different argument lists never give the same command |
| `WebSocketFrames.FrameRoundTrip` | apps/server-go/internal/ws/ws.go:167-257 | A written frame, masked or not, is read back whole and leaves the reader at the next one if its payload is at most 1 MiB, and is refused as too large otherwise |
| `WebSocketFrames.FrameBytes` | apps/server-go/internal/ws/ws.go:238-257 | Byte for byte: the final bit and the opcode, the mask bit and the length in seven bits, in two more bytes or in eight with the high ones first, then key and data |
| `WebSocketFrames.CutFrameIsTruncated` | apps/server-go/internal/ws/ws.go:167-207 | A stream that ends inside a frame of up to 1 MiB is a closed one before the second byte and a truncated one after it |
| `WebSocketFrames.MaskedBit` | apps/server-go/internal/ws/ws.go:208-212 | A bit of a masked byte is set exactly when the data's and the key's differ; without a key the data stays |
| `WebSocketFrames.MaskingIsUndone` | apps/server-go/internal/ws/ws.go:208-212 | Masking twice with one key gives the data back |
| `WebSocketFrames.UnmaskInPlace` | apps/server-go/internal/ws/ws.go:208-212 | The in-place loop masks the whole array |
| `WebSocketFrames.LengthIsRead` | apps/server-go/internal/ws/ws.go:180-193 | The length bits and the extended length a payload gets are read back as its length, for all three forms |
| `WebSocketConn.HandledByOpcode` | apps/server-go/internal/ws/ws.go:105-148 | What the reader does with each opcode: it answers a ping (9) with a pong (10) of the same data and a close (8) with a close, begins a message at 1 and 2, goes on at 0 up to 1 MiB, ends it at the final bit, and refuses the rest |
| `WebSocketConn.Conn.ReadFrame` | apps/server-go/internal/ws/ws.go:167-214 | Returns what the parse of the unread bytes says, frame or error, and leaves exactly the bytes behind it |
| `WebSocketConn.Conn.WriteFrameBytes` | apps/server-go/internal/ws/ws.go:238-257 | Header and payload are the encoding of one final unmasked frame; a stalled write leaves its first bytes |
| `WebSocketConn.Conn.WriteFrame` | apps/server-go/internal/ws/ws.go:220-236 | A failed write closes the connection, and later writes fail at once |
| `WebSocketConn.Conn.ReadText` | apps/server-go/internal/ws/ws.go:105-148 | The reassembly loop returns what the frame-by-frame reading of the input says and leaves the connection accordingly |
| `WebSocketConn.FragmentsAreReadWhole` | apps/server-go/internal/ws/ws.go:105-148 | Any fragmentation of a message with pings and pongs between its frames is returned whole, with one pong of identical payload per ping in order and the reader at the next message, exactly when the message and every frame are at most 1 MiB; otherwise the read fails as too large |
| `WebSocketConn.OnlyWholeMessagesAreReturned` | apps/server-go/internal/ws/ws.go:105-148 | Conversely, whatever bytes the peer sends, a returned text is the whole of one message: the bytes read are a data frame, its continuations up to the final one and pings and pongs in between, all within the limits, and exactly the pongs were sent |
| `ThinkingCursor.LineCounts` | apps/server-go/internal/ccwatch/thinking.go:86-105 | A line counts its thinking and redacted_thinking items when it contains thinking", decodes, and is the assistant's and no sidechain; any other line counts nothing |
| `ThinkingCursor.CallOutcome` | apps/server-go/internal/ccwatch/thinking.go:42-75 | One call leaves the cursor at a missing file, an unchanged one or a failing read, jumps to the end of a shrunk file or over more than 8 MiB, and else stops just past the last newline of the bytes it gets and counts the lines up to there |
| `ThinkingCursor.CallsCountOnce` | apps/server-go/internal/ccwatch/thinking.go:42-75 | However writes split the lines and however many calls there are, their counts add up to one pass over the bytes from the start to the cursor, which stands at the start or just past a newline |
| `ThinkingCursor.CursorNeverGoesBack` | apps/server-go/internal/ccwatch/thinking.go:55-74 | Between two moments of a growing transcript the cursor never goes back |
| `ThinkingCursor.FullReadCatchesUp` | apps/server-go/internal/ccwatch/thinking.go:68-74 | A full read leaves no complete line behind |
| `ThinkingCursor.BlocksAddUp` | apps/server-go/internal/ccwatch/thinking.go:86-105 | A text that ends in a newline adds up with whatever follows it |
| `ThinkingCursor.CountThinkingBlocks` | apps/server-go/internal/ccwatch/thinking.go:88-105 | The line loop counts the blocks of every line |
| `ThinkingCursor.Cursor.TrackTranscript` | apps/server-go/internal/ccwatch/thinking.go:30-38 | Only the first accepted path is kept, with the offset at the file's current end |
| `ThinkingCursor.Cursor.NewThinkingBlocks` | apps/server-go/internal/ccwatch/thinking.go:42-75 | Advances the offset past exactly the complete lines read and returns their count; skips a shrunk file or a gap over 8 MiB |
| `SidebarWindow.CardShowsMost` | apps/tui/src/index.tsx:366-392 | A card has three rows, one for a branch, its shown agents, and one if some are hidden; it shows as many as fit beside two scroll indicators and that row, and at least one |
| `SidebarWindow.Grow` | apps/tui/src/index.tsx:398-414 | The greedy loop, turn by turn the card below and then the card above, ends with a window that holds the anchor, cannot take either neighbour, and fits the budget exactly when the anchor's card alone does |
| `SidebarWindow.SessionWindow` | apps/tui/src/index.tsx:381-416 | Above, shown and below add up to the sessions; all cards when they fit, else the window grown around the focused one, or around the nearer end for a focus outside the list |
| `SidebarWindow.FocusStaysCentred` | apps/tui/src/index.tsx:397-414 | Among cards of one height the window has as many below the focused card as above it, or one more, unless it reaches an end of the list |
| `SidebarWindow.WindowFits` | apps/tui/src/index.tsx:366-416 | With the agent-count cap the window fits every pane of at least eight rows |
| `SidebarWindow.SevenRowsAreTooFew` | apps/tui/src/index.tsx:366-375 | Eight is exact: in every smaller pane three cards give a window that does not fit |
| `ProcWalk.AncestorsAreLinked` | apps/server-go/internal/procwalk/procwalk.go:91-107 | The ancestors the walks speak of are the chain of parents the snapshot names, which ends at a process that is missing, its own parent, or under init or the kernel |
| `ProcWalk.ResolveSessionByPid` | apps/server-go/internal/procwalk/procwalk.go:82-108 | Terminates on any snapshot and returns the session of the nearest self-or-ancestor that is a pane pid, and the empty name exactly when the chain ends or repeats before one |
| `ProcWalk.ResolveAgentSessionPid` | apps/server-go/internal/procwalk/procwalk.go:55-80 | Returns the nearest self-or-ancestor whose command matches, and the reported pid when the chain ends or repeats before one |
| `ProcWalk.CycleRepeats` | apps/server-go/internal/procwalk/procwalk.go:91-107 | Behind a repetition the chain shows only processes already seen, so stopping there misses nothing |
| `SessionOrder.OrderListsTheLive` | apps/server-go/internal/sessionorder/sessionorder.go:54-135 | From a duplicate-free persisted order and after any operations, at every moment since the last sync the order is a permutation of the names that sync gave and only listed names are hidden |
| `SessionOrder.SyncAppends` | apps/server-go/internal/sessionorder/sessionorder.go:54-72 | A sync lists the live names of the order first and then the new names as they come |
| `SessionOrder.KeepInSequence` | apps/server-go/internal/sessionorder/sessionorder.go:54-91 | Names that a sync or a filter keeps stay in the sequence they had |
| `SessionOrder.AppliedIsOrder` | apps/server-go/internal/sessionorder/sessionorder.go:74-91 | After a sync the stable rank sort of the live names is the order with the hidden names left out |
| `SessionOrder.SortSorts` | apps/server-go/internal/sessionorder/sessionorder.go:87-89 | The sort only moves names, into rank order |
| `SessionOrder.SortIsStable` | apps/server-go/internal/sessionorder/sessionorder.go:76-89 | Names unknown to the order keep the sequence they came in |
| `SessionOrder.DuplicatesSurviveIff` | apps/server-go/internal/sessionorder/sessionorder.go:56-72 | A sync leaves the order duplicate-free exactly when its live part was |
| `SessionOrder.StepKeepsListed` | apps/server-go/internal/sessionorder/sessionorder.go:93-135 | Reorder, hide, show and show-all keep the order a permutation and hidden names listed |
| `SessionOrder.Order.Sync` | apps/server-go/internal/sessionorder/sessionorder.go:54-72 | Drops stale names and hidden marks, and appends new names in place |
| `SessionOrder.Order.Apply` | apps/server-go/internal/sessionorder/sessionorder.go:74-91 | Filters the hidden names and sorts by rank |
| `SessionOrder.Order.Reorder` | apps/server-go/internal/sessionorder/sessionorder.go:93-105 | Swaps the first position of the name with the one delta places down, up for a negative delta, or does nothing when there is no such place or no such name |
| `SessionOrder.Order.Hide` | apps/server-go/internal/sessionorder/sessionorder.go:107-114 | Hides a listed name and no other |
| `SessionOrder.Order.Show` | apps/server-go/internal/sessionorder/sessionorder.go:116-126 | Unhides a hidden name, listing it if it was not listed |

## Left out

- Keys are structured values instead of concatenated strings, and the side tables are held per session: an agent name or thread id that contains the separators is outside the model.
- One call of the tracker reads the clock once and asks about pids against one set of live pids; the probe of a reconcile and the liveness probe are arbitrary functions.
- GetState, GetAgents and SetActiveSessions: they only read, sort or replace one field.
- AgentTracker.Tracker.ApplyPanePresence: a reported change need not be visible afterwards, because a scan may move a row and move it back; the report is exact about what each part of the scan changed.
- ScanDeterminism.ScanIsDeterministic: gives a sufficient condition for the whole scan, because an order that matters in one step may be undone by a later one; the condition of each step is exact.
- PaneCoverage.AllKeepIff: speaks of each order alone, so it leaves out the scans in which one order may lose a pane and another keep all; EveryOrder.EveryOrderKeepsIff is exact about all orders together there too.
- EveryOrder.EveryOrderKeepsIff: leaves out a pid-less row that carries a scanned pane's id without being alive, which no run with the watchers' hooks has (BoundRows.NoStraysInRuns); EveryPaneOwned covers such rows one way.
- ScanOwnership.PaneStaysOwnedIff: reads its condition off the rows the later panes keep; LostIsTaken, AllKeepIff and FrontPaneTakesIff read it off the rows before the first pane's turn.
- WaitingRuns.WaitingUntilAnswered: takes a row to exist when it is there at every pane's turn of a scan too; KeptInScanIff says exactly when a scan that leaves the row has kept it there.
- ServerLoops.FoldReading: takes readings of a named agent only, because every pane presence names its agent.
- AgentTracker.Tracker.BindDetached: says nothing about the rows of the detached map, which nothing reads after the scan.
- The Codex adapter's verdicts, hook handling and the asynchronous thread names of the watcher: they depend on a library that is not part of this model; a session file is the fields the watcher reads.
- HTTP, JSON, file writes and renames, tmux and ps execution, timers, locks: a store is a sequence per delegation, a critical section is one step, message ids are fresh, a text's length is its byte count.
- The polling loop around a delegation wait: each of its takes is a step of the run.
- Store errors other than a missing record.
- The parsing of tmux's pane listing, and a chain whose windows close between two of its commands; windows may close between the listing and the chain.
- Tmux window ids are taken to be never reused, as tmux promises.
- Shell text that uses expansions, comments or operators other than the separator is refused by the tokeniser, not read; the part of the wrapper behind its first separator is carried as text.
- The choice of a spawned window's name and the validation of spawn requests: case tables over file-system and tmux answers.
- The WebSocket handshake; reading errors other than the end of the stream, and whether bytes already buffered can be read after a close; a write deadline is a bound on how many bytes the peer still takes; bit operations on bytes are written as arithmetic.
- The JSON decoding of a transcript line is an arbitrary function; what the path library says of a hook's path is given with it.
- Parsing a process listing, and the pattern that recognises an agent's command, which is an arbitrary predicate.
- Persisting the session order: the constructor takes any persisted order and hidden set.
- Themes, glyph tables, rendering, sidebar width, waterfall and explain: interface code and case tables.
