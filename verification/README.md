# PinchTab: verified models of the stateful core

PinchTab controls a browser on behalf of agents. Most of its code passes requests on to Chrome; the
parts modelled here are the in-memory components that have to be right by themselves: rule tables
changed under concurrent requests, a hand-off protocol between goroutines, bounded caches, log readers
that remember offsets, expiring sessions. Chrome's answers, the clock, the disk, random numbers and the
interleaving of goroutines are inputs of the model, so every statement holds for all of them.

Methods that update state in the source are methods of a class here, each proved equal to a
specification function (or to a predicate over the old state); lemmas then state what the source
promises about those functions, over whole runs where the promise is about runs.
`dafny verify dfyconfig.toml` checks everything.

| file | models |
|---|---|
| `go_text.dfy`, `go_slices.dfy` | text operations, bytes and slices shared by the others |
| `glob.dfy` | the glob compiler: emitted regular-expression text, its parsing and its language |
| `route_rules.dfy` | validation of one interception rule and its test on a request |
| `route_table.dfy` | rule lists as an ordered map; the critical sections that change the table |
| `route_manager.dfy` | `RouteManager`, one operation at a time |
| `route_concurrent.dfy` | any interleaving of those critical sections |
| `popup.dfy` | the hand-off of a new popup between a click and the browser guard |
| `activity_query.dfy` | `Store.Query` |
| `activity_order.dfy` | what a limited query keeps, given the names, days and sources of the files |
| `activity_tail.dfy` | `TailReader.Read`, and reads that no limit cuts short |
| `activity_tail_loss.dfy` | all other reads, and reads over several days' files |
| `activity_store.dfy` | `Store.Record`, and reads of what it wrote |
| `activity_files.dfy` | source names, file names, the calendar, retention |
| `sessions.dfy` | the dashboard's session manager and its file |
| `limiter.dfy` | the login limiter and its use in `HandleLogin` |
| `dashboard.dfy` | the live event cache |
| `tabs.dfy` | the tab manager's maps, limit and eviction, one operation at a time |
| `tabs_concurrent.dfy` | overlapping calls that open tabs |
| `autoclose.dfy` | idle-close timers with late callbacks |
| `truncate.dfy` | byte-bounded truncation of UTF-8 (sections 3 and 4 of RFC 3629) |
| `merge.dfy` | recursive configuration merge |
| `autosolver_backoff.dfy`, `autosolver_flow.dfy`, `autosolver.dfy` | delays, semantic flow and retry chain of the autosolver |
| `plugin_cache.dfy` | the plugin's bounded session cache |

## Where the code does less than one might expect

Each of these is proved, by the exact condition under which the expectation holds, by a case in which it fails, or both.

- A wildcard never stands for a newline, so a compiled pattern means the glob exactly on newline-free URLs (`Glob.CompilationPreservesMeaning`).
- A failed `AddRule` overwrites its tab's rules with those it had found. It discards exactly the rules the tab has gained since and brings back exactly those it has lost (`RouteConcurrency.RollbackDiscardsExactly`), other callers' included (`RollbackDiscardsOthers`). If no other AddRule section ran on the tab meanwhile it discards nobody else's rule, and if no removal did either it brings none back (`LoneAddRuleHarmsNobody`).
- A popup is lost by exactly two steps: the clear in `finish` when a second popup has arrived, and a clear whose slot was replaced by an overlapping click (`PopupHandOff.LossIsExactly`, `OverlapLosesAPopup`, `SecondPopupIsLost`).
- A tail read that stops at its limit leaves out exactly the wanted events that begin between the last line it scanned and the place up to which the scanner had read ahead, wherever earlier reads had left the cursor (`ActivityTailLoss.ReadReturnsAndSkips`, `LimitDecidesLoss`); over any run the reads return ascending slices of the log, no event twice, and miss exactly the wanted events in the gaps (`ReadsReturnAscendingSlices`). What is appended to a day's log after its last read is never read (`EachDayLosesItsTail`, `DaysLoseTheirTails`). The cursor is shared by all readers of a store: after a successful read of another file the next read returns everything again (`ActivityTail.TwoReadersRepeat`).
- An event whose source is not in normal form is logged under the normalised name, but the reader of that name compares the source as it was written: the reads return exactly the recorded events written with the normalised name (`ActivityRecording.RecordedIsRead`).
- From the year 10000 on, comparing days as text goes by the first four digits of the cutoff's year and keeps files that are too old (`ActivityFiles.ExpiredExactly`, `FiveDigitYearsKeepOldFiles`).
- A query visits the logs in the order of their names: the legacy log, although the oldest, last (`ActivityFiles.LegacyLogSortsLast`), and most sources' logs after all primary ones (`PrimaryLogsSortFirst`). A limited query therefore can leave out an event and return one of an earlier day (`QueryOrder.LegacyLogHidesNewerEvent`). It never does exactly if, among the logs that do not just repeat primary ones, the legacy log is alone or absent and none is of a later day than one after it (`ReliableExactly`, `MixedLogsAreReliableExactly`); for the logs of one source this is so (`OneSourceIsReliable`).
- `IsElevated` drops a session without writing the file. It is back after a restart exactly if no operation has written the file since and it is still valid in time; no other refusal or revocation is ever undone by a restart (`Sessions.RefusalAndRestart`, `RestartGives`).
- The advertised login wait suffices exactly if it outlasts the failure that is `maxAttempts` from the end (`LoginLimiter.AdvertisedWaitDecided`); requests that overlap exceed the maximum, by less than are admitted at once, however late they read the clock (`OverlapIsBounded`), and can make it too short (`OverlapMakesWaitTooShort`).
- Two callers that add the first rules of a tab at once can leave it with rules and live interception while `fetchEnabled` is off (`RouteConcurrency.FlagCanBeLost`). The flag is lost by exactly one kind of step (`FlagIsLostExactly`); without it every tab with rules is on record as enabled once no operation is under way (`QuiescentTabsAreEnabled`).
- Overlapping calls exceed the tab limit by less than the calls in flight, plus one for every tab entered without regard to the limit and for every time two calls in flight choose the same tab to evict (`TabConcurrency.OverlapIsBounded`); the calls in flight alone can reach that bound (`CallsInFlightReachTheBound`). The shared choices add up: two calls at a time take the tabs past every number (`SharedVictimsAddUp`).
- A cancel that comes after the callback has committed, and before it closes the tab, does not save the tab (`AutoClose.CancelComesTooLateExactly`).
- Timer generations start again when a tab ID is registered again, so a late callback of the old tab closes the new one exactly if the generations agree (`AutoClose.CommitsAcrossLifetimes`), which every such callback can live to see (`LateCallbackOutlivesItsTab`).
- Merging is not associative where the last patch makes an object again what the middle one had replaced (`DeepMerging.AssociativeUnlessResurrecting`, `AssociativityCanFail`).
- The back-off delay overflows 64 bits at the 37th attempt with the default settings and is then negative (`RetryBackoff.DefaultDelayOverflows`). `docs/architecture/autosolver.md` says that each attempt detects the intent again; the code detects it once, before the first attempt, and the model follows the code.
- An entry of the plugin's cache does not survive its own `rememberRuntimeContext` if the clock jumps by more than an hour between the two readings (`PluginSessions.AgentSessions.RememberRuntimeContext`).

## Model

| member | source | states |
|---|---|---|
| Glob.GlobToRegexText | internal/bridge/route.go:714-732 | the loop emits the specified text for every pattern |
| Glob.EmittedTextParses | internal/bridge/route.go:714-732 | whatever metacharacters a pattern holds, the emitted text parses as an anchored expression with one node per pattern character |
| Glob.LanguageIsLineMatch | internal/bridge/route.go:714-732 | the compiled expression's language over all texts is wildcard matching in which wildcards refuse newlines |
| Glob.CompilationPreservesMeaning | internal/bridge/route.go:691-732 | compilation agrees with direct wildcard matching for all patterns on a URL iff the URL has no newline |
| Glob.RuleMeaning | internal/bridge/route.go:675-712 | a stored rule's URL test on any URL is newline-refusing wildcard matching, or substring search, and plain wildcard matching without newlines; the uncompiled fallback decides the same |
| Glob.SubstringIsWrappedGlob | internal/bridge/route.go:675-712 | a pattern without wildcards matches as a substring iff the pattern wrapped in stars matches |
| RouteRules.CheckValidates | internal/bridge/route.go:255-308 | acceptance yields a validated rule for the same pattern; the validated rules are exactly those the checks leave unchanged |
| RouteRules.CheckMeaning | internal/bridge/route.go:255-308 | a rule is refused for its first unfit field, in the code's order, and stored otherwise: the method in upper case, 200 and JSON as defaults of a fulfil rule, everything else as given |
| RouteRules.AppliesMeaning | internal/bridge/route.go:589-613 | a stored rule applies iff its resource type, method and pattern fit, and a fulfil rule answers OPTIONS only if it names OPTIONS; against ASCII requests types are compared in lower case and methods in upper case |
| RouteTable.UpsertRefinesPut | internal/bridge/route.go:322-340 | inserting refines an insertion-ordered map: replacing keeps the position, new patterns go last, nothing else changes |
| RouteTable.WithoutRefinesDelete | internal/bridge/route.go:420-429 | removing by pattern refines deletion from the ordered map |
| RouteTable.RowsAreTheRules | internal/bridge/route.go:199-208 | in a list with distinct patterns the map holds exactly the list's rules under their patterns |
| RouteTable.UpsertGood | internal/bridge/route.go:322-340 | below the cap, inserting a validated rule keeps 1 to 100 validated rules with distinct patterns |
| RouteTable.WithoutGood | internal/bridge/route.go:413-432 | removal leaves such a list or nothing |
| RouteTable.RemovalIsExact | internal/bridge/route.go:402-440 | of the tab's rules, as an ordered map, exactly the pattern's are gone and counted, all for the empty pattern; the tab goes with its last rule; all else stays |
| RouteTable.RollbackUndoes | internal/bridge/route.go:374-397 | a rollback gives back the table before the insertion iff the rest of the table is as it was, the tab is still on record if it was, and has its former listener |
| RouteManagement.RouteManager.InsertSection | internal/bridge/route.go:310-348 | the first locked section of AddRule has exactly the specified effect and ticket |
| RouteManagement.RouteManager.RollbackSection | internal/bridge/route.go:374-397 | rollback restores what the ticket recorded and cancels only a listener it had created |
| RouteManagement.RouteManager.Install | internal/bridge/route.go:310-372 | full, failed or added: the table and the listeners afterwards, case by case; the table stays settled |
| RouteManagement.RouteManager.AddRule | internal/bridge/route.go:255-372 | a refused or failed call leaves the whole table unchanged; which error comes when; what success stores; every tab stays enabled with a listener of its own |
| RouteManagement.RouteManager.Remove | internal/bridge/route.go:402-460 | of the tab's rules, as an ordered map, exactly the pattern's are gone, all for the empty pattern, and their number is returned; the last rule takes the tab and its listener with it; an unknown tab is reported |
| RouteManagement.RouteManager.FilterOut | internal/bridge/route.go:416-429 | the filtering loop deletes the pattern from the ordered map and keeps exactly the other rules |
| RouteManagement.RouteManager.RemoveTab | internal/bridge/route.go:465-481 | forgets one tab, cancels its listener, leaves the others |
| RouteManagement.RouteManager.List | internal/bridge/route.go:484-497 | the tab's rules in order, none for an unknown tab |
| RouteManagement.RouteManager.Match | internal/bridge/route.go:589-613 | returns the first rule in insertion order passing the type, method and URL tests, or none if none passes |
| RouteManagement.InsertSettles | internal/bridge/route.go:310-372 | an accepted rule put in and enabled leaves the table settled |
| RouteConcurrency.StepKeepsInv | internal/bridge/route.go:309-481 | every locked section of every caller keeps the invariant, listener ownership included |
| RouteConcurrency.StepEffects | internal/bridge/route.go:309-481 | what each locked section does to the rules, read as ordered maps: an insertion puts, a removal deletes exactly the pattern, a rollback leaves the rules it had found, nothing else touches rules |
| RouteConcurrency.EveryInterleavingIsSafe | internal/bridge/route.go:309-481 | at every lock release of every interleaving a tab has 1 to 100 validated rules with distinct non-empty patterns and a listener nobody cancelled |
| RouteConcurrency.ListenersAreConserved | internal/bridge/route.go:342-397 | once no operation is under way, every listener ever created is cancelled or installed for exactly one tab, never both |
| RouteConcurrency.RollbackIsExact | internal/bridge/route.go:374-397 | a failed AddRule restores the table it found iff nobody touched the other tabs, removed the tab or replaced its listener meanwhile; what became of the tab's rules does not matter |
| RouteConcurrency.RollbackDiscardsExactly | internal/bridge/route.go:374-397 | a rollback discards exactly the rules its tab gained since the insertion and brings back exactly those it lost, and leaves other tabs' rules alone |
| RouteConcurrency.LoneAddRuleHarmsNobody | internal/bridge/route.go:309-397 | with no other AddRule section on the tab since its insertion, a rollback discards no rule but its own; with no removal either, it brings none back but the one it had replaced |
| RouteConcurrency.RollbackDiscardsOthers | internal/bridge/route.go:374-397 | a reachable run in which a rollback discards a rule another caller had stored successfully |
| RouteConcurrency.FlagIsLostExactly | internal/bridge/route.go:350-397 | which steps lose a tab's `fetchEnabled` while Chrome intercepts for it, and which set it right again |
| RouteConcurrency.QuiescentTabsAreEnabled | internal/bridge/route.go:350-397 | without a losing step, once no operation is under way every tab with rules is on record as enabled |
| RouteConcurrency.FlagCanBeLost | internal/bridge/route.go:350-397 | a reachable run that ends with no operation under way and the flag off |
| PopupHandOff.PopupTable.MarkPendingClick | internal/bridge/tab_auto_switch.go:31-43 | registers a fresh empty slot in place of an older one |
| PopupHandOff.PopupTable.ClearPendingClick | internal/bridge/tab_auto_switch.go:48-65 | unregisters and drains only the slot still registered |
| PopupHandOff.PopupTable.ClaimPendingPopup | internal/bridge/tab_auto_switch.go:71-89 | claims iff a click is pending and its slot is empty, delivering the popup |
| PopupHandOff.PopupsAreConserved | internal/bridge/tab_popup_guard.go:35-48 | in every interleaving a popup that arrived is in exactly one place: never both claimed and closed |
| PopupHandOff.DeliveryIsExact | internal/bridge/tab_auto_switch.go:31-353 | step by step: which click's slot an arriving popup goes to or that it is closed, which popup a click receives, adopts or closes, and what happens to one still in a slot that is cleared |
| PopupHandOff.SettledForGood | internal/bridge/tab_auto_switch.go:302-353 | adoption or closing of a popup happens at most once and is final |
| PopupHandOff.LossIsExactly | internal/bridge/tab_auto_switch.go:302-353 | a step loses a popup iff it is one of the two clears with a popup left in the slot; what is lost stays lost |
| PopupHandOff.CarefulRunsLoseNothing | internal/bridge/tab_auto_switch.go:277-353 | without overlapping clicks and with one popup per click, nothing is lost, and when all clicks ended every popup was adopted or closed and no slot holds one |
| PopupHandOff.OverlapLosesAPopup | internal/bridge/tab_auto_switch.go:27-43 | overlapping clicks can lose a popup |
| PopupHandOff.SecondPopupIsLost | internal/bridge/tab_auto_switch.go:328-332 | a second popup for one click can be drained and ignored |
| ActivityQuery.Query | internal/activity/activity.go:267-316 | the single pass equals the specification, and that keeps the promise below |
| ActivityQuery.ScanFile | internal/activity/activity.go:284-314 | the loop over one file keeps the window equal to the specification's |
| ActivityQuery.WindowMoves | internal/activity/activity.go:289-305 | one line moves the bounded window exactly as the specification does |
| ActivityQuery.SpecKeepsPromise | internal/activity/activity.go:267-400 | a query fails as the first file does that cannot be read; otherwise, of the logged events that meet every field that is set, times within both bounds, it returns each once, in log order, all if they fit the limit and those logged last if not |
| QueryOrder.ReliableExactly | internal/activity/activity.go:267-316 | for files holding what Store.Record puts there: no limited query leaves out an event and returns one of an earlier day iff, among the listed logs that repeat no primary one, the legacy log is not in company and none is of a later day than one after it |
| QueryOrder.OneSourceIsReliable | internal/activity/activity.go:416-455 | for the sorted logs of one source this holds |
| QueryOrder.MixedLogsAreReliableExactly | internal/activity/activity.go:416-455 | for sorted primary logs, those of one source and perhaps the legacy log: iff the legacy log is alone or absent and no primary log is of a later day than a log of the source that does not just repeat one |
| QueryOrder.LegacyLogHidesNewerEvent | internal/activity/activity.go:433-453 | a query for one event over a day's log and the legacy log returns the legacy log's older event |
| ActivityQuery.DedupMembers | internal/activity/activity.go:294-298 | deduplication keeps each event once and loses none |
| ActivityTail.Store.Read | internal/activity/activity.go:109-176 | for every reader source, day, files (missing, unreadable or any content), cursor, limit and read-ahead: the result and the new cursor, unchanged on every error |
| ActivityTail.Store.ScanLoop | internal/activity/activity.go:148-163 | the loop over the scanner's lines finds what the recursive scan finds |
| ActivityTail.SpecKeepsPromise | internal/activity/activity.go:109-176 | any read returns events of its source only and no more than its limit, fails if its file cannot be opened and otherwise only for too long a line, and moves the cursor only when it succeeds |
| ActivityTail.SplitEncoded | internal/activity/activity.go:505-515 | the scanner splits a written log into exactly the written lines |
| ActivityTail.ReadsAreExactlyOnce | internal/activity/activity.go:109-176 | over any appends and reads with no read cut short, the reads together return the wanted events of a prefix of the log, once and in order |
| ActivityTail.LastReadCatchesUp | internal/activity/activity.go:109-176 | after one more read nothing is missing |
| ActivityTailLoss.LimitDecidesLoss | internal/activity/activity.go:154-173 | with everything left in one buffer a read, at any cursor earlier reads may have left, misses nothing iff no more wanted events are left than its limit |
| ActivityTailLoss.ReadReturnsAndSkips | internal/activity/activity.go:109-176 | any read, at any cursor within the log, even inside a line, returns the wanted events of a slice that starts with the first line at the cursor or later and ends at its limit, and leaves the cursor behind the slice by the read-ahead |
| ActivityTailLoss.ReadsReturnAscendingSlices | internal/activity/activity.go:109-176 | over any appends and reads, cut short or not, the reads return the wanted events of ascending slices, and what they missed are the wanted events of the gaps |
| ActivityTailLoss.SlicesAreDisjoint | internal/activity/activity.go:109-176 | no event is in two of the slices |
| ActivityTailLoss.EachDayLosesItsTail | internal/activity/activity.go:109-130 | over reads on several days' files, each day loses exactly the wanted events appended after its last read |
| ActivityTailLoss.DaysLoseTheirTails | internal/activity/activity.go:109-130 | the reads of all days return every wanted event iff no day loses one |
| ActivityTail.TwoReadersRepeat | internal/activity/activity.go:122-130 | after any read of another file a caught-up reader gets everything again, unless that read found no file or failed |
| ActivityRecording.Recorder.Record | internal/activity/activity.go:225-266 | which sources are recorded, the primary log and the source's own in this order, pruning before, and what each failure leaves |
| ActivityRecording.PathIsSourceLog | internal/activity/activity.go:404-414 | a reader's file is the log of its normalised source and day, read back from the name, and never a primary log |
| ActivityRecording.RecordedIsRead | internal/activity/activity.go:109-266 | over any records of any sources and any uncut reads of one source on one day, the reads together return exactly the events recorded of that source on that day by the last read, once and in order |
| ActivityRecording.LogsHoldTheirEvents | internal/activity/activity.go:225-266 | over any records the primary log of a day holds exactly the events of no source, the server or the bridge, each source's own log exactly the source's, in order, and the server's and the bridge's events are in both |
| ActivityRecording.EnabledMeaning | internal/activity/activity.go:328-347 | the client is always recorded, the other known sources as configured, the rest together |
| ActivityFiles.NormalizeSource | internal/activity/activity.go:526-547 | the loop computes the specified normal form |
| ActivityFiles.NormalizationIsIdempotent | internal/activity/activity.go:526-547 | results are in normal form, exactly the names in normal form stay unchanged, and normalising twice is normalising once |
| ActivityFiles.NormalizationKeepsWords | internal/activity/activity.go:526-547 | a normalised name is made of the same runs of letters and digits as the source in lower case |
| ActivityFiles.LogDayRoundTrip | internal/activity/activity.go:404-414 | the day of any file the store writes is read back from its name, whatever the source |
| ActivityFiles.CalendarOrder | internal/activity/activity.go:476-496 | Gregorian order of dates is the order of their day numbers |
| ActivityFiles.TextOrderIsCalendarOrder | internal/activity/activity.go:476-496 | comparing days as text is comparing them in the calendar |
| ActivityFiles.TextOrderOfLongYears | internal/activity/activity.go:473-496 | a four-digit year sorts before a longer one iff it is at most its first four digits |
| ActivityFiles.DaysAgoCounts | internal/activity/activity.go:473 | going back n days gives the date n days earlier |
| ActivityFiles.PruneExpired | internal/activity/activity.go:463-503 | removes exactly the expired files, or those before the first that cannot be removed |
| ActivityFiles.ExpiredMeansTooOld | internal/activity/activity.go:463-503 | a file the store wrote expires iff its day precedes the last retentionDays days |
| ActivityFiles.ExpiredExactly | internal/activity/activity.go:463-503 | for every date: expiry is lying before the retained days while those begin by the year 9999, and afterwards a year of at most the cutoff's first four digits |
| ActivityFiles.OtherFilesExpire | internal/activity/activity.go:463-503 | the legacy log expires by the day it was last written, directories and other files never |
| ActivityFiles.FiveDigitYearsKeepOldFiles | internal/activity/activity.go:473-496 | from the year 10000 to 19999 no file of the years 2000 to 9999 expires, whatever the retention |
| ActivityFiles.LegacyLogSortsLast | internal/activity/activity.go:429-454 | sorting puts the legacy log after all others |
| ActivityFiles.PrimaryLogsSortFirst | internal/activity/activity.go:436-454 | every day of the primary log sorts before any day of a source whose name starts with a letter |
| Sessions.Manager.constructor | internal/browsersession/session.go:62-72 | starts with the loaded sessions and rewrites the file |
| Sessions.Manager.LoadRecords | internal/browsersession/session.go:278-329 | the loading loop, record by record |
| Sessions.Manager.Save | internal/browsersession/session.go:331-364 | the file lists exactly the table, each session once, in whatever order the map is visited |
| Sessions.Manager.CreateSession | internal/browsersession/session.go:74-92 | table and file after creating |
| Sessions.Manager.ValidateSession | internal/browsersession/session.go:94-122 | answer, table and file of a validation |
| Sessions.Manager.ElevateSession | internal/browsersession/session.go:124-153 | answer, table and file of an elevation |
| Sessions.Manager.CheckElevated | internal/browsersession/session.go:155-179 | answer and table; the file is never written |
| Sessions.Manager.RevokeSession | internal/browsersession/session.go:181-193 | the session is gone from table and file |
| Sessions.Manager.Reconfigure | internal/browsersession/session.go:216-235 | new settings, pruned table, file rewritten, old file deleted when abandoned |
| Sessions.HexRoundTrip | internal/browsersession/session.go:296-300 | decoding an encoded hash gives it back |
| Sessions.SaveThenLoad | internal/browsersession/session.go:278-364 | loading what was saved gives exactly the sessions still time-valid, times and hash unchanged, elevation only if kept |
| Sessions.LoadExactly | internal/browsersession/session.go:278-329 | whatever the file holds, a session is loaded from the last record that counts for it, and there are no others |
| Sessions.NeverAcceptedAgain | internal/browsersession/session.go:94-193 | within one process an ID once refused or revoked is never accepted again, whatever happens in between |
| Sessions.AcceptanceIsInTime | internal/browsersession/session.go:261-268 | every acceptance, also of sessions loaded at the start, is with the creating token, within idle time of the last touch and lifetime of the creation |
| Sessions.AnswersAreExact | internal/browsersession/session.go:94-179 | every answer decided by the history alone: unknown iff the session does not live, dropped iff it is out of time or the token is not the creating one, granted otherwise, and elevated iff a granted Elevate, or the loaded bound, covers the moment |
| Sessions.SettingsMeaning | internal/browsersession/session.go:237-259 | positive durations count, others are seven days, seven days and a quarter of an hour; sessions are kept on disk iff wanted and the path is not blank |
| Sessions.RefusalAndRestart | internal/browsersession/session.go:94-193 | whatever operations follow, a session refused or revoked at some point is back after a restart iff IsElevated refused it, no later operation has written the file and it is still valid in time |
| Sessions.FileLagsBehind | internal/browsersession/session.go:155-179 | over any operations the file keeps every session of the table, and others exactly as far as IsElevated has dropped them since it was last written |
| Sessions.RestartGives | internal/browsersession/session.go:278-364 | over any operations, a restart gives the time-valid sessions of the table and those dropped unwritten |
| LoginLimiter.AttemptLimiter.Allow | internal/authn/rate_limit.go:44-68 | allowed iff fewer than the maximum of all failures since the last reset lie in the window; otherwise when the oldest leaves it |
| LoginLimiter.AttemptLimiter.RecordFailure | internal/authn/rate_limit.go:70-86 | adds one failure to one key's history |
| LoginLimiter.AttemptLimiter.Reset | internal/authn/rate_limit.go:88-99 | empties one key's history |
| LoginLimiter.AttemptLimiter.Prune | internal/authn/rate_limit.go:115-132 | the pruned list is the full history's window |
| LoginLimiter.PruningIsHarmless | internal/authn/rate_limit.go:115-132 | forgetting failures outside the window changes no later window |
| LoginLimiter.SecondsCeil | internal/dashboard/auth_api.go:204-216 | whole seconds rounded up, at least one |
| LoginLimiter.HandleLogin | internal/dashboard/auth_api.go:40-125 | status and history after any request: no token configured, limiter first, failures recorded only then, a reset before the session is created, other addresses untouched |
| LoginLimiter.RefusedExactly | internal/dashboard/auth_api.go:40-125 | read off the answers: a request is refused iff at least the maximum of earlier ones were answered Unauthorized within the window since a login got as far as a session, and is told to wait until the first of these leaves the window |
| LoginLimiter.AdmittedAnswers | internal/dashboard/auth_api.go:40-125 | what every other request is answered |
| LoginLimiter.RunStaysBounded | internal/dashboard/auth_api.go:40-125 | over sequential requests the window never holds more than the maximum |
| LoginLimiter.AdvertisedWaitDecided | internal/dashboard/auth_api.go:52-64 | the advertised wait suffices iff it outlasts the failure the maximum from the end |
| LoginLimiter.AdvertisedWaitIsEnough | internal/dashboard/auth_api.go:52-64 | after sequential requests it always suffices |
| LoginLimiter.OverfullWaitIsTooShort | internal/dashboard/auth_api.go:52-64 | with more failures than the maximum it can be too short |
| LoginLimiter.OverlapIsBounded | internal/authn/rate_limit.go:44-86 | with asking and recording as separate steps whose clock readings come late and in any order, stored list and window exceed the maximum by less than the requests admitted at once |
| LoginLimiter.OverlapMakesWaitTooShort | internal/dashboard/auth_api.go:40-125 | for every maximum and window of more than a second, overlapping requests reach a state in which the advertised wait is too short |
| LiveDashboard.Dashboard.RememberEventID | internal/dashboard/activity_ingest.go:156-168 | set and log after any ID, empty and logged ones included; for a new one the set stays the set of the duplicate-free bounded log |
| LiveDashboard.Dashboard.UpsertAgent | internal/dashboard/activity_ingest.go:74-87 | the agent map after one event |
| LiveDashboard.SummaryMeaning | internal/dashboard/activity_ingest.go:74-87 | an agent's summary has the times of its first and its last event and their number, and agents without events have none |
| LiveDashboard.Dashboard.RecordOne | internal/dashboard/activity_ingest.go:170-209 | one event extends the accepted history iff its ID is not among the last 2000, completed by ID, agent, channel and time where it names none, and the whole cache stays determined by that history |
| LiveDashboard.Dashboard.RecordEvents | internal/dashboard/activity_ingest.go:186-223 | after a batch, agents, recent events, seen set and log are those of the accepted history, and exactly the newly accepted events are broadcast |
| LiveDashboard.Dashboard.EventsForAgent | internal/dashboard/dashboard.go:168-181 | exactly the buffered events of the agent in the mode's channels, in order: tool calls unless the mode is progress, progress events for progress and both |
| LiveDashboard.BatchesCompose | internal/dashboard/activity_ingest.go:186-209 | splitting a batch yields the same history |
| LiveDashboard.OneIsAccepted | internal/dashboard/activity_ingest.go:170-209 | what a batch of one adds, which with BatchesCompose decides every batch |
| LiveDashboard.RecentIdsAreDistinct | internal/dashboard/activity_ingest.go:186-209 | no ID repeats among the last 2000 accepted events |
| LiveDashboard.RequestCountsAddUp | internal/dashboard/activity_ingest.go:74-87 | request counts over all agents add up to the number of accepted events |
| LiveDashboard.ShownForSomeAgent | internal/dashboard/dashboard.go:168-181 | of arbitrary buffered events one is shown iff its agent ID is trimmed and its channel known |
| LiveDashboard.ReceivedExactly | internal/dashboard/handlers.go:65-108 | everything logged is received, and of what is posted exactly what has a message, no other channel than progress and no other agent than the path's |
| LiveDashboard.ReceivedAreAttributed | internal/dashboard/activity_ingest.go:18-67 | both ways in yield only trimmed agent IDs and known channels |
| LiveDashboard.ReceivedEventsAreShown | internal/dashboard/handlers.go:65-108 | of the events received from the activity log or posted for an agent, every buffered one is shown for exactly the agent it names, under which it is also counted |
| TabManagement.TabManager.FindOldest | internal/bridge/tab_cleanup.go:11-28 | a tab minimal in creation time |
| TabManagement.TabManager.FindLRU | internal/bridge/tab_cleanup.go:31-52 | a tab minimal in last use, creation standing in for no use |
| TabManagement.TabManager.Lookup | internal/bridge/tab_cleanup.go:145-176 | finds the tab itself or one with the target, and none only if there is none |
| TabManagement.TabManager.Purge | internal/bridge/tab_cleanup.go:99-143 | forgets exactly the resolved tab |
| TabManagement.TabManager.CloseTab | internal/bridge/tab_manager.go:225-272 | never the last page; a tracked tab is forgotten even if Chrome fails; errors change nothing; one allowed effect |
| TabManagement.TabManager.MakeRoom | internal/bridge/tab_adopt.go:67-90 | evicts one tab allowed by the policy iff the table is full, and says when it cannot |
| TabManagement.TabManager.CreateTab | internal/bridge/tab_manager.go:108-223 | when it succeeds, whom it evicts, the maps afterwards; under a limit it is one allowed effect of the runs below |
| TabManagement.TabManager.Adopt | internal/bridge/tab_adopt.go:92-144 | the same as CreateTab for adoption, with tracked targets only touched |
| TabManagement.TabManager.MarkAccessed | internal/bridge/tab_lookup.go:12-20 | records any ID as accessed and current, and the maps stay coherent iff it is tracked |
| TabManagement.TabManager.RegisterTab | internal/bridge/tab_state.go:49-68 | tracks a tab without marking it accessed |
| TabManagement.TabManager.SelectCurrent | internal/bridge/tab_lookup.go:24-48 | the current tab if it is tracked, else the most recently used, else the newest |
| TabManagement.DropErases | internal/bridge/tab_cleanup.go:99-143 | a purge leaves no trace of the tab in any map and nothing of other tabs changes |
| TabManagement.EntryAndUse | internal/bridge/tab_manager.go:204-216 | what entering and using a tab record about it, and that other tabs stay as they are |
| TabManagement.EvictionByHistory | internal/bridge/tab_cleanup.go:11-52 | over any operations, what may be evicted is the open tab opened first, or used least recently, read off the history |
| TabManagement.EffectKeeps | internal/bridge/tab_manager.go:108-272 | every effect the operations are proved to have keeps the maps coherent and the count within the limit or the former count |
| TabManagement.RunsKeepTheLimit | internal/bridge/tab_manager.go:108-272 | over any sequence of states led through by such operations the tabs stay coherent and never exceed the limit or the starting count |
| TabConcurrency.OverlapIsBounded | internal/bridge/tab_manager.go:108-223 | over any interleaving of overlapping calls, closes and registrations, the tabs exceed the limit or the starting count by less than the calls in flight, plus unlimited entries and shared victims |
| TabConcurrency.OneAtATimeKeepsTheLimit | internal/bridge/tab_manager.go:108-223 | with one such call at a time, whatever is closed or registered in between, the tabs exceed the limit or the starting count only by those entered without regard to it |
| TabConcurrency.CallsInFlightReachTheBound | internal/bridge/tab_manager.go:117-121 | for every limit and every number of calls in flight a run reaches that bound with no victim shared |
| TabConcurrency.SharedVictimsAddUp | internal/bridge/tab_cleanup.go:11-52 | from any full table, two calls at a time reach any number of tabs by evicting the same tab |
| AutoClose.Timers.ScheduleAutoClose | internal/bridge/tab_autoclose.go:11-38 | arms a callback with a new generation iff the policy, delay and tab allow it |
| AutoClose.Timers.CancelAutoClose | internal/bridge/tab_autoclose.go:43-59 | clears the timer and moves the generation on |
| AutoClose.Timers.AutoCloseFire | internal/bridge/tab_autoclose.go:61-76 | commits to closing iff the generation is current |
| AutoClose.CommitsExactlyWhen | internal/bridge/tab_autoclose.go:11-76 | within one lifetime a callback commits iff the schedules and cancels since its arming are a multiple of 2^64 |
| AutoClose.CommitMeansUndisturbed | internal/bridge/tab_autoclose.go:11-76 | a schedule or cancel after the arming stops the callback |
| AutoClose.CommitsAtMostOnce | internal/bridge/tab_autoclose.go:61-76 | as an armed function runs once, no callback commits twice |
| AutoClose.CommitsAreSeparated | internal/bridge/tab_autoclose.go:11-76 | a callback that commits does so before the next one of its lifetime is armed |
| AutoClose.CommitsAcrossLifetimes | internal/bridge/tab_autoclose.go:61-76 | across registrations of a tab ID a callback commits iff the schedules and cancels in the lifetime it runs in and up to its arming in its own are equal modulo 2^64 |
| AutoClose.NeverCommitsUntracked | internal/bridge/tab_autoclose.go:61-76 | while the ID is not tracked no callback commits |
| AutoClose.CancelComesTooLateExactly | internal/bridge/tab_autoclose.go:61-76 | of the callbacks armed before a schedule or cancel exactly those that had committed by then can still close the tab |
| AutoClose.LateCallbackOutlivesItsTab | internal/bridge/tab_autoclose.go:61-76 | every callback outstanding when its tab is gone commits in the next lifetime after as many schedules as its generation counts |
| Truncation.TruncateUTF8Bytes | internal/bridge/console_logs.go:200-223 | the loop computes the specified truncation on arbitrary bytes |
| Truncation.TruncateActivityValue | internal/activity/url_sanitize.go:53-76 | the second copy computes the same function |
| Truncation.LastBoundaryIsLongest | internal/bridge/console_logs.go:212-218 | the cut is the last character boundary within the limit |
| Truncation.TruncationIsSound | internal/bridge/console_logs.go:200-223 | valid UTF-8 stays valid and fits; a cut keeps the longest valid prefix that leaves room for the suffix |
| DeepMerging.DeepMerge | internal/config/editor_patch.go:39-54 | the two loops, in any order of the keys, compute the recursive merge |
| DeepMerging.PathsOfMerge | internal/config/editor_patch.go:39-54 | at every path: the patch's leaf where it sets one, the old value where it is silent, the merge where both have objects |
| DeepMerging.EmptyIsIdentity | internal/config/editor_patch.go:39-54 | the empty object is a two-sided identity |
| DeepMerging.MergeIsIdempotent | internal/config/editor_patch.go:39-54 | merging a patch twice is merging it once |
| DeepMerging.CoveredIsOverwritten | internal/config/editor_patch.go:39-54 | nothing of an object is left iff the patch covers all its keys |
| DeepMerging.AssociativeUnlessResurrecting | internal/config/editor_patch.go:39-54 | merging is associative iff nowhere an object reappears under the last patch that the middle one had replaced |
| DeepMerging.AssociativityCanFail | internal/config/editor_patch.go:39-54 | a value replaced by null and then made an empty object: grouping decides whether the old value reappears |
| DeepMerging.PlainPatchesAssociate | internal/config/editor_patch.go:39-54 | it is associative if no leaf of the middle patch stands where the last has an object |
| RetryBackoff.ProductWraps | internal/autosolver/autosolver.go:799-814 | the shifted product is the true product's low 64 bits for every attempt |
| RetryBackoff.DelayIsCappedExponential | internal/autosolver/autosolver.go:799-814 | never above the cap, and the capped exponential iff the product fits or wraps to at least the cap |
| RetryBackoff.DelaysNeverShrink | internal/autosolver/autosolver.go:799-814 | while the product fits, delays are positive and never shrink |
| RetryBackoff.DefaultDelayOverflows | internal/autosolver/autosolver.go:799-814 | with the defaults the 37th attempt gets a negative delay |
| SemanticFlow.Prepare | internal/autosolver/autosolver.go:446-487 | a prepared click has a target and a prepared typing has text; a missing target is only ever filled by a match |
| SemanticFlow.Heal | internal/autosolver/autosolver.go:489-526 | the same for a healed action, which needs a match |
| SemanticFlow.RunFlow | internal/autosolver/autosolver.go:305-411 | the step loop succeeds iff a step is reached around which the page is normal, or a high-level intent's actions were all carried out |
| SemanticFlow.FlowExactly | internal/autosolver/autosolver.go:305-411 | the flow succeeds iff it comes, with every action before carried out and no normal page seen, to a step that finds one before or after its action, or a high-level intent's steps were all carried out |
| SemanticFlow.LatestDetection | internal/autosolver/autosolver.go:330-345 | a step goes by the latest detection that did not fail |
| SemanticFlow.PreparedAction | internal/autosolver/autosolver.go:420-487 | the action a step gives the executor, field by field, from the intent, the suggestion, the search result and the credentials, and when there is none |
| SemanticFlow.HealedAction | internal/autosolver/autosolver.go:489-526 | the same action where a second search finds its place |
| SemanticFlow.CarriedOutExactly | internal/autosolver/autosolver.go:350-385 | a step is carried out iff there is an action and the executor takes it, or its healed form |
| SemanticFlow.FlowShape | internal/autosolver/autosolver.go:544-621 | every flow has as many steps as its budget, a high-level one ends with a click, and only credentials are typed |
| AutoSolving.TrySemantic | internal/autosolver/autosolver.go:305-411 | the entry recorded, skipped without an engine |
| AutoSolving.OrderSolvers | internal/autosolver/autosolver.go:219-257 | the configured order if a configured name matches, the priority order otherwise |
| AutoSolving.ConfiguredSolversOnly | internal/autosolver/autosolver.go:219-257 | once a configured name matches, unconfigured solvers are never tried |
| AutoSolving.OrderMeaning | internal/autosolver/autosolver.go:219-257 | the matching solvers that are configured, in the configured order, or all in theirs if none is |
| AutoSolving.TrySolvers | internal/autosolver/autosolver.go:210-301 | the first solver in order that succeeds, or the last one as failed |
| AutoSolving.RunAttempt | internal/autosolver/autosolver.go:105-182 | one attempt records its chain up to the first success |
| AutoSolving.Retry | internal/autosolver/autosolver.go:86-198 | the early-stopping loop has the outcome read off the complete log of all attempts that could start, and waits the specified delays |
| AutoSolving.Solve | internal/autosolver/autosolver.go:46-198 | the same from the initial detection on; a normal page is solved at once |
| AutoSolving.ResultsAreConsistent | internal/autosolver/autosolver.go:46-198 | at most MaxAttempts attempts; two or three entries per completed attempt; solved iff the last entry, and only it, is solved, naming the solver used |
| AutoSolving.ChainMeaning | internal/autosolver/autosolver.go:105-182 | what an attempt records for the flow, the solvers and the model, with which status |
| AutoSolving.SolvedByWhom | internal/autosolver/autosolver.go:86-198 | solved iff an attempt that starts can, by the first such: by the flow, else the first able solver of the order, else the model; otherwise cancelled or exhausted after how many attempts |
| AttemptLogs.FirstSolvedIsIn | internal/autosolver/autosolver.go:105-182 | stopping at the first success gives the first solved entry of the complete log |
| PluginSessions.AgentSessions.Prune | plugin/session.ts:18-31 | deletes what is too old, then the oldest by stable order while there are too many |
| PluginSessions.PrunedFacts | plugin/session.ts:18-31 | at most 256 live entries remain, and no live entry removed is newer than one that stays |
| PluginSessions.StableSortFacts | plugin/session.ts:24-26 | the order is ascending in time over exactly the entries |
| PluginSessions.SortIsStable | plugin/session.ts:24-26 | entries of the same time stay in the map's order |
| PluginSessions.RememberFacts | plugin/session.ts:33-46 | bounds after remembering, the remembered entry present iff the clock did not jump past the maximal age, and evictions by age |
| PluginSessions.AgentSessions.RememberRuntimeContext | plugin/session.ts:33-46 | the entry returned and the cache afterwards |
| PluginSessions.AgentSessions.SetLastTabId | plugin/session.ts:79-83 | the value and time are set in the surviving entry |
| PluginSessions.AgentSessions.GetLastTabId | plugin/session.ts:75-77 | the value of the context's entry, nothing without one |
| PluginSessions.AgentSessions.SetThenGet | plugin/session.ts:75-83 | what was set is read back for the same context |
| PluginSessions.KeyMeaning | plugin/session.ts:14-16 | contexts of one agent share an entry, else those of one session, else all; empty names are none |
| PluginSessions.ReadsAreLastSet | plugin/session.ts:33-83 | over any calls and any clock the tab read is the one last set for the same key while the entry has been in the cache |
| PluginSessions.EntriesAreFactual | plugin/session.ts:33-83 | over any calls an entry has the agent and session last named for its key and the time of its last use |

## Left out

- Chrome DevTools calls, contexts and events: inputs (`enableSucceeds`, `Chrome`, arrival of popups); request dispatch, fulfilment and its domain policy are not modelled.
- Calls of `fetch.Disable` after a removal, and therefore the browser's own interception state while Remove and AddRule overlap; Remove omits the call for a tab whose flag is lost.
- `nil` receivers and uninitialised managers.
- Unicode case mapping beyond the characters that map into ASCII, and patterns or URLs that are not valid UTF-8; the size limits of Go's regular expressions.
- Route state and tab entries are values in their maps rather than objects behind pointers; no modelled code keeps such a pointer across a lock release, except timers, which `autoclose.dfy` models by generation.
- A popup slot is a number instead of a pointer to a channel; the guard's check that a target is a page, the injected `window.open` capture and the fallback tab are not modelled.
- `tabs.dfy` takes tab operations one after another; `tabs_concurrent.dfy` splits only the calls that open a tab into their locked sections, and takes the search and the deletion of a purge as one.
- TabManagement.TabManager.RegisterTab: registers without looking at the limit, as the source does, so it is no step of the runs of `RunsKeepTheLimit`; neither is an adoption that does not enforce the limit, as TabContext performs it.
- TabContext and FocusTab, which look targets up in Chrome and then adopt or mark as modelled; executor, dialog, console-log and network cleanup during a purge.
- Bounded console and error buffers, the URL sanitiser's rewriting and the classification of activity types: easy.
- JSON encoding and decoding: events and session records are values, and the tail reader assumes only that decoding undoes encoding, that an encoded event is one line and, for reads cut short, that no proper suffix of it decodes; SHA-256 is the caller's hash.
- Which events reach the dashboard from the activity log (those of source `client`), and the type and details derived from them.
- When Record prunes (an input), and lines written only in part; the order of events within one day in `activity_order.dfy`; directory reading in queryFiles beyond the order of names; `Filter.AgentIDLike` and other fields no comparison uses.
- Failures of reading, creating or writing the session file, which the source ignores; saturation of Go's duration subtraction beyond about 292 years.
- The limiter's methods and the sequential runs assume clock readings in the order of the calls; `OverlapIsBounded` does not.
- Rate limiter keys are trimmed but not bounded in number; the in-place reuse of a slice's memory in pruning.
- Server-sent-event channels, which drop what a slow subscriber does not take.
- LiveDashboard.Dashboard.RecordEvents: the event type and details are one opaque payload.
- The sort of the JavaScript runtime is modelled as insertion sort, which it equals because both are stable.
- Element search queries, credentials' storage, title heuristics, solver time-outs and durations of the autosolver; a detection that returns neither an intent nor an error. `CarriedOut` models the planning, preparing, executing and healing of one step as one function.
- The solver registry: the matching solvers arrive in priority order.
