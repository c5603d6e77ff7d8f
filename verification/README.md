# Verification of the device-testing agent

This project models, in Dafny 4.11, the parts of the repository whose behaviour is
hardest to see by reading one function, and proves properties of the model over all
inputs, all environments or all runs:

* **The smart locator.** A validated locator (conditions, anchor, axis path) is printed
  as a restricted XPath or as a Java-escaped `new UiSelector()` chain, and both languages
  are parsed back by hand-written quote and bracket scanners and evaluated on a tree of
  nodes. Printer, parser and evaluator are modelled character by character
  (`Text`, `Scanner`, `XPathLiteral`, `Locator`, `XPathPredicate`, `PredicateRoundTrip`,
  `DelimiterSearch`, `ConcatTail`, `PredicateRecovery`, `XPathQuery`, `XPathRoundTrip`,
  `UiSelector`, `Selector`, `Screen`). `Denotation` says what a locator denotes on a screen
  without mentioning text at all: the ends of routes that start at a node meeting the
  anchor, take related steps and end at a node meeting the target, where a condition is
  met by the node's own properties and name, as Python shows them. `Axes`, `Routes` and
  `Meaning` prove that the selector finds just these nodes, in the order of their first
  routes; `Siblings` shows where it does not. `ScopedSearch` compares the two-stage search
  with the single XPath. The XPath side
  follows XPath 1.0 sections 2.2, 2.4, 3.7 and 4.2 as far as the printer uses them.
* **The scroll-and-retry search** over pages and alternatives (`Resolve`).
* **Device protocols** against an adversarial environment: the checkbox clicks
  (`SetChecked`), waiting for an element to hold still (`StableWait`), the slider
  controller (`Slider`), the two-phase list search (`ListSearch`) and the gesture
  geometry (`Geometry`). The environment answers every read, click, clock and stop
  question as it likes; a method returns the history of what it did.
* **The life of an execution in the agent** (`Lifecycle`, `AppiumRefs`, and the class in
  `AgentApp.dfy` whose methods are proved to be their steps). A run is any sequence of
  what happens between two awaits.
* **Three backend algorithms**: the sliding-window limiter (`RateLimit`), the closures
  over parent tables with cycles (`Subtree`), and the request-body preview (`BodyPreview`).

Loops and updated fields of the source are loops and class fields here, each proved
against a specification function; the lemmas are about those functions. Regular-expression
search is an uninterpreted predicate, and the greedy `(.*)` of the predicate patterns is
"split at the last occurrence of the delimiter".

Four promises are not kept by the code as written. For each the exact condition is proved:

* A class-equals predicate is read back if and only if the value does not contain
  ` or @class=`, and an ends-with predicate if and only if it does not contain `)+1)=`
  (`PredicateRecovery.PredicateRoundTrips`).
* The sibling axes are printed with a hyphen (smart_locator.py:335-336) and looked up
  with an underscore (driver.py:590, 599), so such a path finds nothing: its result is
  right if and only if the locator denotes no node (`Siblings.SiblingsFindNothing`), and
  every valid locator with such an axis misses a node on some screen, provided one node
  meets its anchor and target conditions (`Siblings.SiblingsMiss`).
* The count of Appium users is decremented twice after a failed start (main.py:232 and
  365-369). It stays the number of holders if and only if no task that holds nothing
  releases while another holds the server (`AppiumRefs.CountExactIff`).
* A `start_test` can launch an execution a second time. While fewer than 500 other
  executions have recorded results since the launch, it does so if and only if the
  execution is no longer in the table of running ones and has not recorded its own result
  (`Lifecycle.RelaunchIff`, for every run). So two launches are 500 other executions apart
  unless that execution left early in between, by itself or at a shutdown
  (`Lifecycle.LaunchesAreFarApart`, `Lifecycle.EarlyLeaveRelaunches`).

## Model

| member | source | states |
|---|---|---|
| Scanner.SplitTopLevelLoop | agent/executor/driver.py:646-678 | the splitting loop computes the recursive splitter, for every text and separator |
| Scanner.SplitJoined | agent/executor/driver.py:646-678 | pieces that are quote- and parenthesis-balanced and hide the separator come back, stripped and in order, from their joined text |
| Scanner.MatchBracketedLoop | agent/executor/driver.py:611-643 | the bracket matcher loop computes the recursive scanner, including an escape at the very end and unmatched brackets |
| Scanner.SquareRoundTrip | agent/executor/driver.py:611-643 | bracketed text with well-formed quotes and no bracket outside them is returned exactly, with the index behind it |
| XPathLiteral.LiteralRoundTrip | agent/executor/appium_driver.py:17-24 | printing any string as an XPath literal (plain, single-quoted or `concat`) and reading it back is the identity |
| PredicateRoundTrip.PredicateTidy | agent/executor/smart_locator.py:360-380 | every printed predicate is balanced, and shows the surrounding scanners no " and " at depth 0 and no square bracket |
| DelimiterSearch.OccursInLiteral | agent/executor/appium_driver.py:17-24 | a pattern delimiter occurs in a printed literal if and only if it occurs in the value |
| DelimiterSearch.AroundTwice | agent/executor/driver.py:494-501 | where the greedy pattern splits a text that repeats one literal around the delimiter: at the printed delimiter, or at the last one inside the second literal |
| ConcatTail.TailNeverReadsAsValue | agent/executor/driver.py:681-691 | the tail of a printed `concat` behind a delimiter in the value, read as arguments, never gives the value back |
| PredicateRecovery.ClassEqualsRoundTrip | agent/executor/driver.py:495-707 | class equality is decoded back if and only if the value lacks the delimiter of its pattern |
| PredicateRecovery.EndsWithRoundTrip | agent/executor/driver.py:498-714 | ends-with is decoded back if and only if the value lacks the delimiter of its pattern |
| PredicateRecovery.PredicateRoundTrips | agent/executor/driver.py:694-736 | any printable condition is decoded back (class equality as class-or-node-name) if and only if it is recoverable |
| XPathQuery.ParseXPathLoop | agent/executor/driver.py:739-773 | the axis loop of the parser computes the recursive parser |
| XPathRoundTrip.PathRoundTrip | agent/executor/smart_locator.py:383-394 | printed axis steps are parsed back, a parent of depth two or more as that ancestor, leaving what follows untouched |
| XPathRoundTrip.BracketRoundTrip | agent/executor/smart_locator.py:397-399 | a bracket of printed predicates is split and decoded into its conditions in order |
| XPathRoundTrip.XPathRoundTrip | agent/executor/smart_locator.py:397-399 | parsing `//*[p1 and p2 ...]` gives exactly the printed conditions, in order, if and only if all are recoverable |
| XPathRoundTrip.RelativeRoundTrip | agent/executor/smart_locator.py:402-410 | the same for anchor, path and target together |
| UiSelector.EscapeIsCharwise | agent/executor/smart_locator.py:340-342 | three chained replacements escape every character exactly once |
| UiSelector.UnescapeEscaped | agent/executor/driver.py:776-788 | unescaping an escaped string gives the string, whatever quotes and backslashes it holds |
| UiSelector.JavaUnescapeLoop | agent/executor/driver.py:776-788 | the unescaping loop computes the recursive reader |
| UiSelector.ParseUiLoop | agent/executor/driver.py:791-816 | the chain parser loop computes the recursive parser, with all its error cases |
| UiSelector.UiRoundTrip | agent/executor/smart_locator.py:345-357 | a printed chain is parsed back as the conditions it was printed from, for all values |
| Selector.ValidationSound | agent/executor/smart_locator.py:97-187 | whatever validation returns is well-typed, within all limits and of a printable kind |
| Selector.ValidationComplete | agent/executor/smart_locator.py:97-187 | every well-formed alternative, written as raw input, is accepted and returned unchanged |
| Selector.ValidationIff | agent/executor/smart_locator.py:97-187 | validation gives an alternative if and only if it is valid and the raw value spells it out, with what it does not have left out or null |
| Selector.BuildSelectorTotal | agent/executor/smart_locator.py:413-422 | building a selector never fails on a validated alternative; it is a UiSelector chain if and only if there is neither anchor nor path and UiSelector has a method for every target condition |
| Axes.WalkExact | agent/executor/driver.py:555-564 | the recursive walk lists exactly the places below a node |
| Axes.WalkOrdered | agent/executor/driver.py:542-552 | the walk lists places in document order, each once |
| Axes.StepExact | agent/executor/driver.py:577-608 | evaluating one printed axis step gives exactly the places its segment relates |
| Meaning.MatchesMeant | agent/executor/driver.py:819-850 | the evaluator finds a condition met exactly when its meaning holds of the node: a boolean property counts as true or not as asked, a text is, contains, starts or ends with the value, a class may also be the node name in XPath |
| Meaning.RelativeMeaning | agent/executor/driver.py:853-869 | the parsed relative XPath finds exactly the nodes that anchor, path and target describe, each once, a node before another if its first route comes before all routes to the other |
| Meaning.SelectorMeaning | agent/executor/smart_locator.py:413-422 | for every validated alternative without sibling axes and delimiters, building, parsing and evaluating finds exactly the nodes it denotes, each once, in the order of their first routes, which is document order when there is no path |
| Meaning.EvalInRouteOrder | agent/executor/driver.py:853-869 | the evaluated list is in the order of first routes |
| Routes.TrailsInOrder | agent/executor/driver.py:577-608 | following the axes step by step, node by node, walks the routes in their order: by the start, then by the first step that differs |
| Routes.DedupeInOrder | agent/executor/driver.py:567-574 | removing duplicates keeps first occurrences in their order |
| Screen.DedupeLoop | agent/executor/driver.py:567-574 | the loop with its set of seen nodes computes the recursive removal of duplicates |
| Siblings.SiblingsFindNothing | agent/executor/driver.py:590-608 | a path with a sibling axis finds nothing, so the result is right if and only if nothing is denoted |
| Siblings.SiblingsMiss | agent/executor/smart_locator.py:330-337 | for every valid alternative with a sibling axis and every node meeting its anchor and target conditions there is a screen on which a denoted node is missed |
| Siblings.SiblingMissed | agent/executor/smart_locator.py:330-337 | such an alternative and such a node exist |
| ScopedSearch.FindScoped | agent/executor/smart_locator.py:593-625 | the two-stage search computes the anchors' class-matching descendants, first of each identity kept |
| ScopedSearch.SearchBelow | agent/executor/smart_locator.py:601-617 | the loop over anchors sharing the identities seen equals removing duplicates from all matches at once |
| ScopedSearch.ScopedIsRelative | agent/executor/smart_locator.py:578-625 | the two-stage search returns the list of the single relative XPath, in its order, if and only if no two nodes found share an identity |
| Resolve.Run | agent/executor/smart_locator.py:468-576 | the search checks every alternative on every page reached, in order, within the swipe budget, and stops at the first match or the first stable page; the outcome is the only match, the n-th match or the error the policy asks for of the first matches, or the error for none; a stop request, the deadline or a failing call ends it if and only if it comes before the first match and the end, with just the cells before checked |
| Resolve.CutOnce | agent/executor/smart_locator.py:479-483 | there is at most one place where a search is cut short |
| Resolve.DecidedByFirstHit | agent/executor/smart_locator.py:479-508 | the outcome is what the policy asks for of the matches of the lexicographically first (page, alternative) that has any, and a failure if and only if none has |
| Resolve.PolicyDecides | agent/executor/smart_locator.py:560-576 | under "unique" an element is picked if and only if it is the only match, under index n if and only if exactly n - 1 matches stand before it; each error occurs if and only if its count is wrong |
| Resolve.HorizonMeans | agent/executor/smart_locator.py:543-558 | without a match the search ends on the first page that two swipes in a row left unchanged, or with the budget |
| Resolve.EarlyStopExact | agent/executor/smart_locator.py:543-558 | stopping early agrees with the full budget if and only if no match stands only behind the stopping point |
| Resolve.EarlyStopHarmless | agent/executor/smart_locator.py:543-550 | with deterministic swipes and faithful fingerprints the early stop changes nothing |
| Resolve.EarlyStopCanMiss | agent/executor/smart_locator.py:543-550 | without them it can lose a match |
| SetChecked.Observe | agent/executor/actions.py:680-737 | another click is allowed if and only if two looks in time, without a stop request, find the box away from the target; an exception ends it if and only if a stop request or a fatal read is met; what was read and asked is exact |
| SetChecked.ClickRound | agent/executor/actions.py:754-867 | a round clicks if and only if a fresh read shows the box away from the target with at least 0.1 s, or 0.8 s after an earlier click, left before and after it; another round follows if and only if the click did not raise, the box stays away and clicks are left; an exception ends it if and only if a fatal read or a stop request is met |
| SetChecked.Confirm | agent/executor/actions.py:868-885 | the confirmation only reads, and goes on until the last read shows the target or the time is up; it raises if and only if, at a look it reaches, a stop is requested or a read in time fails for good |
| SetChecked.Execute | agent/executor/actions.py:739-916 | in every environment the history has the protocol's shape and holds the environment's answers; for a box first seen away from the target, an exception ends the action if and only if the last round or the confirmation meets a stop request or a fatal read, and it passes if and only if the target is seen by the confirmation, or by the last round when no time is left; otherwise the first read decides; it fails after a click only when the time is up, and clicks at all if and only if two reads show the box away with time left |
| SetChecked.StopIsHeeded | agent/executor/actions.py:638-641 | a stop request is the end wherever it is met: at any stop question of an observation or of the confirmation |
| SetChecked.AtMostThreeClicks | agent/executor/actions.py:602-609 | such a history holds at most three clicks |
| SetChecked.NoClickAfterRaised | agent/executor/actions.py:834-850 | nothing is clicked after a click that raised |
| SetChecked.RetryIsGuarded | agent/executor/actions.py:588-609 | between two clicks stand exactly three reads, all away from the target |
| SetChecked.NeverTogglesAway | agent/executor/actions.py:588-596 | if each effect lands before the next pre-click read and nothing else changes the box, it is never toggled away from the target |
| StableWait.LookOnce | agent/executor/actions.py:474-528 | one look extends, restarts or empties the run, and passes if and only if the run is then long enough in samples and time |
| StableWait.Execute | agent/executor/actions.py:445-536 | the action passes at the first look that completes such a run, and only then; otherwise it ends at the first stop request, fatal look or moment without time, whichever comes first, and for that reason; a zero timeout looks once |
| StableWait.StopEndsWait | agent/executor/actions.py:465-466 | a stop question answered with yes is the last question and the action raises |
| StableWait.FatalEndsWait | agent/executor/actions.py:519-521 | only the last look can fail for good, and then the action raises |
| StableWait.RunIsLongest | agent/executor/actions.py:488-514 | the run counted is the longest at the end of the looks whose samples are acceptable and each the same as the one before |
| StableWait.SampleMeans | agent/executor/actions.py:399-406 | acceptable means an area and the required states, the same means equal states and no move by more than one unit |
| StableWait.RunDrift | agent/executor/actions.py:399-406 | over a run of samples the states are constant and the rectangle drifts by at most one unit a sample |
| StableWait.PassedMeansStill | agent/executor/actions.py:500-514 | passing means a run of the required length and time span that never left the required states |
| StableWait.BadLookEmptiesRun | agent/executor/actions.py:488-528 | a failed or unacceptable look is never part of the run |
| Slider.Execute | agent/executor/actions.py:1063-1176 | the controller loop computes the specified run, rejecting bad parameters first |
| Slider.Run | agent/executor/actions.py:1120-1176 | at most max_adjustments + 1 drags, the earlier ones a beginning; passed implies within tolerance, failed implies all drags were spent |
| Slider.RunJustified | agent/executor/actions.py:1120-1176 | a value that passes or fails was shown or read after the last drag, with the number of corrections exact; stopped means a stop was requested; a refusal names what was wrong with the text, the look or the end of the track |
| Slider.RunGoesOn | agent/executor/actions.py:1145-1161 | after every drag but the last a number was read that is not close enough, and no stop was requested |
| Slider.UnreadIsRefused | agent/executor/actions.py:976-979 | a text that is no number after a drag is an error, never a success |
| Slider.DecideMeans | agent/executor/actions.py:982-1056 | a look is refused if and only if it is unsound, or the thumb is at the end of the track it would have to pass; otherwise the thumb is dragged from its centre towards the target |
| Slider.DragsStayOnTrack | agent/executor/actions.py:1046-1055 | every drag sent moves the thumb and stays on the track that was seen |
| Slider.ExactDrag | agent/executor/actions.py:1028-1056 | on an exactly affine slider the clamp never binds, the thumb lands on another pixel of the track with an error below one pixel's worth, and hits if any pixel hits |
| Slider.PassesIffAttainable | agent/executor/actions.py:1120-1176 | on such a slider the action passes if and only if some pixel is within tolerance, then with at most one drag; otherwise all drags are spent |
| Slider.HalfPixelSuffices | agent/executor/actions.py:1045-1050 | a tolerance of half a pixel's worth is always attainable |
| ListSearch.RunPhase | agent/executor/actions.py:1435-1503 | one loop of the search computes its specification |
| ListSearch.Execute | agent/executor/actions.py:1385-1596 | both phases in turn compute the specified search |
| ListSearch.SearchEnds | agent/executor/actions.py:1435-1503 | in every environment the target is found if and only if the last event is the attempt that clicked it; a raised attempt or a refused swipe is a failure, and nothing of the kind comes before |
| ListSearch.SwipeBudget | agent/executor/actions.py:1505-1518 | the swipes are a beginning of max forward and 2*max back, and all 3*max of them when nothing is found |
| ListSearch.FoundIff | agent/executor/actions.py:1426-1596 | on a list clamped at both ends the target is found if and only if it is clickable at a position the plan reaches |
| ListSearch.NothingNearIsMissed | agent/executor/actions.py:1505-1518 | nothing within max steps of the start is missed in either direction |
| ListSearch.NoBudgetNoLook | agent/executor/actions.py:1435-1439 | the list is looked at if and only if the budget is positive |
| Geometry.Clip | agent/executor/actions.py:2400-2410 | the clipped rectangle holds exactly the points on the screen |
| Geometry.Intersect | agent/executor/actions.py:2453-2464 | the intersection holds exactly the common points |
| Geometry.SwipeExistsIff | agent/executor/actions.py:2413-2450 | a swipe exists if and only if the region is not empty and its height is not an odd number up to 17 |
| Geometry.SwipeIsWellDrawn | agent/executor/actions.py:2426-2450 | it lies in the region with the margin free on both sides, goes the right way over exactly its distance, is as long as wanted where that fits, and is centred to a pixel in both directions |
| Geometry.GestureIsSafe | agent/executor/actions.py:2162-2245 | every gesture returned has both ends in the parent on one line, its exact distance apart, no longer than wanted; the final check never fires |
| Geometry.UpWorksIff | agent/executor/actions.py:2174-2216 | exactly when scrolling up succeeds without the fallback |
| Geometry.DownWorksIff | agent/executor/actions.py:2226-2233 | scrolling down succeeds if and only if the parent has room for a swipe |
| Geometry.FallbackWorksIff | agent/executor/actions.py:2212-2225 | with the fallback, scrolling up succeeds if and only if it does without, with the same gesture, or the parent has room for a swipe |
| Geometry.GestureIsOfRegion | agent/executor/actions.py:2174-2233 | every gesture is the well-drawn swipe of the region it names, and the region fits the direction |
| Geometry.ListIsPreferred | agent/executor/actions.py:2174-2196 | the visible list is preferred wherever its swipe is long enough and stays in the parent |
| Lifecycle.MemoryValid | agent/main.py:146-152 | after any events the deque has no duplicates, at most 500 entries, and exactly the ids of the set |
| Lifecycle.TableChanges | agent/main.py:457-474 | an event puts an execution into the table if and only if it is a matching start_test for one that is neither running nor remembered, and takes it out if and only if it is its end or a shutdown |
| Lifecycle.RelaunchIff | agent/main.py:457-474 | in every run, while fewer than 500 others recorded results since a launch, a start_test puts the execution into the table again if and only if it is neither running nor recorded since |
| Lifecycle.LaunchesAreFarApart | agent/main.py:442-486 | two entries of one execution into the table are separated by recorded results of at least 500 different others, or by an early leave of that execution, whatever the others do |
| Lifecycle.EarlyLeaveRelaunches | agent/main.py:457-474 | after every early leave, alone or at a shutdown, the next start_test launches the execution again |
| Lifecycle.LaunchedTwice | agent/main.py:457-486 | the shortest such run: start, leave, start |
| Lifecycle.MarkedIff | agent/main.py:487-500 | a running execution is marked to stop if and only if a stop came since its last launch |
| Lifecycle.LedgerExact | agent/main.py:436-441 | the ledger holds for each execution exactly its latest result, unless acknowledged with that result's token since |
| Agent.AgentApp.OnMessage | agent/main.py:433-500 | each message changes the state exactly as its event does |
| Agent.AgentApp.LeaveRuntimes | agent/main.py:370 | the end of an execution is its leaving event |
| Agent.AgentApp.ClearRuntimes | agent/main.py:416 | the end of a shutdown is the shutdown event |
| Agent.AgentApp.RememberFinished | agent/main.py:146-152 | the bounded memory changes exactly as specified |
| Agent.AgentApp.SendResultSafe | agent/main.py:242-267 | a result is recorded in ledger and memory, whatever becomes of the send |
| Agent.AgentApp.EnsureAppium | agent/main.py:220-233 | acquiring, failing to start and failing to become ready, as steps of the count |
| Agent.AgentApp.ReleaseAppium | agent/main.py:235-240 | releasing, as a step of the count |
| AppiumRefs.NeverTooHigh | agent/main.py:220-240 | the count never exceeds the holders |
| AppiumRefs.CountExactIff | agent/main.py:220-240 | over whole runs the count is the number of holders if and only if no release by a task that holds nothing happens while another holds the server |
| AppiumRefs.ProperTasksKeepCount | agent/main.py:220-240 | if every task acquires once before its one release, the count is the number of holders throughout |
| AppiumRefs.StartsAndStops | agent/main.py:225-240 | then the server comes up only when nobody holds it and goes down only when nobody is left, and a release that leaves nobody leaves it down |
| AppiumRefs.HoldersHaveServer | agent/main.py:225-240 | then the server is up for every holder |
| AppiumRefs.FailedAcquireExactIff | agent/main.py:229-233 | an acquire that fails while waiting is undone twice, whatever other tasks do in between: the second time is harmless if and only if nobody holds the server then |
| AppiumRefs.FailedAcquireStopsServer | agent/main.py:365-369 | with one holder it stops the server under it |
| RateLimit.Limiter.Check | backend/app/core/ratelimit.py:30-40 | the loop purges, accepts or refuses exactly as specified and leaves other clients alone |
| RateLimit.QueueIsSuffix | backend/app/core/ratelimit.py:33-40 | the queue is always the end of the accepted log and what it dropped is out of the window |
| RateLimit.RefusedIff | backend/app/core/ratelimit.py:33-39 | a request is refused if and only if at least `limit` accepted ones are at most a window old |
| RateLimit.AcceptedFarApart | backend/app/core/ratelimit.py:30-40 | over every run, accepted requests `limit` apart are more than a window apart |
| Subtree.ModuleSubtreeIds | backend/app/repositories/elements.py:66-92 | terminates on every table, cyclic ones included, and returns exactly the ids reachable by child edges |
| Subtree.VisibleIds | backend/app/repositories/elements.py:441-452 | returns the least set holding the visible groups and the existing parents of its members |
| BodyPreview.Request.Preview | backend/app/main.py:121-139 | the preview is the beginning of the body up to one byte over the limit, truncated if and only if it is over the limit, which is if and only if the body does not fit, else the whole body; it is abandoned if and only if the client disconnects first |
| BodyPreview.Request.Receive | backend/app/main.py:152-164 | the application's next message is always the next of the original stream |
| BodyPreview.Stopped | backend/app/main.py:126-139 | reading that stopped without a disconnect met none and agrees with the whole body on whether it fits |

## Left out

- Regular expressions: `re.search` and `re.compile` are parameters; `\w`, `\d` and `str.lower` are modelled on ASCII.
- Validation of search, selection and variables, and variable rendering: short checks and a substitution that do not touch the selectors.
- Unhashable attribute names in raw conditions, which raise a TypeError in the source, are treated as unknown names.
- Nodes are places in an immutable tree: element objects, stale generations, clicks and refreshes of the simulated driver are not modelled, and `index` finds the node itself.
- Resolve.Run: the page fingerprint is an oracle, and a stop request, the deadline and a failing call are one kind of exception, which can come at every cell and on every way to the next page.
- SetChecked.Execute: relocation and retries inside one read, and each wait that polls for a stop request, are one answer of the environment; a value that is not a boolean is never equal to the target.
- StableWait.Execute: a wait between two looks is one stop question; numbers of rectangles are real.
- Slider.Execute: values are real numbers, retries inside one look are one answer, and a settle wait is one stop question.
- ListSearch.Execute: one logical swipe is one step; its physical fallback gestures, and observing and clicking the target, are answers of the environment.
- Geometry: only the margin rounds, and any nearest integer is allowed; element rectangles are integers already.
- Agent.AgentApp.OnMessage: delivery of messages, replays and the driver interrupt change no state that is modelled.
- Agent.AgentApp.EnsureAppium: a start that goes on in its thread after cancellation changes the server only within the step; a release cancelled before it gets the lock is a run without that release.
- Subtree.VisibleIds: the query results are parameters, and filtering the groups by the set is left out.
- BodyPreview: parsing and cleaning the preview for the log, and the skipped kinds of request, for which the original stream is passed on as it is.
- Appium, HTTP, adb, websocket transport, credentials, the user interface, SQL, migrations and the API layer.
