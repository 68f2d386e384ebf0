# CocoBrowser: verified models of its algorithmic parts

CocoBrowser is a desktop shell around several pieces of code with real invariants. This project
models them in Dafny and proves what they promise, for every input, every run and every
behaviour of chance, clock, network or file system; those four are always arbitrary parameters.

| file | what it models |
|---|---|
| `HumanTyping.dfy`, `KeyboardLayout.dfy` | the typing simulator: steps, bursts of backspaces, the run loop and its cut-off |
| `TypingLimits.dfy` | on which texts the simulator's promises hold, and how many errors its cut-off tolerates |
| `NetscapeCookies.dfy` | printing and parsing Netscape cookie files |
| `CookieStore.dfy`, `ChromeTime.dfy` | Chromium's cookie table: timestamps, upsert loop, reader, copy between profiles |
| `DomainGrouping.dfy` | cookies grouped by domain |
| `Downloader.dfy` | the resumable download: retries, restarts, ranged replies, cancellation, backoff |
| `Registry.dfy`, `Versions.dfy` | the registry of installed versions and its garbage collector |
| `Fleet.dfy` | profiles, pending updates, downloads in flight and the registry as one state machine |
| `NotificationGrouping.dfy` | update notifications merged per browser and version |
| `ProcessTree.dfy` | the process-tree walk and the kill list |
| `RateLimiter.dfy` | the fixed-window limiter |
| `McpConfig.dfy` | the editor of MCP client configs |
| `Text.dfy`, `StringOrder.dfy`, `Cookies.dfy`, `Prelude.dfy` | strings, order, shared records |

Each imperative part has two forms: a method or class that follows the code's loops and field
updates, and a specification function or predicate it is proved equal to. The theorems are about the
specification, so they hold of the methods too.

## What turned out not to hold

Six promises of the code, its comments or its tests are false in general. Each has a failing input and
the exact condition under which it holds, stated on what a caller can see beforehand.

- A successful download is not always complete. `DownloadIsSafeIff`: it is, for every network
  behaviour, if and only if the partial file found at the start is a prefix of the object and the
  server neither answers 206 with `Content-Range: bytes a-b/*` next to a `Content-Length`, nor 416 without
  a total to a range it could satisfy (objects of at most one byte aside). In the first case the length
  of the remaining part is taken for the total (`downloader.rs:316-333`), in the second the missing total
  for completeness (`downloader.rs:256-259`), and the download stops as "already complete".
- The comment at `downloader.rs:246-249` says that an oversized partial is discarded on 416. The code
  keeps it and returns success; the model follows the code (`ForeignPartialIsAccepted`).
- The typed text is not always the target, as `human_typing.rs:391-409` expects. `TextIsAlwaysTypedIff`:
  it is, for every run, if and only if the text has no character with a key; on any other text a run of
  draws the code can sample is cut off, at ten events per character, before the text is there. How many
  errors it takes: up to four never matter (`TypingBudget`), and on every text whose slips can be
  overlooked the fifth does (`ToleratesErrorsIff`; `FiveErrorsCanCutTheTextShort` is the text "aa").
- Event times can decrease, against `human_typing.rs:411-419`, because the backspace sample is the one delay
  that is not clamped. `TimesNeverDecreaseForSampledIff`: for everything the samplers can return they
  never do, if and only if only the last character of the text may have a key. On any other text one
  overlooked slip and a second backspace just below zero suffice (`OneSlipCanTurnBackTime`, on "aa").
- Two updates can share a notification id, and then one is not recorded and its version not protected
  (`UpdateCanGoUnrecorded`). `AutoUpdateIsPendingIff` says exactly when an update is recorded; with
  underscore-free names it always is (`AutoUpdateIsPending`). It takes a version text with an underscore,
  which the code does not refuse (`kernel/persona.rs:277-284` looks at the digits before the first dot
  only) but which no released version has: this is a limit of the function.
- Two updates can share a grouping key, and then they are merged (`KeysCanCollide`). `GroupedPerUpdateIff`:
  every update has its own notification if and only if no two updates share a key. With the browser names
  the program supports (`browser.rs:26-32`) none do (`GroupedPerUpdate`), so this too is a limit of the
  function alone.

The Netscape format loses some cookies by design of its line parser; `NetscapeRoundTripIff` says
exactly which.

## Modelling decisions

- Every random draw is an arbitrary value. The delays of the typing simulator are computed with
  logarithms and word lists; here each delay sample and the difficulty of the current word are
  parameters, and only the clamps are kept. `Sampled` bounds the draws to what the code's samplers can
  return: uniform samples below one, and no backspace time below -0.016 (the mean of 0.12 less 6.79
  deviations of 0.02, `human_typing.rs:115-121`).
- The server of the downloader holds one fixed byte string and answers as RFC 9110 asks (sections
  14.2, 14.4, 15.3.7 and 15.5.17), except that it may also leave `Content-Range` out of a 206, which the
  code provides for. It is free to ignore a range, to reject one it could satisfy, or to refuse. A body may
  stop anywhere, but ends cleanly only when it is complete, as it does with a declared length or chunked
  framing. File removals succeed.
- `trail` in the downloader records every content the file ever had, so that "the partial is a prefix
  of the object" covers every moment and not only the end.
- Timestamps are 64-bit and wrap, as in the release build; integer division truncates toward zero.
- SQL statements are operations on the sequence of rows. Values the browser encrypted are read through
  an arbitrary decryption function.
- Version texts are parsed by an arbitrary function to four numbers; the order on those is the code's.
- Each public operation of registry and updater is one atomic step, and what is on disk follows the
  registry; installed kernels count as registered. `update_profile_version` may refuse for any further
  reason (`refused`).
- `hide` statements only keep definitions a proof does not need away from the solver.

## Model

| member | source | states |
|---|---|---|
| HumanTyping.StepShape | src-tauri/src/human_typing.rs:245-370 | from a reachable state a step stops exactly at the target; otherwise it erases the end of a wrong tail, or types one character that is right unless the draw errs, and inside a burst only once nothing wrong is left |
| HumanTyping.WrongTailIsErasedIff | src-tauri/src/human_typing.rs:263-301 | a wrong tail is erased now if and only if a burst is under way, the text is typed to its end, its last character looks like the end of a sentence, or the notice draw falls below 0.8 for a tail of two or more, 0.85 for a tail of one |
| HumanTyping.WrongCharIff | src-tauri/src/human_typing.rs:316-370 | the wrong character is typed if and only if the swap draw falls below 0.015 where the next two characters may be swapped, or the error draw below the bound of the word's difficulty where the character has a key; a swap types the character after, a slip a key beside |
| HumanTyping.StepTakes | src-tauri/src/human_typing.rs:284-299 | how far each step moves the clock: the keystroke sample but at least 20 ms, the backspace sample, and before the first backspace of a burst a reaction of at least 100 ms |
| HumanTyping.StepPaysPotential | src-tauri/src/human_typing.rs:245-370 | a potential over text, mismatches and remaining errors drops with every event |
| HumanTyping.TypingBudget | src-tauri/src/human_typing.rs:372-384 | with at most k erroneous draws a run of n characters emits at most n + 2kn events, and for k up to 4 the replayed text is the target, whatever the text and keyboard |
| TypingLimits.TypingBudgetIsAttained | src-tauri/src/human_typing.rs:372-384 | on every text whose first slip can be overlooked to the end, some sampled run with k errors, for each k up to 4, emits exactly n + 2kn events |
| TypingLimits.ToleratesErrorsIff | src-tauri/src/human_typing.rs:372-384 | on every such text of at least two characters all runs with at most k errors give the target if and only if k is at most 4 |
| TypingLimits.TextIsAlwaysTypedIff | src-tauri/src/human_typing.rs:245-384 | on a well laid out keyboard every run replays to the text if and only if no character of the text has a key, and draws the code can sample already show it |
| TypingLimits.FiveErrorsCanCutTheTextShort | src-tauri/src/human_typing.rs:372-384 | on QWERTY, five sampled slips on "aa" exhaust the cut-off and leave "a" |
| HumanTyping.RunRefines | src-tauri/src/human_typing.rs:245-384 | after any number of steps the replayed events are the text on screen, the cursor is on it, no correct prefix was lost, and only the target ends a run early |
| HumanTyping.BurstErasesWrongTail | src-tauri/src/human_typing.rs:269-301 | once begun, a burst of backspaces erases exactly the wrong tail and ends at the longest correct prefix |
| HumanTyping.OffKeyboardTextIsSpelled | src-tauri/src/human_typing.rs:316-320 | text without keyboard characters is typed with no erroneous draw, one event a character, spelling it |
| HumanTyping.ErrsIffWrong | src-tauri/src/human_typing.rs:322-362 | on a well laid out keyboard the typed character differs from the intended one exactly when the draw errs |
| HumanTyping.TimesNeverDecreaseIff | src-tauri/src/human_typing.rs:284-299 | along one run the event times never decrease exactly when no backspace of it draws a negative pause: no keystroke turns back time |
| TypingLimits.TimesNeverDecreaseForSampledIff | src-tauri/src/human_typing.rs:269-301 | for all draws the samplers can return event times never decrease if and only if no character but the last may have a key, on a well laid out keyboard whose first neighbours end no sentence |
| TypingLimits.TimesNeverDecreaseForAnyDrawsIff | src-tauri/src/human_typing.rs:284-299 | with unbounded delay samples they never decrease if and only if no character has a key |
| TypingLimits.QwertyHidesSlips | src-tauri/src/human_typing.rs:42-56 | on the code's layout the first neighbour of every key ends no sentence |
| HumanTyping.BurstCanTurnBackTime | src-tauri/src/human_typing.rs:290-291 | inside a burst a negative backspace sample makes time go backwards, however long the run goes on |
| TypingLimits.OneSlipCanTurnBackTime | src-tauri/src/human_typing.rs:290-291 | on QWERTY, a sampled run from the start on "aa" whose event times decrease |
| HumanTyping.MarkovTyper.FindFirstError | src-tauri/src/human_typing.rs:250-261 | the scan finds the end of the longest common prefix, or the target length if nothing is wrong |
| HumanTyping.MarkovTyper.Step | src-tauri/src/human_typing.rs:245-370 | the field updates of one step are the specified transition |
| HumanTyping.MarkovTyper.Run | src-tauri/src/human_typing.rs:372-384 | the loop returns the specified run: its replay is the text on screen, and it ends at the target or after 10n + 1 events |
| KeyboardLayout.NeighborsAreBesideIff | src-tauri/src/human_typing.rs:62-90 | the neighbours of a key are exactly the keys at most one row and one column away from it, never the key itself |
| KeyboardLayout.NeighborIsWrong | src-tauri/src/human_typing.rs:105-113 | a neighbour draw for a key never yields the intended character in either case |
| KeyboardLayout.DrawIffNeighbor | src-tauri/src/human_typing.rs:105-113 | every neighbour can be drawn and nothing else can |
| KeyboardLayout.HasKeyIff | src-tauri/src/human_typing.rs:58-60 | a character has a key exactly when its lower case stands in some row |
| KeyboardLayout.LowerMeaning | src-tauri/src/human_typing.rs:58-60 | exactly the twenty-six ASCII capitals are lowered before a key is looked up |
| KeyboardLayout.QwertyIsWellLaidOut | src-tauri/src/human_typing.rs:42-56 | the code's layout has no key twice, none upper case, and at least two keys in a row |
| NetscapeCookies.NetscapeRoundTripIff | src-tauri/src/cookie_manager.rs:853-1014 | printing any cookie list and parsing it back gives every field the format holds, in order and without errors, exactly when each cookie has plain fields, a domain that starts like neither a comment nor a space, and a value that is there and ends in no space |
| NetscapeCookies.ParsedLinesArePlain | src-tauri/src/cookie_manager.rs:861-895 | whatever is parsed has no tab or line break in a text field and a domain that starts no comment |
| NetscapeCookies.ErrorsNameBadLines | src-tauri/src/cookie_manager.rs:867-875 | the errors name exactly the lines with fewer than seven fields, numbered from one |
| NetscapeCookies.LineMeaning | src-tauri/src/cookie_manager.rs:861-896 | without the spaces around it a line is skipped if empty or a comment, an error if it has fewer than six tabs, else the cookie its tab-joined fields stand for: later fields ignored, the flag in any case, an expiry that is no 64-bit integer counting as none |
| NetscapeCookies.PrintedFields | src-tauri/src/cookie_manager.rs:1001-1011 | the seven fields of a printed cookie, the second saying if the domain starts with a dot |
| NetscapeCookies.LineEndsDoNotMatter | src-tauri/src/cookie_manager.rs:861-865 | with every line break written as carriage return and line feed, or with one more line break at the end, the same cookies and numbered errors are parsed |
| NetscapeCookies.ParseNetscapeByPieces | src-tauri/src/cookie_manager.rs:861-865 | parsing the lines is parsing the pieces between line breaks |
| NetscapeCookies.PrintedFileIsDetected | src-tauri/src/cookie_manager.rs:988-995 | a printed file starts with the header line and takes the Netscape branch whatever the JSON parser accepts |
| NetscapeCookies.DetectionIff | src-tauri/src/cookie_manager.rs:988-995 | a text is taken for JSON exactly if, without the spaces around it, it starts with a bracket and is a JSON array |
| NetscapeCookies.FormatNetscapeCookies | src-tauri/src/cookie_manager.rs:998-1014 | the loop prints the specified text |
| NetscapeCookies.ParseNetscapeCookies | src-tauri/src/cookie_manager.rs:853-899 | the loop collects the specified cookies and numbered errors |
| Text.SplitOfJoin | src-tauri/src/cookie_manager.rs:867 | splitting undoes joining when no piece holds the separator |
| Text.ParseOfShow | src-tauri/src/cookie_manager.rs:880 | every 64-bit integer is read back from its decimal text |
| Text.ParseI64Iff | src-tauri/src/cookie_manager.rs:880 | exactly an optional sign and at least one digit are read, as the number they stand for, unless it does not fit |
| Text.TrimDropsSpaces | src-tauri/src/cookie_manager.rs:862 | trimming drops spaces at both ends and nothing else |
| Text.SpacesAreListed | src-tauri/src/cookie_manager.rs:862 | the characters trimmed are the twenty-five with the Unicode property White_Space |
| Text.ContainsIff | src-tauri/src/mcp_integrations.rs:399 | a text contains a part if and only if the part starts at some place of it |
| ChromeTime.UnixRoundTripIff | src-tauri/src/cookie_manager.rs:347-361 | seconds to microseconds and back is the identity exactly when nothing overflows and the time is not -11644473600 |
| ChromeTime.ChromeRoundTripIff | src-tauri/src/cookie_manager.rs:347-361 | the other way exactly zero and the whole seconds other than the 1970 epoch survive |
| ChromeTime.ReadTimesAreStorable | src-tauri/src/cookie_manager.rs:347-361 | a time read from Chromium can be stored again exactly when it is zero or at least a second away from zero |
| ChromeTime.EpochsAreYearsApart | src-tauri/src/cookie_manager.rs:347-361 | the constant between the two clocks is the number of seconds from 1601 to 1970 in the Gregorian calendar |
| CookieStore.WriteAllSettles | src-tauri/src/cookie_manager.rs:455-534 | after any list the table is the old rows in place followed by the inserted ones, each under the last listed cookie of its key; copied counts insertions and copied + replaced is the list length |
| CookieStore.InsertedRowsAreFirst | src-tauri/src/cookie_manager.rs:500-530 | a row is inserted only for a key the table lacked, by the first listed cookie with that key |
| CookieStore.WrittenRowMeaning | src-tauri/src/cookie_manager.rs:455-534 | each row of the result is an old row or a first-listed insertion, settled; the table grows by exactly the copied count |
| CookieStore.WrittenRowOrigin | src-tauri/src/cookie_manager.rs:479-530 | an old row keeps its place, creation time, site and priority; a new one is a first-party row of medium priority that was created when the first listed cookie of its key was |
| CookieStore.WriteAllKeepsIndex | src-tauri/src/cookie_manager.rs:334-335 | no list of cookies breaks the unique index over host, top frame site, name and path |
| CookieStore.WrittenRowSurvivesRelaunch | src-tauri/src/cookie_manager.rs:446-467 | written under an ordinary clock every row is plaintext, persistent, expires after 1601, and its port and scheme agree with its secure flag, for session cookies too |
| CookieStore.WrittenColumns | src-tauri/src/cookie_manager.rs:479-530 | flags are written as 0 or 1 after the cookie, and the time of the last update is now exactly if now is storable |
| CookieStore.OverwrittenRowDelivers | src-tauri/src/cookie_manager.rs:365-424 | reading a written row gives the cookie's fields back, each time exactly when it is storable |
| CookieStore.ReadValueMeaning | src-tauri/src/cookie_manager.rs:394-405 | a plaintext value is read as it is, an encrypted one as what the key makes of it for the host of the row, and as nothing without a fitting key |
| CookieStore.CreationTimeReads | src-tauri/src/cookie_manager.rs:407-424 | an update does not change the creation time a reader sees, and a new row reads as the creation time of its cookie exactly if that is storable |
| CookieStore.CopyDelivers | src-tauri/src/cookie_manager.rs:727-845 | in the target every row under a copied key reads as the last copied cookie of that key, and every other row is untouched |
| CookieStore.CopyLosesNothing | src-tauri/src/cookie_manager.rs:727-845 | every copied cookie has a row in the target |
| CookieStore.CopyIsSelective | src-tauri/src/cookie_manager.rs:751-766 | every key of a source row that is asked for, by host and by name unless that is empty, has a row in the target afterwards; a row of any other key is an old one, untouched |
| CookieStore.CopyIsExact | src-tauri/src/cookie_manager.rs:751-845 | from one profile's table to another's reader, the last selected cookie of each key arrives unchanged but for creation time and the expiry of session cookies, and its access time arrives exactly when the raw value is zero or at least a second away from zero |
| CookieStore.PickDistributes | src-tauri/src/cookie_manager.rs:751-766 | selecting keeps the reading order |
| CookieStore.CookieDb.WriteChromeCookies | src-tauri/src/cookie_manager.rs:435-535 | the upsert loop writes the specified table and counters and keeps the unique index |
| CookieStore.CookieDb.ReadChromeCookies | src-tauri/src/cookie_manager.rs:365-427 | the reader returns one cookie a row, in order |
| CookieStore.CopyCookies | src-tauri/src/cookie_manager.rs:751-830 | reading, selecting and writing compose to the specified table, and exactly what was asked for is copied |
| DomainGrouping.GroupingConserves | src-tauri/src/cookie_manager.rs:560-580 | flattened, the groups are the cookies read, as a multiset, and their counts add up to the total |
| DomainGrouping.GroupsAreOrdered | src-tauri/src/cookie_manager.rs:569-578 | domains strictly increase and no group is empty |
| DomainGrouping.GroupKeepsOrder | src-tauri/src/cookie_manager.rs:560-567 | a cookie sits in its group behind exactly the earlier cookies of its domain |
| DomainGrouping.GroupsHoldTheirDomain | src-tauri/src/cookie_manager.rs:560-576 | each group holds, in reading order, exactly the cookies of the domain it is labelled with, and counts them; every domain has a group |
| DomainGrouping.GroupByDomain | src-tauri/src/cookie_manager.rs:560-580 | whatever order the hash map yields, the result is the one specified grouping with its total |
| StringOrder.SortedListingIsUnique | src-tauri/src/cookie_manager.rs:578 | a set of strings has one strictly sorted listing |
| StringOrder.LessIff | src-tauri/src/cookie_manager.rs:578 | a string comes first if it is a proper prefix or smaller at the first place where the two differ |
| Downloader.DownloadKeepsPrefix | src-tauri/src/downloader.rs:220-494 | from a prefix of the object every content the file ever has is a prefix; cancellation leaves no file; with honest totals success means the whole object |
| Downloader.DownloadIsSafeIff | src-tauri/src/downloader.rs:220-494 | no network behaviour makes a call succeed with an incomplete file, if and only if the initial partial is a prefix and the server's totals are honest |
| Downloader.ForeignPartialIsAccepted | src-tauri/src/downloader.rs:245-268 | from any partial that is not a prefix, oversized ones included, some behaviour ends in success with a wrong file |
| Downloader.HiddenTotalStopsEarly | src-tauri/src/downloader.rs:245-359 | if a 206 hides the total behind a star but shows its length, or a 416 names no total, some behaviour ends in success one byte short |
| Downloader.SuccessIsSound | src-tauri/src/downloader.rs:311-359 | a usable reply continues the kept partial exactly, and only hidden totals make the size check skip the rest |
| Downloader.ReceiveKeepsPrefix | src-tauri/src/downloader.rs:391-424 | the read loop only ever appends the next bytes of the object, and a clean end means all of them |
| Downloader.DownloadEffort | src-tauri/src/downloader.rs:211-493 | whatever the network does, a call sends at most 36 requests and asks to sleep at most 232 seconds |
| Downloader.DownloadEffortIsTight | src-tauri/src/downloader.rs:211-493 | some network makes it 36 requests and 232 seconds |
| Downloader.DownloadFollowsFate | src-tauri/src/downloader.rs:211-494 | from any prefix of the object, for every server and network, result, length of the file, requests and seconds slept are those of a count over the script and the bytes on disk |
| Downloader.CleanEndSucceeds | src-tauri/src/downloader.rs:391-470 | on a server with honest totals, after any restarts still allowed, an answer whose body ends cleanly and uncancelled makes the call succeed with the whole object |
| Downloader.PatienceSucceeds | src-tauri/src/downloader.rs:206-494 | a call gets through up to five send errors or rejected ranges and five broken bodies, in any order, and then completes |
| Downloader.BackoffIsPower | src-tauri/src/downloader.rs:283-490 | the delays are powers of two, up to sixteen seconds |
| Downloader.Client.SendRequest | src-tauri/src/downloader.rs:226-298 | the retry loop around one request |
| Downloader.Client.ReadBody | src-tauri/src/downloader.rs:391-424 | the read loop over one body |
| Downloader.Client.DownloadBrowser | src-tauri/src/downloader.rs:183-495 | the nested loops return the specified outcome within the effort bound, keep every content a prefix, end as the count of `Fate` says, and succeed only with the whole object under honest totals |
| Versions.NewerIsTransitive | src-tauri/src/version_cache.rs:55-90 | newer is the strict part of a total preorder |
| Versions.NewerIff | src-tauri/src/version_cache.rs:59-69 | the newer version has the larger number in the first of major, minor, patch and build in which the two differ |
| Versions.Newest | src-tauri/src/downloaded_browsers_registry.rs:318-323 | the maximum under that preorder, in any iteration order |
| Registry.CleanupKeepsNeeded | src-tauri/src/downloaded_browsers_registry.rs:257-291 | cleanup removes no version a profile uses or runs, nor a pending one of a browser that runs |
| Registry.CleanupKeepsIff | src-tauri/src/downloaded_browsers_registry.rs:257-336 | exactly what is used, runs, has an update pending for a browser that runs, or is kept as the last version of a browser of which nothing is needed stays registered |
| Registry.CleanupKeepsOne | src-tauri/src/downloaded_browsers_registry.rs:293-336 | every browser with a version keeps one; where none was needed it keeps exactly one, and that is a newest |
| Registry.CleanupIsIdempotent | src-tauri/src/downloaded_browsers_registry.rs:237-362 | a second cleanup with the same inputs removes nothing, whichever versions it picks to keep |
| Registry.BrowserRegistry.AddBrowser | src-tauri/src/downloaded_browsers_registry.rs:79-86 | exactly one more pair is registered |
| Registry.BrowserRegistry.RemoveBrowser | src-tauri/src/downloaded_browsers_registry.rs:88-91 | exactly that pair is gone, and the result says if it was there |
| Registry.BrowserRegistry.FindUnneeded | src-tauri/src/downloaded_browsers_registry.rs:257-291 | the nested loops find exactly what is registered and not needed |
| Registry.BrowserRegistry.ChooseKeep | src-tauri/src/downloaded_browsers_registry.rs:298-336 | exactly the browsers about to lose every version get a newest one to keep |
| Registry.BrowserRegistry.CleanupUnusedBinariesInternal | src-tauri/src/downloaded_browsers_registry.rs:237-362 | the loops remove exactly what is not needed and not kept, and report what was removed with its files |
| Fleet.StepIsSafe | src-tauri/src/auto_updater.rs:290-363 | every step of downloads, launches, stops, updates and cleanups keeps each profile's version registered and downgrades no profile |
| Fleet.RunIsSafe | src-tauri/src/downloaded_browsers_registry.rs:237-362 | in every state of every run each profile's version is registered, and no download in flight is registered already |
| Fleet.RunNeverDowngrades | src-tauri/src/auto_updater.rs:506-579 | along any run a profile only moves to versions that are not older |
| Fleet.AutoUpdateMeaning | src-tauri/src/auto_updater.rs:303-358 | an auto-update changes exactly the stopped same-OS profiles of its browser that are older and not refused, and only their version |
| Fleet.ToLatestMeaning | src-tauri/src/auto_updater.rs:520-575 | moving to the newest installed versions changes exactly the stopped same-OS profiles that are older and not refused |
| Fleet.ToLatestIsComplete | src-tauri/src/auto_updater.rs:506-579 | afterwards no such profile is older than any installed version of its browser |
| Fleet.OnCloseIsComplete | src-tauri/src/auto_updater.rs:469-502 | after a browser is found closed its profile, cross-OS or not, is no older than any installed version unless refused, and no other profile changed |
| Fleet.DownloadStepIsSafe | src-tauri/src/downloader.rs:516-602 | starting, finishing and failing downloads take no profile's version away |
| Fleet.DownloadRegisters | src-tauri/src/downloader.rs:516-602 | a completed download registers its version and no other, a failed one unregisters its own and no other, and both are no longer in flight |
| Fleet.AutoUpdateIsPendingIff | src-tauri/src/auto_updater.rs:311-341 | after an auto-update the pair is pending exactly if it was before or a running same-OS profile of the browser had a free notification id |
| Fleet.AutoUpdateIsPending | src-tauri/src/auto_updater.rs:311-341 | with underscore-free names an auto-update of a browser that runs here always leaves the update pending |
| Fleet.AutoUpdateRecordsOnly | src-tauri/src/auto_updater.rs:311-341 | whatever an auto-update adds to the pending list is the entry, id and all, of a same-OS profile of its browser that runs |
| Fleet.PlainIdsAreInjective | src-tauri/src/auto_updater.rs:321 | with underscore-free browser and version an id determines its update |
| Fleet.UpdateCanGoUnrecorded | src-tauri/src/auto_updater.rs:311-341 | while the update 145 to 1_to_146 is pending, a running profile at 145_to_1 does not get its update to 146 recorded |
| Fleet.CollidingIdHidesUpdate | src-tauri/src/auto_updater.rs:332-340 | so it goes for every browser and version: an update whose id a pending entry for another update holds leaves no trace |
| Fleet.IdsCanCollide | src-tauri/src/auto_updater.rs:321 | the two ids of such a pair are equal |
| Fleet.SupportedNamesArePlain | src-tauri/src/browser.rs:26-32 | no supported browser has an underscore in its name |
| Fleet.RunKeepsIdsDistinct | src-tauri/src/auto_updater.rs:332-340 | no run ever holds two notifications with one id |
| Fleet.PendingVersionStays | src-tauri/src/downloaded_browsers_registry.rs:277-287 | while its entry is not dismissed and some profile of the browser runs at every cleanup, a pending version stays registered through any run |
| Fleet.AutoUpdater.StartDownload | src-tauri/src/downloader.rs:516-546 | a download starts only if it is neither running nor done |
| Fleet.AutoUpdater.FinishDownload | src-tauri/src/downloader.rs:588-602 | a finished download is registered or, having failed, removed, and is no longer in flight |
| Fleet.AutoUpdater.AutoUpdateProfileVersions | src-tauri/src/auto_updater.rs:290-363 | the loop over the listed profiles is the specified step, and safe, and it names exactly the profiles whose version changed |
| Fleet.AutoUpdater.LatestInstalled | src-tauri/src/auto_updater.rs:458-465 | each browser with installed versions resolves to a newest one |
| Fleet.AutoUpdater.UpdateProfileToLatestInstalled | src-tauri/src/auto_updater.rs:469-502 | one profile, whatever system it was made on, moves to a newest installed version of its browser, if that is newer and nothing refuses; safe |
| Fleet.AutoUpdater.UpdateStopped | src-tauri/src/auto_updater.rs:520-575 | one round of the sweep: a stopped same-OS profile moves to the version its browser resolved to |
| Fleet.AutoUpdater.UpdateProfilesToLatestInstalled | src-tauri/src/auto_updater.rs:506-579 | the loop over the listed profiles is the specified step, and safe, and it names exactly the profiles whose version changed |
| Fleet.AutoUpdater.DismissUpdateNotification | src-tauri/src/auto_updater.rs:388-396 | only the notification with that id is dropped |
| Fleet.AutoUpdater.GetPendingUpdateVersions | src-tauri/src/auto_updater.rs:443-455 | the set of pairs with a pending update |
| Fleet.AutoUpdater.CleanupUnusedBinaries | src-tauri/src/downloaded_browsers_registry.rs:1012-1037 | profiles, running profiles and pending updates reach the collector, and the result is a safe cleanup step |
| NotificationGrouping.MergedMeaning | src-tauri/src/auto_updater.rs:265-280 | a merged notification exists exactly for the keys that occur and affects exactly the profiles listed under its key |
| NotificationGrouping.MergedKeepsFirst | src-tauri/src/auto_updater.rs:270-279 | otherwise it is the first notification under the key |
| NotificationGrouping.MergedTwiceIsSorted | src-tauri/src/auto_updater.rs:271-276 | a merged list is sorted without duplicates |
| NotificationGrouping.GroupedPerUpdateIff | src-tauri/src/auto_updater.rs:261-287 | each update of the input has exactly one notification in the result, for exactly its profiles, if and only if no two updates share a key |
| NotificationGrouping.GroupedPerUpdate | src-tauri/src/auto_updater.rs:261-287 | so it is for the supported browsers and for every underscore-free browser name |
| NotificationGrouping.KeysCanCollide | src-tauri/src/auto_updater.rs:268 | for a browser whose name continues another one's behind an underscore two updates can share a key, and then one of them has no notification of its own |
| NotificationGrouping.GroupUpdateNotifications | src-tauri/src/auto_updater.rs:261-287 | the merged notifications, each once, newest first, whatever order the hash map yields |
| ProcessTree.GetAllDescendantPids | src-tauri/src/platform_browser.rs:209-236 | for every parent table, cyclic or not, the worklist ends with exactly the reachable pids other than the root, each once |
| ProcessTree.AssemblePidsToKill | src-tauri/src/platform_browser.rs:596-619 | the kill list starts with the browser and holds exactly the reachable pids and those on the profile path, each once |
| ProcessTree.PushChildren | src-tauri/src/platform_browser.rs:726-740 | one scan of the table in any order expands the current pid |
| ProcessTree.ClosedContainsReachable | src-tauri/src/platform_browser.rs:715-743 | a set closed under children holds everything reachable from its members |
| RateLimiter.RateOverPeriods | src-tauri/src/local_rate_limit.rs:36-51 | over any run and any k periods from any instant at most (k + 1) * limit calls are granted |
| RateLimiter.RateBoundIsAttained | src-tauri/src/local_rate_limit.rs:36-51 | for every limit, k of at least one and period of at least two ticks some run is granted that many |
| RateLimiter.TryMeaning | src-tauri/src/local_rate_limit.rs:36-51 | a new window opens exactly when a full period has passed, and a call is granted exactly while its window has room |
| RateLimiter.FixedWindowLimiter.TryAcquire | src-tauri/src/local_rate_limit.rs:36-51 | one call is the specified transition, and a denial under a healthy lock means that limit calls were granted less than a period before |
| McpConfig.ReadAfterEdit | src-tauri/src/mcp_integrations.rs:454-484 | what is read at the path after an edit is the edited container |
| McpConfig.LastEditWins | src-tauri/src/mcp_integrations.rs:509-550 | editing twice is editing once with the second edit: installing is idempotent, uninstalling forgets what was installed |
| McpConfig.EditIsLocal | src-tauri/src/mcp_integrations.rs:454-473 | no path that leaves the written one sees a change |
| McpConfig.EditIsNoOpIff | src-tauri/src/mcp_integrations.rs:532-550 | an edit changes nothing exactly when the container exists and already reads that way |
| McpConfig.TransformedEntryMatchesIff | src-tauri/src/mcp_integrations.rs:364-407 | for every client the written entry is recognised exactly if the URL has the application's form |
| McpConfig.EntryShape | src-tauri/src/mcp_integrations.rs:364-391 | for every client the entry names the URL in exactly one field, the one that client reads, and declares the client's word for an HTTP server |
| McpConfig.EntryExtras | src-tauri/src/mcp_integrations.rs:364-391 | what some clients ask for besides: flags, tools, source, name and timeout; no entry is switched off |
| McpConfig.ConfigKeyIff | src-tauri/src/mcp_integrations.rs:222-325 | a client is known exactly if it is listed, and its key is one listed with it |
| McpConfig.LocalUrlMatches | src-tauri/src/mcp_integrations.rs:396-407 | every URL http://127.0.0.1:port/mcp/token has it |
| McpConfig.ConnectedIff | src-tauri/src/mcp_integrations.rs:391-407 | connected if and only if at the path there is an object with an entry, under our name where there is one, whose url, uri or serverUrl starts like a local address and has /mcp/ in it |
| McpConfig.NestedObjectIsLookup | src-tauri/src/mcp_integrations.rs:475-484 | the container is what walking down the path finds, if that is an object |
| McpConfig.InstallConnectsIff | src-tauri/src/mcp_integrations.rs:486-530 | after installing, the client shows as connected exactly if the URL has the application's form |
| McpConfig.UninstallRestoresIff | src-tauri/src/mcp_integrations.rs:509-550 | uninstalling after installing gives the tree back exactly if the container was there without an entry of ours |
| McpConfig.UninstallDisconnectsIff | src-tauri/src/mcp_integrations.rs:486-504 | what is no object stays as it is; after uninstalling, a client shows as connected exactly through an entry under another name |
| McpConfig.ConfigFile.InstallGeneric | src-tauri/src/mcp_integrations.rs:509-530 | an unknown client changes nothing; otherwise the file holds the specified tree |
| McpConfig.ConfigFile.UninstallGeneric | src-tauri/src/mcp_integrations.rs:532-550 | an unknown client or a missing file changes nothing; otherwise the file holds the specified tree |
| McpConfig.ConfigFile.IsGenericAgentConnected | src-tauri/src/mcp_integrations.rs:486-504 | connected as specified, and never without a known client and a file |

## Left out

- Typing delays as numbers, the fatigue multiplier, word difficulty and bigram tables: floating-point tuning; each delay sample and the difficulty are parameters.
- JSON cookie files, cookie validation on import, encryption of exports: library calls or single-expression checks.
- SQL errors, locking and the top-level checks of copying (running browser, missing profile): the table is always reachable.
- In the downloader: progress events, the buffer between chunk and file, write errors, and the maps of cancellation tokens.
- Stale-entry checks, empty-folder removal and the disk scan of the registry, and version consolidation: what is on disk follows the registry here.
- The parsing of version texts: an arbitrary function, so nothing depends on it.
- Signals sent to the processes on the kill list, and their retries.
- Reading and writing JSON, TOML and YAML files, and the table of config paths: the editor works on the parsed tree.
- EditAt: the code walks mutable references into one tree, the model rebuilds the tree along the path, because the tree is a value here; aliasing is not captured.
- UpdateProfilesToLatestInstalled: the code resolves the newest version browser by browser between the updates of profiles; the model resolves all browsers first, because no update changes what is installed.
