# Verified model of code-graph-mcp's algorithmic core

A Dafny model of eight pieces of code-graph-mcp, with proofs of what each is relied on for:

- `Graphs`, `TarjanScc`: the strongly-connected-components search behind the circular-dependency metric, as a class
  over the shared dictionaries and stack that the recursive closure mutates.
- `RustBlanker`: the comment and literal blanker of the same script.
- `Budget`, `Interleaving`: the output-budget optimiser (degradation order, prefix search, greedy fill, group cap,
  proportional interleave).
- `Updater`: the auto-updater's persistent record. A run is a sequence of checks on a clock that never goes back;
  every effect's outcome is chosen freely by the environment.
- `Sentinel`: installing and removing the managed block in the user's own CLAUDE.md.
- `ShellWords`: the three shell quoters and the transcript's own tokenizer, against the tokenising rules of sections
  2.2.1, 2.2.2 and 2.3 of the Shell Command Language chapter of POSIX.1-2017.
- `Outcome`: attribution of file touches to calls.
- `TestPaths`: the path classifier in Rust and the LIKE/GLOB predicate generated beside it.
- `Rollup`, `Spelling`: the reference rollup and the normal form of symbol spellings.
- `Truncate`: byte-bounded truncation of UTF-8 text.

`Text` and `Options` hold shared definitions. `dafny verify dfyconfig.toml` checks everything.

Loops, in-place updates and state-file saves are methods; each is proved to compute a specification function or to
meet a declarative description, and the lemmas are about those.

Three places where the code and its description differ:

- The comment on `fit` (src/budget.rs:109-112) says the result fits whenever any prefix does. The code looks only at
  no steps, all steps and the midpoints of its search. `Budget.Fit` gives the exact condition,
  `Budget.ShortestPrefix` the case in which the comment is right, and `Budget.FittingPrefixMissed` an input where it
  is wrong.
- The floor under session-start checks is said to hold against any reopen loop (claude-plugin/scripts/auto-update.js:63,
  285-288). A check that is told of a release while another session holds the install lock saves nothing, so the next
  one asks again at once. `Updater.SpacedIffStamped` gives the exact condition and `Updater.LockTakenNotSpaced` the
  failing runs.
- The caller's assertion after blanking (scripts/audit-metrics.py:174) fails on an empty list of lines, since joining
  and splitting it gives one line. `RustBlanker.LinesKeepPlace` states the equivalence.

## Model

| member | source | states |
|---|---|---|
| `TarjanScc.TarjanScc` | scripts/audit-metrics.py:246-279 | For every finite graph and key order: the sets returned are exactly the mutual-reachability classes that a cycle passes through; no list repeats a vertex; no path leads from an earlier list to a later one (so none is returned twice); the answer is empty exactly when the graph is acyclic. |
| `TarjanScc.Tarjan.Strong` | scripts/audit-metrics.py:254-273 | One recursive call keeps the whole search invariant (numbering, stack order, settled components, reachability from and to the running calls) and ends with its vertex either settled with the stack as it found it, or stacked with a low number of an older stacked vertex it reaches. |
| `TarjanScc.Tarjan.Pop` | scripts/audit-metrics.py:266-272 | The popping loop removes exactly the stack from the given vertex up, returns those vertices without repetition, and keeps the on-stack set equal to the stack. |
| `TarjanScc.PoppedIsComponent` | scripts/audit-metrics.py:265-273 | When a call ends with low equal to index, everything above and including its vertex on the stack is one whole strongly connected component. |
| `TarjanScc.PopsComponent` | scripts/audit-metrics.py:265-273 | Popping and emitting that component re-establishes the invariant: the new list is a component, disjoint from those before, with edges only into itself and earlier ones. |
| `TarjanScc.StaysOnStack` | scripts/audit-metrics.py:259-265 | When low is smaller than index the vertex may stay stacked: everything on the stack still reaches a running call. |
| `TarjanScc.AfterCall` | scripts/audit-metrics.py:260-262 | Folding the low number of a finished recursive call into the caller's keeps what the caller knows about its explored edges. |
| `TarjanScc.AfterStacked` | scripts/audit-metrics.py:263-264 | Folding the index of an already stacked successor does the same. |
| `TarjanScc.CyclicOnlyOrdered` | scripts/audit-metrics.py:279 | Filtering for cyclic components keeps the reverse topological order. |
| `TarjanScc.CyclicIffHasCycle` | scripts/audit-metrics.py:279 | The script's test (more than one vertex, or a self-edge) holds of a component exactly when some cycle passes through it. |
| `TarjanScc.ReturnedExactly` | scripts/audit-metrics.py:274-279 | A set is returned if and only if it is a component with a cycle. |
| `RustBlanker.StripRustCommentsAndStrings` | scripts/audit-metrics.py:75-132 | The cursor loop computes the token-by-token blanking of the whole text and terminates on every text. |
| `RustBlanker.BlankIsSafe` | scripts/audit-metrics.py:75-79 | For every text: same length, every newline in place, every character kept or blanked, no quotation mark and no opener of a comment, string, raw string or matching char literal left; so blanking twice is blanking once, and text without openers is unchanged. |
| `RustBlanker.BlankedPiecewise` | scripts/audit-metrics.py:90-128 | Exactly what is blanked: text before the first opener is untouched, that token becomes newlines where it had them and spaces elsewhere, and the text behind it is blanked as a text of its own. |
| `RustBlanker.OpensIff` | scripts/audit-metrics.py:90-125 | A token opens exactly at //, at /*, at a quotation mark, at r with any number of # and a quotation mark, and at a quoted single character that is no backslash. |
| `RustBlanker.LineCommentToken` | scripts/audit-metrics.py:93-95 | A line comment's token holds no newline and ends right before the next one, or with the text. |
| `RustBlanker.RawStringToken` | scripts/audit-metrics.py:110-115 | A raw string's token ends with the first quotation mark followed by as many # as opened it, or with the text when there is none. |
| `RustBlanker.CharToken` | scripts/audit-metrics.py:122-125 | A char literal is three characters. |
| `RustBlanker.NestedCommentToken` | scripts/audit-metrics.py:96-109 | A block comment is one token that ends at its own closing mark, whatever follows: its body may nest comments to any depth and hold any characters, slashes and asterisks included, as long as none forms a mark with the next. |
| `RustBlanker.BlockCommentToken` | scripts/audit-metrics.py:96-109 | For every text, where a block comment opens: if a balanced comment stands there the token is exactly that comment, and if none does the token runs to the end of the text. |
| `RustBlanker.StringToken` | scripts/audit-metrics.py:116-121 | A string literal ends at its first quotation mark behind an even run of backslashes, or at the end of the text when there is none. |
| `RustBlanker.BlockCommentEnd` | scripts/audit-metrics.py:97-107 | The depth-counting loop agrees with the recursive nesting scan. |
| `RustBlanker.StringLiteralQuote` | scripts/audit-metrics.py:117-119 | The escape-skipping loop agrees with the recursive scan for the closing quote. |
| `RustBlanker.LinesKeepPlace` | scripts/audit-metrics.py:173-174 | The caller's line-count assertion holds if and only if the list of newline-free lines is not empty, and then each output line has its input line's place, length and unblanked characters. |
| `Budget.OrderSorted` | src/budget.rs:244-248 | The order lists each unit once, by ascending key and, where keys tie, from the last unit down. |
| `Budget.StandardStepsAre` | src/budget.rs:62-71 | The standard steps are the drop of every unit of the order and the skeleton step of each that has a skeleton, and no other. |
| `Budget.AllStandardSteps` | src/budget.rs:62-83 | After all of them every unit of the order is dropped, the most important included, and every other unit is as it was. |
| `Budget.StandardStepsOrderly` | src/budget.rs:62-71 | Over distinct units every skeleton step precedes every drop and no step repeats, in every prefix. |
| `Budget.DropImpliesSkeleton` | src/budget.rs:62-71 | A prefix that drops a unit holds its skeleton step exactly when the unit has a skeleton. |
| `Budget.ImportantUnitsOutlast` | src/budget.rs:59-83 | From any initial levels and however many standard steps are taken, a unit that started no lower than a less important one is not dropped before it, nor shortened before it if the other has a short form. |
| `Budget.ComputeLevels` | src/budget.rs:75-83 | The loop computes the levels after the first n steps, or after all when n is larger. |
| `Budget.LevelsAfterMonotone` | src/budget.rs:73-83 | A step never raises a level: more steps show no more of any unit. |
| `Budget.LevelsAfterAt` | src/budget.rs:75-83 | A unit's level is its initial one or that of a step taken on it, and is as low as every step taken on it asks. |
| `Budget.LevelsAfterIs` | src/budget.rs:75-83 | After any prefix a unit is dropped exactly if it started so or a step of the prefix drops it, and whole exactly if it started so and no step of the prefix is on it. |
| `Budget.SearchPrefix` | src/budget.rs:137-147 | The binary search ends at the bisection point, which fits unless it is the last prefix, after at most ceil(log2) renders. |
| `Budget.BisectFitsIff` | src/budget.rs:137-147 | With no assumption on sizes, the bisection ends on a fit exactly when the last prefix or one of the midpoints on its failing path fits. |
| `Budget.CeilLog2Exact` | src/budget.rs:137-147 | The render bound used above is the exponent of the least power of two not below the step count. |
| `Budget.Fit` | src/budget.rs:113-163 | The reported levels are those of the search followed by `fill`; output and bytes are the render of those levels; over-budget holds exactly when bytes exceed the budget, and exactly when none of the examined prefixes fits, so never when the fully degraded answer fits; at most 258 + ceil(log2(steps)) renders. |
| `Budget.AllDroppedSuffices` | src/budget.rs:113-163 | With standard steps: whenever the answer with every unit of the order dropped fits, the result fits. |
| `Budget.ContinueSearch` | src/budget.rs:148-161 | The linear continuation ends at the first fitting prefix from its start on, or at the last prefix over budget, with one render for each prefix it visits. |
| `Budget.ExaminedDecides` | src/budget.rs:129-162 | The chosen prefix fits if and only if some examined prefix does. |
| `Budget.ShortestPrefix` | src/budget.rs:106-112 | If sizes do not grow along the steps, the search settles on the least fitting prefix, and that fits exactly when any prefix does. |
| `Budget.FittingPrefixMissed` | src/budget.rs:109-112 | Without that the documented claim is false: four drops of which only the first makes the answer fit are reported over budget. |
| `Budget.Fill` | src/budget.rs:175-213 | The undo loop computes the greedy restoration, keeps output and bytes of the levels it holds, stays within the budget and within 256 tries. |
| `Budget.FillBounds` | src/budget.rs:169-213 | Every intermediate result lies between the initial levels and the prefix it started from, and fits. |
| `Budget.FillPrefersLastStep` | src/budget.rs:169-174 | If undoing the last (most important) step fits, it is undone and stays undone. |
| `Budget.FitBetween` | src/budget.rs:113-213 | With any render: a fitting result lies pointwise between the initial levels and the chosen prefix, which fits too, and is `fill` run from that prefix. |
| `Budget.FitIsLocallyOptimal` | src/budget.rs:62-213 | With a size-monotone render and standard steps over distinct units, a fitting result lies between the initial levels and the shortest fitting prefix, and unless 256 tries cut `fill` short on a longer prefix, raising any degraded unit by its next notch would exceed the budget. |
| `Budget.CapGroup` | src/budget.rs:219-239 | The in-place loop leaves the array at the levels after the least prefix whose group total meets the cap, or after all steps when none does; so on exit the total meets the cap or every unit of the group is dropped, a group within its cap is unchanged, and no unit outside it is touched. |
| `Budget.CapPrefix` | src/budget.rs:214-239 | That prefix is the least: every shorter one exceeds the cap, and it meets the cap unless it is the whole list. |
| `Budget.TotalIsSum` | src/budget.rs:226-227 | The group total is the sum of the listed units' costs at their levels, additive over any split of the list. |
| `Interleaving.Interleave` | src/budget.rs:253-264 | The nested loops and the sort yield the units in order of the scaled rank fraction, then section, then unit. |
| `Interleaving.TiesBySection` | src/budget.rs:262-262 | Of two units at one position the earlier section's comes first, and within a section the smaller unit. |
| `Interleaving.FirstUnitsInOrder` | src/budget.rs:253-264 | So the first units of the non-empty sections come out in the order of the sections. |
| `Interleaving.ProportionalPrefixes` | src/budget.rs:250-264 | In every prefix the fractions taken of two non-empty sections differ by less than 1/length + 1/1,000,000 (stated for each ordered pair, in exact reals). |
| `Interleaving.InterleavePermutes` | src/budget.rs:253-264 | The result is a permutation of all the units. |
| `Interleaving.SectionOrderKept` | src/budget.rs:253-264 | A section of at most 1,000,000 units keeps its own order. |
| `ShellWords.DisplayReadBack` | src/budget.rs:341-363 | POSIX tokenising of a printed command gives back exactly its words, for every list of words. |
| `ShellWords.FormatReadBack` | claude-plugin/scripts/cg-answer.js:169-190 | The words after the program's own are exactly the arguments, for every list of arguments and any invocation that is plain words. |
| `ShellWords.AdoptCommandReadBack` | claude-plugin/scripts/adopt.js:775-777 | The printed adopt command reads as the three words node, the script path, adopt, for every path. |
| `ShellWords.QuotersReadBack` | claude-plugin/scripts/adopt.js:899-908 | Each of the three quoters prints, for every word, text that a POSIX shell reads as that word alone. |
| `ShellWords.PosixWordsAre` | src/budget.rs:341-363 | The shell's side, written out: behind a plain list of words a blank starts the next one, and any of the listed special characters, unquoted, means the text is no plain list. |
| `ShellWords.BareWordRead` | src/budget.rs:341-363 | A word of none of those characters, blanks, quotes or backslashes is read as it is. |
| `ShellWords.BareIff` | src/budget.rs:348-363 | The two quoters that may leave a word bare do so exactly for non-empty words of ASCII letters, digits and their listed marks. |
| `ShellWords.ReadShellTokens` | src/outcome.rs:453-485 | The nested character loops compute the repository's own tokenisation. |
| `ShellWords.TokensOfText` | src/outcome.rs:449-485 | What that tokenisation is, on every text: white space outside quotation marks separates tokens, stretches between marks of either kind lose the marks, keep all they hold and join what they touch, an empty pair of marks is an empty token, and an unclosed mark takes the rest. |
| `ShellWords.TokensReadBackIff` | src/outcome.rs:449-485 | The repository's tokenizer reads a printed command back if and only if no word holds a single quote. |
| `Updater.Store.CheckForUpdate` | claude-plugin/scripts/auto-update.js:1303-1554 | Branch for branch, the record saved and the effects performed by one check, as a function of the record read and the environment's answers. |
| `Updater.AsksIff` | claude-plugin/scripts/auto-update.js:294-316 | A check that is not opted out asks if and only if no check is on record; or a 403 is and an hour has passed; or none is, and the binary is missing, or 30 minutes (after "up to date") or 6 hours have passed, or the record is not suspended and a stale binary has fewer than five tries behind it or the check is forced and two minutes have passed. |
| `Updater.UnansweredRecord` | claude-plugin/scripts/auto-update.js:1306-1358 | Without an answer: an opted-out check changes nothing; a throttled one only the installed version and the npm counter; a failed request adds its time, and a back-off exactly for a 403. |
| `Updater.AnsweredRecord` | claude-plugin/scripts/auto-update.js:1396-1547 | After an answered check that could act, the record names the release, the back-off is over, and an update is available exactly when the version now installed is older. |
| `Updater.RoundIff` | claude-plugin/scripts/auto-update.js:1397-1498 | A newer release is installed exactly while there is budget (fewer than five failed rounds for it, or a day since the stamp); each failed round counts one, a new release starts afresh, and both count and stamp are cleared once up to date, else follow the stated rule. |
| `Updater.Store.FetchLatestRelease` | claude-plugin/scripts/auto-update.js:510-525 | A 403 sets the rate-limited flag in the stored record and changes nothing else. |
| `Updater.NoRequestWithinHourOf403` | claude-plugin/scripts/auto-update.js:294-316 | In every run, after a 403 no request is made for one hour, whatever the force, binary-missing and binary-stale flags. |
| `Updater.AskStampsClock` | claude-plugin/scripts/auto-update.js:1360-1393 | An asking check moves the throttle's clock whenever its answer is no release or it gets the install lock, and otherwise (release in hand, lock taken) leaves the whole record as it was. |
| `Updater.SpacedIffStamped` | claude-plugin/scripts/auto-update.js:294-316 | After a check that asked with a healthy binary, the two-minute floor under forced checks, and the ordinary interval under unforced ones, hold if and only if that check moved the clock. |
| `Updater.LockTakenNotSpaced` | claude-plugin/scripts/auto-update.js:1389-1393 | The case where they fail: with the lock taken, two forced checks one second apart both ask, and so do two unforced ones at one instant. |
| `Updater.RequestsSpaced` | claude-plugin/scripts/auto-update.js:294-316 | In every run, a request comes at least two minutes after every earlier request that moved the clock (its answer was no release, or it got the lock), unless the binary is missing or still being healed. |
| `Updater.OrdinaryRequestsSpaced` | claude-plugin/scripts/auto-update.js:256-316 | Likewise, without force, and while suspended even with it, a request keeps the 1 h, 30 min or 6 h interval that the stored outcome calls for after every earlier request that moved the clock. |
| `Updater.DownloadAndInstall` | claude-plugin/scripts/auto-update.js:811-1068 | Step by step (tools, directory, release archive, fetch, digest, unpacking, version, copy, registry), written out: a round updates the plugin exactly when every step up to the copy worked; it is blocked exactly when the registry of an updated plugin blocks; and it goes on to the binary exactly when both tools are present and no step it gets to throws. |
| `Updater.Repoint` | claude-plugin/scripts/auto-update.js:937-1020 | Repointing is blocked exactly when the registry is unreadable, would lose bytes without a backup, holds a malformed entry, or cannot be written back. |
| `Updater.MissingBinaryFetchedIff` | claude-plugin/scripts/auto-update.js:1303-1516 | A check calls the download of a missing binary if and only if it is not opted out, no 403 is being waited out, a release was named, the lock was got, and no install round broke off before reaching it; no attempt counter or suspension stands in the way. |
| `Updater.BinaryHealIff` | claude-plugin/scripts/auto-update.js:1098-1140 | An up-to-date pass downloads the binary exactly when it is stale and, if it runs, fewer than five tries for the release failed; only a try over a running binary that leaves it stale counts; success or a healthy binary clears the count. |
| `Updater.CountersKept` | claude-plugin/scripts/auto-update.js:1098-1298 | Nothing else touches the two heal counters: a pass over a newer release leaves the binary's alone, and while suspended the packages' too. |
| `Updater.NpmInstallIff` | claude-plugin/scripts/auto-update.js:1256-1298 | An npm install of the target runs exactly when a package is stale and fewer than three tries for it failed (answered checks outside suspension, and throttled ones that get the lock); each try that leaves one stale counts; success or healthy packages clear the count. |
| `Updater.NoOtherNpmInstall` | claude-plugin/scripts/auto-update.js:1318-1334 | No other check runs one: it needs a stale package and the lock, and its target is the release answered with or, on a throttled check, the one on record. |
| `Updater.ReachableConsistent` | claude-plugin/scripts/auto-update.js:1396-1498 | In every reachable record a suspension stamp means the attempt budget is spent. |
| `Updater.InstallRoundsBudget` | claude-plugin/scripts/auto-update.js:1396-1498 | From any reachable record, against one newer release with every install failing: once five rounds ran, each further round comes at least 24 h after every earlier one. |
| `Updater.RoundsBoundedByDays` | claude-plugin/scripts/auto-update.js:1396-1498 | So a run that spans d whole days holds at most 5 + d rounds. |
| `Updater.RetryExactlyWhenDue` | claude-plugin/scripts/auto-update.js:1396-1412 | While suspended on a release that stays the newest, a check that gets an answer and the lock runs a round if and only if a day has passed since the stamp; check-only passes do not move it. |
| `Updater.StampUnmoved` | claude-plugin/scripts/auto-update.js:1416-1442 | While that release stays the newest, no check-only pass changes the stamp, the counter or the target. |
| `Updater.BinaryHealBudget` | claude-plugin/scripts/auto-update.js:1098-1140 | From any record, while the named releases never go back: at most five downloads for every release over a binary that runs but stays stale. |
| `Updater.GlobalHealBudget` | claude-plugin/scripts/auto-update.js:1256-1282 | From any record, while the named releases never go back: at most three npm installs for every target while none succeeds, on the throttled path and the others together, a target left in the record included. |
| `Sentinel.BeginLineIff` | claude-plugin/scripts/adopt.js:27-27 | A line counts as a BEGIN line exactly when it is blanks, the prefix, characters other than the angle bracket, the closing arrow, and blanks. |
| `Sentinel.EndLineIff` | claude-plugin/scripts/adopt.js:387-388 | A line counts as an END line exactly when it is spaces or tabs, the END marker, and spaces or tabs: with anything else on the line it does not. |
| `Sentinel.HasBeginIff` | claude-plugin/scripts/adopt.js:27-27 | A line holds a BEGIN marker, and so stops a block, exactly when somewhere in it the prefix is followed by characters other than the angle bracket and a closing arrow. |
| `Sentinel.StripAndHealSeams` | claude-plugin/scripts/adopt.js:349-371 | The match-and-copy loop computes the removal with healed seams. |
| `Sentinel.NextMatchStarts` | claude-plugin/scripts/adopt.js:393-430 | A match begins at a line start and takes its last line's newline with it: it ends at a line start or at the end of the text. |
| `Sentinel.HealGluesPieces` | claude-plugin/scripts/adopt.js:342-371 | Its result is the stretches between the matches, verbatim, glued left to right, where only a seam of more than two newlines is changed, to two. |
| `Sentinel.GlueIs` | claude-plugin/scripts/adopt.js:342-371 | Gluing, for pieces with any number of newlines at the seam: up to two stay as they are, more become two, and nothing else changes. |
| `Sentinel.HealOnContent` | claude-plugin/scripts/adopt.js:349-371 | One pass removes from the non-empty lines exactly what its pattern names and keeps all others in order. |
| `Sentinel.StripSentinelBlock` | claude-plugin/scripts/adopt.js:383-430 | The three guarded passes compute the composition of the three removals. |
| `Sentinel.NoEndNoMatch` | claude-plugin/scripts/adopt.js:424-426 | The guard before the third pass only skips work that would change nothing. |
| `Sentinel.StripKeepsContent` | claude-plugin/scripts/adopt.js:373-430 | The non-empty lines that remain are those of the text without its BEGIN-to-END blocks and without the stray marker lines: no other non-empty line goes or moves. |
| `Sentinel.StripKeepsExactly` | claude-plugin/scripts/adopt.js:373-430 | The same without recursion, line by line: of the non-empty lines exactly those stay, in order, that are no marker line and stand in no block, a block being a BEGIN line up to the first END line behind it when no line in between holds a BEGIN marker. |
| `Sentinel.StripLeavesNoMarkers` | claude-plugin/scripts/adopt.js:383-430 | No BEGIN line and no END line is left, in any text. |
| `Sentinel.StripIdentity` | claude-plugin/scripts/adopt.js:345-348 | Text without marker lines comes back byte for byte. |
| `Sentinel.StripIdempotent` | claude-plugin/scripts/adopt.js:383-430 | Stripping twice is stripping once. |
| `Sentinel.Project.Adopt` | claude-plugin/scripts/adopt.js:579-608 | What adopt leaves in CLAUDE.md, including the early return when the block is already there. |
| `Sentinel.Project.Unadopt` | claude-plugin/scripts/adopt.js:829-845 | What unadopt leaves, including removal of a file left blank unless it is a link. |
| `Sentinel.UserTextSurvives` | claude-plugin/scripts/adopt.js:579-608 | For any text that is not all white space, has no marker line and does not already hold a block about to be adopted (prose that mentions the markers included): after any sequence of adopts (any marker-free bodies) and unadopts the file holds that text up to trailing newlines, with exactly one managed block, of a body adopted in the run, when the last operation adopted and none otherwise. |
| `Sentinel.AdoptReplacesIff` | claude-plugin/scripts/adopt.js:593-604 | Adopting over a stale block replaces it if and only if the stale body does not hide the new one (the new body is the stale one cut off before a line that begins with END); a hiding one leaves the file as it is. |
| `Sentinel.LastAdoptedBlock` | claude-plugin/scripts/adopt.js:593-604 | After a run that ends in an adopt, the one block is the block just adopted, unless a body adopted earlier hides it. |
| `Sentinel.OnlyOwnBlock` | claude-plugin/scripts/adopt.js:593-596 | The test behind adopt's early return: a file written with one block contains another exactly when the text in front does, the two are equal, or the written body hides the other. |
| `Sentinel.AdoptIdempotent` | claude-plugin/scripts/adopt.js:593-604 | Adopting twice with the same block is adopting once, whatever the file held. |
| `Sentinel.MarkerTest` | claude-plugin/scripts/adopt.js:613-628 | The marker test holds exactly when some line has the BEGIN shape and some line the END shape, both written out; so it is true of every file with the block and false of user text without it. |
| `Sentinel.SpaceCodes` | claude-plugin/scripts/adopt.js:836-836 | What the blank-file test trims, by code point: white space and line terminators of ECMAScript. |
| `Sentinel.RoundTripRemovesIff` | claude-plugin/scripts/adopt.js:829-843 | For every file, present or not: adopting and then unadopting removes it exactly when it is no link and only white space is left of it once its marker lines and blocks are stripped; text without marker lines is its own stripped form. |
| `Outcome.PathsMatchIff` | src/outcome.rs:116-135 | Two lists of names, each joined with / or \, match as paths exactly when both are non-empty and one list ends with the other. |
| `Outcome.ComponentsAre` | src/outcome.rs:117-123 | The splitter, on every path: the empty path has no component, a non-empty name is its own only one, and either separator, wherever it stands, splits a path into the components of its two sides. |
| `Outcome.PathsMatchSame` | src/outcome.rs:117-134 | Paths with the same components match the same paths, on either side: leading, trailing and repeated separators make no difference. |
| `Outcome.ScanForward` | src/outcome.rs:637-673 | The forward scan stops at the first call of another turn, skips touches of the call's own turn, and leaves in its variables the first hit, the least-ranked hit and the number of counted touches. |
| `Outcome.MatchCandidates` | src/outcome.rs:652-668 | One touch against all candidates extends that description by exactly that touch's hits. |
| `Outcome.ScoreSession` | src/outcome.rs:608-693 | One outcome per call, in order, each fitting the declarative description of what the call earned (adopted, rank, file, distance). |
| `Outcome.CallsListed` | src/outcome.rs:611-617 | The calls scored are all calls of the session, in its order. |
| `Outcome.FreshInOrder` | src/outcome.rs:624-627 | The candidates of a call are its returned items in their order, less those that match a path touched before it. |
| `Outcome.DescribesUnique` | src/outcome.rs:674-687 | The description leaves no choice: two outcomes that fit it are equal. |
| `Outcome.HitIffEvidence` | src/outcome.rs:624-668 | A hit is a counted touch that matches a returned file which nothing touched before the call matched. |
| `Outcome.AdoptedIff` | src/outcome.rs:624-687 | A call is adopted if and only if there is such evidence. |
| `TestPaths.TestPathAgrees` | src/domain.rs:1031-1068 | On every path the generated LIKE/GLOB disjunction matches exactly when the Rust classifier says test. |
| `TestPaths.TestNodeAgrees` | src/domain.rs:1001-1011 | On every flag, name and path the full SQL node predicate equals the Rust one. |
| `TestPaths.TestEndings` | src/domain.rs:886-909 | The file endings that alone make a test, all 22 written out, for every path. |
| `TestPaths.DirectoryLegsMatch` | src/domain.rs:1045-1048 | The LIKE directory legs are the lower-cased prefix and infix tests. |
| `TestPaths.LowerAllIs` | src/domain.rs:825-832 | The lower-casing both sides use maps the 26 ASCII capitals in order and keeps every other character. |
| `TestPaths.PytestLegsMatch` | src/domain.rs:1049-1051 | The two-part GLOBs equal the starts-with or contains test together with the ends-with test. |
| `TestPaths.PytestNoOverlap` | src/domain.rs:858-864 | That needs the suffix never to overlap the marker, which holds for these literals. |
| `TestPaths.StemLegsMatch` | src/domain.rs:1036-1040 | For any stem table of plain names the generated legs equal the nested ends-with test. |
| `Spelling.CanonicalIdempotent` | src/resolve.rs:629-666 | The canonical spelling of a canonical spelling is itself, whenever a definition found by qualified name counts as stored. |
| `Spelling.CanonicalForms` | src/resolve.rs:629-666 | The result is the typed name, its dotted form, or the qualified name of a definition. |
| `Spelling.SpellingsAgree` | src/resolve.rs:639-650 | A::b, ::A::b and A.b, of segments with a visible character and neither dot nor colon, have one canonical spelling; each :: form the index stores is its own instead. |
| `Text.WhitespaceCodes` | src/resolve.rs:643-643 | What makes a segment blank, by code point: the Unicode White_Space property. |
| `Spelling.OtherColonsKept` | src/resolve.rs:639-647 | A name with :: that is not one of those forms (a blank segment, a dot or a stray colon in one) is looked up as typed. |
| `Spelling.NestedFound` | src/resolve.rs:651-665 | A name without ::, cut at its dots, is looked up as typed when it has none or is stored; else it becomes the member's :: spelling when it has three pieces or more and a definition has that, else the type's when one has that, else stays. |
| `Rollup.RollupIncomingReferences` | src/resolve.rs:1410-1458 | Fails exactly when a lookup fails; otherwise the rows and both counters are those of folding all rows of all targets in order. |
| `Rollup.RollRows` | src/resolve.rs:1424-1451 | The loop over one target's rows, with its key-to-index map kept exact. |
| `Rollup.FoldRepresents` | src/resolve.rs:1437-1450 | One row per source node and relation: the first row with that key, carrying the lowest confidence tier of its group, and a row for every key. |
| `Rollup.TierIgnoresOrder` | src/resolve.rs:1410-1458 | Two rollups of the same targets in any order, each target's rows in any order, under the same filters, give every key the same tier (or both none) and agree on both filter counts. |
| `Rollup.FiltersPartition` | src/resolve.rs:1425-1436 | Rows that pass and the two filter counts add up to the rows read. |
| `Rollup.RollupMeaning` | src/resolve.rs:1410-1458 | The whole rollup: of the rows that pass, exactly one for each source node and relation, the first with the lowest tier of its group, in the order the groups were met; and of the rows read each counter counts exactly those its filter dropped. |
| `Rollup.PassesIff` | src/resolve.rs:1425-1436 | A row passes exactly when it is no test under skip-tests and its tier is not below the floor, extracted above inferred above every other; a test below the floor counts as a test. |
| `Rollup.PassingInOrder` | src/resolve.rs:1424-1451 | Filtering keeps the order of the rows read. |
| `Rollup.RankOrder` | src/domain.rs:220-229 | The numeric ranks compare as those tiers do, unknown strings lowest. |
| `Truncate.TruncateAtLine` | claude-plugin/scripts/cg-answer.js:60-80 | For well-formed Unicode text and any bound: flagged exactly when the text is longer; the result is a prefix of whole characters within the bound, cut at the last newline that fits past position 0, or else the longest prefix that fits. |
| `Truncate.HeadDecoded` | claude-plugin/scripts/cg-answer.js:64-71 | Decoding the bytes below the bound gives the characters that fit, and one replacement character when the bound falls inside the next. |
| `Truncate.FitCountLongest` | claude-plugin/scripts/cg-answer.js:72-79 | The count of whole characters that fit is the largest. |
| `Truncate.RoundTrip` | claude-plugin/scripts/cg-answer.js:64-79 | Decoding undoes encoding (section 3 of RFC 3629). |
| `Truncate.EncodedForm` | claude-plugin/scripts/cg-answer.js:64-64 | The encoding: one to four bytes by value, the lead and continuation ranges, and the value as the bits behind the markers (section 3 of RFC 3629). |

## Left out

Modelling choices:

- Updater.Store.CheckForUpdate: versions are naturals, so equal strings and equal versions coincide; the state file is always readable and writable, no teardown tombstone is active, and no effect throws.
- Updater.NoRequestWithinHourOf403: checks run one after another; concurrent sessions and the lock file's internals are not modelled, only whether the lock was free.
- Updater.GlobalHealBudget: a run in which the named release goes back and forth restarts the counter at each change, so no bound is stated there; nor for Updater.BinaryHealBudget.
- Updater.MissingBinaryFetchedIff: says when the download function is called for a platform whose asset the release has; what that function does after (curl, digest, promotion) is an outcome.
- Updater: fields no decision reads (lastUpdate, lastError, binaryUpdated, marketplaceRefreshed), return values and messages. The binary-staleness flag of the throttle is an environment input, not derived from the record.
- Budget.Fit: the render is a deterministic function of the levels, under which the linear continuation takes a single turn. A render with state of its own is not modelled.
- Budget.OrderSorted: importance keys are integers, which stand for any totally ordered key over finitely many units.
- Budget: sums and positions are unbounded naturals, without the overflow of 64-bit integers.
- Sentinel.UserTextSurvives: the file's only line terminator is LF. The block body is any list of lines without markers; the literal wording per project type is not spelled out.
- Sentinel.LastAdoptedBlock: over a whole run the condition is sufficient (an unadopt in between clears a hiding body too); Sentinel.AdoptReplacesIff is exact for one adopt. The shipped bodies hide nothing.
- Sentinel: reading and writing the file always succeeds; the detail file, the registry, the legacy migration and the project-type detection.
- Sentinel.MarkerTest: the other half of `isAdopted`, that the detail file exists.
- ShellWords.FormatReadBack: words are sequences of characters without the NUL that no argument can hold; expansions are out because the reader refuses unquoted special characters.
- ShellWords: the builder methods of `NextCommand` (flags, options, the leading `./` of a path); any list of words is covered.
- Outcome.ScoreSession: `is_ranked_tool` is a parameter.
- Spelling.CanonicalIdempotent: the two index lookups are predicates, assumed consistent (a definition found by qualified name is stored); that excludes definitions that exist only under the external path.
- Rollup.RollupIncomingReferences: the index query is a function from target to rows or failure.
- TestPaths.TestNodeAgrees: SQL text and SQLite are not modelled, only the legs and the two matchers; none of the patterns holds a character class.
- Truncate.HeadDecoded: the decoder is defined by one replacement character for a cut character at the end, which is the only malformed input that can occur; text is well-formed Unicode.
- TarjanScc.TarjanScc: each vertex's successors come in one fixed order; the interpreter's recursion limit is not modelled.

Not modelled at all:

- The test-item line mask of the metrics script, its duplicate-line count and its graph construction from source files.
- `caller_counts`, `notice`, `aggregate` and every rendering function.
- Transcript parsing, which decides what the event list is.
- Downloads, checksums, npm, git and registry repointing: only their outcomes appear.
- The indexer, parser, storage, search and graph modules, and the other scripts.
