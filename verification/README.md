# Tcl core: regular expressions, calendar, asynchronous handlers, word expansion, allocator

A Dafny model of the parts of the Tcl core whose correctness is hardest to see from the code, with proofs of what they
promise. `dafny verify dfyconfig.toml` checks all of it.

## What is modelled

**Matching** (`rege_dfa.c`, `regexec.c`). The lazy DFA of the regular expression engine is a class over arrays: state
sets, flags, memoised transitions, the in-chains threaded through them, times last seen, and what is remembered of
evicted entries. Every contract is against plain set simulation of the compacted NFA (`Cnfa.dfy`), lookahead
constraints included: a constraint is run by a DFA of its own, and means what its NFA matches. Built on it are `longest`,
`shortest`, the leftmost search with the search NFA and its last no-progress point, and dissection of a match over the
tree of subexpressions. The files go from the NFA (`Cnfa`), the cache's invariants (`Dfa`, `DfaChains`, `DfaCache`,
`DfaSmall`, `DfaTimes`) and the engine (`DfaEngine`) to the search argument (`SearchNfa`), the meaning of submatches
(`Submatches`) and `Exec`; `Anchors` says what the ends of the string and lookahead stand for.

**The NFA** (`regc_nfa.c`, parts of `regcomp.c`). The NFA under construction is a class with in-, out- and color chains.
Its language is the set of subjects accepted, a subject being a text with what lies to its left and right, so that `^`,
`$`, BEHIND and AHEAD have a meaning. Each rewrite in place is tied to a rewrite of the graph as a value, and that is
shown to keep the language (`Nets`, `NetRewrites`, `NetSimplify`, `NetFragments`; `Nfa*` hold the procedures).
The loops of the optimizer come together in `NfaOptimize`. Compaction and the search NFA connect this language with the
one the matcher simulates (`NfaMatch`, `NfaProblem`), and the NFAs of tree nodes with the parts of the main NFA
(`NfaNodes`, `ExecTree`): what is demanded for `find` is what construction yields.

**The color map** (`regc_color.c`, bracket expressions of `regcomp.c`). Characters have colors in two-level tables with
blocks shared until they are written; reading a bracket expression moves the characters it lists to open subcolors, and
closing it promotes these. The map is a class; the flat map from characters to colors is its abstract value, and what an
arc denotes is a set of characters. Block size and number of blocks are parameters.

**Calendar and time zones** (`tclClock.c`), with C's division written out; **asynchronous handlers** (`tclAsync.c`), as
steps that any interleaving may take and as a class whose critical sections are these steps; the **word expansion** of
`TclEvalEx` (`tclBasic.c`); the **power-of-two allocator** (`tclAlloc.c`), addresses being numbers and the system's
allocator a parameter.

`Folding.dfy` holds a device of the proofs: formulas that are carried along without being unfolded.

## Where the code and its comments differ

- `WeekdayOnOrBefore` promises a day on or before the reference day. For days before the first such weekday (negative
  ones, and up to six of the first) C's remainder makes it the one after: `Calendar.WeekdayFound` says exactly when.
- `Tcl_AsyncReady` promises 1 whenever a handler is ready and 0 when none is. Neither half holds: a handler marked while
  `Tcl_AsyncInvoke` is at work is ready and 0 is reported (`AsyncProtocol.ReadyNotReported`), and after the only ready
  handler is deleted 1 is reported (`AsyncProtocol.ReportedNotReady`). `AsyncProtocol.ReadyReported` and
  `AsyncProtocol.NotReadyReported` say exactly when they do. No mark is lost by it (`AsyncProtocol.NoMarkLost`).
- `makesearch` tells listed states by a link that is NULL for the first one. `NfaSearch.ListStates` promises that every
  state to split is listed, not that it is listed once.
- `ConvertLocalToUTCUsingTable` is described as finding the offset of a local time. It does on tables of at most two
  offsets; with more it can circle past a second that fits (`TimeZones.ThreeOffsetsCircle`), and
  `TimeZones.FoundIfSettles` says exactly for which tables and local times it does not.
- `GetJulianDayFromEraYearMonthDay` takes a date for a Gregorian one unless that is before the changeover. With a
  changeover before day 1794169 this mistakes Julian dates (`Calendar.EarlyChangeover`, `Calendar.AllComeBack`).
- `TclpRealloc` promises a block of the size asked for. With 4-byte pointers the size with the header added can come round
  to less (`Alloc.RoundedToNothing`); `TclpAlloc` guards against that, `TclpRealloc` does not.

## Model

| member | source | states |
|---|---|---|
| Exec.Find | trunk/generic/regexec.c:300-399 | NOMATCH exactly when the regular expression matches nowhere; otherwise place 0 of the match vector holds the match that begins at the leftmost possible place and is the longest from there (the shortest if the tree prefers that), and each other place the text of the last visit of the subexpression with its number, none if it is not visited; for any text, tree and vector size |
| Exec.SearchShot | trunk/generic/regexec.c:318-355 | one run of the search DFA tells whether there is a match at all, and brackets where the leftmost one can begin |
| Exec.SearchTells | trunk/generic/regexec.c:318-352 | no match begins before the last no-progress point the search reports, and none ends before the search's own end |
| Exec.Pinpoint | trunk/generic/regexec.c:345-362 | trying begins from `open` on finds the leftmost match and its preferred end; the loop never runs past `close` |
| Exec.Dissect | trunk/generic/regexec.c:613-649 | for a match of the tree dissection always succeeds; every place of the vector whose subexpression the match visits holds the text of the last visit, the others what they did |
| Exec.ConDissect | trunk/generic/regexec.c:655-747 | a concatenation is always split: no assertion exit is reachable |
| Exec.FindMidpoint | trunk/generic/regexec.c:682-733 | both sides match at the midpoint chosen, and it is the greatest such one, the least if the left side prefers shorter |
| Exec.NextMidpoint | trunk/generic/regexec.c:698-733 | after a midpoint that fails the next one tried skips none that works |
| Exec.AltDissect | trunk/generic/regexec.c:753-781 | the first branch that matches is taken, and some branch does |
| Submatches.CapturesAreVisits | trunk/generic/regexec.c:590-781 | the captures of a match are exactly the parenthesized subexpressions it visits, each with the text it is visited for: from a node to the content of parentheses, to both sides of a concatenation at its midpoint, to the first branch that matches |
| Submatches.CapturesPlaced | trunk/generic/regexec.c:590-607 | writing the captures leaves in each place the text of the last visit of its subexpression, and what was there if it is not visited |
| Submatches.WholeCaptured | trunk/generic/regexec.c:640-648 | parentheses around the whole, the only ones with their number, get the whole match |
| Submatches.CapturesWithin | trunk/generic/regexec.c:590-781 | every capture lies inside the match and is itself a match of its own subexpression |
| Submatches.CapturesOrdered | trunk/generic/regexec.c:613-747 | of two captures the later lies inside the earlier or starts where that has ended |
| Submatches.WrittenLast | trunk/generic/regexec.c:590-607 | where a subexpression is captured more than once its place holds the last capture |
| DfaEngine.Longest | trunk/generic/rege_dfa.c:37-158 | the result is the end of the longest match from `start` ending by `stop` under plain set simulation of the NFA, NIL exactly when there is none, however many cache entries were evicted |
| DfaEngine.Shortest | trunk/generic/rege_dfa.c:165-284 | the end of the shortest match that ends in [min, max], NIL exactly when there is none, with the last no-progress position |
| DfaEngine.LastCold | trunk/generic/rege_dfa.c:290-309 | the last position up to which the set simulation made no progress, found from the surviving entries and the memory of evicted ones |
| DfaEngine.Initialize | trunk/generic/rege_dfa.c:441-478 | an attempt starts from the locked starter entry with all times forgotten and the entries, their transitions and in-chains as they were |
| DfaEngine.Miss | trunk/generic/rege_dfa.c:485-612 | taking one character leads to the entry that holds the true successor set, NIL exactly when that is empty; entries, transitions, flags and remembered positions stay right |
| DfaEngine.CachedStep | trunk/generic/rege_dfa.c:504-513 | a memoised transition is the true one at every position |
| DfaEngine.CloseLacons | trunk/generic/rege_dfa.c:542-570 | the closure loop over lookahead constraints ends with all states they lead to at this position, and notices whenever a constraint was looked at |
| DfaEngine.LaconTest | trunk/generic/rege_dfa.c:618-644 | a constraint holds exactly when its own NFA, run by a DFA of its own, matches from there |
| DfaEngine.RoomForNew | trunk/generic/rege_dfa.c:316-387 | a state set not in the cache always finds an unused or expendable entry, also for NFAs of three states |
| DfaEngine.Enter | trunk/generic/rege_dfa.c:586-600 | a new entry holds the collected set with the right flags; the starter and the current entry are never given up |
| DfaEngine.LatestPost | trunk/generic/rege_dfa.c:142-158 | the final scan of `longest` with `lastpost` yields the latest goal position of the attempt |
| DfaCache.VictimExists | trunk/generic/rege_dfa.c:735-808 | with 2*nstates entries a full cache always has one older than the age threshold: "can't find victim" is not reached |
| DfaCache.PickSs | trunk/generic/rege_dfa.c:735-808 | the entry picked is unused or old enough, never the starter and never in use at the current positions |
| DfaCache.GetVacant | trunk/generic/rege_dfa.c:652-729 | the victim's arcs are gone in both directions, every other outarc is kept, and its goal and no-progress positions are remembered |
| DfaChains.ClearInarcs | trunk/generic/rege_dfa.c:673-684 | walking along an in-chain empties it and takes away exactly the arcs into that entry; every other arc stays and all chains remain exact |
| DfaChains.FindLink | trunk/generic/rege_dfa.c:694-704 | the walk along an in-chain finds the arc and its predecessor |
| DfaChains.Memoise | trunk/generic/rege_dfa.c:604-610 | recording a transition keeps each in-chain the list of exactly the (entry, color) pairs that lead to its entry |
| Dfas.Dfa.constructor | trunk/generic/rege_dfa.c:316-387 | a new DFA has a valid cache of two entries per NFA state, none of them in use |
| Cnfas.DeadStates | trunk/generic/rege_dfa.c:83-96 | once no state is left no longer text matches, so the main loops may stop |
| Cnfas.PreNoPost | trunk/generic/rege_dfa.c:142-158 | the goal is more than one step from the start: the `post - 1` of the result is never before the start |
| Anchors.OpensAtBegin | trunk/generic/rege_dfa.c:66-75 | an NFA that is left at the start by bos[1] alone matches only from the beginning of the string and without REG_NOTBOL, one left by bos[0] only from there with REG_NOTBOL |
| Anchors.ClosesAtEnd | trunk/generic/rege_dfa.c:117-137 | the same of the end, eos and REG_NOTEOL |
| Anchors.OneLineMatches | trunk/generic/rege_dfa.c:66-158 | the compacted NFA of `^a$` matches exactly the string of one such character, at the ends its false colors stand for |
| Anchors.ConstraintsMean | trunk/generic/regc_nfa.c:43-90 | inside an NFA `^` and `$` hold exactly before the first and after the last character of the string under the flags that go with their number, and lookahead where the constraint does |
| Anchors.CaretAtBegin | trunk/generic/regc_nfa.c:892-900 | an NFA whose arcs out of the start are all `^` of number 1 matches only from the beginning of the string without REG_NOTBOL, of number 0 only with it |
| Anchors.DollarAtEnd | trunk/generic/regc_nfa.c:1049-1057 | the same of `$` and the end |
| Anchors.LineNetAccepts | trunk/generic/regc_nfa.c:820-900 | the linked NFA of `^a$` accepts exactly that one string at such ends |
| Anchors.LookaheadMeans | trunk/generic/rege_dfa.c:618-644 | lookahead for one character holds exactly where it comes next, negative lookahead exactly where it does not, at the end of the string too |
| Anchors.ConstraintAfter | trunk/generic/rege_dfa.c:542-570 | a constraint that follows a character is asked for at the position after it |
| SearchNfa.SearchMatch | trunk/generic/regexec.c:318-345 | the search NFA reaches its goal at e exactly when some match of the main NFA ends at e |
| SearchNfa.ProgressMade | trunk/generic/regc_nfa.c:1528-1535 | after the splitting a state reached by consuming text of an attempt is not a no-progress state |
| SearchNfa.ColdMatch | trunk/generic/regexec.c:344-362 | while the search makes no progress every attempt begun earlier has failed |
| SearchNfa.LoopedMatch | trunk/generic/regcomp.c:555-568 | with the loops of `.*` in front one run simulates the attempts from all positions at once |
| Nfas.Nfa.NewState | trunk/generic/regc_nfa.c:173-223 | the new state touches no arc; all chains stay right |
| Nfas.Nfa.NewArc | trunk/generic/regc_nfa.c:323-374 | an arc already there is not duplicated, a new one comes first in both chains; in-, out- and color chains list exactly the arcs |
| Nfas.Nfa.FreeArc | trunk/generic/regc_nfa.c:431-497 | exactly the one arc is gone from the NFA and from all its chains |
| Nfas.Nfa.DropState | trunk/generic/regc_nfa.c:247-261 | the state and all arcs at it are gone, nothing else |
| Nfas.Nfa.MoveIns | trunk/generic/regc_nfa.c:543-559 | all inarcs change destination, duplicates merge, the rest stays |
| Nfas.Nfa.CopyIns | trunk/generic/regc_nfa.c:565-578 | all inarcs gain twins with the other destination |
| Nfas.Nfa.MoveOuts | trunk/generic/regc_nfa.c:584-598 | all outarcs change source, duplicates merge, the rest stays |
| Nfas.Nfa.CopyOuts | trunk/generic/regc_nfa.c:604-617 | all outarcs gain twins with the other source |
| NfaConstraints.Pull | trunk/generic/regc_nfa.c:909-1006 | pulling a `^` or BEHIND constraint past its source keeps the set of accepted (left context, text, right context), through the cloning and all outcomes of `combine`; it fails only next to the start, then changing nothing. Done, the constraint is gone, as are circular ones at its source; what comes instead is made of it and the inarcs of its source, in particular every new backward constraint has its label and starts where one of these does; the source is gone exactly if the constraint was its last outarc and it had inarcs; no other arc goes or comes |
| NfaPush.Push | trunk/generic/regc_nfa.c:1066-1165 | the same for pushing a `$` or AHEAD constraint forward, with the outarcs of its destination |
| NfaConstraints.AllPulled | trunk/generic/regc_nfa.c:936-1004 | dropping circular constraints, cloning the source where other arcs leave it, and treating each inarc by the outcome of `combine` come to that set of arcs |
| NfaPush.AllPushed | trunk/generic/regc_nfa.c:1093-1163 | the same forward |
| NetRewrites.CombineBehind | trunk/generic/regc_nfa.c:1174-1225 | what `combine` says of a backward constraint meeting an arc is what their demands on the position mean |
| NetRewrites.CombineAhead | trunk/generic/regc_nfa.c:1174-1225 | the same for a forward constraint |
| NetRewrites.PullCompatible | trunk/generic/regc_nfa.c:973-995 | a constraint and a compatible arc may change places |
| NetRewrites.PushCompatible | trunk/generic/regc_nfa.c:1132-1154 | the same in the forward direction |
| NfaPush.ColorCarets | trunk/generic/regc_nfa.c:892-900 | a constraint that has arrived next to the start becomes the false color that is read exactly there |
| NfaPush.ColorDollars | trunk/generic/regc_nfa.c:1049-1057 | the same next to the end |
| NfaEmpties.Unempty | trunk/generic/regc_nfa.c:1271-1331 | removing an EMPTY arc keeps the language whichever end it works on; the arcs are those there were with the ones at that end led past it, the end goes exactly if nothing else uses it on that side, and the arc is there again exactly if an EMPTY loop at that end has been led past it |
| NetSimplify.BypassLeft | trunk/generic/regc_nfa.c:1306-1328 | letting whatever enters the source of an EMPTY arc enter its destination keeps the language |
| NetSimplify.BypassRight | trunk/generic/regc_nfa.c:1306-1328 | the same from the destination's outarcs |
| NfaCleanup.Cleanup | trunk/generic/regc_nfa.c:1337-1372 | the language is kept, the states left are exactly those on ways from start to end (and these two), and every mark is cleared |
| NfaCleanup.MarkReachable | trunk/generic/regc_nfa.c:1379-1396 | marks what follows by way of states marked `okay`, and nothing else |
| NfaCleanup.MarkCanReach | trunk/generic/regc_nfa.c:1403-1420 | the same against the arcs |
| NfaCleanup.ClearTraverse | trunk/generic/regc_nfa.c:771-786 | the marks reachable by way of marked states are cleared |
| NetSimplify.Trim | trunk/generic/regc_nfa.c:1337-1372 | dropping states on no way from start to end keeps the language |
| NfaCompact.Compact | trunk/generic/regc_nfa.c:1450-1536 | the compacted NFA lists exactly the arcs, state by state, and marks as no-progress exactly the start and what follows it |
| NfaOptimize.Optimize | trunk/generic/regc_nfa.c:820-851 | if its loops come to an end, no EMPTY arc, constraint or useless state is left, and the NFA accepts what it did; they do where there is nothing to work on, and otherwise a loop that does not has worked on as many arcs as the limit allows passes |
| NfaOptimize.Loop | trunk/generic/regc_nfa.c:856-1250 | where a loop of the optimizer stops nothing is left to work on; every pass works on all arcs it finds to work on, which are gone then but for EMPTY arcs at EMPTY loops; in between the language is kept, no arc has a label that none had and no mark appears |
| NfaOptimize.Pass | trunk/generic/regc_nfa.c:870-886 | one pass works on every arc there was to work on unless it has gone before, and makes progress exactly if there was one |
| NfaMatch.CompactMatches | trunk/generic/regc_nfa.c:1450-1536 | set simulation of the compacted NFA on a text accepts exactly what the linked NFA accepts on it with its two contexts |
| NfaSearch.MakeSearch | trunk/generic/regcomp.c:537-622 | the result searches for what the NFA accepts: it loops on every color that can come before a match unless anchored, and no state means progress and no progress at once |
| NfaSearch.SplitSame | trunk/generic/regcomp.c:606-621 | splitting a state so that it follows only the start keeps the language |
| NfaSearch.ListStates | trunk/generic/regcomp.c:584-601 | every state that follows the start and something else is on the list (the first one possibly twice) |
| NfaProblem.SearchProblem | trunk/generic/regcomp.c:537-622 | an optimized NFA and the search NFA made from it, both compacted, satisfy everything `find` relies on |
| NfaProblem.Prepare | trunk/generic/regcomp.c:414-425 | from an NFA as built to the two compacted ones: the main one matches what the NFA accepts, for any text, and the search NFA satisfies everything `find` relies on; if the optimizer does not come to an end, it has worked on as many arcs as the limit allows passes |
| NfaNodes.ShellAccepts | trunk/generic/regc_nfa.c:43-90 | a part alone in a new NFA: what it accepts, with whatever character or string end lies before and after, is what passes across the part |
| NfaNodes.AcrossCutout | trunk/generic/regcomp.c:1885-1912 | getting across a part depends only on the characters between the two positions and the two beside them: it is the same in a stretch cut out of the text |
| NfaNodes.NodeMade | trunk/generic/regcomp.c:1885-1912 | the NFA of a tree node matches exactly what passes across its part of the main NFA, for any text and any stretch of it |
| ExecTree.EndToEnd | trunk/generic/regcomp.c:1125-1141 | parts end to end are a concatenation of what they read |
| ExecTree.InParallel | trunk/generic/regcomp.c:650-671 | branches hung by EMPTY arcs between the ends are a choice of what they read |
| ExecTree.SequenceMatches | trunk/generic/regcomp.c:1860-1912 | a concatenation node matches a stretch exactly if some split is matched by its sides, though each is compiled alone |
| ExecTree.ChoiceMatches | trunk/generic/regcomp.c:1860-1912 | an alternation node matches exactly what one of the branches along its chain does |
| ExecTree.FitsWf | trunk/generic/regcomp.c:1860-1912 | a tree whose nodes have the NFAs of parts joined so is what dissection relies on, to any depth |
| ExecTree.Compiled | trunk/generic/regcomp.c:352-425 | that tree and the search NFA made from the main NFA together meet all that `find` demands |
| NfaDup.DupNfa | trunk/generic/regc_nfa.c:714-733 | the duplicate strung between two states reads exactly what the original reads, including when its end is the original's start; all marks are cleared |
| NfaDup.DupTraverse | trunk/generic/regc_nfa.c:739-765 | duplication reaches everything after a state and stops at states that have a duplicate |
| NfaDup.Duplicated | trunk/generic/regc_nfa.c:714-765 | the duplicate passes what the original passes and changes nothing else |
| NfaDelete.DelSub | trunk/generic/regc_nfa.c:647-704 | the arcs and states between two states are gone, exactly those |
| NfaRepeat.Repeat | trunk/generic/regcomp.c:1309-1388 | a part that reads x comes to read x{m,n}, unbounded n included; the recursion terminates and the rest of the NFA is unchanged |
| NfaRepeat.TimesAndOne | trunk/generic/regcomp.c:1352-1384 | x{m+1,n+1} is x{m,n}x, the law the recursion uses |
| NetFragments.TimesMeans | trunk/generic/regcomp.c:1309-1388 | x{m,n} is read by one x after the other, at least m and at most n of them, DUPMAX + 1 standing for no upper bound |
| NetFragments.Composed | trunk/generic/regcomp.c:1338-1384 | two parts end to end read what the one reads followed by what the other reads |
| NetFragments.Optional | trunk/generic/regcomp.c:1330-1337 | an EMPTY arc from end to end makes a part optional |
| ColorMaps.ColorMap.constructor | trunk/generic/regc_color.c:42-87 | every character is WHITE, and WHITE counts them all |
| ColorMaps.ColorMap.SetColor | trunk/generic/regc_color.c:154-207 | exactly one character changes color; a solid block is copied first and never written |
| ColorMaps.ColorMap.NewColor | trunk/generic/regc_color.c:229-286 | the new color is one that no character has: the first of the free ones if there are any, else the next number |
| ColorMaps.ColorMap.FreeColor | trunk/generic/regc_color.c:292-345 | the color, without characters, is out of use, the rest of the map is unchanged and the free chain stays a chain of exactly the free colors |
| ColorMaps.ColorMap.PseudoColor | trunk/generic/regc_color.c:351-364 | a color no character ever has |
| ColorMaps.ColorMap.NewSub | trunk/generic/regc_color.c:398-421 | each color has at most one open subcolor, and each open subcolor one parent; a color of a single character gets none |
| ColorMaps.ColorMap.SubColor | trunk/generic/regc_color.c:370-392 | exactly one character moves to the open subcolor of its color and the counts follow |
| ColorMaps.ColorMap.PointToSolid | trunk/generic/regc_color.c:522-553 | the tree entry of a block of one color comes to name the solid block of its subcolor, which is set up only if there is none |
| Colors.CountsSum | trunk/generic/regc_color.c:42-87 | with every color's count right, the counts of the colors in use sum to the size of the alphabet |
| ColorBrackets.ListChar | trunk/generic/regc_color.c:428-469 | listing one character adds it to what the bracket expression denotes; every arc denotes what it did |
| ColorBrackets.SubBlock | trunk/generic/regc_color.c:475-574 | listing one block adds exactly its characters, solid or mixed |
| ColorBrackets.SubRange | trunk/generic/regc_color.c:428-469 | listing a range adds exactly its characters, by whole blocks and single ones |
| ColorPromote.OkColors | trunk/generic/regc_color.c:580-635 | closing the open subcolors leaves what every arc denotes unchanged, and no subcolor open; arcs without a color are left alone |
| ColorPromote.DoVec | trunk/generic/regcomp.c:1619-1643 | an element of a bracket expression adds exactly its characters |
| ColorPromote.Bracket | trunk/generic/regcomp.c:1395-1408 | a bracket expression denotes exactly the characters listed, every arc there was denotes what it did, and arcs without a color are left alone |
| ColorPromote.ListedMeans | trunk/generic/regcomp.c:1619-1643 | items list what each of them does: its characters, and all from the first to the last of its ranges |
| ColorPromote.ColorComplement | trunk/generic/regc_color.c:714-735 | arcs for exactly the colors in use that do not leave the other state |
| ColorPromote.CBracket | trunk/generic/regcomp.c:1417-1446 | the complemented expression denotes exactly the characters not listed; every arc there was denotes what it did, and the states are those there were, the scaffolding gone |
| Calendar.GetGregorianEraYearDay | trunk/generic/tclClock.c:1236-1336 | the year and day of year are those of the day in the calendar in force, for every day before or after year 1 (C's truncating division included) |
| Calendar.GetMonthDay | trunk/generic/tclClock.c:1354-1367 | a valid month and day that add up to the day of the year, months 4, 6, 9 and 11 having 30 days, month 2 28 or 29 and the others 31 |
| Calendar.IsGregorianLeapYear | trunk/generic/tclClock.c:1535-1557 | the leap year rule of either calendar, BCE years counted from 0 |
| Calendar.GetJulianDayFromEraYearMonthDay | trunk/generic/tclClock.c:1437-1519 | the day of a date, in the Gregorian calendar unless that is before the changeover; month m + 12k is month m of k years on, which is also the year stored |
| Calendar.MonthsCarry | trunk/generic/tclClock.c:1457-1466 | months carry into years, backward as well as forward: the day of month m + 12k of a year is that of month m of the k-th year after it |
| Calendar.MonthLengths | trunk/generic/tclClock.c:47-55 | months 4, 6, 9 and 11 have 30 days, month 2 has 28 or 29, the others 31 |
| Calendar.KnownChangeover | trunk/generic/tclClock.c:1437-1519 | with the changeover at day 2299161 that day is Friday, 15 October 1582, and the day before it Thursday, 4 October |
| Calendar.KnownOrigin | trunk/generic/tclClock.c:1437-1583 | day 0 is the Monday that begins 4713 BCE in the Julian calendar |
| Calendar.KnownEpoch | trunk/generic/tclClock.c:32 | day 2440588 is 1 January 1970, day 4 of week 1 of that year |
| Calendar.ClosedForm | trunk/generic/tclClock.c:1488-1508 | the formula for the 1st of January is what counting year by year gives |
| Calendar.NotMistaken | trunk/generic/tclClock.c:1502-1519 | with a changeover at or after day 1794169 a Julian date before it is before it in the Gregorian reading as well |
| Calendar.ReadsLater | trunk/generic/tclClock.c:1502-1519 | every Julian date up to 29 February 200 reads as a later day in the Gregorian calendar |
| Calendar.ComesBack | trunk/generic/tclClock.c:1236-1519 | under any changeover a day comes back from its date exactly when it is a Gregorian day or its date, read as a Gregorian one, is before the changeover |
| Calendar.AllComeBack | trunk/generic/tclClock.c:1236-1519 | every day comes back exactly under the changeovers from day 1794169 on |
| Calendar.DayBeforeLost | trunk/generic/tclClock.c:1502-1519 | under any earlier changeover the day before it is one that does not come back |
| Calendar.DayRoundTrip | trunk/generic/tclClock.c:1236-1519 | day to date to day is the identity for every day, in the calendar it began in, with a changeover from day 1794169 on |
| Calendar.PapalComesBack | trunk/generic/tclClock.c:1236-1519 | so it is with the earliest changeover there was, 15 October 1582 |
| Calendar.ThereAndBack | trunk/generic/tclClock.c:1236-1519 | the conversions run one after the other keep the day exactly when its date is not mistaken for one of the other calendar, for any changeover |
| Calendar.DateRoundTrip | trunk/generic/tclClock.c:1236-1519 | a date comes back exactly when it is valid in the calendar chosen for it and not in the gap at the changeover, for any changeover |
| Calendar.CivilDatesRoundTrip | trunk/generic/tclClock.c:1236-1519 | with a changeover from day 1794169 on all dates of either calendar on its side of the changeover come back |
| Calendar.OneDate | trunk/generic/tclClock.c:1236-1367 | a day has one date |
| Calendar.EarlyChangeover | trunk/generic/tclClock.c:1502-1519 | a concrete day and changeover with which the date does not lead back to the day |
| Calendar.WeekdayFound | trunk/generic/tclClock.c:1573-1583 | the day found has the weekday asked for, within a week, and is on or before the reference day exactly from the first such weekday on |
| Calendar.GetJulianDayFromEraYearWeekDay | trunk/generic/tclClock.c:1386-1418 | the day of an ISO week date counted from the Monday of week 1 |
| Calendar.GetYearWeekDay | trunk/generic/tclClock.c:1169-1216 | the numbers name the day; 400 days from the changeover on (and 800 before it) they are its ISO week date: weeks 1..53, weekday from Monday, the year of the week's Thursday (ISO 8601:2004, 4.1.4) |
| Calendar.GuessIsRight | trunk/generic/tclClock.c:1184-1207 | the guess one year high, stepped back at most once, is the ISO year |
| Calendar.OneWeekDate | trunk/generic/tclClock.c:1169-1216 | a day has one week date |
| TimeZones.LookupLastTransition | trunk/generic/tclClock.c:1099-1149 | in a sorted table the last row at or before the tick, else the first; in any table a row with the tick between it and the next; a malformed row looked at is an error |
| TimeZones.ConvertUTCToLocalUsingTable | trunk/generic/tclClock.c:959-990 | local time is the second plus the offset in force then |
| TimeZones.ConvertLocalToUTCUsingTable | trunk/generic/tclClock.c:755-811 | offsets are tried until one comes again, the first as if the local time were UTC; in a sorted table it panics exactly when the first nine tried are different, so never with at most eight offsets, and otherwise the second found shows the local time exactly when an offset tried gives itself. The second offset tried is the answer if it gives itself, the first if the second leads back to it |
| TimeZones.LastTwoAgree | trunk/generic/tclClock.c:780-810 | the second found shows the local time exactly when the last two offsets tried agree |
| TimeZones.FoundIfSettles | trunk/generic/tclClock.c:755-811 | the second found shows the local time exactly when, among as many offsets of the orbit of tries as the table has offsets, some offset is followed by itself: a condition on the table and the local time alone |
| TimeZones.SettlesEarly | trunk/generic/tclClock.c:764-799 | once a value has come again, one that follows itself must have been the last before the repetition |
| TimeZones.TwoOffsets | trunk/generic/tclClock.c:755-811 | on a table of at most two offsets the second found shows the local time exactly when any second does |
| TimeZones.BackAndForth | trunk/generic/tclClock.c:755-990 | there a second converted to local time and back shows that local time again |
| TimeZones.ThreeOffsetsCircle | trunk/generic/tclClock.c:755-811 | with three offsets the search can miss a second that exists: a concrete table |
| AsyncProtocol.InvKept | trunk/generic/tclAsync.c:114-316 | every step keeps: a ready handler implies `asyncReady` or `asyncActive`, these two exclude each other, at most one callback runs, handlers are listed in order of creation |
| AsyncProtocol.NoMarkLost | trunk/generic/tclAsync.c:161-246 | in every run, when nothing is pending and no invocation is under way every mark has been followed by a run or the deletion of its handler |
| AsyncProtocol.RunsForAMark | trunk/generic/tclAsync.c:194-246 | a handler runs only for a mark that came after its last run |
| AsyncProtocol.EarliestFirst | trunk/generic/tclAsync.c:228-242 | the handler run is the earliest created of the ready ones |
| AsyncProtocol.OneAtATime | trunk/generic/tclAsync.c:194-246 | in every run, however invocations nest, callbacks never overlap: the one set running has returned before another is |
| AsyncProtocol.QuietAtTheEnd | trunk/generic/tclAsync.c:228-244 | in every run, when an invocation ends no handler is ready, and every mark made before has been followed by a run or a deletion |
| AsyncProtocol.ReadyReported | trunk/generic/tclAsync.c:318-345 | in every state of a run a ready handler is reported exactly if none is ready or no invocation is under way |
| AsyncProtocol.ReadyNotReported | trunk/generic/tclAsync.c:161-174 | a run after which a handler is ready and 0 is reported |
| AsyncProtocol.NotReadyReported | trunk/generic/tclAsync.c:318-345 | in every run 0 is reported while no handler is ready, except exactly after the only ready handler was deleted with no invocation under way, until the next mark or invocation |
| AsyncProtocol.ReportedNotReady | trunk/generic/tclAsync.c:272-316 | a run after which no handler is ready and 1 is reported |
| Async.ThreadSpecificData.Create | trunk/generic/tclAsync.c:114-140 | the new handler is linked last; a step of the protocol; the others keep their threads |
| Async.ThreadSpecificData.Mark | trunk/generic/tclAsync.c:161-174 | the mark is a step of the protocol; the owner is alerted unless it is at work; exactly that handler becomes ready |
| Async.ThreadSpecificData.InvokeStart | trunk/generic/tclAsync.c:194-240 | the part up to the first callback is a step of the protocol and picks what the protocol says; only that handler changes, and is no longer ready |
| Async.ThreadSpecificData.InvokeResume | trunk/generic/tclAsync.c:228-245 | so is each part after a callback, with the same effect |
| Async.ThreadSpecificData.Delete | trunk/generic/tclAsync.c:272-316 | the handler is unlinked and freed, a step of the protocol; panic exactly for another thread than the creator's; the others keep theirs |
| Async.Unlinked | trunk/generic/tclAsync.c:294-313 | the list stays linked, first and last included, wherever the handler was |
| Expansion.CommandWords | trunk/generic/tclBasic.c:4219-4360 | all words substitute to something that can be expanded where that is asked for exactly if the result is a command; in it the words of the script stand one after the other, an expanded list with its elements in their order, on the stack's array or a new one; on an error the first bad word is named and the values of those before it are in place |
| Expansion.CollectWords | trunk/generic/tclBasic.c:4225-4310 | the slots set aside suffice, empty lists counted as one |
| Expansion.ExpandWords | trunk/generic/tclBasic.c:4330-4349 | the backwards loop, also within one array, never overwrites a word not yet read, and ends with everything in place |
| Expansion.OneExpanded | trunk/generic/tclBasic.c:4330-4349 | laying down one word leaves the words before it alone |
| Expansion.WordPlaced | trunk/generic/tclBasic.c:4316-4349 | each word begins right after the words before it, and nothing else is in the command |
| Expansion.OneCommand | trunk/generic/tclBasic.c:4316-4349 | there is one command with the words in that order |
| Expansion.ExpandCommand | trunk/generic/tclBasic.c:4311-4350 | the command starts after as many unused slots as there were empty lists |
| Alloc.Allocator.Alloc | trunk/generic/tclAlloc.c:261-375 | the block given out was not in use, has room for the bytes asked for, and no block in use changes; small ones come from the smallest bucket that fits, which exists; NULL exactly if the system is asked and gives nothing or the size is too big to ask for, and a small size asks only if the smallest bucket that fits has no free block |
| Alloc.Allocator.ChooseBucket | trunk/generic/tclAlloc.c:325-336 | the least bucket below `NBUCKETS` with room for the bytes and the header; the size does not wrap |
| Alloc.Allocator.MoreCore | trunk/generic/tclAlloc.c:395-438 | an empty bucket gains the blocks of a new chunk, as many as fill it, and no block in use changes |
| Alloc.Allocator.Free | trunk/generic/tclAlloc.c:456-503 | exactly the one block is no longer in use; NULL and blocks already free are left alone |
| Alloc.Allocator.Realloc | trunk/generic/tclAlloc.c:521-632 | the block returned has room for the bytes asked for, keeps the contents that fit both sizes, and no other block in use, nor its contents, changes, exactly if the size is honoured (with 4-byte pointers: no smallest block is to have 2^32 - 8 bytes or more, no big one so many that links, header and bytes exceed 2^32 - 1); otherwise a block with room for nothing is returned; on failure nothing changes. NULL comes back exactly for a block already free, where the system gives nothing to a big block, and where `TclpAlloc` has nothing to give for NULL or for a block of a bucket that does not stay |
| Alloc.Allocator.ReallocSmall | trunk/generic/tclAlloc.c:595-632 | a block of a bucket is afterwards at most twice the size needed, and large enough exactly if the size is honoured; if not it is left as it is. It comes back itself, nothing changed, exactly if it fits and is at least half used, whatever the system would answer; otherwise the result is another block, or NULL exactly if `TclpAlloc` has none |
| Alloc.Allocator.ReallocBig | trunk/generic/tclAlloc.c:556-593 | a big block is resized exactly if the size is honoured; if not, the memory asked of the system is too little for its own links and header |
| AllocSteps.KeptHasRoom | trunk/generic/tclAlloc.c:595-632 | a block that stays, by a sum as wide as pointers are, has the room asked for exactly if the size is honoured; one for which it is not stays and has room for nothing |
| AllocSteps.AskedIsEnough | trunk/generic/tclAlloc.c:556-561 | the memory asked of the system for a big block holds links, header and bytes exactly if the size is honoured |
| Alloc.RoundedToNothing | trunk/generic/tclAlloc.c:595-632 | with 4-byte pointers a block for 0 bytes, resized to 2^32 - 8, is returned with room for 0 |
| Alloc.Allocator.MoveBig | trunk/generic/tclAlloc.c:556-593 | a big block the system has moved takes its old place in the ring |
| Alloc.Allocator.BlocksApart | trunk/generic/tclAlloc.c:261-438 | blocks in use never overlap |
| Alloc.Allocator.AreasApart | trunk/generic/tclAlloc.c:261-438 | nor do any two blocks, in use or free |
| Alloc.Allocator.CarvedArea | trunk/generic/tclAlloc.c:395-438 | a carved block has the size of its bucket, and names it while in use |
| Alloc.Allocator.Conserved | trunk/generic/tclAlloc.c:355-438 | in each bucket the blocks in use and the free ones are as many as `MoreCore` has carved |
| AllocSteps.LiveApart | trunk/generic/tclAlloc.c:261-438 | blocks in use, of buckets or big, lie in disjoint memory |
| AllocLists.LiveAndFree | trunk/generic/tclAlloc.c:343-357 | a bucket's blocks are those in use and those on its free list |
| AllocLists.Inserted | trunk/generic/tclAlloc.c:293-296 | a big block put after the head keeps the ring doubly linked |
| AllocLists.Removed | trunk/generic/tclAlloc.c:486-489 | taking one out does |
| AllocLists.Replaced | trunk/generic/tclAlloc.c:567-575 | and so does splicing in one that has moved |
| AllocSpace.SpaceWithChunk | trunk/generic/tclAlloc.c:395-438 | a chunk cut into blocks of one size overlaps nothing |
| AllocSteps.ChunkCount | trunk/generic/tclAlloc.c:413-416 | a chunk holds a whole number of blocks of each bucket |
| AllocSteps.LeastIsTight | trunk/generic/tclAlloc.c:325-336 | the least bucket that fits wastes less than half |

## Left out

- Back references and the retry memory (`cdissect` and its kin): trees here have none. `REG_EXPECT`, `hitstop`, `REG_SMALL`, tracing and the word packing and hashing of bit vectors are not modelled; state sets are compared directly.
- Exec.Find: what compilation promises (`WfTree`, `SearchFor`) is demanded of the tree and the search NFA. `ExecTree.Compiled` derives it for trees whose parts are joined as the parser joins them; that the parser does so for each construct is shown of the joints (`ExecTree.EndToEnd`, `ExecTree.InParallel`, `NetFragments.Optional`), not of the parser, which is not modelled.
- NfaNodes.NodeMade: the duplicate `nfanode` puts into a new NFA is described (`Renamed`); the procedure, `NfaDup.DupNfa`, duplicates within one NFA.
- Running out of memory and the limits on NFA size (`REG_ESPACE`, `REG_ETOOBIG`), except where the allocator itself returns NULL; integers do not overflow, except where a width is written out.
- NfaOptimize.Loop: the loops of `fixempties`, `pullback` and `pushfwd`, whose end the code itself leaves to the limit on states, take at most a given number of passes here. A pass goes over the states there are at its start, and for each over the arcs on its chain when it comes to it, as far as these are still there; the source goes along the chains as they change.
- The order of arcs that `carcsort` makes; nothing here depends on it.
- States and arcs of the NFA are numbers and values in maps, not linked records, and a freed state's number is not used again; the same holds for the blocks of the color map, the handlers of `tclAsync.c` and the blocks of the allocator, which are addressed by numbers.
- The table of color descriptors grows by one where the source doubles it; the color map is the two-level one of 16-bit characters.
- The lexer, the parser, locale tables, case-insensitive variants, equivalence classes and `REG_NLSTOP` in complemented brackets.
- The rest of `tclClock.c`: `localtime`, `mktime`, `tzset`, argument parsing, the second fields of a date other than the day.
- Alerting the owner's thread is only reported by `Async.ThreadSpecificData.Mark`; threads are numbers and the mutex is the atomicity of the steps. Handlers' result codes are not modelled.
- Reference counts and the `lines` array in the expansion of words; parsing and substitution of words are a list of their outcomes.
- Statistics, range checks, the mutex and the finalization of `tclAlloc.c`; the sizes of headers are those of the usual platforms, and the byte patterns that tell a header in use from a link are two constructors.
- Alloc.Allocator.Realloc: the contents of a big block after the system's reallocation are what the system promises, the part that fits. Where a big block is left shorter than its own header nothing is said of the allocator afterwards.
- Calendar.GetYearWeekDay: between 800 days before and 400 days after the changeover, where an ISO year can lie in both calendars, only that the numbers name the day (if its year has begun) is stated.
