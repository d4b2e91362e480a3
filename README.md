# Battery controller and log searcher, modelled in Dafny

This project models the two components of the energy-management console that
carry real logic.

- **The battery** (`Battery.java`). It has a fixed capacity, a charge level
  that starts at zero, and a usage semaphore. `charge` adds an amount and
  clamps the result at the capacity. `useEnergy` first tries to take a usage
  permit and refuses ("overload") if none is free. With a permit, it
  subtracts the amount only when the charge covers it, and it gives the
  permit back on every exit.
- **The log searcher** (`LogSearcher.java`). `run` decides whether its
  search criterion looks like a date (`\d{4}-\d{2}-\d{2}`, whole string) and
  calls `searchByDate` or `searchByEquipment`. Both build the regex
  `.*KEY.*\.log$` and walk the `*.log` entries of the log directory. They keep,
  in enumeration order, the full path of every entry whose name matches the
  whole regex. They record the search in the metadata store and turn
  failures into the searcher's exceptions.

Files:

- `energy.dfy`, module `Energy`. The battery as a class with the fields
  `capacity` (a `const`, since nothing reassigns it), `currentCharge` and
  `usagePermits`, the integer that stands for the semaphore. Beside it, a
  pure model of one call (`ChargeStep`, `UseStep`) and of a serial run of
  calls (`Replay`), with the invariant lemmas.
- `log_match.dfy`, module `LogMatch`. The pure part of the searcher: the
  date-shape test, the matcher of `.*KEY.*\.log$` for a key without regex
  metacharacters, the `*.log` glob, and the order-preserving filter with its
  lemmas.
- `log_search.dfy`, module `LogSearch`. The error kinds, the search as a
  function of pattern and directory, the filtering loop as a method, the
  metadata store and the `LogSearcher` class with `run` and the two search
  methods.

Modelling decisions:

- `charge`, and the check-then-subtract inside `useEnergy`, run under one
  lock. `useEnergy` takes its usage permit before the lock and gives it back
  after the unlock. When no permit is free it refuses without taking the
  lock. Each call is modelled as one atomic step. A concurrent history's
  effect on the charge is a `Replay` of the charges and of the uses that got
  a permit, in the order the lock admitted them. An overload refusal changes
  nothing.
- `tryAcquire` succeeds exactly when the permit count is positive. Java lets a
  semaphore start with a negative count, so the count is an `int` and the
  constructor does not restrict it.
- Java `double` amounts are `real`s. `Math.min` is modelled as `Energy.Min`.
- The search regex is interpreted only for literal keys, meaning keys with
  none of ``\ ^ $ . | ? * + ( ) [ ] { }``. Every date-shaped key is literal.
  Java's `.` does not match a line terminator (`\n`, `\r`, U+0085, U+2028,
  U+2029), so the text around the key must be free of them. For any other
  key, compiling is left to an `engine` parameter that stands for
  `java.util.regex`. It yields either a syntax error or a matcher.
- The directory is an input (`Listing`): the names it enumerates, in order;
  a failure to open it (missing, or another I/O error); a failure while
  walking it; or the names it enumerated followed by a failure to close it.
  An entry's path is `dir + "/" + name`.
- Neither `charge` nor `useEnergy` validates its amount. The lemmas
  `NegativeChargeBreaksInvariant` and `NegativeUseBreaksInvariant` show that a
  negative amount can take the charge out of its bounds.
- `useEnergy` returns a boolean. The model's `Verdict` also tells overload
  from insufficient charge, as the console messages do.
- A failure while iterating the directory surfaces as an unchecked
  `DirectoryIteratorException`. Only the last `catch (Exception e)` clause
  catches it, so it becomes the generic "unexpected error", not the read
  error.
- The stream is closed by try-with-resources after the body has run. A
  failure to close it is a read error, but by then the body has already
  recorded the search in the metadata store. The list it built is lost.

## Model

| member | source | states |
|---|---|---|
| `Energy.Min` | src/com/fh/concurrency/Battery.java:23 | `Math.min`: the result is at most both arguments and is one of them |
| `Energy.ChargeStep` | src/com/fh/concurrency/Battery.java:20-28 | a charge never raises the level past the capacity or past old level + amount; the result is one of the two; capacity and permits stay unchanged |
| `Energy.UseStep` | src/com/fh/concurrency/Battery.java:31-51 | overload exactly when no permit is free; success exactly when a permit is free and the charge covers the amount; success subtracts exactly the amount, every other outcome leaves the charge alone; the permit count is the same afterwards on every path |
| `Energy.ChargeKeepsWithinCapacity` | src/com/fh/concurrency/Battery.java:23 | with a non-negative amount, a charge keeps 0 <= charge <= capacity |
| `Energy.UseKeepsWithinCapacity` | src/com/fh/concurrency/Battery.java:35-36 | with a non-negative amount, a use keeps 0 <= charge <= capacity |
| `Energy.UseNeverOverdraws` | src/com/fh/concurrency/Battery.java:35-36 | check-then-subtract alone keeps a non-negative charge non-negative, whatever the amount |
| `Energy.NegativeChargeBreaksInvariant` | src/com/fh/concurrency/Battery.java:20-23 | amounts are not validated: charging -5 into an empty battery of capacity 10 leaves the charge negative |
| `Energy.NegativeUseBreaksInvariant` | src/com/fh/concurrency/Battery.java:31-36 | amounts are not validated: using -5 from a full battery succeeds and leaves the charge above capacity |
| `Energy.UseUndoesUnclampedCharge` | src/com/fh/concurrency/Battery.java:20-38 | using back an amount just charged without clamping succeeds and restores the exact earlier state |
| `Energy.ReplayKeepsWithinCapacity` | src/com/fh/concurrency/Battery.java:20-51 | any serial order of charge and use calls with non-negative amounts keeps 0 <= charge <= capacity, never changes the capacity, and leaves the permit count where it started |
| `Energy.Battery.constructor` | src/com/fh/concurrency/Battery.java:13-17 | the capacity is the argument, the charge is 0, the permits equal `maxUsageSlots`; a non-negative capacity starts within bounds |
| `Energy.Battery.Charge` | src/com/fh/concurrency/Battery.java:20-28 | the new charge is exactly `min(capacity, old + amount)`; the permits are untouched; non-negative amounts preserve the bounds |
| `Energy.Battery.UseEnergy` | src/com/fh/concurrency/Battery.java:31-51 | returns true iff a permit was free and the charge covered the amount; on true the charge drops by exactly the amount, otherwise it is unchanged; the permit count is restored on every path; non-negative amounts preserve the bounds |
| `LogMatch.FitsPointwise` | src/com/fh/concurrency/LogSearcher.java:28 | a whole-string match against a fixed-width shape holds iff the lengths agree and every position is accepted by its token |
| `LogMatch.IsDateShaped` | src/com/fh/concurrency/LogSearcher.java:28-32 | a key counts as a date iff it has length 10, ASCII digits at 0-3, 5-6 and 8-9, and `-` at 4 and 7 |
| `LogMatch.DateKeysAreLiteral` | src/com/fh/concurrency/LogSearcher.java:49 | a date-shaped key holds no regex metacharacter, so the date search regex is always literal |
| `LogMatch.OccursFromSomewhere` | src/com/fh/concurrency/LogSearcher.java:66-67 | trying start positions from i on succeeds iff the key sits, with terminator-free text around it, at some position >= i |
| `LogMatch.LiteralMatchesIff` | src/com/fh/concurrency/LogSearcher.java:66-67 | for a literal key, a name matches iff it equals p + key + q + ".log" for line-terminator-free p and q |
| `LogMatch.LiteralMatchEndsInLog` | src/com/fh/concurrency/LogSearcher.java:67 | every name the literal matcher accepts ends in `.log` |
| `LogMatch.EntryPathInjective` | src/com/fh/concurrency/LogSearcher.java:68 | two entries of one directory with equal paths have equal names |
| `LogMatch.LogGlob` | src/com/fh/concurrency/LogSearcher.java:64 | the glob `*.log` keeps exactly the names ending in `.log` |
| `LogMatch.Matched` | src/com/fh/concurrency/LogSearcher.java:65-70 | the result is no longer than the listing, and every path in it belongs to a listed entry the matcher accepts |
| `LogMatch.MatchedSnoc` | src/com/fh/concurrency/LogSearcher.java:65-70 | one more enumerated entry extends the result by its path if it matches, otherwise by nothing |
| `LogMatch.MatchedCount` | src/com/fh/concurrency/LogSearcher.java:65-70 | each matching entry's path appears exactly as often as the entry is listed; a non-matching entry's path does not appear |
| `LogMatch.MatchedIsSubsequence` | src/com/fh/concurrency/LogSearcher.java:65-70 | the result is a subsequence of the listing's paths, so enumeration order is kept |
| `LogMatch.SkipNonMatching` | src/com/fh/concurrency/LogSearcher.java:67-68 | skipping a non-matching first entry keeps the result a subsequence of the listing |
| `LogMatch.MatchedEmptyIff` | src/com/fh/concurrency/LogSearcher.java:74-75 | the result is empty iff no listed entry matches |
| `LogMatch.GlobThenMatch` | src/com/fh/concurrency/LogSearcher.java:64-70 | filtering by the `*.log` glob and then by a matcher gives, in order, exactly the entries that end in `.log` and that the matcher accepts |
| `LogMatch.GlobIsRedundant` | src/com/fh/concurrency/LogSearcher.java:64 | for a literal key, filtering by `*.log` before matching changes nothing |
| `LogSearch.CompilePattern` | src/com/fh/concurrency/LogSearcher.java:49-58 | a literal key always compiles, and its matcher accepts a name exactly when the name is in the language of `.*KEY.*\.log$`: p + key + q + ".log" with p and q free of line terminators |
| `LogSearch.Search` | src/com/fh/concurrency/LogSearcher.java:47-93 | success iff the regex compiled and the directory was opened, walked and closed without error; a syntax error always gives the invalid-regex error; on success the result is exactly the ordered filter of the listing by "ends in `.log` and the pattern matches", so every returned path belongs to such an entry |
| `LogSearch.CollectMatches` | src/com/fh/concurrency/LogSearcher.java:65-70 | the loop builds exactly the ordered filter `Matched` of the stream |
| `LogSearch.InvalidRegexBeforeDirectory` | src/com/fh/concurrency/LogSearcher.java:52-58 | an invalid regex gives the same invalid-regex error whatever state the directory is in |
| `LogSearch.DirectoryErrorsMap` | src/com/fh/concurrency/LogSearcher.java:81-90 | a missing directory gives file-not-found; another failure to open the stream, or a failure to close it after a full walk, gives the read error; an iteration failure gives the generic error |
| `LogSearch.LiteralSearchSelectsExactly` | src/com/fh/concurrency/LogSearcher.java:47-93 | for a literal key and a listable directory: success; the result keeps the enumeration order; each entry of the form p + key + q + ".log" appears as often as listed and nothing else appears; the result is empty iff no entry has that form |
| `LogSearch.CompiledSearchSelectsExactly` | src/com/fh/concurrency/LogSearcher.java:62-75 | for any compiled pattern and a directory that lists cleanly: success; the result keeps the enumeration order; each `.log` entry the pattern matches appears as often as listed and nothing else appears; the result is empty iff no such entry exists |
| `LogSearch.SameMatcherSameResult` | src/com/fh/concurrency/LogSearcher.java:66-67 | two matchers that agree on every name select the same entries |
| `LogSearch.DateKeyIsLiteral` | src/com/fh/concurrency/LogSearcher.java:49 | the key 2024-11-01 is literal |
| `LogSearch.DateKeyMatchesItsDay` | src/com/fh/concurrency/LogSearcher.java:66-67 | `solar_2024-11-01.log` matches the key 2024-11-01 |
| `LogSearch.DateKeyMissesOtherDay` | src/com/fh/concurrency/LogSearcher.java:66-67 | `wind_2024-10-25.log` does not match the key 2024-11-01 |
| `LogSearch.EquipmentKeyMatchesItsLog` | src/com/fh/concurrency/LogSearcher.java:98-116 | the key `Turbine` is literal and matches `WindTurbine.log` |
| `LogSearch.EquipmentKeyMissesOtherLog` | src/com/fh/concurrency/LogSearcher.java:98-116 | `SolarPanel.log` does not match the key `Turbine` |
| `LogSearch.MatchedOfTwo` | src/com/fh/concurrency/LogSearcher.java:65-70 | over two entries where only the first matches, the result is that entry's path alone |
| `LogSearch.GlobOfTwo` | src/com/fh/concurrency/LogSearcher.java:64 | two `.log` names both pass the glob, in order |
| `LogSearch.DateSearchExample` | src/com/fh/concurrency/LogSearcher.java:47-93 | searching 2024-11-01 over `solar_2024-11-01.log`, `wind_2024-10-25.log` returns only the solar log's path |
| `LogSearch.EquipmentSearchExample` | src/com/fh/concurrency/LogSearcher.java:96-142 | searching `Turbine` returns only `WindTurbine.log`'s path; with no match the result is an empty success, not an error |
| `LogSearch.SuffixIsNotSearched` | src/com/fh/concurrency/LogSearcher.java:49 | the key `log` does not match `abc.log`: the final `.log` does not count as an occurrence of the key |
| `LogSearch.Metadata.constructor` | src/com/fh/concurrency/Main.java:11 | a new metadata store holds no search records |
| `LogSearch.Metadata.RecordSearch` | src/com/fh/concurrency/LogSearcher.java:121 | recording a search appends one record with its key and description |
| `LogSearch.LogSearcher.constructor` | src/com/fh/concurrency/LogSearcher.java:17-23 | the searcher keeps its directory, metadata store and criterion, and starts with no results |
| `LogSearch.LogSearcher.Run` | src/com/fh/concurrency/LogSearcher.java:26-44 | a date-shaped criterion takes the date search, any other the equipment search; a success replaces the results; any error keeps the old results; one search with the matching description is recorded exactly when the regex compiled and the directory was walked to the end, which includes a failure to close the stream afterwards |
| `LogSearch.LogSearcher.SearchByDate` | src/com/fh/concurrency/LogSearcher.java:47-93 | returns `Search` of the compiled key over the directory; records `searched by date` exactly when the regex compiled and the directory was walked to the end, even if closing the stream then fails |
| `LogSearch.LogSearcher.SearchByEquipment` | src/com/fh/concurrency/LogSearcher.java:96-142 | returns `Search` of the compiled key over the directory; records `searched by equipment` exactly when the regex compiled and the directory was walked to the end, even if closing the stream then fails |
| `LogSearch.LogSearcher.SearchAndRecord` | src/com/fh/concurrency/LogSearcher.java:47-93 | compile, then map the directory state to an error or to the filtered list; the search is recorded exactly when the body of the try block ran to the end: on success and on a failure to close the stream |
| `LogSearch.SearchesAgree` | src/com/fh/concurrency/LogSearcher.java:47-142 | for the same key and directory, the date search and the equipment search return the same result |

## Left out

- The console driver (`Main.java`): the menu loop, `Scanner` input, a thread per request and the `Thread.sleep` staggering. It calls `startCharging` and `startUsingEnergy`, which `Battery.java` does not define.
- The `ReentrantLock` and the real `Semaphore`. Each battery method is one atomic step, and interleavings are not modelled, so the semaphore's bound on concurrent `useEnergy` calls is not captured.
- Energy.UseStep, like Energy.Battery.UseEnergy, refuses only when the permit count itself is at most zero. Neither refuses because other callers are holding permits at the same moment, since the model has no concurrent callers.
- Console output in both classes, including the charge `source` text and the listing of found files.
- IEEE `double` behaviour: rounding, infinities and NaN. `Energy.Min` is `Math.min` on ordinary values.
- The search regex for keys with regex metacharacters. Those go to the abstract `engine` parameter. The model does not restate what `Pattern.compile` or `Matcher.matches` do with them.
- Resolving `<home>/Documents/<logDirectory>`: `logDirPath` is given already resolved. `Path.toString` is modelled as `dir + "/" + name`, the Unix separator.
- `DirectoryStream` itself: the enumeration order is whatever the input listing says. A failure partway through iteration is one `IterationFailure` value, and the partial list is discarded as in the source.
- `openLogFile`, which only reads a file line by line and prints it.
- `Metadata` and the `EMS*Exception` classes: their files are not part of this model. `Metadata` is reduced to an append-only list of search records, and `logSearch` is assumed never to throw. The exceptions are reduced to `SearchError` kinds.
- LogSearch.Metadata.constructor: the empty record list of a new store is assumed; `Metadata`'s own source is not part of this model.
