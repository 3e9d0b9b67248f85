# Verified models of the TintempPlusPlus bot and of the libraries bundled with it

The repository is a small Discord bot with the headers of fmt, cpp-httplib and D++ beside it. This
project models the parts of them that hold the most intricate logic, and proves that they do what
they are for:

- `FormatCompile`, `FormatFields`, `TruncatedOutput`, `Decimal`: the compile-time format-string compiler
  of fmt, as a compiler correctness proof with a print/read round trip, what its fields write and why a
  string is refused, and truncated formatting of the compiled tree.
- `ThreadPool`, `ThreadPoolRest`: the worker pool of cpp-httplib, a mutex and a condition variable, as a
  state machine over its atomic steps and as a class with one method per step; when its workers wait, and
  how it comes to rest.
- `SafeDuration`: overflow-free conversion between integral durations, for all widths and signs.
- `ChronoFormat`: the chrono format parser of fmt, run once to check and once to format.
- `TicTacToe`, `GameList`, `GameRuns`, `Registry`: the bot's game, its global list of games with their
  identifiers, whole runs of commands, presses and callbacks, and the handlers as methods over the list.
- `PrintfFormat`, `PrintfLoop`, `PrintfScan`, `PrintfFaults`: the printf scanner of fmt, with the POSIX
  `n$` form, and why a conversion is refused.
- `PrintfInteger`, `PrintfNumerals`: the text that it writes for integers, against section 7.21.6.1 of
  ISO/IEC 9899:2011, and reading it back.
- `ArgStore`: the dynamic argument store of fmt, with its vectors and its list of heap nodes.
- `Collector`, `EventRouter`: event routers, timed listeners and collectors of D++.
- `Cache`: the object cache of D++ and its deletion queue.

`dafny verify dfyconfig.toml` checks everything.

Code that updates state is modelled by methods and classes, each proved equal to a function on
values; what the code is for is then proved about those functions, over all inputs or all runs.

## What the proofs showed about the code

- A lone closing brace in a compiled format string is accepted, and the character behind it is lost
  (`FaithfulIffClosesDoubled` says exactly when).
- A job enqueued after the last worker decided to exit is never run (`LostExactly`, `AJobIsLost`).
- A scaled duration cast is refused when the product overflows although the quotient would fit
  (`RefusesEarlyExactly`).
- A press on a confirmation button is lost when an entry of two other players is listed before its
  own (`ConfirmExactly`); a "No" counts as a confirmation (`SecondPressDecides`).
- The click handler has no guard for finished games and takes a turn when the id is on no cell
  (`ClickIgnoredExactly`, `ClickCorrectExactly`): a click on an idle cell of a won game breaks it
  (`WonGameBreaks`). With enabled buttons only, all games stay correct.
- A printf conversion that the end of the format cuts off is refused behind a length modifier, but
  otherwise takes its last character for its type (`CutOffConversion`).
- Integers are written as ISO/IEC 9899:2011 asks except in five cases, which
  `PrintfInteger.AgreesWithStandardExactly` delimits, with an example of each.
- Removing from the cache an object that is not the cached one loses the cached one
  (`ConservedExactly`).
- The comment on the destructor of `timed_listener` says that it does not call the timeout lambda; with
  `stop_timer` as documented it does, and `collector::cancel` relies on it. The model follows the code.

## Model

| member | source | states |
|---|---|---|
| `FormatCompile.PrintCompileFormat` | src/TintempPlusPlus/dependencies/include/dpp-9.0/dpp/fmt/compile.h:709-779 | For every list of literal characters, `{}`, `{n}` and `{name}` fields: the brace-escaped print of it compiles exactly when numbering is not mixed and every field has its argument, and running the tree then writes what formatting the pieces left to right writes |
| `FormatCompile.CompilesExactly` | src/TintempPlusPlus/dependencies/include/dpp-9.0/dpp/fmt/compile.h:709-779 | For every string at all: it compiles (without specs) iff a reader of the grammar reads it and the fields are numbered consistently; the tree then means what was read, the k-th automatic field reading argument k, and reads no argument that does not exist |
| `FormatCompile.FieldNumbered` | src/TintempPlusPlus/dependencies/include/dpp-9.0/dpp/fmt/compile.h:718-764 | How one field moves the counter: `{}` needs a non-negative counter below the number of arguments and adds one, `{n}` needs it untouched by automatic fields and turns it off for good, `{name}` leaves it alone |
| `FormatCompile.CompileFaithful` | src/TintempPlusPlus/dependencies/include/dpp-9.0/dpp/fmt/compile.h:709-779 | The same at any position and any state of the counter: the tail compiles iff its pieces are numbered from there, and its tree means them |
| `FormatCompile.TailFaithful` | src/TintempPlusPlus/dependencies/include/dpp-9.0/dpp/fmt/compile.h:639-652 | A node followed by the compiled rest of the string formats as the node and then the pieces of the rest |
| `FormatCompile.CompiledIsRead` | src/TintempPlusPlus/dependencies/include/dpp-9.0/dpp/fmt/compile.h:709-779 | Nothing compiles that the reader does not read |
| `FormatCompile.PrintThenLex` | src/TintempPlusPlus/dependencies/include/dpp-9.0/dpp/fmt/compile.h:709-779 | Reading undoes printing for every list of valid pieces, padded and oversized indices excluded by what a piece is |
| `FormatCompile.LexThenPrint` | src/TintempPlusPlus/dependencies/include/dpp-9.0/dpp/fmt/compile.h:709-779 | Printing undoes reading: what was read with doubled braces prints back as the very string |
| `FormatCompile.FaithfulIffClosesDoubled` | src/TintempPlusPlus/dependencies/include/dpp-9.0/dpp/fmt/compile.h:765-768 | A string that compiles is the print of the pieces its tree formats iff every closing brace outside fields is followed by another one, which the code does not check |
| `FormatCompile.LoneCloseLosesACharacter` | src/TintempPlusPlus/dependencies/include/dpp-9.0/dpp/fmt/compile.h:765-768 | The string `}x` compiles and formats as `}`: the character after a lone closing brace is lost |
| `FormatCompile.ReadDoubledIff` | src/TintempPlusPlus/dependencies/include/dpp-9.0/dpp/fmt/compile.h:765-768 | The lax and the documented reading of a string differ exactly when some closing brace is not doubled |
| `FormatCompile.ScanText` | src/TintempPlusPlus/dependencies/include/dpp-9.0/dpp/fmt/compile.h:628-634 | The loop over literal text stops at the first brace or at the end |
| `FormatCompile.ShortcutAgrees` | src/TintempPlusPlus/dependencies/include/dpp-9.0/dpp/fmt/compile.h:856-883 | The shortcut for the string `{}` writes what the compiled string writes |
| `FormatFields.FieldsWriteArguments` | src/TintempPlusPlus/dependencies/include/dpp-9.0/dpp/fmt/compile.h:530-602 | For every list of pieces that compiles: formatting writes the pieces one after the other, characters as they are, the k-th automatic field as argument k, an indexed field as that argument and a named one as the first argument with that name |
| `FormatFields.StopsAtMissingName` | src/TintempPlusPlus/dependencies/include/dpp-9.0/dpp/fmt/compile.h:574-582 | Formatting stops without success at the first name that no argument bears, having written what comes before it |
| `FormatFields.NamedFieldExactly` | src/TintempPlusPlus/dependencies/include/dpp-9.0/dpp/fmt/compile.h:554-582 | One named field compiles, fails iff no argument bears the name, and otherwise writes the first that does |
| `FormatFields.IndexedFieldExactly` | src/TintempPlusPlus/dependencies/include/dpp-9.0/dpp/fmt/compile.h:530-545 | One indexed field compiles iff its number is below the number of arguments and an int, and then writes that argument |
| `FormatFields.FieldTextsExactly` | src/TintempPlusPlus/dependencies/include/dpp-9.0/dpp/fmt/format.h:2751-2790 | Exactly which texts between braces are fields: nothing, a number without padding that is in range, and a name of letters, digits and underscores that begins with no digit |
| `FormatFields.LastBraceRefused` | src/TintempPlusPlus/dependencies/include/dpp-9.0/dpp/fmt/compile.h:713-767 | Behind any pieces in order, a brace that is the last character is refused as unmatched |
| `FormatFields.NoFieldRefused` | src/TintempPlusPlus/dependencies/include/dpp-9.0/dpp/fmt/format.h:2751-2770 | Behind any pieces in order, a brace in front of a character that begins no argument id is refused for it |
| `FormatFields.NameRefused` | src/TintempPlusPlus/dependencies/include/dpp-9.0/dpp/fmt/compile.h:736-763 | A name that is not closed is refused for that, and a name with a spec is an unknown format |
| `FormatFields.AutomaticRefused` | src/TintempPlusPlus/dependencies/include/dpp-9.0/dpp/fmt/compile.h:718-731 | An automatic field is refused behind an indexed one, or for want of an argument, in this order |
| `FormatFields.IndexRefused` | src/TintempPlusPlus/dependencies/include/dpp-9.0/dpp/fmt/compile.h:736-754 | An index is refused if it is too big or not closed, behind an automatic field, or for want of its argument, in this order |
| `FormatFields.RefusedBehind` | src/TintempPlusPlus/dependencies/include/dpp-9.0/dpp/fmt/compile.h:639-652 | Pieces in order are passed with the counter that they leave, so what is refused behind them is refused as a whole |
| `TruncatedOutput.FormatToN` | src/TintempPlusPlus/dependencies/include/dpp-9.0/dpp/fmt/compile.h:914-926 | Over a back inserter: the first min(n, total) characters of what full formatting writes are appended, and the size reported is the total |
| `TruncatedOutput.FormatToBuffer` | src/TintempPlusPlus/dependencies/include/dpp-9.0/dpp/fmt/compile.h:914-926 | Over a pointer: the same characters are stored from the start position on, the pointer is advanced by exactly their number, the total is reported, and no other character of the buffer changes |
| `TruncatedOutput.TruncatingAppender.FormatNode` | src/TintempPlusPlus/dependencies/include/dpp-9.0/dpp/fmt/compile.h:88-105 | Running any tree over the first iterator appends the part of its text that still fits and counts all of it |
| `TruncatedOutput.TruncatingPointer.FormatNode` | src/TintempPlusPlus/dependencies/include/dpp-9.0/dpp/fmt/compile.h:59-86 | The same for the iterator that sends what does not fit to a scratch cell |
| `TruncatedOutput.TruncatingAppender.Assign` | src/TintempPlusPlus/dependencies/include/dpp-9.0/dpp/fmt/compile.h:97-100 | One assignment: counted always, stored iff the limit was not reached |
| `TruncatedOutput.TruncatingPointer.Store` | src/TintempPlusPlus/dependencies/include/dpp-9.0/dpp/fmt/compile.h:83-85 | A dereference past the limit writes nowhere in the buffer |
| `TruncatedOutput.TruncatingPointer.Advance` | src/TintempPlusPlus/dependencies/include/dpp-9.0/dpp/fmt/compile.h:72-75 | The position moves only below the limit, the count always |
| `TruncatedOutput.SizeIsLengthOfText` | src/TintempPlusPlus/dependencies/include/dpp-9.0/dpp/fmt/compile.h:936-943 | `formatted_size`, which only counts, is the length of what full formatting writes, for every tree |
| `ThreadPool.NoLostWakeup` | src/TintempPlusPlus/dependencies/include/dpp-9.0/dpp/httplib.h:528-571 | In every interleaving, spurious wakeups included: with the mutex free and a job queued while a worker sleeps un-notified, there are at least as many workers awake and heading for the lock as jobs, and one of them can take it |
| `ThreadPool.JobsNeverStuck` | src/TintempPlusPlus/dependencies/include/dpp-9.0/dpp/httplib.h:516-584 | In every reachable state with jobs in the queue and a worker that has not exited, some step is possible that is no new call of `enqueue` or `shutdown` and no spurious wakeup |
| `ThreadPoolRest.DecisionExactly` | src/TintempPlusPlus/dependencies/include/dpp-9.0/dpp/httplib.h:559-566 | In every reachable state, a worker with the mutex waits iff the queue is empty and the pool not shut down, exits iff it is empty and shut down, and otherwise leaves with the front job; it frees the mutex and changes nothing else |
| `ThreadPoolRest.SleepExactly` | src/TintempPlusPlus/dependencies/include/dpp-9.0/dpp/httplib.h:528-566 | No other step puts a worker to sleep; a sleeper is woken by its notification, by `notify_all` or spuriously, and by nothing else |
| `ThreadPoolRest.AnyWaiterMayWake` | src/TintempPlusPlus/dependencies/include/dpp-9.0/dpp/httplib.h:531-560 | Any waiting worker may wake spuriously at any time, and any of them may be the one that `notify_one` picks |
| `ThreadPoolRest.ComesToRest` | src/TintempPlusPlus/dependencies/include/dpp-9.0/dpp/httplib.h:516-584 | From every reachable state, a run without new calls and spurious wakeups is bounded by a measure, whatever its order; nothing more can happen exactly when the mutex is free and every worker waits, or has exited after a shutdown; and without a shutdown all jobs have then been run |
| `ThreadPoolRest.JobWhileAsleep` | src/TintempPlusPlus/dependencies/include/dpp-9.0/dpp/httplib.h:528-560 | A reachable state with a job in the queue and its only worker asleep |
| `ThreadPool.WorkStep` | src/TintempPlusPlus/dependencies/include/dpp-9.0/dpp/httplib.h:528-571 | Every atomic step keeps that balance, one notification in progress counted |
| `ThreadPool.InvReachable` | src/TintempPlusPlus/dependencies/include/dpp-9.0/dpp/httplib.h:516-584 | Every reachable state: jobs taken followed by the queue are the jobs enqueued, in order; what was taken has returned or is in the hands of one worker; mutual exclusion; no lost wakeup |
| `ThreadPool.FifoStep` | src/TintempPlusPlus/dependencies/include/dpp-9.0/dpp/httplib.h:528-566 | Every step keeps taken ++ queue == submitted |
| `ThreadPool.HistoryStep` | src/TintempPlusPlus/dependencies/include/dpp-9.0/dpp/httplib.h:553-570 | Every step keeps: jobs taken, as a multiset, are those returned and those being run |
| `ThreadPool.ShutdownDrains` | src/TintempPlusPlus/dependencies/include/dpp-9.0/dpp/httplib.h:534-571 | If no enqueue starts after `shutdown_` is set: from the announcement on any run is bounded by the measure, no worker waits, a worker can step until all have exited, and then the queue is empty and every job submitted has returned |
| `ThreadPool.AnnouncedStep` | src/TintempPlusPlus/dependencies/include/dpp-9.0/dpp/httplib.h:541-571 | After `notify_all` no step makes a worker wait, and every step but a new enqueue lowers the measure over jobs and worker phases |
| `ThreadPool.JoinedMeansDone` | src/TintempPlusPlus/dependencies/include/dpp-9.0/dpp/httplib.h:543-546 | When all workers have exited, every job has been taken in order and run to its return |
| `ThreadPool.LostExactly` | src/TintempPlusPlus/dependencies/include/dpp-9.0/dpp/httplib.h:528-571 | Without that discipline: the jobs lost are exactly those enqueued after the last worker decided to exit |
| `ThreadPool.LateEnqueue` | src/TintempPlusPlus/dependencies/include/dpp-9.0/dpp/httplib.h:528-532 | Such a call is possible in every state where all workers have exited |
| `ThreadPool.AJobIsLost` | src/TintempPlusPlus/dependencies/include/dpp-9.0/dpp/httplib.h:516-584 | From a new pool of one worker a run loses a job: the worker exits at shutdown, and the job is enqueued after that |
| `ThreadPool.EnqueuedTooLate` | src/TintempPlusPlus/dependencies/include/dpp-9.0/dpp/httplib.h:528-571 | What is enqueued then stays in the queue for ever |
| `ThreadPool.Pool.constructor` | src/TintempPlusPlus/dependencies/include/dpp-9.0/dpp/httplib.h:518-523 | n workers, all at the top of their loop |
| `ThreadPool.Pool.EnqueueLocks` | src/TintempPlusPlus/dependencies/include/dpp-9.0/dpp/httplib.h:529-529 | A caller takes the free mutex |
| `ThreadPool.Pool.EnqueuePushes` | src/TintempPlusPlus/dependencies/include/dpp-9.0/dpp/httplib.h:530-530 | The job goes to the back of the queue |
| `ThreadPool.Pool.EnqueueNotifies` | src/TintempPlusPlus/dependencies/include/dpp-9.0/dpp/httplib.h:531-531 | Some waiting worker, any one, is woken if there is one, with the mutex still held |
| `ThreadPool.Pool.EnqueueUnlocks` | src/TintempPlusPlus/dependencies/include/dpp-9.0/dpp/httplib.h:529-532 | The mutex is free again when the guard goes out of scope |
| `ThreadPool.Pool.WorkerLocks` | src/TintempPlusPlus/dependencies/include/dpp-9.0/dpp/httplib.h:557-560 | A worker at the top of its loop, or woken inside `wait`, takes the free mutex |
| `ThreadPool.Pool.WorkerDecides` | src/TintempPlusPlus/dependencies/include/dpp-9.0/dpp/httplib.h:559-566 | With the mutex: wait if there is nothing to do, exit if also shut down, else take the front job |
| `ThreadPool.Pool.JobEnds` | src/TintempPlusPlus/dependencies/include/dpp-9.0/dpp/httplib.h:569-569 | The job returns and its worker is back at the top of its loop |
| `ThreadPool.Pool.StopLocks` | src/TintempPlusPlus/dependencies/include/dpp-9.0/dpp/httplib.h:537-537 | The caller of `shutdown` takes the free mutex |
| `ThreadPool.Pool.StopSets` | src/TintempPlusPlus/dependencies/include/dpp-9.0/dpp/httplib.h:538-539 | `shutdown_` is set and the mutex freed |
| `ThreadPool.Pool.NotifiesAll` | src/TintempPlusPlus/dependencies/include/dpp-9.0/dpp/httplib.h:541-541 | Every waiting worker is woken |
| `ThreadPool.Pool.JoinAll` | src/TintempPlusPlus/dependencies/include/dpp-9.0/dpp/httplib.h:543-547 | The joins complete from every announced state whichever worker takes the next step each time, and then all jobs have been run |
| `SafeDuration.LosslessExactly` | src/TintempPlusPlus/dependencies/include/dpp-9.0/dpp/fmt/chrono.h:36-103 | For all widths and signs of both types: no error iff the value fits the target, and then the value itself; no dynamic check is missing and none superfluous |
| `SafeDuration.GuardsExact` | src/TintempPlusPlus/dependencies/include/dpp-9.0/dpp/fmt/chrono.h:180-193 | The two comparisons before the multiplication let pass exactly the counts whose product fits the intermediate type |
| `SafeDuration.CastExactly` | src/TintempPlusPlus/dependencies/include/dpp-9.0/dpp/fmt/chrono.h:152-198 | The cast succeeds iff the count and count*num fit the intermediate type and the truncated quotient fits the target, and the result is then that exact quotient, rounded toward zero |
| `SafeDuration.RefusesEarlyExactly` | src/TintempPlusPlus/dependencies/include/dpp-9.0/dpp/fmt/chrono.h:175-198 | Where the exact quotient would fit the target, the cast still fails iff the count or the product overflows the intermediate type |
| `SafeDuration.RefusesEarly` | src/TintempPlusPlus/dependencies/include/dpp-9.0/dpp/fmt/chrono.h:180-193 | There are such casts: 2^62 seconds by 3/4 in 64 bits |
| `SafeDuration.FactorInverse` | src/TintempPlusPlus/dependencies/include/dpp-9.0/dpp/fmt/chrono.h:161-165 | The reduced factor back is the factor there upside down |
| `SafeDuration.BackFromFiner` | src/TintempPlusPlus/dependencies/include/dpp-9.0/dpp/fmt/chrono.h:152-198 | A cast by an integral factor that succeeds is undone by the cast by its inverse |
| `SafeDuration.FinerAndBack` | src/TintempPlusPlus/dependencies/include/dpp-9.0/dpp/fmt/chrono.h:152-198 | For any two periods with an integral factor: casting to the finer unit and back returns the original count |
| `SafeDuration.IntermediateExactly` | src/TintempPlusPlus/dependencies/include/dpp-9.0/dpp/fmt/chrono.h:171-173 | The type of the computation is one of the two types and the 64-bit signed one, is as wide as the widest of them, and is signed iff none of the widest is unsigned |
| `SafeDuration.SixtyFourBits` | src/TintempPlusPlus/dependencies/include/dpp-9.0/dpp/fmt/chrono.h:180-184 | The ranges of the 64-bit types, in numbers |
| `SafeDuration.ExactTowardZero` | src/TintempPlusPlus/dependencies/include/dpp-9.0/dpp/fmt/chrono.h:193-193 | The quotient that a cast returns is count*num/den rounded toward zero |
| `SafeDuration.SignedCastExactly` | src/TintempPlusPlus/dependencies/include/dpp-9.0/dpp/fmt/chrono.h:152-198 | Signed representations of at most 64 bits: the cast succeeds iff count*num is at least -2^63 and below 2^63 and the quotient fits the target |
| `SafeDuration.NegativeRefused` | src/TintempPlusPlus/dependencies/include/dpp-9.0/dpp/fmt/chrono.h:171-178 | Every negative count is refused when the target is unsigned, has at least 64 bits and is no narrower than the source |
| `SafeDuration.MillisecondBeforeZero` | src/TintempPlusPlus/dependencies/include/dpp-9.0/dpp/fmt/chrono.h:171-198 | -1 ms of 64 signed bits is refused as seconds of 64 unsigned bits, and is zero seconds of 32 unsigned bits |
| `SafeDuration.FactorLowest` | src/TintempPlusPlus/dependencies/include/dpp-9.0/dpp/fmt/chrono.h:161-165 | The factor between two periods is in lowest terms |
| `ChronoFormat.ParseChronoFormat` | src/TintempPlusPlus/dependencies/include/dpp-9.0/dpp/fmt/chrono.h:525-681 | The loop over any handler makes exactly the calls the spec asks for, up to the first one the handler throws on, and ends as the spec says: at a position, with an invalid format, or with that refusal |
| `ChronoFormat.NoEmptyText` | src/TintempPlusPlus/dependencies/include/dpp-9.0/dpp/fmt/chrono.h:538-538 | No handler is ever given an empty text |
| `ChronoFormat.FlushText` | src/TintempPlusPlus/dependencies/include/dpp-9.0/dpp/fmt/chrono.h:538-538 | Text since the last directive is reported iff there is any |
| `ChronoFormat.Handler.Handle` | src/TintempPlusPlus/dependencies/include/dpp-9.0/dpp/fmt/chrono.h:683-711 | A handler throws on what it refuses and records every other call |
| `ChronoFormat.PrintThenParse` | src/TintempPlusPlus/dependencies/include/dpp-9.0/dpp/fmt/chrono.h:525-681 | For every list of literal characters other than `}` and of directives (plain, `%E`, `%O`): printing with `%` escaped and parsing replays it in order and consumes the whole string |
| `ChronoFormat.ParseThenPrint` | src/TintempPlusPlus/dependencies/include/dpp-9.0/dpp/fmt/chrono.h:525-681 | For every text that parses: what was parsed prints back as the text consumed iff no directive in it is `%n` or `%t`, which stand for plain characters |
| `ChronoFormat.SpelledThenParsed` | src/TintempPlusPlus/dependencies/include/dpp-9.0/dpp/fmt/chrono.h:541-556 | The same however the characters are written: `%%` is a percent sign, `%n` a newline and `%t` a tab |
| `ChronoFormat.PrintThenCheck` | src/TintempPlusPlus/dependencies/include/dpp-9.0/dpp/fmt/chrono.h:683-711 | Checking a printed spec stops at its end iff all its directives have letters in HIMSrRTpQq, and otherwise refuses the first that has not |
| `ChronoFormat.Decodes` | src/TintempPlusPlus/dependencies/include/dpp-9.0/dpp/fmt/chrono.h:542-676 | Each directive's letter and modifier decode to that directive |
| `ChronoFormat.CloseBraceStops` | src/TintempPlusPlus/dependencies/include/dpp-9.0/dpp/fmt/chrono.h:533-533 | A closing brace ends the spec whatever follows it: the same calls, the same stop |
| `ChronoFormat.ScanOfPrefix` | src/TintempPlusPlus/dependencies/include/dpp-9.0/dpp/fmt/chrono.h:525-681 | Parsing only the range a first parse consumed makes the same calls and stops at its end |
| `ChronoFormat.AcceptedExactly` | src/TintempPlusPlus/dependencies/include/dpp-9.0/dpp/fmt/chrono.h:683-711 | The checker accepts a text iff it parses and every directive in it has a letter in HIMSrRTpQq: a time of day, or the duration itself |
| `ChronoFormat.CheckedThenFormatted` | src/TintempPlusPlus/dependencies/include/dpp-9.0/dpp/fmt/chrono.h:1133-1185 | The formatting pass over a range the checker accepted consumes it, throws no format error, makes the same calls and none that needs a date |
| `ChronoFormat.Check` | src/TintempPlusPlus/dependencies/include/dpp-9.0/dpp/fmt/chrono.h:1141-1148 | The checking pass of `do_parse`: empty specs pass, a precision is refused for integral durations, otherwise the first directive that is for no time is refused, and without one the range is what was parsed |
| `ChronoFormat.FormatPass` | src/TintempPlusPlus/dependencies/include/dpp-9.0/dpp/fmt/chrono.h:1174-1182 | The formatting pass: an empty range writes the default value and unit without parsing, any other is parsed to its end, with every call of the first parse |
| `ChronoFormat.DefaultExactly` | src/TintempPlusPlus/dependencies/include/dpp-9.0/dpp/fmt/chrono.h:1133-1177 | The default is written exactly when there is no spec or a closing brace comes at once |
| `TicTacToe.WinnerFetched` | src/TintempPlusPlus/tictactoe.cpp:99-140 | Looking for the winner sets the result to WON iff one of the eight lines is complete, marks as won exactly the cells on complete lines, and changes nothing else |
| `TicTacToe.LinesExactly` | src/TintempPlusPlus/tictactoe.cpp:112-140 | The eight lines looked at are the three rows, the three columns and the two diagonals of the board |
| `TicTacToe.GameCorrect` | src/TintempPlusPlus/tictactoe.cpp:27-140 | Over every run of accepted clicks from a new game with two different players: marks equal turns, X minus O is 0 or 1, WON iff a line is complete and the line is the last mover's, DRAW iff nine marks and no line, `won` is exact, the players alternate from player 1, and the run has at most nine clicks |
| `TicTacToe.PressCorrect` | src/TintempPlusPlus/tictactoe.cpp:554-590 | One accepted click keeps all of that, places exactly one mark and takes one turn |
| `TicTacToe.SwapAfterMove` | src/TintempPlusPlus/tictactoe.cpp:51-62 | Swapping the turn after a move restores it, the ninth turn without a line ending in a draw |
| `TicTacToe.NeverStuck` | src/TintempPlusPlus/tictactoe.cpp:27-140 | A game is in progress iff somebody has an accepted click |
| `TicTacToe.FinishedBreaks` | src/TintempPlusPlus/tictactoe.cpp:548-590 | A click on an idle cell of any correct but finished game leaves it incorrect: the winner check and the swap run again |
| `TicTacToe.WonGameBreaks` | src/TintempPlusPlus/tictactoe.cpp:548-590 | Five accepted clicks from a new game win it, and the other player's click on an idle cell then breaks it |
| `TicTacToe.StartCorrect` | src/TintempPlusPlus/tictactoe.cpp:27-44 | A new game satisfies it |
| `TicTacToe.Ttt.InitGame` | src/TintempPlusPlus/tictactoe.cpp:27-44 | Turn, mark and an empty board are set; result and turns are left alone |
| `TicTacToe.Ttt.FindWinner` | src/TintempPlusPlus/tictactoe.cpp:99-140 | The loop over rows and columns and the two diagonals computes the specified winner check on the array in place |
| `TicTacToe.Ttt.Check` | src/TintempPlusPlus/tictactoe.cpp:102-110 | One line test: three cells and the result change iff the line is complete |
| `TicTacToe.Ttt.Swap` | src/TintempPlusPlus/tictactoe.cpp:51-62 | The turn counter rises; the ninth turn of an unwon game is a draw and keeps the turn, otherwise player and mark swap |
| `TicTacToe.Ttt.TakeTurn` | src/TintempPlusPlus/tictactoe.cpp:576-590 | A click on an idle cell: mark, winner, swap |
| `GameList.ShowInjective` | src/TintempPlusPlus/tictactoe.cpp:46-49 | No two button ids (`confm_n_y`, `confm_n_n`, `p_pos_n`) are equal unless they are the same identifier |
| `GameList.ButtonTexts` | src/TintempPlusPlus/tictactoe.cpp:34-49 | The texts of the button ids, with the position of each cell of the board |
| `GameRuns.IdentifiersNeverCollide` | src/TintempPlusPlus/uniqueid.hpp:20-24 | In every reachable state all uids, button ids and cell ids ever minted are pairwise distinct, also after entries are erased |
| `GameList.MintedDistinct` | src/TintempPlusPlus/uniqueid.hpp:20-24 | The same in any state with the invariant |
| `GameList.PushKeeps` | src/TintempPlusPlus/tictactoe.cpp:218-223 | A push keeps the invariant under every order in which C++ may evaluate the constructor arguments; the entry at the back is of the two players, under a new uid, with nothing confirmed, started, deployed or remembered, and the others stay |
| `GameList.OriginExactly` | src/TintempPlusPlus/tictactoe.cpp:229-253 | `set_origin` changes exactly the entry with the given uid, and only if it has no origin yet |
| `GameList.OriginOnce` | src/TintempPlusPlus/tictactoe.cpp:229-253 | At most one entry changes, and a second call with the same uid changes nothing |
| `GameList.ButtonsDiffer` | src/TintempPlusPlus/tictactoe.cpp:198-205 | A confirmation button belongs to one entry, and is either its Yes or its No |
| `GameList.ConfirmReaches` | src/TintempPlusPlus/tictactoe.cpp:375-526 | A press on an entry's button has its effect if the user is a player of every entry listed before it, and otherwise none: the handler gives up at the first entry of other players |
| `GameList.ConfirmExactly` | src/TintempPlusPlus/tictactoe.cpp:385-403 | A press is handled as it should iff that condition holds or the press would change nothing |
| `GameRuns.YesIsLost` | src/TintempPlusPlus/tictactoe.cpp:385-403 | A concrete list on which a Yes of a listed player is lost |
| `GameList.PressedEntry` | src/TintempPlusPlus/tictactoe.cpp:406-496 | Within the entry: flags only rise, the presser's flag is set, `init_game` runs iff the press is a first Yes that makes both flags true, and no other entry changes |
| `GameList.RepeatedPress` | src/TintempPlusPlus/tictactoe.cpp:411-495 | A second press by the same player changes nothing |
| `GameList.SecondPressDecides` | src/TintempPlusPlus/tictactoe.cpp:490-496 | After a first press of either kind the game starts iff the second is a Yes: a No confirms as well |
| `GameList.HitExactly` | src/TintempPlusPlus/tictactoe.cpp:551-585 | The double loop over the cells marks exactly the cell with the clicked id if it is idle, and reports it if it is taken |
| `GameList.ClickExactly` | src/TintempPlusPlus/tictactoe.cpp:528-590 | A click changes only the game of the message it was made in, as specified, and every other entry is left alone |
| `GameList.ClickNowhere` | src/TintempPlusPlus/tictactoe.cpp:545-545 | A click in a message of no game changes nothing |
| `GameList.ClickIgnoredExactly` | src/TintempPlusPlus/tictactoe.cpp:548-590 | A click is without effect iff it is not the user's turn or the cell is taken; a finished game is not among the reasons |
| `GameList.MissBreaksGame` | src/TintempPlusPlus/tictactoe.cpp:587-590 | A click whose id is on no cell still takes a turn, and the game is then no longer correct |
| `GameList.ClickCorrectExactly` | src/TintempPlusPlus/tictactoe.cpp:548-590 | Any correct game, finished or not, stays correct under a click iff it is not the user's turn, or the id is on a taken cell, or it is on a cell and the game is in progress |
| `GameList.FinishedCorrectExactly` | src/TintempPlusPlus/tictactoe.cpp:548-590 | A finished game stays correct exactly under the clicks that do not change it |
| `GameList.CellIsNoConfirmation` | src/TintempPlusPlus/tictactoe.cpp:406-496 | The press of a board's button leaves the confirmations of every entry alone |
| `GameList.NextKeeps` | src/TintempPlusPlus/tictactoe.cpp:218-590 | Every event keeps the invariant: identifiers numbered as minted, each entry its own, players different, boards made once and after both confirmations, messages distinct |
| `GameRuns.EntriesRise` | src/TintempPlusPlus/tictactoe.cpp:375-496 | Over every run: an entry's confirmations only rise, `init_game` runs at most once for it, its ids stay, and its origin once set stays |
| `GameRuns.StaysGone` | src/TintempPlusPlus/tictactoe.cpp:225-227 | An entry erased never comes back |
| `GameRuns.ErasedExactly` | src/TintempPlusPlus/tictactoe.cpp:225-227 | Erasing takes exactly that entry off the list and keeps the others as they are, in their order |
| `GameRuns.ListCanBeEmptied` | src/TintempPlusPlus/tictactoe.cpp:225-227 | From every state, whatever is on the list can be erased |
| `GameRuns.DeployedThenClicked` | src/TintempPlusPlus/tictactoe.cpp:528-590 | The message stored for a game is the one whose clicks reach it, and they reach no other |
| `GameRuns.RememberedOnce` | src/TintempPlusPlus/tictactoe.cpp:229-253 | The message remembered for an entry is the first one given with its uid, and no other entry gets it |
| `GameRuns.GamesStayCorrect` | src/TintempPlusPlus/tictactoe.cpp:528-590 | Over every run in which a press is in no game's message or on an enabled button of the board in it, every started game stays a correct game, however many are played at once |
| `GameRuns.GamesCorrectExactly` | src/TintempPlusPlus/main.cpp:70-84 | Over every run of pressed buttons, each of which goes to both handlers: all started games are correct at every point iff every press, looking at the list before it, spares the started game of its message and is not player 1's Yes that starts the game of its own message |
| `GameRuns.NextKeepsGames` | src/TintempPlusPlus/main.cpp:70-84 | One event keeps all started games correct iff it is such a press or no press |
| `GameRuns.HarmlessBetween` | src/TintempPlusPlus/main.cpp:78-80 | That condition on the list before the press is exactly what the second handler needs of the list that the first one leaves |
| `GameRuns.HonestIsHarmless` | src/TintempPlusPlus/tictactoe.cpp:278-300 | Presses in no game's message, as those of confirmation buttons are, and on enabled cells are such presses |
| `GameRuns.GamesArePlayed` | src/TintempPlusPlus/tictactoe.cpp:375-590 | Such runs get somewhere: from nothing, a game is confirmed by both players, deployed and played |
| `Registry.Registry.NewId` | src/TintempPlusPlus/uniqueid.hpp:22-24 | Each number is the previous one plus one, starting at 1 |
| `Registry.Registry.ConfirmButtonIds` | src/TintempPlusPlus/tictactoe.cpp:183-185 | The two numbers of a confirmation button, drawn in either order |
| `Registry.Registry.PushOntoList` | src/TintempPlusPlus/tictactoe.cpp:218-223 | The list grows at its back by the entry returned, for these two players and with nothing confirmed, started or remembered, and keeps the invariant |
| `Registry.Registry.SetOrigin` | src/TintempPlusPlus/tictactoe.cpp:229-253 | The loop over the whole list is the specified update |
| `Registry.Registry.RunInitGame` | src/TintempPlusPlus/tictactoe.cpp:27-49 | Nine new cell ids and a new board for one entry, the rest of the list unchanged |
| `Registry.Registry.ConfirmOne` | src/TintempPlusPlus/tictactoe.cpp:375-522 | One round of the confirmation loop, with its three early returns |
| `Registry.Registry.OnConfirmClick` | src/TintempPlusPlus/tictactoe.cpp:369-526 | The loop is the specified confirmation and keeps the invariant |
| `Registry.Registry.HitCells` | src/TintempPlusPlus/tictactoe.cpp:551-585 | The double loop over the cells is the specified search |
| `Registry.Registry.ClickOne` | src/TintempPlusPlus/tictactoe.cpp:536-590 | One round of the click loop, with its early return |
| `Registry.Registry.ClickLoop` | src/TintempPlusPlus/tictactoe.cpp:534-590 | The loop is the specified click on any list of well-shaped games |
| `Registry.Registry.OnTttInteraction` | src/TintempPlusPlus/tictactoe.cpp:528-590 | The loop is the specified click, and keeps the invariant for real users and messages |
| `Registry.Registry.OnButtonClick` | src/TintempPlusPlus/main.cpp:70-84 | A press of any button runs the confirmation handler and then the click handler |
| `Decimal.ParseNonnegativeInt` | src/TintempPlusPlus/dependencies/include/dpp-9.0/dpp/fmt/format.h:2390-2412 | The loop reads a run of digits, never lets its 32-bit value wrap around, and refuses exactly the numbers above the largest int |
| `PrintfFormat.FlagsAreASet` | src/TintempPlusPlus/dependencies/include/dpp-9.0/dpp/fmt/printf.h:357-383 | The specs after a run of flags depend only on which flags occur; `+` beats space |
| `PrintfFormat.ParseFlags` | src/TintempPlusPlus/dependencies/include/dpp-9.0/dpp/fmt/printf.h:356-383 | The loop stops at the first character that is no flag, having applied those before it |
| `PrintfFormat.PrintThenParseHeader` | src/TintempPlusPlus/dependencies/include/dpp-9.0/dpp/fmt/printf.h:395-432 | For every index, every sequence of flags and every width (absent, a number, `*`): parsing the printed header gives its index, its width and its flags, although a leading `0` goes through the integer path; errors of a `*` width included |
| `PrintfFormat.ZerosRead` | src/TintempPlusPlus/dependencies/include/dpp-9.0/dpp/fmt/printf.h:402-417 | Zero flags, read as part of an integer, have the effect of the flag whether or not a width follows |
| `PrintfScan.ConvRead` | src/TintempPlusPlus/dependencies/include/dpp-9.0/dpp/fmt/printf.h:456-563 | A printed conversion (header, precision, length, type) parses to what its parts mean, width and precision arguments drawn before the value, with the same error if one fails |
| `PrintfScan.FlagRules` | src/TintempPlusPlus/dependencies/include/dpp-9.0/dpp/fmt/printf.h:357-505 | The specs an argument is written under: zeros pad only numbers that are not left-aligned and no integers with a precision; `-` or a negative `*` width aligns left; `+` beats space; `#` is dropped for a zero integer |
| `PrintfScan.ArgumentsDrawn` | src/TintempPlusPlus/dependencies/include/dpp-9.0/dpp/fmt/printf.h:385-479 | A conversion without an index draws the width's, the precision's and its own argument one after the other; one with an index draws just that, and neither it nor a `*` may be mixed with drawing in turn; widths and precisions are those written or drawn, a negative drawn precision counting as zero |
| `PrintfFaults.FailsExactly` | src/TintempPlusPlus/dependencies/include/dpp-9.0/dpp/fmt/printf.h:385-486 | Exactly when a conversion fails and with which error: the width's argument, the precision's and its own are looked at in this order, for mixed indexing, a missing argument, no integer and a number that does not fit |
| `PrintfFaults.HeaderTooBig` | src/TintempPlusPlus/dependencies/include/dpp-9.0/dpp/fmt/printf.h:402-409 | An index or a width above the largest int at the beginning of a header is refused as too big |
| `PrintfFaults.WidthTooBig` | src/TintempPlusPlus/dependencies/include/dpp-9.0/dpp/fmt/printf.h:420-425 | So is a width behind flags |
| `PrintfFaults.PrecisionTooBig` | src/TintempPlusPlus/dependencies/include/dpp-9.0/dpp/fmt/printf.h:464-471 | So is a precision |
| `PrintfFaults.IndexZeroRefused` | src/TintempPlusPlus/dependencies/include/dpp-9.0/dpp/fmt/printf.h:460-461 | The index zero is refused, unless the width fails first, whatever its flags |
| `PrintfInteger.AgreesWithStandardExactly` | src/TintempPlusPlus/dependencies/include/dpp-9.0/dpp/fmt/printf.h:456-563 | For every conversion d, i, u, o, x or X of an integer that is written: the text the code writes is the text that section 7.21.6.1 of ISO/IEC 9899:2011 asks for, read off the conversion on its own, iff there is no `+` on an unsigned conversion, no zero to be left out under precision zero, no `#` on a hexadecimal argument truncated to zero, no zero padding to do under a negative precision, and no ` ` on an unsigned conversion but where padding hides it |
| `PrintfNumerals.WrittenReadsBack` | src/TintempPlusPlus/dependencies/include/dpp-9.0/dpp/fmt/format.h:1602-1778 | What is written for an integer is padding on one side up to the width, the sign, the base prefix and digits that a separate reader reads as the value, in base 8 for o, 16 for x and X and 10 otherwise, upper case iff the type is X; zeros in front are due to the precision, to `0` with the width or to `#` with o |
| `PrintfInteger.WrittenAsLayout` | src/TintempPlusPlus/dependencies/include/dpp-9.0/dpp/fmt/format.h:1602-1649 | The two ways in which `write_int` pads come down to one layout: prefix, zero-extended digits, and padding on one side or in between |
| `PrintfInteger.WrittenFor` | src/TintempPlusPlus/dependencies/include/dpp-9.0/dpp/fmt/format.h:1710-1778 | What `write_int` writes under the specs of a conversion, in terms of the request: sign for any non-negative value, base iff `#` and the argument is not zero, the octal zero as a digit, zero as one digit |
| `PrintfInteger.AskedSpecs` | src/TintempPlusPlus/dependencies/include/dpp-9.0/dpp/fmt/printf.h:456-505 | The specs a conversion is written under are determined by its request, by whether a negative precision was drawn, and by whether the argument is zero |
| `PrintfInteger.DigitsAgree` | src/TintempPlusPlus/dependencies/include/dpp-9.0/dpp/fmt/format.h:1756-1767 | The digits written are those asked for, but for a zero under precision zero, which is written and should not be; the octal `#` included |
| `PrintfInteger.SpaceCase` | src/TintempPlusPlus/dependencies/include/dpp-9.0/dpp/fmt/format.h:1716-1721 | On an unsigned conversion with ` ` and none of the other defects the texts agree iff it is right-aligned, padded with spaces and wider than its digits |
| `PrintfInteger.PlusOnUnsigned` | src/TintempPlusPlus/dependencies/include/dpp-9.0/dpp/fmt/format.h:1716-1721 | `%+x` of 42 gives `+2a` for `2a` |
| `PrintfInteger.ZeroUnderNoPrecision` | src/TintempPlusPlus/dependencies/include/dpp-9.0/dpp/fmt/format.h:1616-1620 | `%.0d` and `%.0o` of 0 give `0` for nothing; `%#.0o` gives `0`, as it should |
| `PrintfInteger.BaseOfTruncated` | src/TintempPlusPlus/dependencies/include/dpp-9.0/dpp/fmt/printf.h:493-494 | `%#hhx` of 256 gives `0x0` for `0`: the test for zero comes before the conversion |
| `PrintfInteger.NegativePrecisionUnpads` | src/TintempPlusPlus/dependencies/include/dpp-9.0/dpp/fmt/printf.h:37-51 | `%02.*d` of 7 under precision -1 gives a space and 7 for `07` |
| `PrintfInteger.SpaceOnUnsigned` | src/TintempPlusPlus/dependencies/include/dpp-9.0/dpp/fmt/format.h:1716-1721 | `% x` of 42 gets a space too many, `% 5x` is right |
| `PrintfScan.PrintThenScan` | src/TintempPlusPlus/dependencies/include/dpp-9.0/dpp/fmt/printf.h:436-568 | For every list of characters and conversions: scanning its print writes the characters and converts the arguments in order, up to the first conversion that fails and with its error |
| `PrintfScan.CutOffConversion` | src/TintempPlusPlus/dependencies/include/dpp-9.0/dpp/fmt/printf.h:456-545 | A conversion cut off by the end of the string before its type is refused as an invalid format iff a length modifier stands last and no argument failed before; without a length modifier its type is the last character read |
| `PrintfScan.CutOffExamples` | src/TintempPlusPlus/dependencies/include/dpp-9.0/dpp/fmt/printf.h:505-545 | `%` alone has the type `%`, and `%h` is refused |
| `PrintfScan.Format` | src/TintempPlusPlus/dependencies/include/dpp-9.0/dpp/fmt/printf.h:434-568 | Formatting is the specified scan |
| `PrintfLoop.FormatLoop` | src/TintempPlusPlus/dependencies/include/dpp-9.0/dpp/fmt/printf.h:438-567 | The loop, for any parser of conversions that moves forward, is the specified scan |
| `PrintfLoop.FindPercent` | src/TintempPlusPlus/dependencies/include/dpp-9.0/dpp/fmt/printf.h:443-446 | The next `%` or the end |
| `PrintfLoop.ScanUndoesPrint` | src/TintempPlusPlus/dependencies/include/dpp-9.0/dpp/fmt/printf.h:436-568 | If parsing undoes printing on single conversions, scanning undoes printing on whole formats |
| `ArgStore.RunAll` | src/TintempPlusPlus/dependencies/include/dpp-9.0/dpp/fmt/args.h:70-214 | After any sequence of pushes and clears a store denotes exactly what was pushed since the last clear |
| `ArgStore.NamedIdsExact` | src/TintempPlusPlus/dependencies/include/dpp-9.0/dpp/fmt/args.h:129-144 | The positions listed for named arguments are those of the named arguments, each once and in order |
| `ArgStore.SinceClearExactly` | src/TintempPlusPlus/dependencies/include/dpp-9.0/dpp/fmt/args.h:163-214 | What a run denotes, by its operations: one argument for each push behind the last clear, in order, under its name if it has one |
| `ArgStore.SinceClearNext` | src/TintempPlusPlus/dependencies/include/dpp-9.0/dpp/fmt/args.h:163-214 | What is stored after one more operation of a run is the operation applied to what was stored before it |
| `ArgStore.Store.Data` | src/TintempPlusPlus/dependencies/include/dpp-9.0/dpp/fmt/args.h:120-122 | `data()[i]` shows the i-th value pushed, in place, in a node or by reference, also after the first named argument shifted the vector |
| `ArgStore.Store.NamedView` | src/TintempPlusPlus/dependencies/include/dpp-9.0/dpp/fmt/args.h:128-144 | Entry k of the view in slot 0 carries the name and the position of the k-th named argument |
| `ArgStore.Store.GetTypes` | src/TintempPlusPlus/dependencies/include/dpp-9.0/dpp/fmt/args.h:113-118 | The named flag is set iff a named argument was pushed; the size counts slot 0 as well when it is |
| `ArgStore.Store.PushNode` | src/TintempPlusPlus/dependencies/include/dpp-9.0/dpp/fmt/args.h:50-60 | A copy goes to the front of the list; older nodes are not touched |
| `ArgStore.Store.AppendInfo` | src/TintempPlusPlus/dependencies/include/dpp-9.0/dpp/fmt/args.h:140-140 | Appending to the vector of names keeps its contents, also when the buffer moves |
| `ArgStore.Store.PlaceNamed` | src/TintempPlusPlus/dependencies/include/dpp-9.0/dpp/fmt/args.h:129-144 | The vectors after a named argument: slot 0 inserted once, and viewing the buffer where it is now |
| `ArgStore.Store.Emplace` | src/TintempPlusPlus/dependencies/include/dpp-9.0/dpp/fmt/args.h:124-126 | An unnamed argument is the new last one |
| `ArgStore.Store.EmplaceNamed` | src/TintempPlusPlus/dependencies/include/dpp-9.0/dpp/fmt/args.h:128-144 | A named argument is the new last one, under its own name |
| `ArgStore.Store.MakeSlot` | src/TintempPlusPlus/dependencies/include/dpp-9.0/dpp/fmt/args.h:163-168 | A value is copied to a node iff its type needs it; a reference is kept |
| `ArgStore.Store.PushBack` | src/TintempPlusPlus/dependencies/include/dpp-9.0/dpp/fmt/args.h:163-168 | One more value, the earlier arguments as they were |
| `ArgStore.Store.PushBackReference` | src/TintempPlusPlus/dependencies/include/dpp-9.0/dpp/fmt/args.h:185-190 | One more reference to an object of the caller's |
| `ArgStore.Store.PushBackNamed` | src/TintempPlusPlus/dependencies/include/dpp-9.0/dpp/fmt/args.h:197-207 | One more argument with a copy of its name |
| `ArgStore.Store.Clear` | src/TintempPlusPlus/dependencies/include/dpp-9.0/dpp/fmt/args.h:210-214 | Nothing is left |
| `ArgStore.Store.Apply` | src/TintempPlusPlus/dependencies/include/dpp-9.0/dpp/fmt/args.h:163-214 | Any operation; no node that is there before it changes its value or its place |
| `Collector.CompletesOnce` | src/TintempPlusPlus/dependencies/include/dpp-9.0/dpp/cluster.h:3209-3290 | For any number of collectors and other listeners on one router and any run of events, ticks and cancellations: a collector has been completed iff its timer has ticked or it was cancelled, then exactly once, with exactly what its filter found in the events that reached it before, in order; it is then off the router and its timer is gone |
| `Collector.NothingAfterTheEnd` | src/TintempPlusPlus/dependencies/include/dpp-9.0/dpp/cluster.h:3162-3184 | Nothing that happens later changes that list |
| `Collector.CanAlwaysEnd` | src/TintempPlusPlus/dependencies/include/dpp-9.0/dpp/cluster.h:3168-3174 | The tick of a collector can still come iff it has not ended, and `cancel` always can |
| `Collector.RunsGoOn` | src/TintempPlusPlus/dependencies/include/dpp-9.0/dpp/cluster.h:304-366 | Every run can go on with a new collector, an event, another listener, and numbers drawn elsewhere |
| `Collector.JoinThenLeave` | src/TintempPlusPlus/dependencies/include/dpp-9.0/dpp/cluster.h:349-366 | Another listener that joins can leave again, and nothing is left of it but its number |
| `Collector.CancelTwice` | src/TintempPlusPlus/dependencies/include/dpp-9.0/dpp/cluster.h:3278-3281 | After a cancellation the timed listener is given up: cancelling again changes nothing and its tick cannot come; completing twice is completing once |
| `Collector.ListenersExactly` | src/TintempPlusPlus/dependencies/include/dpp-9.0/dpp/cluster.h:304-366 | Exactly which listeners are attached after every kind of event, that a new one has the next handle, and how handles and timers are numbered |
| `Collector.DeliverOne` | src/TintempPlusPlus/dependencies/include/dpp-9.0/dpp/cluster.h:304-311 | A collector hears an event iff it is attached and no attached listener with a smaller handle cancels the event, and then once |
| `Collector.StepInv` | src/TintempPlusPlus/dependencies/include/dpp-9.0/dpp/cluster.h:3162-3281 | Every event keeps: each collector is attached, ticking and not completed, or detached, stopped and completed once |
| `Collector.TickedInv` | src/TintempPlusPlus/dependencies/include/dpp-9.0/dpp/cluster.h:3168-3174 | A tick completes its collector and leaves every other one alone |
| `Collector.CancelledInv` | src/TintempPlusPlus/dependencies/include/dpp-9.0/dpp/cluster.h:3278-3281 | A cancellation does the same, through the timer's `on_stop`, and does nothing after a tick or a first cancellation |
| `EventRouter.CollectorObject.OnStop` | src/TintempPlusPlus/dependencies/include/dpp-9.0/dpp/cluster.h:3239-3244 | `completed` is called with what is stored unless it has been called before |
| `EventRouter.CollectorObject.Listen` | src/TintempPlusPlus/dependencies/include/dpp-9.0/dpp/cluster.h:3233-3238 | What the filter found is appended, if anything |
| `EventRouter.Hub.AttachListener` | src/TintempPlusPlus/dependencies/include/dpp-9.0/dpp/cluster.h:349-354 | The next handle is handed out and the listener stored under it |
| `EventRouter.Hub.DetachListener` | src/TintempPlusPlus/dependencies/include/dpp-9.0/dpp/cluster.h:363-366 | The listener is gone; the result tells whether it was there |
| `EventRouter.Hub.Stop` | src/TintempPlusPlus/dependencies/include/dpp-9.0/dpp/cluster.h:601-608 | `stop_timer` as documented: the timer is gone, and its `on_stop` runs iff it existed |
| `EventRouter.Hub.Call` | src/TintempPlusPlus/dependencies/include/dpp-9.0/dpp/cluster.h:304-311 | Every listener in the order of the handles until one has cancelled the event |
| `EventRouter.Hub.Construct` | src/TintempPlusPlus/dependencies/include/dpp-9.0/dpp/cluster.h:3231-3245 | A new collector, attached and ticking, with nothing stored |
| `EventRouter.Hub.TimerTicks` | src/TintempPlusPlus/dependencies/include/dpp-9.0/dpp/cluster.h:3168-3174 | The timer stops itself and the listener is detached |
| `EventRouter.Hub.CancelCollector` | src/TintempPlusPlus/dependencies/include/dpp-9.0/dpp/cluster.h:3278-3281 | The timed listener is destroyed unless it was before |
| `Cache.RefinesPlainMap` | src/TintempPlusPlus/dependencies/include/dpp-9.0/dpp/cache.h:99-172 | In every run over any number of caches, each cache holds what a plain map from ids to objects would hold for the calls made to it, and every key is the id of its object |
| `Cache.ConservedExactly` | src/TintempPlusPlus/dependencies/include/dpp-9.0/dpp/cache.h:99-138 | For any number of caches over the one queue: at every point of a run each object handed over is live in exactly one cache or queued for deletion, never both and nothing else is, iff every call was safe: nothing stored that waits in the queue or is live in another cache, and what is removed is the cached object itself or its id is not cached |
| `Cache.SafeConserves` | src/TintempPlusPlus/dependencies/include/dpp-9.0/dpp/cache.h:99-138 | One safe call keeps that |
| `Cache.UnsafeLoses` | src/TintempPlusPlus/dependencies/include/dpp-9.0/dpp/cache.h:126-138 | One call that is not safe breaks it: what is stored is then in two places, or `remove` queues the pointer it was passed and drops another |
| `Cache.RemovingATwin` | src/TintempPlusPlus/dependencies/include/dpp-9.0/dpp/cache.h:126-138 | Removing another object with the id of a cached one loses the cached one and queues the other |
| `Cache.QueuedExactly` | src/TintempPlusPlus/dependencies/include/dpp-9.0/dpp/cache.h:99-138 | Exactly which objects a call queues, the one replaced or the one passed to `remove`, and that they wait since the time of the call; all others are as before |
| `Cache.ReplacingATwin` | src/TintempPlusPlus/dependencies/include/dpp-9.0/dpp/cache.h:106-111 | Storing another object with the id of a cached one queues the cached one from then on, and nothing is lost |
| `Cache.ObjectCache.StoreObject` | src/TintempPlusPlus/dependencies/include/dpp-9.0/dpp/cache.h:99-113 | A null pointer does nothing; an object with a known id replaces the old one, which is queued; the same object again changes nothing |
| `Cache.ObjectCache.RemoveObject` | src/TintempPlusPlus/dependencies/include/dpp-9.0/dpp/cache.h:126-138 | A null pointer or an unknown id does nothing; otherwise the id is dropped and the pointer passed is queued |
| `Cache.ObjectCache.Find` | src/TintempPlusPlus/dependencies/include/dpp-9.0/dpp/cache.h:152-159 | The object with that id, or null iff there is none |
| `Cache.ObjectCache.Count` | src/TintempPlusPlus/dependencies/include/dpp-9.0/dpp/cache.h:169-172 | The number of cached ids |
| `Cache.ObjectCache.RehashTable` | src/TintempPlusPlus/dependencies/include/dpp-9.0/dpp/cache.h:231-240 | A new table with the same entries |
| `Cache.CopyOf` | src/TintempPlusPlus/dependencies/include/dpp-9.0/dpp/cache.h:231-240 | The copying loop transfers every entry, in whatever order it meets them |

## Left out

- Discord traffic: replies, edits, embeds, component styling and logging; command matching and startup.
- The time at which asynchronous callbacks of the bot run. Remembering a message, deploying a game and
  erasing an entry are events that may come at any point of a run.
- Field specs (`:`) of format strings, which format.h parses. A string that needs them compiles to
  `NeedsSpecs`. An argument is represented by the text that writing it gives.
- `format_to_n` of a string literal object and the locale, pointer and floating-point writers of fmt.
- The part list that a runtime-compiled format string becomes (compile.h 294-470).
- PrintfScan.ConvRead: does not convert the argument's value to the length modifier's type or truncate
  C strings to the precision, because the width of an argument's C type is not modelled; it says which
  argument is written under which specs, length and type.
- PrintfInteger.AgreesWithStandardExactly: takes the value that the length modifier makes of the argument
  as given, the same for code and standard. Characters, strings, pointers and floating-point numbers, and
  integers under their conversions, are not compared; '#' with d, i and u, which the standard leaves
  undefined, counts as absent.
- ChronoFormat.Check: begins after alignment and width and covers integral durations, because those
  and the precision of floating-point durations are parsed by functions of format.h.
- ChronoFormat.FormatPass: says which calls are made, not what `chrono_formatter` writes for each of
  them, because the date and time directives are written by the locale.
- SafeDuration.CastExactly: covers integral representations; the floating-point casts are about rounding.
- Jobs that never return. The return of a job is a step that is always possible; a job that runs for
  ever, which blocks the joins of the original as well, is a run that stops before that step.
- The wrap-around of the identifier counter of the bot and of event and timer handles of D++.
- The result EXPIRED of a game, which no code sets; random choice of the first player, which is not written yet.
- Registry.Registry.OnConfirmClick: entries of the list are values here; the references that pending
  callbacks keep to them are not modelled.
- The `confirm_button` component texts and the `replied` and `cancelled` flags, which guard messages only.
- ArgStore.Store.AppendInfo: the growth of a vector is doubling here; nothing else depends on the factor.
- ArgStore.Store.EmplaceNamed: no allocation fails, so the guard that takes the argument back is not modelled.
- Looking an argument up by name in a runtime format string (core.h).
- Locks of the router and the cache: each operation is one step. Attaching or detaching from within a
  listener is not modelled.
- The destructor of `collector`, which would call a pure virtual function from the base class.
- Garbage collection of the cache is declared only; deleting a queued object is an event of its own.
- Easy members of the same headers: container getters, byte counts, iterator categories, `reserve`.
