# DevComrade core, modelled in Dafny

This project models the non-UI core of DevComrade, a Windows tool for pasting text and running
hotkey-bound helpers. It models these pieces:

- **Test apartments.** The async apartments of the test project: the shared base class, and
  the thread-pool and single-thread flavours with their synchronization contexts. It includes
  the single-thread context's pumping wait.
- **Coroutine proxy.** The proxy that hands a channel from one coroutine to the other.
- **Fault handling.** The exception-tree helpers, and the task helpers built on them:
  `WithAggregatedExceptions`, `Observe`, `IgnoreCancellations`, `Handle` and `PickException`.
- **Text transforms.** The string transforms behind the paste helpers.
- **Configuration.** The option parsers, the option lookup over the Local and Roaming
  configurations, the two configuration-section readers, and the `Hotkey` record with the
  name-based merge of hotkey lists.
- **CF_HTML.** The serializer that turns HTML into Microsoft's CF_HTML clipboard buffer.
- **Helpers.** `GetHotkeyTitle` and `IsDescendant` from `Utilities`, and the
  `AttachedThreadInputScope` that attaches the calling thread's input queue to the foreground
  thread.

One Dafny module stands for each source component:

- **Value modules.** `Faults`, `TaskExtensions`, `TextTransforms`, `ConfigParsing`,
  `Configuration`, `Hotkeys`, `ConfigSections` and `Utilities` are pure. They are datatypes,
  functions and lemmas, with a method wherever the source loops (`Unwrap`, `Handle`, the
  section readers). `GetHotkeyTitle`'s chain of `StringBuilder` appends is a method too.
- **Stateful modules.** The apartment, the channel, the proxy, its reader and the
  thread-input scope are classes whose methods update their fields. Each `lock` body is one
  atomic method. `ClipboardFormats` keeps the source's growing buffer and its in-place
  `Array.Copy` on an `array`.
- **Shared modules.** `MachineInts` holds C#'s `uint` and its unchecked 32-bit arithmetic.
  `WinApi` holds the modifier flags and the window handle type.

Where the source calls into Windows or into the .NET runtime, the result of the call is a
parameter:

- `GetForegroundWindow`, `AttachThreadInput`, `GetClassName`, `IsChild`;
- `Enum.GetName` for key names;
- `MsgWaitForMultipleObjectsEx`, `PeekMessage`, `Environment.TickCount`;
- the string hash.

## Model

| member | source | states |
|---|---|---|
| Apartments.Resolution | Tests/AsyncApartmentBase.cs:96-103 | the promise succeeds exactly when no fault was recorded, otherwise it faults with exactly the recorded faults in order |
| Apartments.CompletionTask | Tests/AsyncApartmentBase.cs:126-132 | a resolved promise is a well-formed task that ran to completion exactly when it succeeded |
| Apartments.Apartment.constructor | Tests/AsyncApartmentBase.cs:27-36 | a new apartment has a zero counter, no faults, completion not commenced and a pending promise, and satisfies the counter invariant |
| Apartments.Apartment.AddException | Tests/AsyncApartmentBase.cs:81-85 | the exception is appended at the end of the fault list |
| Apartments.Apartment.GetExceptions | Tests/AsyncApartmentBase.cs:151-154 | the snapshot equals the fault list |
| Apartments.Apartment.ClearExceptions | Tests/AsyncApartmentBase.cs:159-162 | the fault list becomes empty |
| Apartments.Apartment.TrySetCompletion | Tests/AsyncApartmentBase.cs:87-105 | returns true iff the promise was pending; it is then resolved from the fault list, otherwise left as it was |
| Apartments.Apartment.Conclude | Tests/ThreadPoolApartment.cs:125-128 | thread pool: resolves a pending promise from the faults; single thread: closes the mailbox and leaves the promise alone |
| Apartments.Apartment.AnyBackgroundOperation | Tests/AsyncApartmentBase.cs:141-142 | null iff operations are not tracked; false means nothing is queued, no inner task is running and no bracket is open |
| Apartments.Apartment.Complete | Tests/AsyncApartmentBase.cs:176-187 | completion is commenced; it concludes iff it was not commenced before and AnyBackgroundOperation is not true; a second call changes nothing |
| Apartments.Apartment.CountDown | Tests/AsyncApartmentBase.cs:234-246 | the counter drops by one; the result is true iff operations are tracked and the counter is zero; it concludes iff commenced and that result is true |
| Apartments.Apartment.OperationStarted | Tests/AsyncApartmentBase.cs:225-228 | the counter and the count of open brackets both rise by one, and the invariant holds |
| Apartments.Apartment.OperationCompleted | Tests/AsyncApartmentBase.cs:230-252 | it needs a matching OperationStarted; the counter drops by one, and it concludes exactly when commenced and no tracked operation is left |
| Apartments.Apartment.Post | Tests/SingleThreadApartment.cs:131-135 | the counter rises first; the callback is queued at the end, unless a closed single-thread mailbox refuses it with InvalidOperationException, in which case the count leaks |
| Apartments.Apartment.Run | Tests/AsyncApartmentBase.cs:257-323 | two counter units are always taken, the scope and the Post, even for a canceled token; the task is queued (an async lambda's task as one whose scope outlives it, and for a canceled token a task that ends canceled with no exception of its own, with no inner task), or, for a closed single-thread mailbox, the scheduler exception is thrown and both units leak; nothing else changes |
| Apartments.Apartment.RunScheduled | Tests/AsyncApartmentBase.cs:257-323 | the scope and the Post take two units; the task is queued, or a closed single-thread mailbox makes the scheduler throw TaskSchedulerException and both units leak |
| Apartments.Apartment.InnerTaskEnded | Tests/AsyncApartmentBase.cs:284-294 | when the task an async Run lambda returned ends, the Run task takes its final state and the scope's continuation releases one unit, concluding when commenced and nothing is left |
| Apartments.Apartment.RunItem | Tests/ThreadPoolApartment.cs:88-102 | it demands that this apartment's context be current; a throwing callback's exception is recorded first, then the units the item gives back are released: one for a callback, two for a Run task, one for an async Run task, whose inner task is left running |
| Apartments.Apartment.RunPooled | Tests/ThreadPoolApartment.cs:38-64 | a callback, picked in any order, runs with this apartment's context made current (as RunItem requires), and the thread's previous context is restored afterwards; faults, finished tasks, inner tasks and counter change as running that item says |
| Apartments.Apartment.RunNext | Tests/SingleThreadApartment.cs:57-75 | on the worker thread, whose context is this apartment's, the oldest mailbox item runs: FIFO order, its fault recorded, its units released, an async Run task's inner task left running |
| Apartments.Apartment.Pump | Tests/SingleThreadApartment.cs:57-81 | the whole mailbox runs in order, its faults are appended in order, the counter drops by the units the items release and their inner tasks are left running; the worker leaves iff the mailbox is closed, and it then resolves a pending promise exactly once |
| Apartments.Apartment.Drain | Tests/SingleThreadApartment.cs:61-75 | the consuming loop runs every mailbox item in FIFO order, with the tallies of the prefix run so far, and leaves the promise as it was |
| Apartments.Apartment.CloseMailbox | Tests/SingleThreadApartment.cs:98-101 | the mailbox is closed and the invariant is kept |
| Apartments.Apartment.FinallyOutcome | Tests/AsyncApartmentBase.cs:201-222 | it raises iff faults were recorded, as one aggregate whose inner exceptions are exactly those faults; it is the result both when Complete resolves the promise at once and when DisposeAsync resumes after the awaited completion, whose exception is dropped |
| Apartments.Apartment.DisposeAsync | Tests/AsyncApartmentBase.cs:193-223 | an already resolved promise returns at once and changes nothing; otherwise it calls Complete, then returns or raises per the finally block if resolved, else suspends |
| Apartments.Apartment.Send | Tests/ThreadPoolApartment.cs:66-69 | Send always throws NotImplementedException("Send") |
| Apartments.Apartment.CreateCopy | Tests/ThreadPoolApartment.cs:71-74 | the copy is the context itself |
| Apartments.AsyncVoidFaults | Tests/ThreadPoolApartmentTest.cs:22-69 | for async void methods that each fail after Complete: busy before, completion faulted with those faults in order, counter back to zero |
| Apartments.YieldingLambda | Tests/ThreadPoolApartmentTest.cs:22-43 | the test's async lambda yields, posts its continuation, starts the async void methods and ends: only their brackets remain open |
| Apartments.AsyncScopeScenario | Tests/AsyncApartmentBase.cs:284-323 | while an async Run lambda's inner task runs, the apartment is busy and Complete() does not conclude; when it ends the completion succeeds |
| Apartments.SyncScopeScenario | Tests/AsyncApartmentBase.cs:257-302 | a Run task of the synchronous overloads leaves nothing running once it has run, and Complete() concludes with success |
| Apartments.CanceledTokenScenario | Tests/AsyncApartmentBase.cs:296-316 | a token canceled before Run still leaves the apartment busy until its task runs; it then ends canceled without an exception of its own and the apartment is idle again |
| Apartments.CanceledTokenClosedMailbox | Tests/AsyncApartmentBase.cs:297-301 | once the single-thread mailbox is closed, Run throws TaskSchedulerException even for a canceled token |
| Apartments.TwoFaultsScenario | Tests/ThreadPoolApartmentTest.cs:45-69 | the test's two faults come back as one aggregate holding InvalidOperation then NotSupported, with busy true before and false after |
| Apartments.ObservedFaultsScenario | Tests/ExtensionsTest.cs:185-256 | the four rethrown faults reach the apartment in order and the completion faults with exactly them |
| NativeWait.IsNativeWaitSuccessful | Tests/SingleThreadApartment.cs:218-259 | success iff the result is a signalled handle index (then its index); timeout, message-pending and I/O completion are failures; abandoned, WAIT_FAILED and unknown results throw |
| NativeWait.NativeWaitClasses | Tests/SingleThreadApartment.cs:218-259 | for 1 to 64 handles: WAIT_TIMEOUT, each handle index, the message-pending index, each abandoned index, WAIT_IO_COMPLETION and WAIT_FAILED map to their managed result or exception, and every other value throws InvalidOperationException |
| NativeWait.Remaining | Tests/SingleThreadApartment.cs:202-205 | never negative; equals the 32-bit wrapped timeout minus the wrapped lapse since the start tick when that is positive, and 0 otherwise |
| NativeWait.Wait | Tests/SingleThreadApartment.cs:140-213 | errors for a null or empty handle array and for WaitAll on several handles; it returns a handle index or WaitTimeout; the first round gets the full timeout, and each later round the positive time remaining; a probe that throws or signals decides before any round; otherwise every round but the last went on with time left, the last threw, signalled, timed out natively or ran out of time, and the dispatched count is the number of peeked messages in rounds that went on |
| NativeWait.WentOnEach | Tests/SingleThreadApartment.cs:177-211 | the rounds went on exactly when, round by round, the check found nothing signalled, no native timeout, and time was left |
| NativeWait.PassedPositive | Tests/SingleThreadApartment.cs:181-210 | after rounds that went on, the timeout handed to the next native wait is positive (or INFINITE as unsigned) |
| NativeWait.RoundEnd | Tests/SingleThreadApartment.cs:187-210 | a round goes on exactly when the check continues and time is left; otherwise it ends the loop as LastRound describes |
| NativeWait.LastRoundRange | Tests/SingleThreadApartment.cs:187-210 | the round that ends the loop returns a handle index or WaitTimeout, and raises only leaf exceptions |
| NativeWait.PumpRounds | Tests/SingleThreadApartment.cs:172-212 | the loop's timeouts are the full timeout, then what was left after each round; the rounds before the last went on, the last decided, and the dispatch count matches the peeked rounds that went on |
| MachineInts.Wrap32 | Tests/SingleThreadApartment.cs:204 | the unchecked int result is in range and congruent to the exact value modulo 2^32 |
| MachineInts.ToUInt | AppLogic/Config/HotkeyConfigSection.cs:44 | the (uint) cast is congruent modulo 2^32, keeps non-negative values and adds 2^32 to negative ints |
| Coroutines.Channel.Write | Tests/CoroutineProxy.cs:87-90 | an item written to the open channel is appended in order |
| Coroutines.Channel.Complete | Tests/CoroutineProxy.cs:91-96 | the channel ends closed, or closed with the routine's exception |
| Coroutines.EndOf | Tests/CoroutineProxy.cs:31-38 | reading past the last item never gives an item, and fails exactly when the channel is completed |
| Coroutines.CoroutineProxy.constructor | Tests/CoroutineProxy.cs:63-68 | the promise starts unset |
| Coroutines.CoroutineProxy.Run | Tests/CoroutineProxy.cs:76-98 | a canceled token cancels before the promise is touched; setting the promise twice fails; otherwise every item is written in order and the channel completes with the routine's fault, which is rethrown |
| Coroutines.CoroutineProxy.AsAsyncEnumerable | Tests/CoroutineProxy.cs:70-74 | a canceled token cancels a still unset promise; awaiting gives the channel, a TaskCanceledException, or nothing yet |
| Coroutines.Cursor.GetNext | Tests/CoroutineProxy.cs:31-38 | gives the next item in write order; past the end it gives the channel's end state and does not advance |
| Coroutines.Cursor.GetNextWithToken | Tests/CoroutineProxy.cs:40-47 | the inner read happens first, so a canceled token loses the item it took and reports a cancellation |
| Coroutines.Cursor.ReadToEnd | Tests/CoroutineProxy.cs:31-38 | reading until the end gives the remaining items in order, then the end state |
| Coroutines.ForwardingScenario | Tests/CoroutineProxy.cs:76-98 | a waiting consumer reads the three items in order, then IndexOutOfRange; a second run faults on SetResult |
| Coroutines.CanceledConsumerScenario | Tests/CoroutineProxy.cs:70-82 | a consumer canceled first sees a cancellation, and the later run faults on SetResult |
| Coroutines.FaultingRoutineScenario | Tests/CoroutineProxy.cs:84-97 | a routine failing after one item delivers that item, then its own exception, which also faults the run |
| Faults.Unwrapped | AppLogic/Helpers/ExceptionExtensions.cs:26-38 | the result is never an aggregate with exactly one inner exception |
| Faults.Unwrap | AppLogic/Helpers/ExceptionExtensions.cs:26-38 | the loop yields Unwrapped(e), which is not a single-inner aggregate |
| Faults.Flat | AppLogic/Helpers/ExceptionExtensions.cs:43-75 | a non-null exception yields at least one element, and none is an aggregate that still has inner exceptions |
| Faults.FlatAll | AppLogic/Helpers/ExceptionExtensions.cs:43-75 | a list of inner exceptions yields at least as many elements as it has exceptions, and none is an aggregate that still has inner exceptions |
| Faults.AsEnumerable | AppLogic/Helpers/ExceptionExtensions.cs:43-75 | null yields nothing; any other exception yields at least one element, each a leaf or an empty aggregate |
| Faults.IsOperationCanceled | AppLogic/Helpers/ExceptionExtensions.cs:88-107 | null is never a cancellation; an OperationCanceledException, alone or wrapped in single-inner aggregates, always is |
| Faults.FlatIsTerminals | AppLogic/Helpers/ExceptionExtensions.cs:43-75 | AsEnumerable yields exactly the tree's leaves and empty aggregates, depth first; the single-inner shortcut changes nothing |
| Faults.FlatAllIsTerminalsAll | AppLogic/Helpers/ExceptionExtensions.cs:65 | SelectMany over the inner exceptions yields their terminal nodes in order |
| Faults.FlatOfNonEmptyAggregate | AppLogic/Helpers/ExceptionExtensions.cs:57-69 | a non-empty aggregate yields the concatenation of its inner exceptions' flattenings |
| Faults.FlatElementsAreTerminal | AppLogic/Helpers/ExceptionExtensions.cs:43-75 | every yielded element is a non-aggregate or an empty aggregate, and a non-null exception yields at least one |
| Faults.FlatOfUnwrapped | AppLogic/Helpers/ExceptionExtensions.cs:26-38 | Unwrap does not change what AsEnumerable yields |
| Faults.IsOperationCanceledIffAllFlatCancel | AppLogic/Helpers/ExceptionExtensions.cs:88-107 | true iff the exception is non-null and every flattened element is a cancellation |
| Faults.CancellationOnlyTree | AppLogic/Helpers/ExceptionExtensions.cs:98-105 | all terminals are cancellations iff no aggregate is empty and every leaf is a cancellation |
| Faults.IsOperationCanceledTree | AppLogic/Helpers/ExceptionExtensions.cs:88-107 | IsOperationCanceled holds iff the tree has no empty aggregate and only cancellation leaves |
| Faults.FlattenQueue | AppLogic/Helpers/TaskExtensions.cs:34 | the breadth-first loop of `AggregateException.Flatten` yields only non-aggregate exceptions |
| Faults.Flatten | AppLogic/Helpers/TaskExtensions.cs:34 | `ex.Flatten()` is a new aggregate with the same message whose inner exceptions are all non-aggregates |
| Faults.FlattenQueueLeaves | AppLogic/Helpers/TaskExtensions.cs:34 | the breadth-first Flatten loop yields exactly the leaves of the queued lists, counted with multiplicity |
| Faults.FlattenKeepsLeaves | AppLogic/Helpers/TaskExtensions.cs:34 | Flatten keeps every non-aggregate exception of the tree as often as it occurs, and nothing else |
| Faults.NestedExampleFlattensToFive | Tests/ExtensionsTest.cs:72-103 | the test's nested tree flattens to its five exceptions in order, and is not a cancellation |
| Faults.CanceledExampleIsCancellationOnly | Tests/ExtensionsTest.cs:107-171 | the all-cancellation tree and a single TaskCanceled are cancellations; an InvalidOperation exception and null are not |
| TaskExtensions.Await | AppLogic/Helpers/TaskExtensions.cs:88 | awaiting throws nothing iff the task ran to completion; a canceled task throws a cancellation, the very one it was canceled with when it holds one; a faulted task throws one of its exceptions |
| TaskExtensions.TaskException | AppLogic/Helpers/TaskExtensions.cs:111 | `Task.Exception` is null unless the task faulted; then it is an aggregate of the task's exceptions whose AsEnumerable is theirs, in order |
| TaskExtensions.AsyncOutcome | Tests/ExtensionsTest.cs:198-220 | an `async Task` method that throws a cancellation ends canceled with it, any other exception faults it, and returning runs it to completion; awaiting it throws exactly what the body threw |
| TaskExtensions.CanceledByThrowKeepsException | AppLogic/Helpers/TaskExtensions.cs:84-147 | a task canceled by a thrown cancellation hands that very exception to the logger and the handler, and Observe and Handle rethrow exactly it |
| TaskExtensions.WithAggregatedExceptions | AppLogic/Helpers/TaskExtensions.cs:27-38 | the state and the multiset of leaf exceptions are kept; when rewritten, the task holds one aggregate whose inner exceptions are all leaves |
| TaskExtensions.WithAggregatedExceptionsPassesThrough | AppLogic/Helpers/TaskExtensions.cs:27-38 | a task with one non-aggregate fault, or none, passes through, and awaiting it throws that fault |
| TaskExtensions.AggregatedTwoLeaves | AppLogic/Helpers/TaskExtensions.cs:27-38 | two leaf faults are awaited as one aggregate holding both, in order |
| TaskExtensions.PickException | AppLogic/Helpers/TaskExtensions.cs:160-166 | several faults give the whole aggregate, otherwise the unwrapped caught exception, never a single-inner aggregate |
| TaskExtensions.PickKeepsFaults | AppLogic/Helpers/TaskExtensions.cs:160-166 | the picked exception flattens to exactly the faults the task reports |
| TaskExtensions.Logged | AppLogic/Helpers/TaskExtensions.cs:90-93 | the logger is called iff there is one and the await threw, with an exception that flattens to the task's faults; for a canceled task it is exactly what the await threw: the cancellation the task holds, or a fresh TaskCanceledException when it holds none |
| TaskExtensions.Observe | AppLogic/Helpers/TaskExtensions.cs:84-95 | what the await threw is always rethrown; the logger sees the picked exception iff the task did not run to completion |
| TaskExtensions.IgnoreCancellations | AppLogic/Helpers/TaskExtensions.cs:100-117 | the logger sees what Logged gives (for a canceled task, the cancellation it was canceled with); canceled and successful tasks rethrow nothing; anything rethrown is what the await threw |
| TaskExtensions.IgnoreCancellationsSwallowsFaulted | AppLogic/Helpers/TaskExtensions.cs:106-116 | a faulted task is swallowed iff its first exception is a cancellation or its tree holds only cancellations |
| TaskExtensions.IgnoreCancellationsSwallowsMixedFault | AppLogic/Helpers/TaskExtensions.cs:109-111 | a fault whose first exception is a cancellation and whose second is not is still swallowed |
| TaskExtensions.HandleTask | AppLogic/Helpers/TaskExtensions.cs:134-147 | the handler sees the picked exception, and the fault is rethrown iff the handler declines it |
| TaskExtensions.HandleException | AppLogic/Helpers/TaskExtensions.cs:122-128 | the action is called once per element of AsEnumerable, in order, each a terminal node |
| TaskExtensions.ObserveScenario | Tests/ExtensionsTest.cs:185-256 | all four faults are rethrown in order and the logger runs three times |
| TaskExtensions.HandleScenario | Tests/ExtensionsTest.cs:259-319 | a handler accepting everything sees the four faults in order and nothing is rethrown |
| TaskExtensions.IgnoreCancellationsScenario | Tests/ExtensionsTest.cs:323-352 | a canceled task and two all-cancellation aggregates are swallowed while the logger still runs |
| TextTransforms.Split | AppLogic/Helpers/StringExtensions.cs:48 | Split gives at least one piece and no piece holds the separator |
| TextTransforms.JoinSplit | AppLogic/Helpers/StringExtensions.cs:48-54 | joining the pieces with the separator gives back the text |
| TextTransforms.SplitJoin | AppLogic/Helpers/StringExtensions.cs:48-54 | splitting joined separator-free pieces gives back the pieces |
| TextTransforms.Unixify | AppLogic/Helpers/StringExtensions.cs:27-31 | the result has no carriage return and is no longer than the input |
| TextTransforms.UnixifyWithoutCr | AppLogic/Helpers/StringExtensions.cs:27-31 | text without carriage returns is unchanged |
| TextTransforms.UnixifyIdempotent | AppLogic/Helpers/StringExtensions.cs:27-31 | unixifying twice is unixifying once |
| TextTransforms.UnixifyKeepsText | AppLogic/Helpers/StringExtensions.cs:27-31 | the characters other than line breaks stay, in order |
| TextTransforms.Windowsify | AppLogic/Helpers/StringExtensions.cs:33-37 | the result is at least as long as the input |
| TextTransforms.UnixifyUndoesWindowsify | AppLogic/Helpers/StringExtensions.cs:27-37 | Unixify undoes Windowsify on text without carriage returns |
| TextTransforms.WindowsifyJoinsLines | AppLogic/Helpers/StringExtensions.cs:33-37 | Windowsify is the lines joined with the CR-LF newline |
| TextTransforms.RemoveSpaces | AppLogic/Helpers/StringExtensions.cs:39-42 | no white space is left and the result is no longer than the input |
| TextTransforms.RemoveSpacesCounts | AppLogic/Helpers/StringExtensions.cs:39-42 | every other character is kept exactly as often as it occurs |
| TextTransforms.RemoveSpacesWithoutSpace | AppLogic/Helpers/StringExtensions.cs:39-42 | text without white space is unchanged |
| TextTransforms.Trim | AppLogic/Helpers/StringExtensions.cs:59 | Trim is the slice between the leading and the trailing white space |
| TextTransforms.KeptRange | AppLogic/Helpers/StringExtensions.cs:48-52 | only blank lines lie outside the kept range, and its first and last lines are not blank |
| TextTransforms.TrimTrailingEmptyLines | AppLogic/Helpers/StringExtensions.cs:44-55 | a text of one line is kept as it is, unless that line is blank, when the result is "" |
| TextTransforms.TrimTrailingEmptyLinesKeepsInterior | AppLogic/Helpers/StringExtensions.cs:44-55 | the result's lines are the input's lines from the first non-blank to the last non-blank; all blank gives "" |
| TextTransforms.TrimTrailingEmptyLinesIdempotent | AppLogic/Helpers/StringExtensions.cs:44-55 | trimming twice is trimming once |
| TextTransforms.TrimTrailingEmptyLinesAvoids | AppLogic/Helpers/StringExtensions.cs:44-55 | no character absent from the input appears in the result |
| TextTransforms.TrimAll | AppLogic/Helpers/StringExtensions.cs:59 | each line is trimmed, and the count stays |
| TextTransforms.ConvertToSingleLine | AppLogic/Helpers/StringExtensions.cs:57-60 | no line feed is left, and a text of one line becomes its trimmed form |
| TextTransforms.ConvertToSingleLineAvoids | AppLogic/Helpers/StringExtensions.cs:57-60 | the result has no line feed, and no character that the input lacks except the joining space |
| TextTransforms.ConvertToSingleLineOfOneLine | AppLogic/Helpers/StringExtensions.cs:57-60 | a text without line feeds becomes its trimmed form |
| TextTransforms.PasteAsSingleLineHasNoBreaks | AppLogic/Presenter/PredefinedHotkeyHandlers.cs:66-69 | the pasted single line has neither a line feed nor a carriage return |
| TextTransforms.LeadingIndent | AppLogic/Helpers/StringExtensions.cs:80 | the match is the maximal leading run of spaces and tabs |
| TextTransforms.IndentFoldValue | AppLogic/Helpers/StringExtensions.cs:84-89 | the aggregation is 0 when some line has no leading run; otherwise it is the least of the seed and of every line's run |
| TextTransforms.Unindent | AppLogic/Helpers/StringExtensions.cs:78-98 | a text with a line that has no leading space or tab is returned unchanged |
| TextTransforms.UnindentFlushLine | AppLogic/Helpers/StringExtensions.cs:91-94 | a line with no leading space or tab leaves the text unchanged |
| TextTransforms.UnindentRemovesCommonIndent | AppLogic/Helpers/StringExtensions.cs:78-98 | each line loses exactly the common indent, the line count stays, and unindenting again changes nothing |
| TextTransforms.UnindentKeepsTextEndingInNewline | AppLogic/Helpers/StringExtensions.cs:82-94 | a text ending in a line feed is never unindented |
| ConfigParsing.ConvertHex | AppLogic/Config/ParsingHelpers.cs:30 | a minus sign is an ArgumentException ("cannot contain a minus sign"), a value above 0xFFFFFFFF an OverflowException with the UInt32 message, and nothing else fails; otherwise the 32-bit pattern is read as a signed int |
| ConfigParsing.ConvertDec | AppLogic/Config/ParsingHelpers.cs:37 | OverflowException iff the value is outside the int range; otherwise the value |
| ConfigParsing.TryParseHexOrDec | AppLogic/Config/ParsingHelpers.cs:18-44 | false with 0 iff the trimmed text is neither hex nor decimal; a success is in the int range; only Argument and Overflow exceptions |
| ConfigParsing.TryParseHexOrDecOrChar | AppLogic/Config/ParsingHelpers.cs:46-79 | false always comes with 0 |
| ConfigParsing.CharFormExtendsHexOrDec | AppLogic/Config/ParsingHelpers.cs:46-79 | where the numeric forms match the result is that of TryParseHexOrDec; elsewhere only a quoted character can match |
| ConfigParsing.HexRoundTrip | AppLogic/Config/ParsingHelpers.cs:21-31 | "0x" and the hex digits of any 32-bit pattern read back as that pattern, as a signed int |
| ConfigParsing.HexOverflow | AppLogic/Config/ParsingHelpers.cs:30 | a hex value wider than 32 bits is an OverflowException saying it is too large for a UInt32 (base 16 reads the digits unsigned) |
| ConfigParsing.HexMinus | AppLogic/Config/ParsingHelpers.cs:21-31 | "0x-" with digits matches the pattern and is an ArgumentException |
| ConfigParsing.DecRoundTrip | AppLogic/Config/ParsingHelpers.cs:34-39 | every int's decimal form parses back to it |
| ConfigParsing.DecOverflow | AppLogic/Config/ParsingHelpers.cs:37 | a decimal outside the int range is an OverflowException |
| ConfigParsing.QuotedCharacter | AppLogic/Config/ParsingHelpers.cs:69-74 | a quoted digit or letter gives the code of its upper-case form ('a' gives 65) |
| ConfigParsing.TryParseBool | AppLogic/Config/ParsingHelpers.cs:81-96 | success iff the trimmed text is "true" or "false" in any case; the value is true iff it is "true" |
| ConfigParsing.BoolRoundTrip | AppLogic/Config/ParsingHelpers.cs:81-96 | "True" or "False", padded with any white space, reads back as that bool |
| ConfigParsing.IntTryParse | AppLogic/Config/Configuration.cs:109 | a success is in the int range, and a failure has value 0 |
| ConfigParsing.IntTryParseRoundTrip | AppLogic/Config/Configuration.cs:109 | every int's decimal form, padded with number white space, parses back to it |
| ConfigParsing.IntTryParseRejectsOverflow | AppLogic/Config/Configuration.cs:109 | a number outside the int range is a failure with 0, not an exception |
| ConfigParsing.ValueShape | AppLogic/Config/ParsingHelpers.cs:101 | a lazily matched value has no ';' after its first character and ends in a non-white character |
| ConfigParsing.TryParseKeyValue | AppLogic/Config/ParsingHelpers.cs:98-107 | no match is false with ""; a value has no ';' after its first character and does not end in white space |
| ConfigParsing.KeyAtStart | AppLogic/Config/ParsingHelpers.cs:101 | a key at the start of the text is recognised up to its colon |
| ConfigParsing.ValueBeforeSemicolon | AppLogic/Config/ParsingHelpers.cs:101 | after the colon and a space, a value free of ';' and edge white space is captured exactly |
| ConfigParsing.KeyValueRoundTrip | AppLogic/Config/ParsingHelpers.cs:98-107 | "key: value;" reads back the value |
| ConfigParsing.KeyValueBlankValue | AppLogic/Config/ParsingHelpers.cs:98-107 | two spaces after the colon capture one space; nothing after the colon is no match |
| Configuration.TryGetOption | AppLogic/Config/Configuration.cs:70-82 | found iff in Local or Roaming, and a Local value is the one returned |
| Configuration.TryGetOptionIsMergedLookup | AppLogic/Config/Configuration.cs:70-82 | the lookup is that of Roaming overridden by Local |
| Configuration.GetOptionString | AppLogic/Config/Configuration.cs:84-91 | the Local value, else the Roaming value, else the default |
| Configuration.GetOptionBool | AppLogic/Config/Configuration.cs:93-103 | the value found if TryParseBool accepts it, else the default |
| Configuration.GetOptionInt | AppLogic/Config/Configuration.cs:105-115 | the value found if int.TryParse accepts it, else the default |
| Configuration.UnparsableLocalDoesNotFallBack | AppLogic/Config/Configuration.cs:93-115 | an unparsable Local value gives the default even when Roaming's would parse |
| Configuration.LocalWins | AppLogic/Config/Configuration.cs:72-75 | a name that Local has is looked up without regard to Roaming |
| Configuration.BoolOptionRoundTrip | AppLogic/Config/Configuration.cs:93-103 | a bool stored as ToString() prints it reads back exactly |
| Configuration.IntOptionRoundTrip | AppLogic/Config/Configuration.cs:105-115 | an int stored as ToString() prints it reads back exactly |
| Hotkeys.HasHotkey | AppLogic/Models/Hotkey.cs:22 | true iff both Vkey and Mods have values, so the default hotkey is none |
| Hotkeys.SameHotkey | AppLogic/Models/Hotkey.cs:24-27 | two hotkeys are Equal exactly when a name-based Union drops the second after the first; equal records are Equal |
| Hotkeys.HashCode | AppLogic/Models/Hotkey.cs:28-31 | every hotkey Equal to `h` has the same hash code |
| Hotkeys.DefaultHotkey | AppLogic/Models/Hotkey.cs:14-22 | a new hotkey has an empty name, no codes, no data, both flags false, and is no hotkey |
| Hotkeys.HasHotkeyNeedsBoth | AppLogic/Models/Hotkey.cs:22 | HasHotkey iff both the key and the modifiers are given |
| Hotkeys.SameHotkeyIsEquivalence | AppLogic/Models/Hotkey.cs:24-31 | Equals is an equivalence on names alone, and equal hotkeys hash alike |
| Hotkeys.UnionInto | AppLogic/Presenter/HotkeyHandlerHost.cs:202 | the first list stays in front, at most the second list's entries are added, and nothing comes from elsewhere |
| Hotkeys.Union | AppLogic/Presenter/HotkeyHandlerHost.cs:202 | the merge is no longer than both lists together and holds only their entries |
| Hotkeys.UnionIntoFinds | AppLogic/Presenter/HotkeyHandlerHost.cs:202 | the union has distinct names, and a name finds its first entry in the first list, else in the second |
| Hotkeys.UnionKeepsRoaming | AppLogic/Presenter/HotkeyHandlerHost.cs:202 | the merge has one entry per name, and a name in both lists keeps the roaming entry |
| Hotkeys.UnionNames | AppLogic/Presenter/HotkeyHandlerHost.cs:202 | the merge holds exactly the names of both lists |
| ConfigSections.Selected | AppLogic/Config/HotkeyConfigSection.cs:22-24 | the children with the element name, in document order, and nothing else |
| ConfigSections.ReadCode | AppLogic/Config/HotkeyConfigSection.cs:36-56 | an absent or blank code is none; otherwise it must parse, and it is cast to uint |
| ConfigSections.ReadFlag | AppLogic/Config/HotkeyConfigSection.cs:58-70 | an absent flag is false; a present one, even blank, must parse as a bool |
| ConfigSections.ReadHotkey | AppLogic/Config/HotkeyConfigSection.cs:26-81 | a FormatException with the element's XML for a blank name or a malformed field, checked in source order; otherwise the hotkey of its fields |
| ConfigSections.ReadAll | AppLogic/Config/HotkeyConfigSection.cs:22-82 | the elements' hotkeys in order, or the first failing element's exception |
| ConfigSections.HotkeySectionCreate | AppLogic/Config/HotkeyConfigSection.cs:18-85 | the loop's result equals ReadAll over the selected children |
| ConfigSections.FailureSticks | AppLogic/Config/HotkeyConfigSection.cs:22-82 | once a prefix of the children fails, the section fails with the same exception |
| ConfigSections.ReadAllSucceeds | AppLogic/Config/HotkeyConfigSection.cs:22-82 | the section reads iff every element does, and then holds exactly their hotkeys, in order |
| ConfigSections.ReadAllFirstFailure | AppLogic/Config/HotkeyConfigSection.cs:22-82 | a failing section reports the exception of its first malformed element |
| ConfigSections.CodeRoundTrip | AppLogic/Config/HotkeyConfigSection.cs:36-56 | any 32-bit code written in hex reads back as itself, through the signed parse and the cast |
| ConfigSections.FlagRoundTrip | AppLogic/Config/HotkeyConfigSection.cs:58-70 | a flag written as "True" or "False" reads back |
| ConfigSections.ReadHotkeyOfFields | AppLogic/Config/HotkeyConfigSection.cs:72-81 | an element whose attributes each read as the hotkey's fields reads as that hotkey |
| ConfigSections.ReadHotkeyRoundTrip | AppLogic/Config/HotkeyConfigSection.cs:26-81 | a hotkey with a non-blank name and data survives being written as an element and read back |
| ConfigSections.BlankAttributes | AppLogic/Config/HotkeyConfigSection.cs:36-70 | a blank mods or vkey gives no code, while a blank isScript or hasSeparator is a FormatException |
| ConfigSections.ReadOption | AppLogic/Config/OptionConfigSection.cs:27-35 | a blank name is a FormatException with the element's XML; a missing value is "" |
| ConfigSections.OptionSectionCreate | AppLogic/Config/OptionConfigSection.cs:19-40 | the loop's result equals OptionsOf over the selected children |
| ConfigSections.OptionsFailureSticks | AppLogic/Config/OptionConfigSection.cs:23-37 | once a prefix of the children fails, the section fails with the same exception |
| ConfigSections.OptionsOf | AppLogic/Config/OptionConfigSection.cs:23-37 | a successful read has one dictionary entry per option element |
| ConfigSections.OptionsOfSucceeds | AppLogic/Config/OptionConfigSection.cs:23-37 | the section reads iff every element has a name and no name repeats; it then maps each name to its value |
| ConfigSections.OptionNameFrom | AppLogic/Config/OptionConfigSection.cs:29-36 | every key of a section that reads is one of its elements' names |
| ClipboardFormats.EncodeChar | AppLogic/Helpers/ClipboardFormats.cs:31 | one scalar value is 1 to 4 bytes, by range, as in RFC 3629 section 3 |
| ClipboardFormats.Utf8 | AppLogic/Helpers/ClipboardFormats.cs:31 | the encoding has at least one byte per character and no byte-order mark |
| ClipboardFormats.Utf8RoundTrip | AppLogic/Helpers/ClipboardFormats.cs:31 | decoding the UTF-8 gives back the text |
| ClipboardFormats.AsciiUtf8 | AppLogic/Helpers/ClipboardFormats.cs:34 | ASCII text is one byte per character, holding the character's code |
| ClipboardFormats.Pad5 | AppLogic/Helpers/ClipboardFormats.cs:14-17 | {n:00000} is the zero-padded digits of n, at least five long |
| ClipboardFormats.Pad5Width | AppLogic/Helpers/ClipboardFormats.cs:14-17 | a field is exactly five characters iff the offset is at most 99999 |
| ClipboardFormats.HeaderBytes | AppLogic/Helpers/ClipboardFormats.cs:12-17 | the header's byte length is 61 plus its four fields' widths |
| ClipboardFormats.HeaderFields | AppLogic/Helpers/ClipboardFormats.cs:12-17 | the four five-digit fields, read at bytes 23, 37, 57 and 75, give back the four numbers formatted |
| ClipboardFormats.MarkerLengths | AppLogic/Helpers/ClipboardFormats.cs:19-27 | HTML_START is 36 bytes and HTML_END 37 bytes in UTF-8 |
| ClipboardFormats.PlaceholderHeaderLength | AppLogic/Helpers/ClipboardFormats.cs:34 | the placeholder header is 81 bytes |
| ClipboardFormats.BuildBuffer | AppLogic/Helpers/ClipboardFormats.cs:35-57 | the growing buffer, the length check and the copy of `header` give UnpatchedData |
| ClipboardFormats.CopyOver | AppLogic/Helpers/ClipboardFormats.cs:56 | after the copy, the buffer is the source followed by the rest of the data |
| ClipboardFormats.ArrayCopy | AppLogic/Helpers/ClipboardFormats.cs:56 | the first `length` bytes hold the source's and the other bytes are unchanged |
| ClipboardFormats.ClipboardDataAsWritten | AppLogic/Helpers/ClipboardFormats.cs:29-58 | fails only with the length exception; otherwise the placeholder header is left in front of the body |
| ClipboardFormats.ConvertHtmlToClipboardData | AppLogic/Helpers/ClipboardFormats.cs:29-58 | the method as written computes ClipboardDataAsWritten |
| ClipboardFormats.UnpatchedFailure | AppLogic/Helpers/ClipboardFormats.cs:49-54 | for an 81-byte header, the result fails iff endHtml exceeds 99999 |
| ClipboardFormats.UnpatchedError | AppLogic/Helpers/ClipboardFormats.cs:53 | the failure is InvalidOperationException("ConvertHtmlToClipboardData") |
| ClipboardFormats.UnpatchedValue | AppLogic/Helpers/ClipboardFormats.cs:56-57 | the returned buffer is the header followed by the body |
| ClipboardFormats.ClipboardDataLayout | AppLogic/Helpers/ClipboardFormats.cs:34-57 | the placeholder header takes 81 bytes, the markers surround the UTF-8 of the fragment, the buffer is endHtml long, and it fails iff endHtml needs six digits |
| ClipboardFormats.AsWrittenFieldsArePlaceholders | AppLogic/Helpers/ClipboardFormats.cs:56 | the as-written buffer's fields read 0, 1, 2 and 3 instead of the real offsets |
| ClipboardFormats.NewHeaderFieldsOutOfOrder | AppLogic/Helpers/ClipboardFormats.cs:49-50 | the rebuilt header's EndHTML field reads startFragment and its EndFragment field the buffer's length |
| ClipboardFormats.BuildPatchedBuffer | AppLogic/Helpers/ClipboardFormats.cs:48-57 | with newHeader in field order copied over the buffer, the method computes PatchedData |
| ClipboardFormats.ClipboardData | AppLogic/Helpers/ClipboardFormats.cs:29-58 | fails only with the length exception; otherwise the header of the real offsets, as long as the placeholder, stands in front of the body |
| ClipboardFormats.ConvertHtmlToClipboardDataPatched | AppLogic/Helpers/ClipboardFormats.cs:29-58 | the corrected method computes ClipboardData |
| ClipboardFormats.PatchedFailure | AppLogic/Helpers/ClipboardFormats.cs:51-54 | the corrected buffer fails iff endHtml exceeds 99999 |
| ClipboardFormats.PatchedError | AppLogic/Helpers/ClipboardFormats.cs:53 | its failure is the same InvalidOperationException |
| ClipboardFormats.PatchedHeaderFields | AppLogic/Helpers/ClipboardFormats.cs:49-50 | the patched header is 81 bytes and its fields read StartHTML, EndHTML, StartFragment and EndFragment |
| ClipboardFormats.ClipboardDataFailsAlike | AppLogic/Helpers/ClipboardFormats.cs:51-54 | the corrected buffer fails exactly when the as-written one does, with the same exception |
| ClipboardFormats.HeaderDescribesBody | AppLogic/Helpers/ClipboardFormats.cs:12-27 | an 81-byte header holding the real offsets describes the buffer it starts |
| ClipboardFormats.ClipboardDataOffsets | AppLogic/Helpers/ClipboardFormats.cs:29-58 | whenever the corrected buffer exists, its fields locate HTML_START, the UTF-8 of the fragment and HTML_END, and EndHTML is its length |
| Utilities.Title | AppLogic/Helpers/Utilities.cs:19-39 | at most 19 characters of modifier prefix, then exactly the key name at the end |
| Utilities.GetHotkeyTitle | AppLogic/Helpers/Utilities.cs:19-39 | the appended title equals Title: the prefixes present in the order Shift, Ctrl, Win, Alt, then the key name |
| Utilities.PrefixRoundTrip | AppLogic/Helpers/Utilities.cs:21-37 | reading the prefixes back gives the four modifiers, each present iff its prefix is there |
| Utilities.TitleRoundTrip | AppLogic/Helpers/Utilities.cs:19-39 | a title reads back as the four modifier bits that are set and the key name |
| Utilities.TitleDeterminedByModifiers | AppLogic/Helpers/Utilities.cs:19-39 | two titles of a key agree iff the four modifier bits do |
| Utilities.OtherBitsIgnored | AppLogic/Helpers/Utilities.cs:22-37 | only the low four bits of `mods` affect the title |
| Utilities.NoRepeatIgnored | AppLogic/Helpers/WinApi.cs:41-45 | adding MOD_NOREPEAT leaves the title unchanged |
| Utilities.TitleEndsWithKey | AppLogic/Helpers/Utilities.cs:38-39 | the title ends with the key name, and with no modifiers it is just the key name |
| Utilities.IsDescendant | AppLogic/Helpers/Utilities.cs:48-52 | a null handle is never a descendant, a window is its own, otherwise IsChild decides |
| Utilities.IsDescendantTransitive | AppLogic/Helpers/Utilities.cs:48-52 | where IsChild is transitive, so is IsDescendant |
| ThreadInputScope.Scope.constructor | AppLogic/Helpers/AttachedThreadInputScope.cs:31-57 | the previous scope is disposed and detached; the new one is current; it attaches iff the threads differ, and counts as attached iff the threads are the same, the attach succeeded or the foreground is a console window |
| ThreadInputScope.Scope.Dispose | AppLogic/Helpers/AttachedThreadInputScope.cs:59-73 | nothing happens unless the scope is current; then the slot is cleared, and an attached scope detaches, with a call only when the threads differ |
| ThreadInputScope.UsingScope | AppLogic/Helpers/AttachedThreadInputScope.cs:31-73 | a using block leaves no current scope, and every attach that succeeded is matched by exactly one detach |
| ThreadInputScope.DisposeTwice | AppLogic/Helpers/AttachedThreadInputScope.cs:59-73 | disposing twice detaches at most once |

## Left out

- **Concurrency.** Threads, locks and the thread pool's parallelism are not modelled. Every
  `lock` body is one atomic method. A thread-pool callback may be picked in any order (by
  index), and the single-thread worker runs its mailbox in order.
- **Dropped events and joins.** The `ThreadException` and `BackgroundOperationsCompleted`
  events are not modelled. Neither is the single-thread `Completion` continuation that joins
  the worker thread.
- **The WinForms apartment.** It is represented only by an apartment that does not track
  operations (`AnyBackgroundOperation` is null). Its message loop is not modelled.
- **STA start-up.** The single-thread start-up through a `TaskCompletionSource` is not
  modelled. Neither is the `threadStart` catch block, because nothing in the model throws
  there.
- **Where Run's faults go.** `Run`'s faults stay in Run's own task (`Task.Factory.StartNew`).
  Only throwing posted callbacks, the async void exceptions, reach the apartment's fault list.
- **Run's overloads.** `Run`'s four overloads are one method with an `isAsync` flag, and the two
  `WithScopeAsync` overloads are one scope, because within each pair they differ only in result
  type. The two async overloads unwrap the task their lambda returns, so their scope closes only
  when that inner task ends (`InnerTaskEnded`).
- **Apartments.Apartment.InnerTaskEnded: inner tasks that end synchronously.** An async lambda
  whose task has already ended when it returns closes its scope before its posted callback
  completes. The model releases the callback's unit first and the scope's unit in a later
  step. The counter and the conclusion come out the same.
- **What the inner task does.** The inner task of an async Run lambda is given by its final
  state. The callbacks it posts are separate `Post` calls.
- **NativeWait.Wait inputs.** `MsgWaitForMultipleObjectsEx`, `PeekMessage`/`DispatchMessage`
  and `Environment.TickCount` are inputs, one `Step` per round of the loop. Should the steps
  run out before the loop returns, the outcome is `Unfinished`.
- **NativeWait.Wait, non-pumping path.** The non-pumping base wait is a parameter.
- **WithCancellation.** Both overloads are left out. They only attach a cancellation token to
  a continuation, and cancellation arriving during a wait is scheduling, which is not
  modelled.
- **CoroutineProxyExt.Run.** The extension is left out. It only runs the proxy's `Run`
  through an apartment, as `Apartment.Run` models.
- **Coroutine interleaving.** The lock-step interleaving of two coroutines, and the
  cancellation of a routine in the middle of its run, are not modelled.
- **Coroutines.CoroutineProxy.Run.** The routine is given by the items it yields and the
  exception it ends with. What it does between yields is not modelled.
- **TaskExtensions.Await.** A canceled task holds at most one cancellation exception, which
  `await` rethrows. The cancellation token it carries is not modelled.
- **TaskExtensions.Observe and related helpers.** This covers `IgnoreCancellations` and
  `HandleTask` too. They are async void methods, modelled as functions that return what they
  hand to the logger and what they rethrow. Posting the rethrown exception is
  `Apartment.Post`.
- **Default exception messages.** A leaf exception with message `""` (`ArgumentNullException`,
  `AbandonedMutexException`, `InvalidOperationException` and others made with no arguments)
  stands for the default message of the parameterless constructor. That text is not modelled.
  The defaults that tell cancellations apart are written out: `TaskCanceledException`'s "A task
  was canceled." and `OperationCanceledException`'s "The operation was canceled.".
- **AsString.** It is `String.Concat` over characters, the identity on `string`, so it is not
  modelled.
- **The regex TextTransforms.** `TabifyStart`, `UntabifyStart` and `ToPreformattedHtml` are
  left out. They are regex replacements with lazy groups and an HTML encoder. The paste paths
  named in the model do not use them.
- **TextTransforms.IsWhiteSpace.** It covers the ASCII and Unicode space characters that
  `Char.IsWhiteSpace` lists. Culture data is not modelled.
- **ConfigParsing.** Digits, hex letters and case folding are ASCII only, as the `[0-9A-F]`
  and `[0-9A-Z]` classes are. `\d` is limited to ASCII digits too, although .NET also accepts
  other Unicode decimal digits there.
- **ConfigParsing.IntTryParse.** It models `NumberStyles.Integer` under the invariant
  culture: ASCII digits, `+`/`-`, and the white space that style allows. It does not model
  trailing NUL characters or culture-specific signs.
- **ConfigParsing.TryParseKeyValue.** The key is read literally: letters, digits, `_` and
  `-`. A key holding regex metacharacters is not modelled.
- **HotkeyCollection.** It is a sequence of hotkeys. Loading the configuration files
  (`ConfigurationManager`, lazy sections, `GetDefaultRoamingConfig`) is not modelled. The
  option collections are maps.
- **Hotkeys.HashCode.** The string hash is a parameter.
- **ClipboardFormats.** Dafny characters are Unicode scalar values, so a lone surrogate in
  the HTML, which .NET replaces by U+FFFD, is not modelled. The markers are written with
  U+2013 EN DASH, as in the source. The model keeps that rather than the `<!--` of an HTML
  comment.
- **Utilities.GetHotkeyTitle.** The key name from `Enum.GetName(typeof(Keys), vk)` is a
  parameter (None for a code without a name). `mods` is a 32-bit flag set (`bv32`).
- **Utilities.TitleRoundTrip.** It assumes the key name holds no `+`, as the names of the
  `Keys` enumeration do.
- **Utilities.IsDescendant.** `WinApi.IsChild` is a parameter.
- **Utilities.EnableMenuShortcutsUnderlining.** It is a single Win32 call with no logic, so
  it is left out.
- **ThreadInputScope.Scope.constructor.** `GetForegroundWindow`, `GetCurrentThreadId`,
  `GetWindowThreadProcessId`, `AttachThreadInput`'s result and `GetClassName` are
  parameters. `GetClassName`'s limit of 255 characters is not modelled. `Create` is this
  constructor. The thread-local `s_current` is one `CurrentSlot` per thread.
- **TryGetOption order.** `TryGetOption` looks in Local first and Roaming second
  (Configuration.cs:72-78), although the class comment says Roaming settings take
  precedence. The model follows the code. The hotkey merge does give Roaming precedence
  (HotkeyHandlerHost.cs:202).
- **TrimTrailingEmptyLines.** It drops blank lines at both the start and the end of the text,
  as the code does, not only trailing ones as its name says.
- **Unindent.** Unindent computes its indent on the raw lines of `Split('\n')`. A text ending
  in a newline therefore ends with an empty, unindented line and is never unindented. Lines
  holding only white space take part in the minimum.

## Findings

| source | as written | input that shows it | evidently intended | confidence | as-written member | corrected member |
|---|---|---|---|---|---|---|
| AppLogic/Helpers/ClipboardFormats.cs:56 | `Array.Copy(header, data, length: startHtml)` copies the placeholder header back, so the fields read 0, 1, 2, 3 | any html, e.g. "" | copy `newHeader`, which carries the real offsets | not executed | ClipboardFormats.AsWrittenFieldsArePlaceholders | ClipboardFormats.ClipboardDataOffsets |
| AppLogic/Helpers/ClipboardFormats.cs:49-50 | `String.Format(HEADER, startHtml, startFragment, endFragment, endHtml)`, while the format's fields are StartHTML, EndHTML, StartFragment, EndFragment | any html, e.g. "" (EndHTML would read 117, EndFragment 154) | arguments in field order: startHtml, endHtml, startFragment, endFragment | not executed | ClipboardFormats.NewHeaderFieldsOutOfOrder | ClipboardFormats.PatchedHeaderFields |
