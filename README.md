# async-profiler actuator endpoint, modelled in Dafny

The actuator exposes async-profiler over HTTP through one Spring endpoint,
`AsyncProfilerWebEndpoint`. This project models the endpoint's request
handling. Most of it is the translation of a request into an async-profiler
command string. The rest is the three handlers that send such commands to the
native engine:

- `executeCommand` runs a plain command and maps the engine's answer to 200 or 400.
- `collectFlameGraph` handles `dump` and `stop`. It builds the command around a
  temporary `.html` file, answers 200 with that file, and on failure deletes the
  file and answers 500.
- `executeAndCollectFlamegraph` is the timed profile. It sends `start` (only
  when INFO logging is enabled; see Findings), sleeps
  `duration * 1000L` milliseconds, and then collects with `stop`. It answers 500
  when an engine call fails and 503 when the wait is interrupted.

Files:

- `wrappers.dfy` (`Wrappers`): `Option` for Java's nullable references, `Result`
  for a call that returns or throws.
- `comma_lists.dfy` (`CommaLists`): `Collectors.joining(",")` as `JoinComma`, a
  reference `Split` at every comma, and the facts that join and split are inverse.
- `command_translation.dfy` (`CommandTranslation`): the pure core.
  - The request is `ParameterMap`, a sequence of `Parameter(key, values)` in the
    map's iteration order. `values` is `Option<seq<Option<string>>>`, because a
    `String[]` and each of its elements may be null.
  - `GetCommand`, `ParseParameter`, `Forwarded` (the two filters) and
    `GetParameter` follow the Java expressions step by step.
  - `DecodeCommand` is a reference reading of the command's comma syntax:
    fields split at every comma (empty fields kept), each field split at its
    first `=`. The engine's own parser is not part of this model.
  - `RequestArgs` is a separate definition of which arguments a request should
    contribute. The lemmas tie these reference definitions to the translation.
- `command_examples.dfy` (`CommandExamples`): concrete translations, including
  the requests used in the test suite.
- `profiler_endpoint.dfy` (`ProfilerEndpoint`): the three handlers as methods of
  an `Endpoint` class, plus the classes and functions around them.
  - `Profiler` models the engine. It keeps a log of `Call(command, reply)`. Each
    reply is chosen nondeterministically: a result text, or the message of an
    `IOException`/`RuntimeException`.
  - `FileSystem` models the temporary-file directory: the files present, and the
    names `createTempFile` has handed out.
  - `CallerThread` models the serving thread: its interrupt status and its
    sleeps. A sleep ends as `Completed`, `Interrupted` or `Rejected` (a negative
    time).
  - `RouteOf` models the mapping patterns.
  - `WrapLong` models Java `long` arithmetic.

How this revision differs from its test suite. The test file targets a later
revision of the endpoint. The model follows the endpoint source, and the
differences are proved as lemmas:

- An empty `stop` yields `"stop,"`. The tests expect `"stop"`.
  `CommandExamples.StopWithoutParameters` proves the source's result.
- `total` is appended after the file: `stop,file=<path>,total`. The tests expect
  `stop,total,file=<path>`. `ProfilerEndpoint.TotalAfterFile` proves the source's
  order.
- `collectFlameGraph` takes no file suffix and always uses `.html`. The tests
  call a three-argument form with `.JFR`, and the octet-stream content type
  belongs to that later form.
- A null operation is not rejected. It is rendered as the text `null`, so the
  command is `"null," + parameters`. The tests expect a `NullPointerException`.
- The tests call a three-argument `executeAndCollectFlamegraph(1L, null, request)`
  (test lines 118, 135, 155, 175 and 197). The endpoint source takes two
  parameters, `duration` and `request` (lines 158-159), and the model follows it.

## Model

| member | source | states |
|---|---|---|
| `CommaLists.SplitJoin` | src/main/java/dev/nifties/integration/springframework/boot/actuate/profiler/AsyncProfilerWebEndpoint.java:188 | splitting at commas recovers the joined items when none of them holds a comma |
| `CommaLists.JoinAppend` | src/main/java/dev/nifties/integration/springframework/boot/actuate/profiler/AsyncProfilerWebEndpoint.java:188 | joining two non-empty lists puts exactly one comma between the two joined halves |
| `CommandTranslation.ForwardedAppend` | src/main/java/dev/nifties/integration/springframework/boot/actuate/profiler/AsyncProfilerWebEndpoint.java:185-187 | the filters distribute over concatenation, so kept entries keep the map's iteration order |
| `CommandTranslation.ForwardedMembers` | src/main/java/dev/nifties/integration/springframework/boot/actuate/profiler/AsyncProfilerWebEndpoint.java:185-187 | an entry is kept if and only if its key is neither `duration` (case ignored) nor exactly `total` |
| `CommandTranslation.ForwardedAll` | src/main/java/dev/nifties/integration/springframework/boot/actuate/profiler/AsyncProfilerWebEndpoint.java:185-187 | a request without reserved keys is forwarded whole |
| `CommandTranslation.RequestArgsAppend` | src/main/java/dev/nifties/integration/springframework/boot/actuate/profiler/AsyncProfilerWebEndpoint.java:185-188 | the arguments of a concatenated request are those of its parts, in order |
| `CommandTranslation.RequestArgsFromParameters` | src/main/java/dev/nifties/integration/springframework/boot/actuate/profiler/AsyncProfilerWebEndpoint.java:185-188 | every argument sent comes from a non-reserved request parameter of the same name |
| `CommandTranslation.ReservedNeverForwarded` | src/main/java/dev/nifties/integration/springframework/boot/actuate/profiler/AsyncProfilerWebEndpoint.java:186-187 | no argument sent is named `duration` in any case, or exactly `total` |
| `CommandTranslation.ParameterArgs` | src/main/java/dev/nifties/integration/springframework/boot/actuate/profiler/AsyncProfilerWebEndpoint.java:196-202 | every parameter contributes at least one argument |
| `CommandTranslation.ParseParameterArgs` | src/main/java/dev/nifties/integration/springframework/boot/actuate/profiler/AsyncProfilerWebEndpoint.java:196-202 | `parseParameter` yields the bare key for a null or empty array or a single null/empty value, and otherwise one `key=value` per value, in order, comma-joined |
| `CommandTranslation.NothingForwarded` | src/main/java/dev/nifties/integration/springframework/boot/actuate/profiler/AsyncProfilerWebEndpoint.java:185-188 | nothing is forwarded exactly when the request yields no argument |
| `CommandTranslation.RenderedArgs` | src/main/java/dev/nifties/integration/springframework/boot/actuate/profiler/AsyncProfilerWebEndpoint.java:185-188 | the joined parameter string of `getCommand` equals the comma-joined arguments of the reference reading |
| `CommandTranslation.IndexOf` | src/main/java/dev/nifties/integration/springframework/boot/actuate/profiler/AsyncProfilerWebEndpoint.java:201 | the index returned is the first occurrence of the character, used to split a `key=value` field |
| `CommandTranslation.IndexOfFirst` | src/main/java/dev/nifties/integration/springframework/boot/actuate/profiler/AsyncProfilerWebEndpoint.java:201 | the first occurrence is unique |
| `CommandTranslation.ParseArgText` | src/main/java/dev/nifties/integration/springframework/boot/actuate/profiler/AsyncProfilerWebEndpoint.java:201 | a `key=value` or bare-key field reads back as its argument when the key holds no `=` |
| `CommandTranslation.WellFormedArgs` | src/main/java/dev/nifties/integration/springframework/boot/actuate/profiler/AsyncProfilerWebEndpoint.java:196-202 | on a well-formed request, every argument has a non-empty name without `,` or `=`, and its text has no comma |
| `CommandTranslation.DecodeJoined` | src/main/java/dev/nifties/integration/springframework/boot/actuate/profiler/AsyncProfilerWebEndpoint.java:188-193 | an operation followed by comma-joined arguments decodes to that operation and those arguments |
| `CommandTranslation.DecodeSingle` | src/main/java/dev/nifties/integration/springframework/boot/actuate/profiler/AsyncProfilerWebEndpoint.java:190-193 | an operation followed by one argument decodes to that operation and that argument |
| `CommandTranslation.DecodeGetCommand` | src/main/java/dev/nifties/integration/springframework/boot/actuate/profiler/AsyncProfilerWebEndpoint.java:184-194 | round trip: the reference reading recovers the operation and every non-reserved parameter's arguments, in request order; with none, `start` gets `event=cpu` and any other operation a single empty field |
| `CommandTranslation.CommandStartsWithOperation` | src/main/java/dev/nifties/integration/springframework/boot/actuate/profiler/AsyncProfilerWebEndpoint.java:193 | every command begins with the operation followed by a comma |
| `CommandTranslation.StartHasParameters` | src/main/java/dev/nifties/integration/springframework/boot/actuate/profiler/AsyncProfilerWebEndpoint.java:190-193 | a `start` command never has an empty parameter part |
| `CommandTranslation.EmptyParameterDefault` | src/main/java/dev/nifties/integration/springframework/boot/actuate/profiler/AsyncProfilerWebEndpoint.java:190-193 | with nothing forwarded, `start` becomes `start,event=cpu` and any other operation `op,` |
| `CommandTranslation.ReservedKeys` | src/main/java/dev/nifties/integration/springframework/boot/actuate/profiler/AsyncProfilerWebEndpoint.java:186-187 | `duration`, `Duration`, `DURATION` and `DURATıON` (dotless i) are reserved; `total` is, `Total` and `TOTAL` are not |
| `CommandTranslation.DurationKeyAscii` | src/main/java/dev/nifties/integration/springframework/boot/actuate/profiler/AsyncProfilerWebEndpoint.java:186 | on ASCII keys the `duration` test holds if and only if the key lower-cases to `duration` |
| `CommandTranslation.GetParameterFound` | src/main/java/dev/nifties/integration/springframework/boot/actuate/profiler/AsyncProfilerWebEndpoint.java:142 | `getParameter` returns a value only when some parameter has exactly that name and a value array |
| `CommandTranslation.GetParameterFirst` | src/main/java/dev/nifties/integration/springframework/boot/actuate/profiler/AsyncProfilerWebEndpoint.java:142 | `getParameter` answers from the first parameter of exactly that name: its first value when its array is non-empty, null otherwise |
| `CommandTranslation.GetParameterMissing` | src/main/java/dev/nifties/integration/springframework/boot/actuate/profiler/AsyncProfilerWebEndpoint.java:142 | a name no parameter carries reads as null, so no `,total` is appended |
| `CommandExamples.StartWithoutParameters` | src/test/java/dev/nifties/integration/springframework/boot/actuate/profiler/AsyncProfilerWebEndpointTest.java:45-46 | an empty `start` gives `start,event=cpu` |
| `CommandExamples.StopWithoutParameters` | src/test/java/dev/nifties/integration/springframework/boot/actuate/profiler/AsyncProfilerWebEndpointTest.java:50-51 | an empty `stop` gives `stop,`, not the tested `stop` |
| `CommandExamples.StartWallEvent` | src/test/java/dev/nifties/integration/springframework/boot/actuate/profiler/AsyncProfilerWebEndpointTest.java:132-141 | `event=wall` gives `start,event=wall` |
| `CommandExamples.StartAllocAndThreads` | src/test/java/dev/nifties/integration/springframework/boot/actuate/profiler/AsyncProfilerWebEndpointTest.java:170-181 | `alloc=100k&threads` gives `start,alloc=100k,threads` |
| `CommandExamples.StartWithTotal` | src/test/java/dev/nifties/integration/springframework/boot/actuate/profiler/AsyncProfilerWebEndpointTest.java:190-203 | `event=ctimer&interval=999us&threads&total` gives `start,event=ctimer,interval=999us,threads` |
| `CommandExamples.DurationAndTotalSpellings` | src/main/java/dev/nifties/integration/springframework/boot/actuate/profiler/AsyncProfilerWebEndpoint.java:186-187 | `DURATION=10` is dropped, leaving `start,event=cpu`; `Total` is forwarded as a flag |
| `CommandExamples.MultipleValues` | src/main/java/dev/nifties/integration/springframework/boot/actuate/profiler/AsyncProfilerWebEndpoint.java:201 | three values give three assignments; a null value renders as `null` and an empty one as an empty value |
| `ProfilerEndpoint.WrapLong` | src/main/java/dev/nifties/integration/springframework/boot/actuate/profiler/AsyncProfilerWebEndpoint.java:162 | the result is a `long` congruent to the exact product modulo 2^64, and equal to it when that fits |
| `ProfilerEndpoint.DurationMillisExact` | src/main/java/dev/nifties/integration/springframework/boot/actuate/profiler/AsyncProfilerWebEndpoint.java:162 | durations up to `Long.MAX_VALUE / 1000` convert to exactly `duration * 1000` milliseconds |
| `ProfilerEndpoint.DurationMillisWraps` | src/main/java/dev/nifties/integration/springframework/boot/actuate/profiler/AsyncProfilerWebEndpoint.java:162 | one second more wraps to a negative time |
| `ProfilerEndpoint.DecodeFlameGraphCommand` | src/main/java/dev/nifties/integration/springframework/boot/actuate/profiler/AsyncProfilerWebEndpoint.java:141-144 | the flame-graph command decodes to the operation, then `file=<path>`, then `total` exactly when requested |
| `ProfilerEndpoint.TotalAfterFile` | src/main/java/dev/nifties/integration/springframework/boot/actuate/profiler/AsyncProfilerWebEndpoint.java:141-144 | `total` comes after the file: the command is `stop,file=<path>,total`, never the tested `stop,total,file=<path>` |
| `ProfilerEndpoint.StopIsNotStart` | src/main/java/dev/nifties/integration/springframework/boot/actuate/profiler/AsyncProfilerWebEndpoint.java:167-174 | no stop command `collectFlameGraph` sends equals a start command |
| `ProfilerEndpoint.RouteOf` | src/main/java/dev/nifties/integration/springframework/boot/actuate/profiler/AsyncProfilerWebEndpoint.java:112-157 | only the bare endpoint reaches the timed profile; exactly `dump` and `stop` reach `collectFlameGraph`; `executeCommand` never receives an operation beginning with `dump` or `stop`; such operations, other than those two exactly, reach no handler |
| `ProfilerEndpoint.RouteExamples` | src/main/java/dev/nifties/integration/springframework/boot/actuate/profiler/AsyncProfilerWebEndpoint.java:112 | `start` and `status` run as plain commands; `stopped` and `dumps` reach no handler |
| `ProfilerEndpoint.FreshTempName` | src/main/java/dev/nifties/integration/springframework/boot/actuate/profiler/AsyncProfilerWebEndpoint.java:206 | a new temporary name with the `.html` suffix always exists outside the names in use |
| `ProfilerEndpoint.FileSystem.CreateTempFile` | src/main/java/dev/nifties/integration/springframework/boot/actuate/profiler/AsyncProfilerWebEndpoint.java:204-209 | either throws and changes nothing, or hands out a new name ending in `.html` that was neither on disk nor handed out before; the file is not left on disk |
| `ProfilerEndpoint.FileSystem.Delete` | src/main/java/dev/nifties/integration/springframework/boot/actuate/profiler/AsyncProfilerWebEndpoint.java:151 | afterwards the file is absent; nothing else changes |
| `ProfilerEndpoint.Profiler.Execute` | src/main/java/dev/nifties/integration/springframework/boot/actuate/profiler/AsyncProfilerWebEndpoint.java:124 | the command is appended to the engine's log together with its reply; files may be written, none deleted |
| `ProfilerEndpoint.CallerThread.Sleep` | src/main/java/dev/nifties/integration/springframework/boot/actuate/profiler/AsyncProfilerWebEndpoint.java:173 | a negative time is rejected with `IllegalArgumentException`; a pending interrupt always interrupts; an interruption clears the interrupt status |
| `ProfilerEndpoint.CallerThread.Interrupt` | src/main/java/dev/nifties/integration/springframework/boot/actuate/profiler/AsyncProfilerWebEndpoint.java:179 | sets the interrupt status |
| `ProfilerEndpoint.Endpoint.ExecuteCommand` | src/main/java/dev/nifties/integration/springframework/boot/actuate/profiler/AsyncProfilerWebEndpoint.java:112-131 | exactly one call, carrying `getCommand(operation, request)`; 200 with the engine's text if and only if it succeeded, otherwise 400 with the exception's message |
| `ProfilerEndpoint.Endpoint.CollectFlameGraph` | src/main/java/dev/nifties/integration/springframework/boot/actuate/profiler/AsyncProfilerWebEndpoint.java:133-155 | a failed temp-file creation gives 500 with no engine call; otherwise one call names the new `.html` path, with `,total` appended when `getParameter("total")` is non-null; success gives 200 wrapping that same path; failure deletes the file and gives 500 with the message |
| `ProfilerEndpoint.Endpoint.WaitThenCollect` | src/main/java/dev/nifties/integration/springframework/boot/actuate/profiler/AsyncProfilerWebEndpoint.java:173-181 | one sleep of the given time, rejected exactly when that time is negative (500, nothing sent, no file touched); a pending interrupt always interrupts it, and an interrupt gives 503, sets the interrupt status again, sends nothing and touches no file; a completed wait gives exactly what `collectFlameGraph("stop", request)` gives |
| `ProfilerEndpoint.Endpoint.ExecuteAndCollectFlamegraph` | src/main/java/dev/nifties/integration/springframework/boot/actuate/profiler/AsyncProfilerWebEndpoint.java:157-182 | with INFO enabled, the first call is `getCommand("start", request)`, and its failure gives 500 with no sleep, no further call and no temporary file; otherwise one sleep of `duration * 1000L` ms, rejected exactly when that is negative (500), interrupted (503, interrupt status set, no stop); on these three paths no file is removed and no temporary name is handed out or completed (the outcome of `collectFlameGraph("stop", request)`); with INFO disabled, no start command is sent at all |
| `ProfilerEndpoint.Endpoint.ExecuteAndCollectFlamegraphAlwaysStarting` | src/main/java/dev/nifties/integration/springframework/boot/actuate/profiler/AsyncProfilerWebEndpoint.java:167-181 | the same outcomes, but the start command is always the first call, so the wait and the stop always follow a start that succeeded |
| `ProfilerEndpoint.TimedStartFailure` | src/main/java/dev/nifties/integration/springframework/boot/actuate/profiler/AsyncProfilerWebEndpoint.java:171-177 | when the start call fails, the timed profile answers 500 without sleeping and without any further call |
| `ProfilerEndpoint.TimedSleepAccepted` | src/main/java/dev/nifties/integration/springframework/boot/actuate/profiler/AsyncProfilerWebEndpoint.java:162-177 | a duration of up to `Long.MAX_VALUE / 1000` seconds is never rejected by the sleep, so a 500 after the sleep comes only from the stop |

## Findings

| source | as written | input that shows it | evidently intended | confidence | as-written member | corrected member |
|---|---|---|---|---|---|---|
| src/main/java/dev/nifties/integration/springframework/boot/actuate/profiler/AsyncProfilerWebEndpoint.java:169-172 | `AsyncProfiler.execute(command)` for `start` sits inside `if (log.isInfoEnabled())`, so the timed profile starts the profiler only when INFO logging is on for this class | any `GET` on the bare endpoint while the class logs at WARN: the thread sleeps, then `stop` is sent to a profiler that was never started | only the two `log.info` lines depend on the log level; `start` is always sent | medium (not executed) | `ProfilerEndpoint.Endpoint.ExecuteAndCollectFlamegraph` (its last ensures: with `infoEnabled` false, no call carries the start command) | `ProfilerEndpoint.Endpoint.ExecuteAndCollectFlamegraphAlwaysStarting` |

## Left out

- TemporaryFileSystemResource (AsyncProfilerWebEndpoint.java:212-273, and the
  top-level TemporaryFileSystemResource.java) is not modelled. It deletes the
  file when the response stream is closed. That is file-stream plumbing over
  Spring's `FileSystemResource`. The model stops at handing out `TempResource(path)`.
- AsyncProfilerAvailableCondition.java, AsyncProfilerConfiguration.java and
  EnableAsyncProfiler.java are not modelled: they are Spring wiring and native
  library probing. The engine is reached through the `Endpoint` object's
  `profiler` field instead of the `AsyncProfiler.getInstance()` singleton.
- The native engine is a command log with nondeterministic replies. What a
  command makes the profiler do is outside the model. The engine is only allowed
  to add files (the output file it is told to write), never to delete them.
- Logging is left out, except for the `isInfoEnabled` test that gates the start
  call. This includes the constructor's version logging (:104-110), the debug
  logging, and `log.info` of the engine's result.
- Temporary file names: the timestamp prefix, the temp directory and
  `getAbsolutePath` are not modelled. A path is any fresh name ending in `.html`.
- Exception messages are nondeterministic strings. `e.getMessage()` returning
  null, which gives a response with a null body, is not modelled.
- Timing: how long `Thread.sleep` actually takes, and the tests' wall-clock
  assertions (test:120, test:137), are not modelled.
- Content types: the source never sets a content type, and the model has none.
- Binding of the `duration` request parameter (:159) is Spring's work: its
  default of 5, and the 400 for a value that is not a `long`, are not modelled.
  The timed profile receives the bound `long` directly.
- CommandTranslation.DecodeGetCommand: the round trip is stated only for
  well-formed requests and an operation without a comma. In well-formed
  requests, parameter names are non-empty and hold no `,` or `=`, and values
  hold no `,`. The source restricts neither the requests nor the operation (a
  path variable), and commands built from other inputs cannot be taken apart
  unambiguously at commas.
- ProfilerEndpoint.DecodeFlameGraphCommand: stated only for an operation and a
  temporary path without commas. The path comes from `java.io.tmpdir`, which the
  source does not keep free of commas; a comma in it would split the `file=`
  argument.
- CommandTranslation.DecodeCommand is a reference reading of the comma syntax,
  not async-profiler's own parser, which is outside this model. That parser may
  treat empty fields differently. In particular, whether it distinguishes the
  trailing comma of `stop,` from `stop` is not modelled.
- CommandTranslation.IsDurationKey: Java's `equalsIgnoreCase` is modelled only
  against the letters of `duration`. Besides ASCII case, that comparison accepts
  U+0130 and U+0131 for `i`, and nothing else. General Unicode case folding is
  not modelled.
- ProfilerEndpoint.CallerThread.Sleep: an interrupt arriving during the wait is
  a nondeterministic choice. Another thread interrupting after the wait is not
  modelled.

- ProfilerEndpoint.FileSystem.Delete: deletion is assumed to succeed. `File.delete`
  reports failure by returning false, and the handler ignores that result
  (:151), so a file it could not delete stays on disk; the model always removes it.
- ProfilerEndpoint.FileSystem.CreateTempFile: the placeholder file that
  `File.createTempFile` creates is assumed to be deleted again. The result of
  that `delete` is ignored too (:207); the model leaves no file behind.
