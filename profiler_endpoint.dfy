/** The request handlers of AsyncProfilerWebEndpoint: plain command execution,
    flame-graph collection into a temporary file, and the timed
    start-wait-stop profile. The native engine, the temporary-file directory and
    the calling thread are objects whose methods record what they are asked to
    do and answer nondeterministically, within what the Java platform promises. */
module ProfilerEndpoint {
  import opened Wrappers
  import opened CommaLists
  import opened CommandTranslation

  // HTTP statuses the endpoint answers with
  const OK: int := 200
  const BAD_REQUEST: int := 400
  const INTERNAL_SERVER_ERROR: int := 500
  const SERVICE_UNAVAILABLE: int := 503

  const STOP: string := "stop"
  /** Suffix of every temporary flame-graph file. */
  const TEMP_SUFFIX: string := ".html"
  /** Message of the `IllegalArgumentException` that `Thread.sleep` throws for a negative time. */
  const NEGATIVE_TIMEOUT: string := "timeout value is negative"

  // ---------------------------------------------------------------------------
  // Java long arithmetic

  const LONG_MIN: int := -0x8000_0000_0000_0000
  const LONG_MAX: int := 0x7fff_ffff_ffff_ffff
  const LONG_RANGE: int := 0x1_0000_0000_0000_0000

  predicate IsLong(x: int)
  {
    LONG_MIN <= x <= LONG_MAX
  }

  /** The `long` that Java's two's-complement arithmetic yields for the exact result `x`. */
  function WrapLong(x: int): (r: int)
    ensures IsLong(r)
    ensures (x - r) % LONG_RANGE == 0
    ensures IsLong(x) ==> r == x
  {
    (x - LONG_MIN) % LONG_RANGE + LONG_MIN
  }

  /** `duration * 1000L`. */
  function DurationMillis(duration: int): int
  {
    WrapLong(duration * 1000)
  }

  // ---------------------------------------------------------------------------
  // Responses and engine calls

  /** Body of a `ResponseEntity`: the engine's or an exception's text, or the
      temporary file wrapped as a resource that deletes it once streamed. */
  datatype Body = Text(text: string) | TempResource(path: string)

  datatype Response = Response(status: int, body: Body)

  /** One invocation of the engine: the command it received and its answer, a
      result text or the message of the `IOException`/`RuntimeException` it threw. */
  datatype Call = Call(command: string, reply: Result<string>)

  function Last<T>(s: seq<T>): T
    requires |s| > 0
  {
    s[|s| - 1]
  }

  predicate EndsWith(s: string, suffix: string)
  {
    |suffix| <= |s| && s[|s| - |suffix|..] == suffix
  }

  /** The command `collectFlameGraph` builds: the operation, the output file, and
      `total` after the file when the request carries that parameter. */
  function FlameGraphCommand(operation: string, path: string, total: bool): string
  {
    operation + "," + ("file=" + path) + (if total then "," + TOTAL else "")
  }

  /** The `file=<path>` field has no comma and reads back as an assignment. */
  lemma FileField(path: string)
    requires ',' !in path
    ensures NoComma("file=" + path)
    ensures ParseArg("file=" + path) == Assign("file", path)
  {
    var file := "file=" + path;
    forall k | 0 <= k < |file| ensures file[k] != ',' {
      if k >= 5 { assert file[k] == path[k - 5]; }
    }
    assert ',' !in file;
    assert ArgText(Assign("file", path)) == file;
    ParseArgText(Assign("file", path));
  }

  /** The `total` field is one field and reads back as a flag. */
  lemma TotalField()
    ensures NoComma(TOTAL) && Split(TOTAL) == [TOTAL]
    ensures ParseArg(TOTAL) == Flag(TOTAL)
  {
    SplitField(TOTAL, "");
    ParseArgText(Flag(TOTAL));
  }

  lemma DecodeFileOnly(operation: string, path: string)
    requires ',' !in operation && ',' !in path
    ensures DecodeCommand(operation + "," + ("file=" + path)) == (operation, [Assign("file", path)])
  {
    var file := "file=" + path;
    FileField(path);
    SplitField(operation, file);
    SplitField(file, "");
    DecodeFields(operation + "," + file, operation, [file], [Assign("file", path)]);
  }

  lemma DecodeFileAndTotal(operation: string, path: string)
    requires ',' !in operation && ',' !in path
    ensures DecodeCommand(operation + "," + ("file=" + path) + ("," + TOTAL))
            == (operation, [Assign("file", path), Flag(TOTAL)])
  {
    var file := "file=" + path;
    FileField(path);
    TotalField();
    var tail := file + "," + TOTAL;
    assert operation + "," + file + ("," + TOTAL) == operation + "," + tail;
    SplitField(operation, tail);
    SplitField(file, TOTAL);
    DecodeFields(operation + "," + tail, operation, [file, TOTAL], [Assign("file", path), Flag(TOTAL)]);
  }

  /** The reference reading of a flame-graph command is the operation, then `file=<path>`,
      then the flag `total` when requested. */
  lemma DecodeFlameGraphCommand(operation: string, path: string, total: bool)
    requires ',' !in operation && ',' !in path
    ensures DecodeCommand(FlameGraphCommand(operation, path, total))
            == (operation, [Assign("file", path)] + (if total then [Flag(TOTAL)] else []))
  {
    if total {
      DecodeFileAndTotal(operation, path);
      assert [Assign("file", path), Flag(TOTAL)] == [Assign("file", path)] + [Flag(TOTAL)];
    } else {
      DecodeFileOnly(operation, path);
      assert operation + "," + ("file=" + path) + "" == operation + "," + ("file=" + path);
      assert [Assign("file", path)] + [] == [Assign("file", path)];
    }
  }

  /** `total` goes after the file; the test suite (line 94) expects it before,
      which this revision never produces. */
  lemma TotalAfterFile(path: string)
    ensures FlameGraphCommand("stop", path, true) == "stop,file=" + path + ",total"
    ensures FlameGraphCommand("stop", path, true) != "stop,total,file=" + path
  {
    var a := FlameGraphCommand("stop", path, true);
    var b := "stop,total,file=" + path;
    if |a| == |b| {
      assert a[5] == 'f' && b[5] == 't';
    }
  }

  /** No command `collectFlameGraph("stop", ...)` sends is a start command. */
  lemma StopIsNotStart(path: string, total: bool, params: ParameterMap)
    ensures FlameGraphCommand(STOP, path, total) != GetCommand(START, params)
  {
    var a := FlameGraphCommand(STOP, path, total);
    var b := GetCommand(START, params);
    assert a[2] == 'o' && b[2] == 'a';
  }

  /** Durations up to `Long.MAX_VALUE / 1000` seconds convert exactly. */
  lemma DurationMillisExact(duration: int)
    requires -(LONG_MAX / 1000) <= duration <= LONG_MAX / 1000
    ensures DurationMillis(duration) == duration * 1000
  {
  }

  /** One second more and `duration * 1000L` wraps to a negative time, which
      `Thread.sleep` rejects. */
  lemma DurationMillisWraps()
    ensures IsLong(LONG_MAX / 1000 + 1)
    ensures DurationMillis(LONG_MAX / 1000 + 1) == -9_223_372_036_854_775_616
    ensures DurationMillis(LONG_MAX / 1000 + 1) < 0
  {
  }

  // ---------------------------------------------------------------------------
  // Dispatch

  /** The handler a `GET` on the endpoint reaches. */
  datatype Route = ToExecuteCommand | ToCollectFlameGraph | ToTimedProfile | NoHandler

  predicate StartsWith(s: string, prefix: string)
  {
    |prefix| <= |s| && s[..|prefix|] == prefix
  }

  /** The mappings' patterns: no path segment reaches the timed profile; a
      segment of exactly `dump` or `stop` reaches `collectFlameGraph`; any other
      non-empty segment reaches `executeCommand` unless it begins with `dump` or
      `stop` (the negative lookahead), in which case no mapping matches. */
  function RouteOf(segment: Option<string>): (r: Route)
    ensures r == ToTimedProfile <==> segment.None?
    ensures r == ToCollectFlameGraph <==> segment == Some("dump") || segment == Some("stop")
    ensures r == ToExecuteCommand ==> !StartsWith(segment.value, "dump") && !StartsWith(segment.value, "stop")
    ensures r == NoHandler <==>
              segment.Some? && (segment.value == []
                                || ((StartsWith(segment.value, "dump") || StartsWith(segment.value, "stop"))
                                    && segment.value != "dump" && segment.value != "stop"))
  {
    match segment
    case None => ToTimedProfile
    case Some(op) =>
      if op == "dump" || op == "stop" then ToCollectFlameGraph
      else if op != [] && !StartsWith(op, "dump") && !StartsWith(op, "stop") then ToExecuteCommand
      else NoHandler
  }

  /** `start` runs as a plain command, while `stopped` or `dumps` reach no handler. */
  lemma RouteExamples()
    ensures RouteOf(Some("start")) == ToExecuteCommand
    ensures RouteOf(Some("status")) == ToExecuteCommand
    ensures RouteOf(Some("stopped")) == NoHandler
    ensures RouteOf(Some("dumps")) == NoHandler
  {
    assert !StartsWith("start", "stop") by { assert "start"[..4][2] != "stop"[2]; }
    assert !StartsWith("status", "stop") by { assert "status"[..4][2] != "stop"[2]; }
    assert "stopped"[..4] == "stop";
    assert "dumps"[..4] == "dump";
  }

  // ---------------------------------------------------------------------------
  // Collaborators

  /** Length bound of a finite set of names, for picking a name outside it. */
  ghost function MaxLength(names: set<string>): (n: nat)
    ensures forall s :: s in names ==> |s| <= n
    decreases names
  {
    if names == {} then 0
    else
      var s :| s in names;
      var m := MaxLength(names - {s});
      if |s| > m then |s| else m
  }

  /** Outside any finite set of taken names there is a name with the temporary suffix. */
  lemma FreshTempName(taken: set<string>)
    ensures exists p :: p !in taken && EndsWith(p, TEMP_SUFFIX)
  {
    var p := seq(MaxLength(taken) + 1, _ => 'x') + TEMP_SUFFIX;
    assert p[|p| - |TEMP_SUFFIX|..] == TEMP_SUFFIX;
    assert EndsWith(p, TEMP_SUFFIX);
  }

  /** The temporary-file directory: the files on disk, and the names
      `createTempFile` has handed out. */
  class FileSystem {
    var present: set<string>
    var temporaries: seq<string>

    constructor (present: set<string>)
      ensures this.present == present && temporaries == []
    {
      this.present := present;
      temporaries := [];
    }

    /** `createTempFile()`: `File.createTempFile` makes a new, uniquely named
        file ending in `.html`, which is deleted again at once, so only the name
        is kept; or it throws an `IOException`. */
    method CreateTempFile() returns (r: Result<string>)
      modifies this
      ensures present == old(present)
      ensures r.Failure? ==> temporaries == old(temporaries)
      ensures r.Success? ==>
                && EndsWith(r.value, TEMP_SUFFIX)
                && r.value !in old(present) && r.value !in old(temporaries)
                && temporaries == old(temporaries) + [r.value]
    {
      var fails: bool :| true;
      if fails {
        var message: string :| true;
        r := Failure(message);
      } else {
        var taken := present + set t | t in temporaries;
        FreshTempName(taken);
        var path: string :| path !in taken && EndsWith(path, TEMP_SUFFIX);
        temporaries := temporaries + [path];
        r := Success(path);
      }
    }

    /** `File.delete()`: afterwards the file is gone, whether or not it existed. */
    method Delete(path: string)
      modifies this
      ensures present == old(present) - {path}
      ensures temporaries == old(temporaries)
    {
      present := present - {path};
    }
  }

  /** The native engine (`AsyncProfiler.getInstance()`), seen from outside: it
      receives command strings and answers each with a text or an exception. */
  class Profiler {
    var calls: seq<Call>
    const files: FileSystem

    constructor (files: FileSystem)
      ensures calls == [] && this.files == files
    {
      calls := [];
      this.files := files;
    }

    /** `execute(command)`: recorded, answered either way; the engine may write
        files (the one a `file=` argument names) but deletes none. */
    method Execute(command: string) returns (reply: Result<string>)
      modifies this, files`present
      ensures calls == old(calls) + [Call(command, reply)]
      ensures old(files.present) <= files.present
    {
      reply :| true;
      var written: set<string> :| true;
      files.present := files.present + written;
      calls := calls + [Call(command, reply)];
    }
  }

  /** What ended a `Thread.sleep`: the full wait, an `InterruptedException`, or
      the `IllegalArgumentException` for a negative time. */
  datatype Wake = Completed | Interrupted(message: string) | Rejected(message: string)

  datatype Nap = Nap(millis: int, wake: Wake)

  /** The thread that serves the request: its interrupt status and its sleeps. */
  class CallerThread {
    var interrupted: bool
    var naps: seq<Nap>

    constructor (interrupted: bool)
      ensures this.interrupted == interrupted && naps == []
    {
      this.interrupted := interrupted;
      naps := [];
    }

    /** `Thread.sleep(millis)`: a negative time is rejected before anything else;
        a pending interrupt, or one that arrives during the wait, ends it with
        `InterruptedException` and clears the interrupt status. */
    method Sleep(millis: int) returns (wake: Wake)
      modifies this
      ensures naps == old(naps) + [Nap(millis, wake)]
      ensures millis < 0 <==> wake.Rejected?
      ensures wake.Rejected? ==> wake.message == NEGATIVE_TIMEOUT && interrupted == old(interrupted)
      ensures millis >= 0 && old(interrupted) ==> wake.Interrupted?
      ensures wake.Interrupted? ==> !interrupted
      ensures wake.Completed? ==> !old(interrupted) && !interrupted
    {
      if millis < 0 {
        wake := Rejected(NEGATIVE_TIMEOUT);
      } else {
        var interruptedDuringWait: bool :| true;
        if interrupted || interruptedDuringWait {
          var message: string :| true;
          wake := Interrupted(message);
          interrupted := false;
        } else {
          wake := Completed;
        }
      }
      naps := naps + [Nap(millis, wake)];
    }

    /** `Thread.currentThread().interrupt()`. */
    method Interrupt()
      modifies this
      ensures interrupted && naps == old(naps)
    {
      interrupted := true;
    }
  }

  // ---------------------------------------------------------------------------
  // What collecting a flame graph does

  /** The effect of `collectFlameGraph(operation, request)` between two states,
      given by the engine's calls, the temporary names handed out and the files
      present before and after, and the response. Either `createTempFile` threw
      (nothing reaches the engine, 500), or one new temporary path is named in
      the one command sent: on success the response wraps that same file (200);
      on failure the file is deleted and the message returned with 500. */
  ghost predicate FlameGraphCollected(operation: string, params: ParameterMap,
                                      calls0: seq<Call>, calls1: seq<Call>,
                                      temps0: seq<string>, temps1: seq<string>,
                                      present0: set<string>, present1: set<string>,
                                      resp: Response)
  {
    if temps1 == temps0 then
      && calls1 == calls0
      && present0 <= present1
      && resp.status == INTERNAL_SERVER_ERROR && resp.body.Text?
    else
      && |temps1| == |temps0| + 1 && temps1[..|temps0|] == temps0
      && |calls1| == |calls0| + 1 && calls1[..|calls0|] == calls0
      && var path := Last(temps1);
      && var call := Last(calls1);
      && EndsWith(path, TEMP_SUFFIX) && path !in temps0 && path !in present0
      && call.command == FlameGraphCommand(operation, path, GetParameter(params, TOTAL).Some?)
      && match call.reply
         case Success(_) =>
           resp == Response(OK, TempResource(path)) && present0 <= present1
         case Failure(message) =>
           && resp == Response(INTERNAL_SERVER_ERROR, Text(message))
           && path !in present1 && present0 - {path} <= present1
  }

  // ---------------------------------------------------------------------------
  // The endpoint

  class Endpoint {
    const profiler: Profiler
    const files: FileSystem
    const thread: CallerThread

    ghost predicate Valid()
      reads this, profiler
    {
      profiler.files == files
    }

    constructor (profiler: Profiler, thread: CallerThread)
      ensures this.profiler == profiler && files == profiler.files && this.thread == thread
      ensures Valid()
    {
      this.profiler := profiler;
      files := profiler.files;
      this.thread := thread;
    }

    /** `executeCommand(operation, request)`: exactly `getCommand(operation,
        request)` goes to the engine; its text comes back with 200, its
        exception's message with 400. A null operation is not rejected: it
        reads "null". */
    method ExecuteCommand(operation: Option<string>, params: ParameterMap) returns (resp: Response)
      requires Valid()
      modifies profiler, files`present
      ensures |profiler.calls| == |old(profiler.calls)| + 1
      ensures profiler.calls[..|old(profiler.calls)|] == old(profiler.calls)
      ensures Last(profiler.calls).command == GetCommand(JavaString(operation), params)
      ensures resp.status == OK <==> Last(profiler.calls).reply.Success?
      ensures Last(profiler.calls).reply.Success? ==> resp.body == Text(Last(profiler.calls).reply.value)
      ensures Last(profiler.calls).reply.Failure? ==>
                resp == Response(BAD_REQUEST, Text(Last(profiler.calls).reply.error))
      ensures old(files.present) <= files.present
    {
      var command := GetCommand(JavaString(operation), params);
      var reply := profiler.Execute(command);
      match reply
      case Success(result) =>
        resp := Response(OK, Text(result));
      case Failure(message) =>
        resp := Response(BAD_REQUEST, Text(message));
    }

    /** `collectFlameGraph(operation, request)`. */
    method CollectFlameGraph(operation: string, params: ParameterMap) returns (resp: Response)
      requires Valid()
      modifies profiler, files
      ensures FlameGraphCollected(operation, params, old(profiler.calls), profiler.calls,
                                  old(files.temporaries), files.temporaries,
                                  old(files.present), files.present, resp)
      ensures files.temporaries == old(files.temporaries) ==> files.present == old(files.present)
    {
      var created := files.CreateTempFile();
      match created
      case Failure(message) =>
        resp := Response(INTERNAL_SERVER_ERROR, Text(message));
      case Success(path) =>
        var command := operation + "," + ("file=" + path);
        if GetParameter(params, TOTAL).Some? {
          command := command + "," + TOTAL;
        }
        var reply := profiler.Execute(command);
        match reply
        case Success(_) =>
          resp := Response(OK, TempResource(path));
        case Failure(message) =>
          files.Delete(path);
          resp := Response(INTERNAL_SERVER_ERROR, Text(message));
    }

    /** The effect of a timed profile for `duration` seconds: when `startIssued`,
        the start command built by `getCommand("start", request)` is the first
        call, and its failure ends the request with 500 before any wait.
        Otherwise the thread sleeps `duration * 1000L` milliseconds: a negative
        time gives 500, an interrupt gives 503 with the interrupt status set
        again and no further command; a completed wait gives what
        `collectFlameGraph("stop", request)` gives. */
    twostate predicate TimedProfileDone(startIssued: bool, duration: int, params: ParameterMap, resp: Response)
      reads this, profiler, files, thread
    {
      var c0 := old(profiler.calls);
      var n0 := |c0|;
      var calls := profiler.calls;
      && (startIssued ==> |calls| > n0 && calls[n0].command == GetCommand(START, params))
      && var afterStart := if startIssued then c0 + [calls[n0]] else c0;
      && old(files.present) <= files.present + (set t | t in files.temporaries)
      && if startIssued && calls[n0].reply.Failure? then
           && resp == Response(INTERNAL_SERVER_ERROR, Text(calls[n0].reply.error))
           && calls == afterStart
           && files.temporaries == old(files.temporaries) && old(files.present) <= files.present
           && thread.naps == old(thread.naps) && thread.interrupted == old(thread.interrupted)
         else
           && |thread.naps| == |old(thread.naps)| + 1
           && thread.naps[..|old(thread.naps)|] == old(thread.naps)
           && Last(thread.naps).millis == DurationMillis(duration)
           && (Last(thread.naps).wake.Rejected? <==> DurationMillis(duration) < 0)
           && (DurationMillis(duration) >= 0 && old(thread.interrupted) ==> Last(thread.naps).wake.Interrupted?)
           && match Last(thread.naps).wake
              case Rejected(message) =>
                && resp == Response(INTERNAL_SERVER_ERROR, Text(message))
                && calls == afterStart && files.temporaries == old(files.temporaries)
                && old(files.present) <= files.present
                && thread.interrupted == old(thread.interrupted)
              case Interrupted(message) =>
                && resp == Response(SERVICE_UNAVAILABLE, Text(message))
                && calls == afterStart && files.temporaries == old(files.temporaries)
                && old(files.present) <= files.present
                && thread.interrupted
              case Completed =>
                && !thread.interrupted
                && FlameGraphCollected(STOP, params, afterStart, calls,
                                       old(files.temporaries), files.temporaries,
                                       old(files.present), files.present, resp)
    }

    /** `executeAndCollectFlamegraph(duration, request)`, with the logger's INFO
        level as `infoEnabled`: the start command is executed only inside the
        `isInfoEnabled()` branch. */
    method ExecuteAndCollectFlamegraph(duration: int, params: ParameterMap, infoEnabled: bool)
      returns (resp: Response)
      requires Valid()
      requires IsLong(duration)
      modifies profiler, files, thread
      ensures TimedProfileDone(infoEnabled, duration, params, resp)
      ensures !infoEnabled ==>
                forall i :: |old(profiler.calls)| <= i < |profiler.calls| ==>
                  profiler.calls[i].command != GetCommand(START, params)
    {
      var durationMillis := DurationMillis(duration);
      var command := GetCommand(START, params);
      if infoEnabled {
        var reply := profiler.Execute(command);
        if reply.Failure? {
          resp := Response(INTERNAL_SERVER_ERROR, Text(reply.error));
          return;
        }
      }
      resp := WaitThenCollect(durationMillis, params);
      if !infoEnabled && |profiler.calls| > |old(profiler.calls)| {
        StopIsNotStart(Last(files.temporaries), GetParameter(params, TOTAL).Some?, params);
      }
    }

    /** The timed profile as evidently intended: the start command is executed
        whatever the log level. */
    method ExecuteAndCollectFlamegraphAlwaysStarting(duration: int, params: ParameterMap)
      returns (resp: Response)
      requires Valid()
      requires IsLong(duration)
      modifies profiler, files, thread
      ensures TimedProfileDone(true, duration, params, resp)
    {
      var durationMillis := DurationMillis(duration);
      var command := GetCommand(START, params);
      var reply := profiler.Execute(command);
      if reply.Failure? {
        resp := Response(INTERNAL_SERVER_ERROR, Text(reply.error));
        return;
      }
      resp := WaitThenCollect(durationMillis, params);
    }

    /** `Thread.sleep(durationMillis)` and what follows it in the handler. */
    method WaitThenCollect(durationMillis: int, params: ParameterMap) returns (resp: Response)
      requires Valid()
      modifies profiler, files, thread
      ensures |thread.naps| == |old(thread.naps)| + 1
      ensures thread.naps[..|old(thread.naps)|] == old(thread.naps)
      ensures Last(thread.naps).millis == durationMillis
      ensures Last(thread.naps).wake.Rejected? <==> durationMillis < 0
      ensures durationMillis >= 0 && old(thread.interrupted) ==> Last(thread.naps).wake.Interrupted?
      ensures old(files.present) <= files.present + (set t | t in files.temporaries)
      ensures match Last(thread.naps).wake
              case Rejected(message) =>
                && resp == Response(INTERNAL_SERVER_ERROR, Text(message))
                && profiler.calls == old(profiler.calls) && files.temporaries == old(files.temporaries)
                && files.present == old(files.present)
                && thread.interrupted == old(thread.interrupted)
              case Interrupted(message) =>
                && resp == Response(SERVICE_UNAVAILABLE, Text(message))
                && profiler.calls == old(profiler.calls) && files.temporaries == old(files.temporaries)
                && files.present == old(files.present)
                && thread.interrupted
              case Completed =>
                && !thread.interrupted
                && FlameGraphCollected(STOP, params, old(profiler.calls), profiler.calls,
                                       old(files.temporaries), files.temporaries,
                                       old(files.present), files.present, resp)
    {
      var wake := thread.Sleep(durationMillis);
      match wake
      case Rejected(message) =>
        resp := Response(INTERNAL_SERVER_ERROR, Text(message));
      case Interrupted(message) =>
        thread.Interrupt();
        resp := Response(SERVICE_UNAVAILABLE, Text(message));
      case Completed =>
        resp := CollectFlameGraph(STOP, params);
    }
  }

  /** A failed start ends the timed profile with 500, before any sleep. */
  twostate lemma TimedStartFailure(e: Endpoint, duration: int, params: ParameterMap, resp: Response)
    requires e.TimedProfileDone(true, duration, params, resp)
    requires e.profiler.calls[|old(e.profiler.calls)|].reply.Failure?
    ensures resp.status == INTERNAL_SERVER_ERROR
    ensures e.thread.naps == old(e.thread.naps)
    ensures |e.profiler.calls| == |old(e.profiler.calls)| + 1
  {
  }

  /** A duration that fits `duration * 1000L` is never rejected by the sleep. */
  twostate lemma TimedSleepAccepted(e: Endpoint, startIssued: bool, duration: int, params: ParameterMap, resp: Response)
    requires e.TimedProfileDone(startIssued, duration, params, resp)
    requires 0 <= duration <= LONG_MAX / 1000
    requires |e.thread.naps| > |old(e.thread.naps)|
    ensures !Last(e.thread.naps).wake.Rejected?
    ensures resp.status != INTERNAL_SERVER_ERROR || Last(e.thread.naps).wake.Completed?
  {
    DurationMillisExact(duration);
  }
}
