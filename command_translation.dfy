/** Translation of an HTTP request into an async-profiler command string
    (`getCommand` and `parseParameter` of AsyncProfilerWebEndpoint), together with
    an independent reference reading of the command's comma syntax: the
    operation, then one argument per comma-separated field. */
module CommandTranslation {
  import opened Wrappers
  import opened CommaLists

  /** `String[]` of a request parameter: the array may be null, and so may each element. */
  type Values = Option<seq<Option<string>>>

  /** One entry of `request.getParameterMap()`. */
  datatype Parameter = Parameter(key: string, values: Values)

  /** `request.getParameterMap()`, in its iteration order. */
  type ParameterMap = seq<Parameter>

  const START: string := "start"
  const DEFAULT_EVENT: string := "event=cpu"

  /** String conversion of a possibly-null reference inside Java concatenation. */
  function JavaString(s: Option<string>): string
  {
    match s
    case None => "null"
    case Some(t) => t
  }

  // ---------------------------------------------------------------------------
  // Reserved keys

  function UpperAscii(c: char): char
    requires 'a' <= c <= 'z'
  {
    (c as int - 32) as char
  }

  /** Whether `String.equalsIgnoreCase` accepts `c` at a position where the other
      string holds the ASCII lower-case letter `lower`: the letter itself, its
      upper-case form, and for 'i' also U+0130 and U+0131, whose upper-case and
      lower-case conversions meet those of 'i'. */
  predicate MatchesIgnoringCase(c: char, lower: char)
    requires 'a' <= lower <= 'z'
  {
    c == lower || c == UpperAscii(lower)
    || (lower == 'i' && (c == '\U{0130}' || c == '\U{0131}'))
  }

  /** `"duration".equalsIgnoreCase(key)`. */
  predicate IsDurationKey(key: string)
  {
    |key| == |"duration"|
    && forall i :: 0 <= i < |key| ==> MatchesIgnoringCase(key[i], "duration"[i])
  }

  /** The request parameter, and engine flag, for a flame graph of total counts. */
  const TOTAL: string := "total"

  /** The keys `getCommand` drops: `duration` in any case, `total` exactly. */
  predicate IsReserved(key: string)
  {
    IsDurationKey(key) || key == TOTAL
  }

  // ---------------------------------------------------------------------------
  // getCommand and parseParameter, as the source computes them

  /** The two `filter` steps of `getCommand`. */
  function Forwarded(params: ParameterMap): ParameterMap
  {
    if params == [] then []
    else (if IsReserved(params[0].key) then [] else [params[0]]) + Forwarded(params[1..])
  }

  /** The first branch of `parseParameter`: no array, an empty one, or a single
      null or empty value. */
  predicate IsFlag(values: Values)
  {
    match values
    case None => true
    case Some(vs) => |vs| == 0 || (|vs| == 1 && (vs[0].None? || vs[0].value == ""))
  }

  /** `key + "=" + v` for each value, in order. */
  function Assignments(key: string, vs: seq<Option<string>>): seq<string>
  {
    seq(|vs|, i requires 0 <= i < |vs| => key + "=" + JavaString(vs[i]))
  }

  /** `parseParameter(key, values)`. */
  function ParseParameter(key: string, values: Values): string
  {
    if IsFlag(values) then key else JoinComma(Assignments(key, values.value))
  }

  /** The `map(parseParameter)` step. */
  function Rendered(params: ParameterMap): seq<string>
  {
    seq(|params|, i requires 0 <= i < |params| => ParseParameter(params[i].key, params[i].values))
  }

  /** `getCommand(operation, request)`. */
  function GetCommand(operation: string, params: ParameterMap): string
  {
    var parameters := JoinComma(Rendered(Forwarded(params)));
    operation + "," + (if operation == START && parameters == "" then DEFAULT_EVENT else parameters)
  }

  /** `request.getParameter(name)`: the first value of the entry named exactly
      `name`, or null when there is no such entry or it has no value. */
  function GetParameter(params: ParameterMap, name: string): Option<string>
  {
    if params == [] then None
    else if params[0].key == name then
      (match params[0].values
       case Some(vs) => if |vs| > 0 then vs[0] else None
       case None => None)
    else GetParameter(params[1..], name)
  }

  // ---------------------------------------------------------------------------
  // A reference reading of the command's comma syntax

  /** One comma-separated field of a command after the operation: a bare flag or
      `name=value`. */
  datatype Arg = Flag(name: string) | Assign(name: string, value: string)

  function ArgText(a: Arg): string
  {
    match a
    case Flag(n) => n
    case Assign(n, v) => n + "=" + v
  }

  function ArgTexts(args: seq<Arg>): seq<string>
  {
    seq(|args|, i requires 0 <= i < |args| => ArgText(args[i]))
  }

  function IndexOf(s: string, c: char): (i: nat)
    requires c in s
    ensures i < |s| && s[i] == c && c !in s[..i]
  {
    if s[0] == c then 0
    else
      assert c in s[1..] by { var k :| 0 <= k < |s| && s[k] == c; assert s[1..][k - 1] == c; }
      var j := IndexOf(s[1..], c);
      assert s[..j + 1] == [s[0]] + s[1..][..j];
      j + 1
  }

  /** A field split at its first '='. */
  function ParseArg(field: string): Arg
  {
    if '=' in field then
      var i := IndexOf(field, '=');
      Assign(field[..i], field[i + 1..])
    else Flag(field)
  }

  /** The operation and the arguments of a command; the operation is the text
      before the first comma. */
  function DecodeCommand(command: string): (string, seq<Arg>)
  {
    var fields := Split(command);
    (fields[0], ParseArgs(fields[1..]))
  }

  function ParseArgs(fields: seq<string>): seq<Arg>
  {
    seq(|fields|, i requires 0 <= i < |fields| => ParseArg(fields[i]))
  }

  /** The arguments one parameter contributes: a flag, or one assignment per value
      (a null element reads as the text "null"). */
  function ParameterArgs(p: Parameter): (args: seq<Arg>)
    ensures |args| >= 1
  {
    if IsFlag(p.values) then [Flag(p.key)]
    else
      var vs := p.values.value;
      seq(|vs|, i requires 0 <= i < |vs| => Assign(p.key, JavaString(vs[i])))
  }

  /** Reference reading of a request: the arguments of every non-reserved
      parameter, in the request's order. */
  function RequestArgs(params: ParameterMap): seq<Arg>
  {
    if params == [] then []
    else (if IsReserved(params[0].key) then [] else ParameterArgs(params[0])) + RequestArgs(params[1..])
  }

  /** The fields after the operation, in the reference reading: the request's
      arguments; for a request without any, `event=cpu` on `start` and one empty
      field (the trailing comma) on any other operation. */
  function CommandArgs(operation: string, params: ParameterMap): seq<Arg>
  {
    var args := RequestArgs(params);
    if args != [] then args
    else if operation == START then [Assign("event", "cpu")]
    else [Flag("")]
  }

  /** Requests whose parameter names and values survive the comma/'=' syntax:
      non-empty names without ',' or '=', values without ','. */
  ghost predicate WellFormed(params: ParameterMap)
  {
    forall p :: p in params ==>
      && p.key != [] && ',' !in p.key && '=' !in p.key
      && (p.values.Some? ==> forall v :: v in p.values.value ==> ',' !in JavaString(v))
  }

  // ---------------------------------------------------------------------------
  // Properties

  /** Filtering distributes over concatenation, so the kept entries keep their order. */
  lemma {:induction false} ForwardedAppend(a: ParameterMap, b: ParameterMap)
    ensures Forwarded(a + b) == Forwarded(a) + Forwarded(b)
  {
    if a == [] {
      assert a + b == b;
    } else {
      assert (a + b)[0] == a[0];
      assert (a + b)[1..] == a[1..] + b;
      ForwardedAppend(a[1..], b);
    }
  }

  /** Exactly the non-reserved entries are kept. */
  lemma {:induction false} ForwardedMembers(params: ParameterMap, p: Parameter)
    ensures p in Forwarded(params) <==> p in params && !IsReserved(p.key)
  {
    if params != [] {
      ForwardedMembers(params[1..], p);
      assert params == [params[0]] + params[1..];
    }
  }

  /** A request without reserved keys is forwarded whole. */
  lemma {:induction false} ForwardedAll(params: ParameterMap)
    requires forall p :: p in params ==> !IsReserved(p.key)
    ensures Forwarded(params) == params
  {
    if params != [] {
      assert params[0] in params;
      assert forall p :: p in params[1..] ==> p in params;
      ForwardedAll(params[1..]);
    }
  }

  /** Like the filter, the argument reading distributes over concatenation. */
  lemma {:induction false} RequestArgsAppend(a: ParameterMap, b: ParameterMap)
    ensures RequestArgs(a + b) == RequestArgs(a) + RequestArgs(b)
  {
    if a == [] {
      assert a + b == b;
    } else {
      assert (a + b)[0] == a[0];
      assert (a + b)[1..] == a[1..] + b;
      RequestArgsAppend(a[1..], b);
    }
  }

  /** Every argument the command carries comes from a non-reserved parameter of
      the same name. */
  lemma {:induction false} RequestArgsFromParameters(params: ParameterMap, a: Arg)
    requires a in RequestArgs(params)
    ensures exists p :: p in params && p.key == a.name && !IsReserved(p.key)
  {
    if params != [] {
      var head := if IsReserved(params[0].key) then [] else ParameterArgs(params[0]);
      if a in head {
        assert params[0] in params;
      } else {
        RequestArgsFromParameters(params[1..], a);
        var p :| p in params[1..] && p.key == a.name && !IsReserved(p.key);
        assert p in params;
      }
    }
  }

  /** Neither reserved key is ever an argument name in the command. */
  lemma ReservedNeverForwarded(params: ParameterMap, a: Arg)
    requires a in RequestArgs(params)
    ensures !IsDurationKey(a.name) && a.name != TOTAL
  {
    RequestArgsFromParameters(params, a);
  }

  /** `parseParameter` renders exactly the parameter's arguments, comma-joined. */
  lemma ParseParameterArgs(p: Parameter)
    ensures ParseParameter(p.key, p.values) == JoinComma(ArgTexts(ParameterArgs(p)))
  {
    if !IsFlag(p.values) {
      assert ArgTexts(ParameterArgs(p)) == Assignments(p.key, p.values.value);
    }
  }

  lemma RenderedCons(p: Parameter, tail: ParameterMap)
    ensures Rendered([p] + tail) == [ParseParameter(p.key, p.values)] + Rendered(tail)
  {
    var ps := [p] + tail;
    assert forall i :: 1 <= i < |ps| ==> ps[i] == tail[i - 1];
  }

  lemma ArgTextsAppend(a: seq<Arg>, b: seq<Arg>)
    ensures ArgTexts(a + b) == ArgTexts(a) + ArgTexts(b)
  {
  }

  /** Nothing is forwarded exactly when the request yields no argument. */
  lemma {:induction false} NothingForwarded(params: ParameterMap)
    ensures Forwarded(params) == [] <==> RequestArgs(params) == []
  {
    if params != [] {
      NothingForwarded(params[1..]);
    }
  }

  /** The joined parameter string of `getCommand` is the joined text of the
      request's arguments. */
  lemma {:induction false} RenderedArgs(params: ParameterMap)
    ensures JoinComma(Rendered(Forwarded(params))) == JoinComma(ArgTexts(RequestArgs(params)))
  {
    if params != [] {
      RenderedArgs(params[1..]);
      var p := params[0];
      var tail := Forwarded(params[1..]);
      var rest := RequestArgs(params[1..]);
      if IsReserved(p.key) {
        assert Forwarded(params) == tail;
        assert RequestArgs(params) == rest;
      } else {
        var own := ParameterArgs(p);
        assert Forwarded(params) == [p] + tail;
        assert RequestArgs(params) == own + rest;
        ParseParameterArgs(p);
        RenderedCons(p, tail);
        ArgTextsAppend(own, rest);
        NothingForwarded(params[1..]);
        if tail != [] {
          JoinAppend(ArgTexts(own), ArgTexts(rest));
          assert JoinComma([ParseParameter(p.key, p.values)] + Rendered(tail))
              == ParseParameter(p.key, p.values) + "," + JoinComma(Rendered(tail));
        } else {
          assert Rendered(tail) == [];
          assert ArgTexts(own) + ArgTexts(rest) == ArgTexts(own);
          assert [ParseParameter(p.key, p.values)] + Rendered(tail) == [ParseParameter(p.key, p.values)];
        }
      }
    }
  }

  /** `IndexOf` finds the first occurrence and no other. */
  lemma {:induction false} IndexOfFirst(s: string, c: char, k: nat)
    requires k < |s| && s[k] == c && c !in s[..k]
    ensures IndexOf(s, c) == k
  {
    if k > 0 {
      assert s[0] == s[..k][0];
      assert s[1..][k - 1] == c;
      assert s[1..][..k - 1] == s[..k][1..];
      IndexOfFirst(s[1..], c, k - 1);
    }
  }

  /** A field that names its argument without '=' reads back as that argument. */
  lemma ParseArgText(a: Arg)
    requires '=' !in a.name
    ensures ParseArg(ArgText(a)) == a
  {
    var t := ArgText(a);
    if a.Assign? {
      var n := |a.name|;
      assert t[..n] == a.name;
      assert t[n] == '=';
      IndexOfFirst(t, '=', n);
      assert t[n + 1..] == a.value;
    }
  }

  lemma {:induction false} WellFormedArgs(params: ParameterMap, a: Arg)
    requires WellFormed(params)
    requires a in RequestArgs(params)
    ensures a.name != [] && ',' !in a.name && '=' !in a.name
    ensures ',' !in ArgText(a)
  {
    RequestArgsFromParameters(params, a);
    if params != [] {
      var head := if IsReserved(params[0].key) then [] else ParameterArgs(params[0]);
      if a in head {
        var p := params[0];
        assert p in params;
        if a.Assign? {
          var vs := p.values.value;
          var i :| 0 <= i < |vs| && head[i] == a;
          assert vs[i] in vs;
          var t := ArgText(a);
          forall k | 0 <= k < |t| ensures t[k] != ',' {
            if k < |a.name| { assert t[k] == a.name[k]; }
            else if k > |a.name| { assert t[k] == a.value[k - |a.name| - 1]; }
          }
        }
      } else {
        assert forall q :: q in params[1..] ==> q in params;
        WellFormedArgs(params[1..], a);
      }
    }
  }

  /** Each field of a joined argument list reads back as its argument. */
  lemma ParseArgTexts(args: seq<Arg>)
    requires forall a :: a in args ==> '=' !in a.name
    ensures forall i :: 0 <= i < |args| ==> ParseArg(ArgTexts(args)[i]) == args[i]
  {
    forall i | 0 <= i < |args| ensures ParseArg(ArgTexts(args)[i]) == args[i] {
      assert args[i] in args;
      ParseArgText(args[i]);
    }
  }

  /** Splitting a comma-joined list of arguments after an operation. */
  lemma SplitJoined(operation: string, args: seq<Arg>)
    requires ',' !in operation
    requires |args| >= 1
    requires forall a :: a in args ==> a.name != [] && ',' !in ArgText(a)
    ensures JoinComma(ArgTexts(args)) != ""
    ensures Split(operation + "," + JoinComma(ArgTexts(args))) == [operation] + ArgTexts(args)
  {
    var texts := ArgTexts(args);
    forall i | 0 <= i < |texts| ensures NoComma(texts[i]) {
      assert args[i] in args;
    }
    if |texts| == 1 {
      assert args[0] in args;
      assert |ArgText(args[0])| >= |args[0].name| > 0;
    } else {
      JoinHasComma(texts);
    }
    SplitJoin(texts);
    SplitField(operation, JoinComma(texts));
  }

  /** A command whose fields are the operation and then one text per argument,
      each reading back as that argument, decodes to the operation and `args`. */
  lemma DecodeFields(command: string, operation: string, texts: seq<string>, args: seq<Arg>)
    requires Split(command) == [operation] + texts
    requires |texts| == |args|
    requires forall i :: 0 <= i < |args| ==> ParseArg(texts[i]) == args[i]
    ensures DecodeCommand(command) == (operation, args)
  {
    assert Split(command)[1..] == texts;
    assert ParseArgs(texts) == args;
  }

  /** Decoding a comma-joined list of arguments after an operation. */
  lemma DecodeJoined(operation: string, args: seq<Arg>)
    requires ',' !in operation
    requires |args| >= 1
    requires forall a :: a in args ==> a.name != [] && '=' !in a.name && ',' !in ArgText(a)
    ensures JoinComma(ArgTexts(args)) != ""
    ensures DecodeCommand(operation + "," + JoinComma(ArgTexts(args))) == (operation, args)
  {
    SplitJoined(operation, args);
    ParseArgTexts(args);
    DecodeFields(operation + "," + JoinComma(ArgTexts(args)), operation, ArgTexts(args), args);
  }

  /** Decoding an operation followed by one comma-free argument. */
  lemma DecodeSingle(operation: string, arg: Arg)
    requires ',' !in operation && ',' !in ArgText(arg) && '=' !in arg.name
    ensures DecodeCommand(operation + "," + ArgText(arg)) == (operation, [arg])
  {
    var tail := ArgText(arg);
    SplitField(operation, tail);
    SplitField(tail, "");
    ParseArgText(arg);
    DecodeFields(operation + "," + tail, operation, [tail], [arg]);
  }

  /** Round trip: the reference reading, splitting the command at commas and
      each field at its first '=', recovers the operation and the arguments of every
      non-reserved parameter in the request's order; a request with none yields
      `event=cpu` on `start` and a single empty field otherwise. */
  lemma DecodeGetCommand(operation: string, params: ParameterMap)
    requires ',' !in operation
    requires WellFormed(params)
    ensures DecodeCommand(GetCommand(operation, params)) == (operation, CommandArgs(operation, params))
  {
    RenderedArgs(params);
    var args := RequestArgs(params);
    if args == [] {
      var arg := if operation == START then Assign("event", "cpu") else Flag("");
      assert ArgText(arg) == if operation == START then DEFAULT_EVENT else "";
      DecodeSingle(operation, arg);
    } else {
      forall a | a in args ensures a.name != [] && '=' !in a.name && ',' !in ArgText(a) {
        WellFormedArgs(params, a);
      }
      DecodeJoined(operation, args);
    }
  }

  /** The operation always leads the command, followed by a comma. */
  lemma CommandStartsWithOperation(operation: string, params: ParameterMap)
    ensures |GetCommand(operation, params)| > |operation|
    ensures GetCommand(operation, params)[..|operation| + 1] == operation + ","
  {
  }

  /** A `start` command never goes out with an empty parameter part. */
  lemma StartHasParameters(params: ParameterMap)
    ensures |GetCommand(START, params)| > |START| + 1
  {
  }

  /** With nothing forwarded, `start` gets `event=cpu` and any other operation
      ends in a bare comma (the case with arguments is `DecodeGetCommand`). */
  lemma {:induction false} EmptyParameterDefault(operation: string, params: ParameterMap)
    requires RequestArgs(params) == []
    ensures GetCommand(operation, params) == operation + "," + (if operation == START then DEFAULT_EVENT else "")
  {
    RenderedArgs(params);
  }

  /** `duration` is dropped in any ASCII case; `total` only when spelled exactly. */
  lemma ReservedKeys()
    ensures IsReserved("duration") && IsReserved("Duration") && IsReserved("DURATION")
    ensures IsReserved("DURAT\U{0131}ON")
    ensures IsReserved("total") && !IsReserved("Total") && !IsReserved("TOTAL")
  {
    assert MatchesIgnoringCase('\U{0131}', 'i');
  }

  function LowerAscii(s: string): string
  {
    seq(|s|, i requires 0 <= i < |s| => if 'A' <= s[i] <= 'Z' then (s[i] as int + 32) as char else s[i])
  }

  /** On ASCII keys, the `duration` test is exactly "lower-cases to duration". */
  lemma DurationKeyAscii(key: string)
    requires forall i :: 0 <= i < |key| ==> key[i] < 128 as char
    ensures IsDurationKey(key) <==> LowerAscii(key) == "duration"
  {
    if LowerAscii(key) == "duration" {
      forall i | 0 <= i < |key| ensures MatchesIgnoringCase(key[i], "duration"[i]) {
        assert LowerAscii(key)[i] == "duration"[i];
      }
    }
    if IsDurationKey(key) {
      forall i | 0 <= i < |key| ensures LowerAscii(key)[i] == "duration"[i] {
        assert MatchesIgnoringCase(key[i], "duration"[i]);
      }
    }
  }

  /** `getParameter` finds a value only under a parameter of exactly that name. */
  lemma {:induction false} GetParameterFound(params: ParameterMap, name: string)
    requires GetParameter(params, name).Some?
    ensures exists p :: p in params && p.key == name && p.values.Some?
                        && |p.values.value| > 0 && p.values.value[0] == GetParameter(params, name)
  {
    if params[0].key != name {
      GetParameterFound(params[1..], name);
      var p :| p in params[1..] && p.key == name && p.values.Some?
                && |p.values.value| > 0 && p.values.value[0] == GetParameter(params, name);
      assert p in params;
    } else {
      assert params[0] in params;
    }
  }

  /** `getParameter` answers from the first parameter of exactly that name: its
      first value when its array is non-empty, and null otherwise. */
  lemma {:induction false} GetParameterFirst(params: ParameterMap, name: string, i: nat)
    requires i < |params| && params[i].key == name
    requires forall j :: 0 <= j < i ==> params[j].key != name
    ensures params[i].values.Some? && |params[i].values.value| > 0 ==>
              GetParameter(params, name) == params[i].values.value[0]
    ensures params[i].values.None? || |params[i].values.value| == 0 ==>
              GetParameter(params, name).None?
  {
    if i > 0 {
      assert params[0].key != name;
      GetParameterFirst(params[1..], name, i - 1);
    }
  }

  /** A name that no parameter carries reads as null. */
  lemma {:induction false} GetParameterMissing(params: ParameterMap, name: string)
    requires forall j :: 0 <= j < |params| ==> params[j].key != name
    ensures GetParameter(params, name).None?
  {
    if params != [] {
      assert params[0].key != name;
      GetParameterMissing(params[1..], name);
    }
  }
}
