/** Concrete translations, including the requests of the endpoint's test suite.
    The suite targets a later revision of the endpoint: where its expectation
    differs from what this revision computes, the lemma states this revision's
    result and the comment names the difference. Commands of several fields are
    written as the comma-joined list of their fields, so that
    `JoinComma(["start", "alloc=100k", "threads"])` is the text
    `start,alloc=100k,threads`. */
module CommandExamples {
  import opened Wrappers
  import opened CommaLists
  import opened CommandTranslation

  function Single(key: string, value: string): Parameter
  {
    Parameter(key, Some([Some(value)]))
  }

  /** A single non-empty value renders as `key=value`, an empty one as the bare key. */
  lemma RenderSingle(key: string, value: string)
    ensures ParseParameter(key, Some([Some(value)])) == if value == "" then key else key + "=" + value
  {
    if value != "" {
      assert Assignments(key, [Some(value)]) == [key + "=" + value];
    }
  }

  /** A key that differs from "duration" in its first letter and is not "total" is forwarded. */
  lemma NotReserved(key: string)
    requires key != [] && key[0] != 'd' && key[0] != 'D' && key != "total"
    ensures !IsReserved(key)
  {
    assert !MatchesIgnoringCase(key[0], "duration"[0]);
  }

  /** A request whose forwarded parameters render to `fields`, the first of
      them non-empty, gives the operation and those fields, comma-joined. */
  lemma CommandFields(operation: string, params: ParameterMap, fields: seq<string>)
    requires Rendered(Forwarded(params)) == fields
    requires |fields| >= 1 && fields[0] != ""
    ensures GetCommand(operation, params) == JoinComma([operation] + fields)
  {
    assert ([operation] + fields)[1..] == fields;
    assert JoinComma(fields) != "" by {
      if |fields| > 1 {
        JoinHasComma(fields);
      }
    }
  }

  /** An empty `start` gets the default CPU event (test lines 46 and 123). */
  lemma StartWithoutParameters()
    ensures GetCommand("start", []) == "start,event=cpu"
  {
  }

  /** An empty `stop` ends in a bare comma; the test suite (line 51) expects
      "stop", which this revision does not produce. */
  lemma StopWithoutParameters()
    ensures GetCommand("stop", []) == "stop,"
    ensures GetCommand("stop", []) != "stop"
  {
  }

  /** An explicit event replaces the default (test line 141). */
  lemma StartWallEvent()
    ensures GetCommand("start", [Single("event", "wall")]) == JoinComma(["start", "event=wall"])
  {
    var ps := [Single("event", "wall")];
    NotReserved("event");
    ForwardedAll(ps);
    RenderSingle("event", "wall");
    assert Rendered(ps)[0] == "event=wall";
    assert Rendered(ps) == ["event=wall"];
    CommandFields("start", ps, ["event=wall"]);
  }

  /** A value renders as `key=value`, an empty value as the bare key (test line 181). */
  lemma StartAllocAndThreads()
    ensures GetCommand("start", [Single("alloc", "100k"), Single("threads", "")])
            == JoinComma(["start", "alloc=100k", "threads"])
  {
    var ps := [Single("alloc", "100k"), Single("threads", "")];
    NotReserved("alloc");
    NotReserved("threads");
    ForwardedAll(ps);
    RenderSingle("alloc", "100k");
    RenderSingle("threads", "");
    var r := Rendered(ps);
    assert r[0] == "alloc=100k" && r[1] == "threads";
    assert r == ["alloc=100k", "threads"];
    CommandFields("start", ps, r);
    assert ["start"] + r == ["start", "alloc=100k", "threads"];
  }

  function CtimerRequest(): ParameterMap
  {
    [Single("event", "ctimer"), Single("interval", "999us"), Single("threads", "")]
  }

  lemma CtimerForwarded()
    ensures Forwarded(CtimerRequest() + [Single("total", "")]) == CtimerRequest()
  {
    NotReserved("event");
    NotReserved("interval");
    NotReserved("threads");
    ForwardedAll(CtimerRequest());
    ForwardedAppend(CtimerRequest(), [Single("total", "")]);
    assert Forwarded([Single("total", "")]) == [];
  }

  lemma CtimerRendered()
    ensures Rendered(CtimerRequest()) == ["event=ctimer", "interval=999us", "threads"]
  {
    RenderSingle("event", "ctimer");
    RenderSingle("interval", "999us");
    RenderSingle("threads", "");
    var r := Rendered(CtimerRequest());
    assert r[0] == "event=ctimer" && r[1] == "interval=999us" && r[2] == "threads";
  }

  /** `total` is not forwarded by the translation (test line 203). */
  lemma StartWithTotal()
    ensures GetCommand("start", CtimerRequest() + [Single("total", "")])
            == JoinComma(["start", "event=ctimer", "interval=999us", "threads"])
  {
    var fields := ["event=ctimer", "interval=999us", "threads"];
    CtimerForwarded();
    CtimerRendered();
    CommandFields("start", CtimerRequest() + [Single("total", "")], fields);
    assert ["start"] + fields == ["start", "event=ctimer", "interval=999us", "threads"];
  }

  /** `duration`, in any case, is consumed by the endpoint and never forwarded;
      `Total` is not reserved, since only the exact spelling is. */
  lemma DurationAndTotalSpellings()
    ensures GetCommand("start", [Single("DURATION", "10")]) == "start,event=cpu"
    ensures GetCommand("start", [Single("Total", "")]) == "start,Total"
  {
    ReservedKeys();
    assert Forwarded([Single("Total", "")]) == [Single("Total", "")];
  }

  /** Several values give one assignment each; a null among them reads "null",
      and an empty one leaves the value empty. */
  lemma MultipleValues()
    ensures ParseParameter("include", Some([Some("a"), None, Some("")]))
            == JoinComma(["include=a", "include=null", "include="])
  {
    var values: seq<Option<string>> := [Some("a"), None, Some("")];
    assert !IsFlag(Some(values));
    var texts := Assignments("include", values);
    assert texts[0] == "include=a";
    assert texts[1] == "include=null";
    assert texts[2] == "include=";
    assert texts == ["include=a", "include=null", "include="];
  }
}
