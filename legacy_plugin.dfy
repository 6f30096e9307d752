/**
 * The earlier form of the plugin: module-level hooks appending to one module-level event
 * list, with no profiler. The list is passed to every hook; each hook takes the moment at
 * which its events are made.
 *
 * It differs from the plugin object in two places: a test report's call phase gets its own
 * begin/end pair, and a fixture's setup is bracketed by a begin/end pair directly, with the
 * fixture's ids and its params as they are.
 */
module LegacyPlugin {
  import opened Wrappers
  import opened TraceEvents
  import opened PerfettoPlugin

  /** The events of one test report: none for a report without a phase, otherwise a begin/end
      pair named after the phase, at the report's start and stop. */
  function LegacyLogReportEvents(when: Option<string>, start: int, stop: int): (r: seq<TraceEvent>)
    ensures r == [] <==> when.None?
    ensures when.Some? ==> r == [BeginDurationEvent(when.value, "test", start), EndDurationEvent(stop)]
    ensures Balanced(r)
  {
    if when.None? then []
    else
      var r := [BeginDurationEvent(when.value, "test", start), EndDurationEvent(stop)];
      BalancedWrap(r[0], [], r[1]);
      assert Balanced([]);
      assert [r[0]] + [] + [r[1]] == r;
      r
  }

  /** The two forms agree on every report except the call phase, which only this form records. */
  lemma LogReportForms(when: Option<string>, start: int, stop: int)
    ensures when.Some? && when.value == "call" ==>
      LogReportEvents(when, start, stop) == [] && |LegacyLogReportEvents(when, start, stop)| == 2
    ensures !(when.Some? && when.value == "call") ==>
      LogReportEvents(when, start, stop) == LegacyLogReportEvents(when, start, stop)
  {
  }

  /** Null for an absent value, the list otherwise. */
  function OptionalStrs(o: Option<seq<string>>): (v: ArgValue)
    ensures v.Null? <==> o.None?
    ensures o.Some? ==> v == Strs(o.value)
  {
    if o.None? then Null else Strs(o.value)
  }

  /** The arguments of a fixture's begin event: its argument names, base id, ids, params and
      scope, with absent ids or params as null. */
  function LegacyFixtureArgs(argnames: seq<string>, baseid: string, ids: Option<seq<string>>,
                             params: Option<seq<string>>, scope: string): (args: Args)
    ensures args.Keys == {"argnames", "baseid", "ids", "params", "scope"}
    ensures args["argnames"] == Strs(argnames) && args["baseid"] == Str(baseid) && args["scope"] == Str(scope)
    ensures args["ids"].Null? <==> ids.None?
    ensures ids.Some? ==> args["ids"] == Strs(ids.value)
    ensures args["params"].Null? <==> params.None?
    ensures params.Some? ==> args["params"] == Strs(params.value)
  {
    map["argnames" := Strs(argnames), "baseid" := Str(baseid), "ids" := OptionalStrs(ids),
        "params" := OptionalStrs(params), "scope" := Str(scope)]
  }

  method SessionStart(events: EventList, ts: int)
    modifies events
    ensures events.events == old(events.events) + [BeginDurationEvent("pytest session", "pytest", ts)]
  {
    events.Append(BeginDurationEvent("pytest session", "pytest", ts));
  }

  /** Closes the session; writing the trace file is not part of this model. */
  method SessionFinish(events: EventList, ts: int)
    modifies events
    ensures events.events == old(events.events) + [EndDurationEvent(ts)]
  {
    events.Append(EndDurationEvent(ts));
  }

  method Collection(events: EventList, ts: int)
    modifies events
    ensures events.events == old(events.events) + [BeginDurationEvent("Start Collection", "pytest", ts)]
  {
    events.Append(BeginDurationEvent("Start Collection", "pytest", ts));
  }

  method ItemCollected(events: EventList, nodeId: string, ts: int)
    modifies events
    ensures events.events == old(events.events) + [InstantEvent("[Item Collected] " + nodeId, ts)]
  {
    events.Append(InstantEvent("[Item Collected] " + nodeId, ts));
  }

  method CollectionFinish(events: EventList, ts: int)
    modifies events
    ensures events.events == old(events.events) + [EndDurationEvent(ts)]
  {
    events.Append(EndDurationEvent(ts));
  }

  method LogStart(events: EventList, nodeId: string, fileName: string, lineNumber: Option<int>,
                  testName: string, ts: int)
    modifies events
    ensures events.events == old(events.events) +
      [BeginDurationEvent(nodeId, "test", ts, args := CreateArgsFromLocation(fileName, lineNumber, testName))]
  {
    events.Append(BeginDurationEvent(nodeId, "test", ts, args := CreateArgsFromLocation(fileName, lineNumber, testName)));
  }

  method LogFinish(events: EventList, ts: int)
    modifies events
    ensures events.events == old(events.events) + [EndDurationEvent(ts)]
  {
    events.Append(EndDurationEvent(ts));
  }

  method LogReport(events: EventList, when: Option<string>, start: int, stop: int)
    modifies events
    ensures events.events == old(events.events) + LegacyLogReportEvents(when, start, stop)
  {
    if when.None? {
      return;
    }
    events.Append(BeginDurationEvent(when.value, "test", start));
    events.Append(EndDurationEvent(stop));
  }

  /** The event before a fixture is set up. */
  method FixtureSetupEnter(events: EventList, argname: string, argnames: seq<string>, baseid: string,
                           ids: Option<seq<string>>, params: Option<seq<string>>, scope: string, ts: int)
    modifies events
    ensures events.events == old(events.events) +
      [BeginDurationEvent(argname, "test", ts, args := LegacyFixtureArgs(argnames, baseid, ids, params, scope))]
  {
    var args := LegacyFixtureArgs(argnames, baseid, ids, params, scope);
    events.Append(BeginDurationEvent(argname, "test", ts, args := args));
  }

  /** The event after a fixture is set up. */
  method FixtureSetupExit(events: EventList, ts: int)
    modifies events
    ensures events.events == old(events.events) + [EndDurationEvent(ts)]
  {
    events.Append(EndDurationEvent(ts));
  }

  /** A fixture's setup, with whatever balanced events were made during it, nests. */
  lemma FixtureSetupBalanced(argname: string, args: Args, enter: int, inner: seq<TraceEvent>, exit: int)
    requires Balanced(inner)
    ensures Balanced([BeginDurationEvent(argname, "test", enter, args := args)] + inner + [EndDurationEvent(exit)])
  {
    BalancedWrap(BeginDurationEvent(argname, "test", enter, args := args), inner, EndDurationEvent(exit));
  }
}
