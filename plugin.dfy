/**
 * The pytest plugin object: it keeps the list of trace events of a test run, appends events
 * to it from pytest's hooks, and owns the profiler, whose batches it receives as the
 * profiler's one subscriber.
 *
 * Every hook takes the moment at which its events are made as a parameter; the profiled
 * hooks also take what the profiler takes (thread ident, clock, recorded session).
 */
module PerfettoPlugin {
  import opened Wrappers
  import opened TraceEvents
  import opened Decimal
  import opened FrameForest
  import opened FrameFilter
  import opened PerfettoRenderer
  import opened SessionProfiler

  /** The arguments of a test's begin event, from its location (file, line, test name): the
      file and test name always, the line as decimal text only when there is one. */
  function CreateArgsFromLocation(fileName: string, lineNumber: Option<int>, testName: string): (args: Args)
    ensures "file_name" in args && args["file_name"] == Str(fileName)
    ensures "test_name" in args && args["test_name"] == Str(testName)
    ensures "line_number" in args <==> lineNumber.Some?
    ensures "line_number" in args ==> args["line_number"].Str? && ParseInt(args["line_number"].s) == lineNumber
    ensures args.Keys <= {"file_name", "test_name", "line_number"}
  {
    var args := map["file_name" := Str(fileName), "test_name" := Str(testName)];
    if lineNumber.Some? then
      IntToStringRoundTrip(lineNumber.value);
      args["line_number" := Str(IntToString(lineNumber.value))]
    else args
  }

  /** Different locations give different arguments. */
  lemma CreateArgsInjective(f1: string, l1: Option<int>, t1: string, f2: string, l2: Option<int>, t2: string)
    requires CreateArgsFromLocation(f1, l1, t1) == CreateArgsFromLocation(f2, l2, t2)
    ensures f1 == f2 && l1 == l2 && t1 == t2
  {
    var a1, a2 := CreateArgsFromLocation(f1, l1, t1), CreateArgsFromLocation(f2, l2, t2);
    assert a1["file_name"] == a2["file_name"] && a1["test_name"] == a2["test_name"];
    assert "line_number" in a1 <==> "line_number" in a2;
  }

  /** The events of one test report: none for a report without a phase or for the call phase
      (the profiler covers the call), otherwise a begin/end pair named after the phase, at the
      report's start and stop. */
  function LogReportEvents(when: Option<string>, start: int, stop: int): (r: seq<TraceEvent>)
    ensures r == [] <==> when.None? || when.value == "call"
    ensures r != [] ==>
      && |r| == 2
      && r[0].BeginDurationEvent? && r[0].name == when.value && r[0].cat == "test" && r[0].ts == start
      && r[1].EndDurationEvent? && r[1].ts == stop
    ensures Balanced(r)
  {
    if when.None? || when.value == "call" then []
    else
      var r := [BeginDurationEvent(when.value, "test", start), EndDurationEvent(stop)];
      BalancedWrap(r[0], [], r[1]);
      assert Balanced([]);
      assert [r[0]] + [] + [r[1]] == r;
      r
  }

  /** The arguments of a fixture's region: its argument names, base id, scope and its params
      as text; no params (none at all, or an empty list) gives the empty string. */
  function FixtureArgs(argnames: seq<string>, baseid: string, params: Option<seq<string>>, scope: string)
    : (args: Args)
    ensures args.Keys == {"argnames", "baseid", "params", "scope"}
    ensures args["argnames"] == Strs(argnames) && args["baseid"] == Str(baseid) && args["scope"] == Str(scope)
    ensures args["params"].Strs? <==> params.Some? && params.value != []
    ensures args["params"].Strs? ==> args["params"].items == params.value
    ensures args["params"].Str? ==> args["params"].s == ""
  {
    map["argnames" := Strs(argnames), "baseid" := Str(baseid),
        "params" := if params.Some? && params.value != [] then Strs(params.value) else Str(""),
        "scope" := Str(scope)]
  }

  /** The events of a collection: a begin event, one instant per collected item, an end event. */
  function CollectionEvents(startTs: int, nodeIds: seq<string>, itemTs: seq<int>, finishTs: int): (r: seq<TraceEvent>)
    requires |itemTs| == |nodeIds|
    ensures |r| == |nodeIds| + 2 && Balanced(r)
    ensures forall j :: 0 <= j < |nodeIds| ==>
      r[j + 1].InstantEvent? && r[j + 1].name == "[Item Collected] " + nodeIds[j]
  {
    var items := ItemEvents(nodeIds, itemTs);
    BalancedWrap(BeginDurationEvent("Start Collection", "pytest", startTs), items, EndDurationEvent(finishTs));
    [BeginDurationEvent("Start Collection", "pytest", startTs)] + items + [EndDurationEvent(finishTs)]
  }

  function ItemEvents(nodeIds: seq<string>, itemTs: seq<int>): (r: seq<TraceEvent>)
    requires |itemTs| == |nodeIds|
    ensures |r| == |nodeIds| && Balanced(r)
    ensures forall j :: 0 <= j < |r| ==> r[j] == InstantEvent("[Item Collected] " + nodeIds[j], itemTs[j])
  {
    if nodeIds == [] then []
    else
      var rest := ItemEvents(nodeIds[1..], itemTs[1..]);
      var r := [InstantEvent("[Item Collected] " + nodeIds[0], itemTs[0])] + rest;
      assert Scan(r, 0) == Scan(rest, 0);
      r
  }

  /** Collecting one more item extends the item events by exactly what the ItemCollected
      hook appends. So the hooks Collection, ItemCollected for each item in order, and
      CollectionFinish together append CollectionEvents. */
  lemma {:induction false} ItemEventsSnoc(nodeIds: seq<string>, itemTs: seq<int>, k: nat)
    requires |itemTs| == |nodeIds| && k < |nodeIds|
    ensures ItemEvents(nodeIds[..k + 1], itemTs[..k + 1])
         == ItemEvents(nodeIds[..k], itemTs[..k]) + [InstantEvent("[Item Collected] " + nodeIds[k], itemTs[k])]
    decreases k
  {
    var ns, ts := nodeIds[..k + 1], itemTs[..k + 1];
    if k > 0 {
      assert ns[1..] == nodeIds[1..][..k] && ts[1..] == itemTs[1..][..k];
      assert nodeIds[..k][1..] == nodeIds[1..][..k - 1] && itemTs[..k][1..] == itemTs[1..][..k - 1];
      ItemEventsSnoc(nodeIds[1..], itemTs[1..], k - 1);
    } else {
      assert ns[1..] == [] && ts[1..] == [];
    }
  }

  class PytestPerfettoPlugin {
    /** Every event of the run, in the order the hooks made them. */
    const events: EventList
    const profiler: Profiler

    /** The profiler's only subscriber is the plugin's event list. */
    ghost predicate Valid()
      reads profiler
    {
      profiler.Valid() && profiler.subscribers == [events]
    }

    constructor ()
      ensures Valid() && events.events == [] && fresh(events) && fresh(profiler)
      ensures profiler.threadIds == map[]
    {
      var list := new EventList();
      var p := new Profiler();
      p.Subscribe(list);
      events := list;
      profiler := p;
    }

    method SessionStart(ts: int)
      modifies events
      ensures events.events == old(events.events) + [BeginDurationEvent("pytest session", "pytest", ts)]
    {
      events.Append(BeginDurationEvent("pytest session", "pytest", ts));
    }

    /** Closes the session; writing the trace file is not part of this model. */
    method SessionFinish(ts: int)
      modifies events
      ensures events.events == old(events.events) + [EndDurationEvent(ts)]
    {
      events.Append(EndDurationEvent(ts));
    }

    method Collection(ts: int)
      modifies events
      ensures events.events == old(events.events) + [BeginDurationEvent("Start Collection", "pytest", ts)]
    {
      events.Append(BeginDurationEvent("Start Collection", "pytest", ts));
    }

    method ItemCollected(nodeId: string, ts: int)
      modifies events
      ensures events.events == old(events.events) + [InstantEvent("[Item Collected] " + nodeId, ts)]
    {
      events.Append(InstantEvent("[Item Collected] " + nodeId, ts));
    }

    method CollectionFinish(ts: int)
      modifies events
      ensures events.events == old(events.events) + [EndDurationEvent(ts)]
    {
      events.Append(EndDurationEvent(ts));
    }

    method LogStart(nodeId: string, fileName: string, lineNumber: Option<int>, testName: string, ts: int)
      modifies events
      ensures events.events == old(events.events) +
        [BeginDurationEvent(nodeId, "test", ts, args := CreateArgsFromLocation(fileName, lineNumber, testName))]
    {
      events.Append(BeginDurationEvent(nodeId, "test", ts, args := CreateArgsFromLocation(fileName, lineNumber, testName)));
    }

    method LogFinish(ts: int)
      modifies events
      ensures events.events == old(events.events) + [EndDurationEvent(ts)]
    {
      events.Append(EndDurationEvent(ts));
    }

    method LogReport(when: Option<string>, start: int, stop: int)
      modifies events
      ensures events.events == old(events.events) + LogReportEvents(when, start, stop)
    {
      if when.None? || when.value == "call" {
        return;
      }
      events.Append(BeginDurationEvent(when.value, "test", start));
      events.Append(EndDurationEvent(stop));
    }

    /** The events before the report is made. */
    method MakeReportEnter(ts: int)
      modifies events
      ensures events.events == old(events.events) + [BeginDurationEvent("pytest make report", "pytest", ts)]
    {
      events.Append(BeginDurationEvent("pytest make report", "pytest", ts));
    }

    /** The events after the report is made. */
    method MakeReportExit(ts: int)
      modifies events
      ensures events.events == old(events.events) + [EndDurationEvent(ts)]
    {
      events.Append(EndDurationEvent(ts));
    }

    /** Runs a region under the plugin's profiler: the region's batch lands, once and
        unchanged, at the end of the run's events, since that list is the profiler's only
        subscriber, and the thread's logical id is registered. */
    method ProfiledRegion(rootFrameName: string, isAsync: bool, args: Option<Args>, ident: int, clock: Clock,
                          lastSession: Option<Session>, locations: seq<string>, synthetic: set<string>)
      returns (batch: seq<TraceEvent>, asyncMode: string, ghost rendered: seq<TraceEvent>, ghost newRoots: seq<FrameId>)
      requires Valid()
      requires lastSession.Some? ==> SessionValid(lastSession.value)
      modifies profiler, events, if lastSession.Some? then {lastSession.value.arena} else {}
      ensures Valid()
      ensures batch == Batch(rootFrameName, if args.None? then map[] else args.value,
                             GetOrInsert(old(profiler.threadIds), ident).1, clock, rendered)
      ensures Balanced(batch)
      ensures asyncMode == if isAsync then "enabled" else "disabled"
      ensures events.events == old(events.events) + batch
      ensures profiler.threadIds == GetOrInsert(old(profiler.threadIds), ident).0
      ensures SessionRendered(lastSession, old(TreeOf(lastSession)), TreeOf(lastSession), locations, newRoots,
                              clock.start, GetOrInsert(old(profiler.threadIds), ident).1, synthetic, rendered)
    {
      batch, asyncMode, rendered, newRoots :=
        profiler.Profile(rootFrameName, isAsync, args, ident, clock, lastSession, locations, synthetic);
      // the run's events are the only subscriber, so they get the batch exactly once
      assert profiler.subscribers == [events] && multiset(profiler.subscribers)[events] == 1;
      assert Repeat(batch, 1) == batch;
    }

    /** Runs a test function under the profiler, as a region named "call" without arguments;
        the region's batch lands, once and unchanged, at the end of the run's events. */
    method PyfuncCall(isAsync: bool, ident: int, clock: Clock, lastSession: Option<Session>,
                      locations: seq<string>, synthetic: set<string>)
      returns (batch: seq<TraceEvent>, asyncMode: string, ghost rendered: seq<TraceEvent>, ghost newRoots: seq<FrameId>)
      requires Valid()
      requires lastSession.Some? ==> SessionValid(lastSession.value)
      modifies profiler, events, if lastSession.Some? then {lastSession.value.arena} else {}
      ensures Valid()
      ensures batch == Batch("call", map[], GetOrInsert(old(profiler.threadIds), ident).1, clock, rendered)
      ensures Balanced(batch)
      ensures asyncMode == if isAsync then "enabled" else "disabled"
      ensures events.events == old(events.events) + batch
      ensures profiler.threadIds == GetOrInsert(old(profiler.threadIds), ident).0
      ensures SessionRendered(lastSession, old(TreeOf(lastSession)), TreeOf(lastSession), locations, newRoots,
                              clock.start, GetOrInsert(old(profiler.threadIds), ident).1, synthetic, rendered)
    {
      batch, asyncMode, rendered, newRoots :=
        ProfiledRegion("call", isAsync, None, ident, clock, lastSession, locations, synthetic);
    }

    /** Sets a fixture up under the profiler, as a region named after the fixture and carrying
        the fixture's arguments. */
    method FixtureSetup(argname: string, argnames: seq<string>, baseid: string, params: Option<seq<string>>,
                        scope: string, ident: int, clock: Clock, lastSession: Option<Session>,
                        locations: seq<string>, synthetic: set<string>)
      returns (batch: seq<TraceEvent>, ghost rendered: seq<TraceEvent>, ghost newRoots: seq<FrameId>)
      requires Valid()
      requires lastSession.Some? ==> SessionValid(lastSession.value)
      modifies profiler, events, if lastSession.Some? then {lastSession.value.arena} else {}
      ensures Valid()
      ensures batch == Batch(argname, FixtureArgs(argnames, baseid, params, scope),
                             GetOrInsert(old(profiler.threadIds), ident).1, clock, rendered)
      ensures Balanced(batch)
      ensures events.events == old(events.events) + batch
      ensures profiler.threadIds == GetOrInsert(old(profiler.threadIds), ident).0
      ensures SessionRendered(lastSession, old(TreeOf(lastSession)), TreeOf(lastSession), locations, newRoots,
                              clock.start, GetOrInsert(old(profiler.threadIds), ident).1, synthetic, rendered)
    {
      var args := FixtureArgs(argnames, baseid, params, scope);
      var asyncMode;
      batch, asyncMode, rendered, newRoots :=
        ProfiledRegion(argname, false, Some(args), ident, clock, lastSession, locations, synthetic);
    }
  }
}
