/**
 * The older renderer of the `pytest_perfetto` package. It filters the call tree the same
 * way (FrameFilter) but renders differently:
 * - every OPEN gives a begin event and every CLOSE an end event, with no synthetic frames
 *   dropped;
 * - events go to the default process and thread;
 * - a begin event's arguments are the frame's file, line and name as they are, None included;
 * - the name of an OPEN's frame is looked up with a plain index, so an OPEN of a frame
 *   missing from the index fails with a KeyError, which ends the whole rendering.
 */
module LegacyRenderer {
  import opened Wrappers
  import opened FrameForest
  import opened FrameFilter
  import opened TraceEvents
  import opened PerfettoRenderer

  datatype RenderError = KeyError(frame: nat)

  function OptionalStr(s: Option<string>): ArgValue
  {
    if s.Some? then Str(s.value) else Null
  }

  function OptionalInt(n: Option<int>): ArgValue
  {
    if n.Some? then Int(n.value) else Null
  }

  /** `t` is what the older renderer writes for `e`: a begin event for an OPEN, named after
      its frame and carrying the frame's raw fields, an end event for a CLOSE, at
      `at + startTime` on process 1 and thread 1. */
  ghost predicate Corresponds(e: SpeedscopeEvent, t: TraceEvent, index: map<nat, SpeedscopeFrame>, startTime: int)
  {
    && t.ts == e.at + startTime && t.pid == 1 && t.tid == 1
    && (e.kind == OPEN ==>
          var sf := Lookup(index, e.frame);
          && t.BeginDurationEvent? && t.cat == "runtime"
          && t.name == OrElse(NameOf(sf), "nothing")
          && t.args == map["file" := OptionalStr(FileOf(sf)), "line" := OptionalInt(LineOf(sf)),
                           "name" := OptionalStr(NameOf(sf))])
    && (e.kind == CLOSE ==> t.EndDurationEvent?)
  }

  /** An OPEN whose frame the index does not have. */
  ghost predicate Missing(e: SpeedscopeEvent, index: map<nat, SpeedscopeFrame>)
  {
    e.kind == OPEN && e.frame !in index
  }

  /** The trace event for one speedscope event, or the KeyError of an OPEN whose frame is
      not in the index. */
  function RenderEventLegacy(e: SpeedscopeEvent, index: map<nat, SpeedscopeFrame>, startTime: int)
    : (r: Result<TraceEvent, RenderError>)
    ensures r.Failure? <==> Missing(e, index)
    ensures r.Failure? ==> r.error == KeyError(e.frame)
    ensures r.Success? ==> Corresponds(e, r.value, index, startTime)
  {
    var sf := Lookup(index, e.frame);
    var timestamp := e.at + startTime;
    match e.kind
    case OPEN =>
      if e.frame !in index then Failure(KeyError(e.frame))
      else
        Success(BeginDurationEvent(
          OrElse(index[e.frame].name, "nothing"), "runtime", timestamp,
          args := map["file" := OptionalStr(FileOf(sf)), "line" := OptionalInt(LineOf(sf)),
                      "name" := OptionalStr(NameOf(sf))]))
    case CLOSE => Success(EndDurationEvent(timestamp))
  }

  /** `j` is the first OPEN in `es` whose frame is missing from the index. */
  ghost predicate FirstMissing(es: seq<SpeedscopeEvent>, index: map<nat, SpeedscopeFrame>, j: nat)
  {
    j < |es| && Missing(es[j], index) && forall i :: 0 <= i < j ==> !Missing(es[i], index)
  }

  /** The trace events for a stream, one per speedscope event and in the same order, or
      the first KeyError. */
  function RenderEventsLegacy(es: seq<SpeedscopeEvent>, index: map<nat, SpeedscopeFrame>, startTime: int)
    : (r: Result<seq<TraceEvent>, RenderError>)
    ensures r.Success? ==> |r.value| == |es|
    decreases |es|
  {
    if es == [] then Success([])
    else
      match RenderEventLegacy(es[0], index, startTime)
      case Failure(err) => Failure(err)
      case Success(t) =>
        match RenderEventsLegacy(es[1..], index, startTime)
        case Failure(err) => Failure(err)
        case Success(ts) => Success([t] + ts)
  }

  /** Rendering succeeds iff no OPEN's frame is missing from the index; it then gives the
      corresponding event for each speedscope event, and otherwise the KeyError of the
      first OPEN whose frame is missing. */
  lemma {:induction false} RenderEventsLegacySpec(es: seq<SpeedscopeEvent>, index: map<nat, SpeedscopeFrame>, startTime: int)
    ensures var r := RenderEventsLegacy(es, index, startTime);
      && (r.Success? <==> forall j :: 0 <= j < |es| ==> !Missing(es[j], index))
      && (r.Success? ==> forall j :: 0 <= j < |es| ==> Corresponds(es[j], r.value[j], index, startTime))
      && (r.Failure? ==> exists j: nat :: FirstMissing(es, index, j) && r.error == KeyError(es[j].frame))
    decreases |es|
  {
    if es != [] {
      var r := RenderEventsLegacy(es, index, startTime);
      var rest := RenderEventsLegacy(es[1..], index, startTime);
      RenderEventsLegacySpec(es[1..], index, startTime);
      assert forall j :: 1 <= j < |es| ==> es[j] == es[1..][j - 1];
      match RenderEventLegacy(es[0], index, startTime)
      case Failure(err) =>
        assert FirstMissing(es, index, 0);
      case Success(t) =>
        if rest.Failure? {
          var j: nat :| FirstMissing(es[1..], index, j) && rest.error == KeyError(es[1..][j].frame);
          assert FirstMissing(es, index, j + 1);
        } else {
          assert r.value == [t] + rest.value;
        }
    }
  }

  /** Rendering two streams in a row renders the first, then (if it succeeded) the second. */
  lemma {:induction false} RenderEventsLegacyAppend(a: seq<SpeedscopeEvent>, b: seq<SpeedscopeEvent>,
                                                    index: map<nat, SpeedscopeFrame>, startTime: int)
    ensures RenderEventsLegacy(a + b, index, startTime) ==
      match RenderEventsLegacy(a, index, startTime)
      case Failure(err) => Failure(err)
      case Success(ta) =>
        match RenderEventsLegacy(b, index, startTime)
        case Failure(err) => Failure(err)
        case Success(tb) => Success(ta + tb)
    decreases |a|
  {
    if a == [] {
      assert a + b == b;
      assert RenderEventsLegacy(a, index, startTime) == Success([]);
      if RenderEventsLegacy(b, index, startTime).Success? {
        assert [] + RenderEventsLegacy(b, index, startTime).value == RenderEventsLegacy(b, index, startTime).value;
      }
    } else {
      assert (a + b)[0] == a[0] && (a + b)[1..] == a[1..] + b;
      RenderEventsLegacyAppend(a[1..], b, index, startTime);
      match RenderEventLegacy(a[0], index, startTime)
      case Failure(_) =>
      case Success(t) =>
        match RenderEventsLegacy(a[1..], index, startTime)
        case Failure(_) =>
        case Success(ta) =>
          match RenderEventsLegacy(b, index, startTime)
          case Failure(_) =>
          case Success(tb) =>
            assert [t] + (ta + tb) == [t] + ta + tb;
    }
  }

  /** The number of begin events. */
  function Begins(ts: seq<TraceEvent>): (n: nat)
    ensures n <= |ts|
  {
    if ts == [] then 0 else (if ts[0].BeginDurationEvent? then 1 else 0) + Begins(ts[1..])
  }

  /** The number of end events. */
  function Ends(ts: seq<TraceEvent>): (n: nat)
    ensures n <= |ts|
  {
    if ts == [] then 0 else (if ts[0].EndDurationEvent? then 1 else 0) + Ends(ts[1..])
  }

  /** An event-for-event rendering has a begin event per OPEN, an end event per CLOSE, and
      nests exactly as the stream does. */
  lemma {:induction false} CorrespondingCounts(es: seq<SpeedscopeEvent>, ts: seq<TraceEvent>,
                                               index: map<nat, SpeedscopeFrame>, startTime: int, depth: nat)
    requires |ts| == |es| && forall j :: 0 <= j < |es| ==> Corresponds(es[j], ts[j], index, startTime)
    ensures Begins(ts) == Opens(es) && Ends(ts) == |es| - Opens(es)
    ensures Scan(ts, depth) == Nesting(es, depth)
    decreases |es|
  {
    if es != [] {
      assert forall j :: 0 <= j < |es| - 1 ==> es[1..][j] == es[j + 1] && ts[1..][j] == ts[j + 1];
      assert Corresponds(es[0], ts[0], index, startTime);
      if es[0].kind == OPEN {
        CorrespondingCounts(es[1..], ts[1..], index, startTime, depth + 1);
      } else if depth > 0 {
        CorrespondingCounts(es[1..], ts[1..], index, startTime, depth - 1);
      } else {
        CorrespondingCounts(es[1..], ts[1..], index, startTime, depth);
      }
    }
  }

  /** Renders the speedscope events of one root, one after the other, stopping at the first
      KeyError. */
  method RenderRootFrameLegacy(events: seq<SpeedscopeEvent>, index: map<nat, SpeedscopeFrame>, startTime: int)
    returns (outcome: Result<seq<TraceEvent>, RenderError>)
    ensures outcome == RenderEventsLegacy(events, index, startTime)
  {
    var result := [];
    for k := 0 to |events|
      invariant RenderEventsLegacy(events[..k], index, startTime) == Success(result)
    {
      var e := events[k];
      assert events[..k + 1] == events[..k] + [e];
      assert events == events[..k] + events[k..];
      RenderEventsLegacyAppend(events[..k], [e], index, startTime);
      RenderEventsLegacyAppend(events[..k], events[k..], index, startTime);
      assert events[k..][0] == e;
      var file := FileOf(Lookup(index, e.frame));
      var line := LineOf(Lookup(index, e.frame));
      var name := NameOf(Lookup(index, e.frame));
      var timestamp := e.at + startTime;
      var event;
      if e.kind == OPEN {
        if e.frame !in index {
          return Failure(KeyError(e.frame));
        }
        event := BeginDurationEvent(
          OrElse(index[e.frame].name, "nothing"), "runtime", timestamp,
          args := map["file" := OptionalStr(file), "line" := OptionalInt(line), "name" := OptionalStr(name)]);
      } else {
        event := EndDurationEvent(timestamp);
      }
      assert RenderEventsLegacy([e], index, startTime) == Success([event]) by {
        assert [e][1..] == [] && [event] + [] == [event];
      }
      result := result + [event];
    }
    assert events[..|events|] == events;
    return Success(result);
  }

  /** Renders the roots left by filtering, one after the other, stopping at the first KeyError. */
  method RenderRootsLegacy(children: seq<seq<FrameId>>, roots: seq<FrameId>, ss: Speedscope, startTime: int)
    returns (outcome: Result<seq<TraceEvent>, RenderError>)
    requires Ordered(children) && AllBelow(roots, |children|) && Describes(ss, |children|)
    ensures outcome == RenderEventsLegacy(Stream(children, ss, roots), ss.index, startTime)
  {
    var events := [];
    for k := 0 to |roots|
      invariant RenderEventsLegacy(Stream(children, ss, roots[..k]), ss.index, startTime) == Success(events)
    {
      var root := roots[k];
      assert roots[..k + 1] == roots[..k] + [root];
      assert roots == roots[..k + 1] + roots[k + 1..];
      StreamAppend(children, ss, roots[..k], [root]);
      StreamAppend(children, ss, roots[..k + 1], roots[k + 1..]);
      RenderEventsLegacyAppend(Stream(children, ss, roots[..k]), Stream(children, ss, [root]), ss.index, startTime);
      RenderEventsLegacyAppend(Stream(children, ss, roots[..k + 1]), Stream(children, ss, roots[k + 1..]), ss.index, startTime);
      var rendered := RenderRootFrameLegacy(Stream(children, ss, [root]), ss.index, startTime);
      if rendered.Failure? {
        return rendered;
      }
      events := events + rendered.value;
    }
    assert roots[..|roots|] == roots;
    return Success(events);
  }

  /** The older rendering of the streams of `roots`: a failure names a frame missing from
      the index; a success is well nested on thread 1, with one begin and one end event per
      frame walked from the roots. */
  lemma LegacyOutcome(children: seq<seq<FrameId>>, roots: seq<FrameId>, ss: Speedscope, startTime: int)
    requires Ordered(children) && AllBelow(roots, |children|) && Describes(ss, |children|)
    ensures var r := RenderEventsLegacy(Stream(children, ss, roots), ss.index, startTime);
      && (r.Failure? ==> r.error.frame !in ss.index)
      && (r.Success? ==>
            && Balanced(r.value) && (forall j :: 0 <= j < |r.value| ==> r.value[j].tid == 1)
            && Begins(r.value) == |Walk(children, roots)| && Ends(r.value) == |Walk(children, roots)|)
  {
    var stream := Stream(children, ss, roots);
    var r := RenderEventsLegacy(stream, ss.index, startTime);
    RenderEventsLegacySpec(stream, ss.index, startTime);
    if r.Success? {
      StreamShape(children, ss, roots);
      CorrespondingCounts(stream, r.value, ss.index, startTime, 0);
    }
  }

  /** Filters the session's tree and renders what is left, the older way: no events without
      a root frame; otherwise the rendering, from `startTime`, of the streams of the roots left
      by filtering (`newRoots`, the three outcomes of FrameArena.RemovePytestRelatedFrames):
      unless an OPEN's frame is missing from the index, one event per speedscope event. For
      a root frame without a parent that makes one begin and one end event per surviving
      frame. */
  method RenderLegacy(arena: FrameArena, rootFrame: Option<FrameId>, locations: seq<string>, startTime: int,
                      ss: Speedscope) returns (outcome: Result<seq<TraceEvent>, RenderError>, ghost newRoots: seq<FrameId>)
    requires arena.Valid() && Describes(ss, |arena.children|) && IndexedBy(ss, arena.frames)
    requires rootFrame.Some? ==> rootFrame.value < |arena.children|
    modifies arena
    ensures rootFrame.None? ==>
      outcome == Success([]) && arena.children == old(arena.children) && arena.parent == old(arena.parent)
    ensures arena.Valid() && |arena.children| == old(|arena.children|)
    ensures rootFrame.Some? ==>
      var root, x := rootFrame.value, Excluded(arena.frames, locations);
      && AllBelow(newRoots, |arena.children|)
      && outcome == RenderEventsLegacy(Stream(arena.children, ss, newRoots), ss.index, startTime)
      && FilteredRoots(old(arena.Tree()), x, root, arena.Tree(), newRoots)
    ensures outcome.Failure? ==> outcome.error.frame !in ss.index
    ensures outcome.Success? ==>
      Balanced(outcome.value) && forall j :: 0 <= j < |outcome.value| ==> outcome.value[j].tid == 1
    ensures outcome.Success? && rootFrame.Some? && old(arena.parent[rootFrame.value]).None? ==>
      var survivors := Kept(Dfs(old(arena.children), rootFrame.value), Excluded(arena.frames, locations));
      && Walk(arena.children, newRoots) == survivors
      && Begins(outcome.value) == |survivors| && Ends(outcome.value) == |survivors|
  {
    newRoots := [];
    if rootFrame.None? {
      return Success([]), newRoots;
    }
    var roots := arena.RemovePytestRelatedFrames(rootFrame.value, locations);
    newRoots := roots;
    assert AllBelow(roots, |arena.children|);
    outcome := RenderRootsLegacy(arena.children, roots, ss, startTime);
    LegacyOutcome(arena.children, roots, ss, startTime);
  }
}
