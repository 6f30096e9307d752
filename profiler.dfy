/**
 * The session coordinator: one profiled region at a time, on behalf of a calling thread.
 *
 * It gives every operating-system thread ident a small logical thread id (1, 2, 3, ... in
 * the order the idents are first seen), brackets the rendered frames of a region with a
 * begin/end pair for the region and one for the rendering itself, and hands the batch to
 * every subscriber in the order they subscribed.
 *
 * The thread ident, the four moments at which bracket events are made and the recorded
 * session are parameters; the recording itself is not part of this model.
 */
module SessionProfiler {
  import opened Wrappers
  import opened FrameForest
  import opened FrameFilter
  import opened TraceEvents
  import opened PerfettoRenderer

  // ---------------------------------------------------------------------------
  // The thread registry
  // ---------------------------------------------------------------------------

  /** `ids` gives the idents of `seen` the ids 1..|seen| in the order of `seen`, and gives
      no other ident an id: every id is in 1..|seen| and no two idents share one. */
  ghost predicate Registry(ids: map<int, nat>, seen: seq<int>)
  {
    && |ids| == |seen|
    && (forall j :: 0 <= j < |seen| ==> seen[j] in ids && ids[seen[j]] == j + 1)
    && (forall k :: k in ids ==> 1 <= ids[k] <= |seen|)
    && (forall k1, k2 :: k1 in ids && k2 in ids && ids[k1] == ids[k2] ==> k1 == k2)
  }

  /** The id of `ident`, added as the next id when `ident` has none yet; ids already given
      never change. */
  function GetOrInsert(ids: map<int, nat>, ident: int): (r: (map<int, nat>, nat))
    ensures ident in r.0 && r.0[ident] == r.1
    ensures ids.Keys <= r.0.Keys && forall k :: k in ids ==> r.0[k] == ids[k]
    ensures ident in ids ==> r.0 == ids
    ensures ident !in ids ==> r.0.Keys == ids.Keys + {ident}
  {
    if ident in ids then (ids, ids[ident]) else (ids[ident := |ids| + 1], |ids| + 1)
  }

  /** Get-or-insert keeps the registry dense and in first-seen order: a known ident keeps
      its id, a new one is appended to the idents seen and gets the next id; either way the
      id is the ident's position among the idents seen, counting from 1. */
  lemma RegistryGetOrInsert(ids: map<int, nat>, seen: seq<int>, ident: int)
    requires Registry(ids, seen)
    ensures (ident in ids <==> ident in seen)
    ensures var seen' := if ident in seen then seen else seen + [ident];
      && Registry(GetOrInsert(ids, ident).0, seen')
      && 1 <= GetOrInsert(ids, ident).1 <= |seen'| && seen'[GetOrInsert(ids, ident).1 - 1] == ident
    ensures ident !in seen ==> GetOrInsert(ids, ident).1 == |seen| + 1
  {
    if ident in ids {
      var n := ids[ident];
      assert seen[n - 1] in ids && ids[seen[n - 1]] == n;
      assert seen[n - 1] == ident;
    } else {
      assert ident !in seen;
      RegistryInsert(ids, seen, ident);
    }
  }

  lemma RegistryInsert(ids: map<int, nat>, seen: seq<int>, ident: int)
    requires Registry(ids, seen) && ident !in ids
    ensures Registry(ids[ident := |ids| + 1], seen + [ident])
  {
    var ids', seen' := ids[ident := |ids| + 1], seen + [ident];
    assert |ids'| == |seen'| by {
      assert ids'.Keys == ids.Keys + {ident};
    }
    assert forall j :: 0 <= j < |seen'| ==> seen'[j] in ids' && ids'[seen'[j]] == j + 1 by {
      forall j | 0 <= j < |seen'|
        ensures seen'[j] in ids' && ids'[seen'[j]] == j + 1
      {
        if j < |seen| {
          assert seen'[j] == seen[j];
        }
      }
    }
    assert forall k :: k in ids' ==> 1 <= ids'[k] <= |seen'|;
    assert forall k1, k2 :: k1 in ids' && k2 in ids' && ids'[k1] == ids'[k2] ==> k1 == k2;
  }

  /** An example of the registry rule: a second, different thread that asks for an id gets
      id 2, and the first keeps id 1. */
  lemma SecondThreadGetsTwo(first: int, second: int)
    requires first != second
    ensures var (ids, id1) := GetOrInsert(map[], first);
      id1 == 1 && GetOrInsert(ids, second).1 == 2 && GetOrInsert(GetOrInsert(ids, second).0, first).1 == 1
  {
  }

  // ---------------------------------------------------------------------------
  // The batch of one region
  // ---------------------------------------------------------------------------

  /** The moments at which the region's begin event, its end event and the two events
      around rendering are made. */
  datatype Clock = Clock(start: int, end: int, dumping: int, dumped: int)

  const DumpingFrames: string := "[pytest-perfetto] Dumping frames"

  /** The events of one region: its begin event, the rendered frames, its end event, and
      the begin/end pair around rendering, all on thread `tid`. */
  function Batch(rootFrameName: string, args: Args, tid: int, clock: Clock, rendered: seq<TraceEvent>)
    : (b: seq<TraceEvent>)
    ensures |b| == |rendered| + 4
  {
    [BeginDurationEvent(rootFrameName, "test", clock.start, tid := tid, args := args)]
    + rendered
    + [EndDurationEvent(clock.end, tid := tid),
       BeginDurationEvent(DumpingFrames, "pytest", clock.dumping, tid := tid),
       EndDurationEvent(clock.dumped, tid := tid)]
  }

  /** The batch opens with the region's begin event and ends with the three closing events,
      the rendered frames in between; without rendered frames it is just the four. */
  lemma BatchLayout(rootFrameName: string, args: Args, tid: int, clock: Clock, rendered: seq<TraceEvent>)
    ensures var b := Batch(rootFrameName, args, tid, clock, rendered);
      && b[0] == BeginDurationEvent(rootFrameName, "test", clock.start, tid := tid, args := args)
      && b[1..|b| - 3] == rendered
      && b[|b| - 3].EndDurationEvent? && b[|b| - 3].ts == clock.end
      && b[|b| - 2].BeginDurationEvent? && b[|b| - 2].name == DumpingFrames && b[|b| - 2].cat == "pytest"
      && b[|b| - 1].EndDurationEvent? && b[|b| - 1].ts == clock.dumped
      && (rendered == [] ==> |b| == 4)
  {
    var b := Batch(rootFrameName, args, tid, clock, rendered);
    assert b[1..|b| - 3] == rendered;
  }

  /** A batch around nested rendered events nests, and it is on the rendered events' thread. */
  lemma BatchBalanced(rootFrameName: string, args: Args, tid: int, clock: Clock, rendered: seq<TraceEvent>)
    requires Balanced(rendered)
    requires forall j :: 0 <= j < |rendered| ==> rendered[j].tid == tid
    ensures var b := Batch(rootFrameName, args, tid, clock, rendered);
      Balanced(b) && forall j :: 0 <= j < |b| ==> b[j].tid == tid
  {
    var start := BeginDurationEvent(rootFrameName, "test", clock.start, tid := tid, args := args);
    var end := EndDurationEvent(clock.end, tid := tid);
    var dumping := BeginDurationEvent(DumpingFrames, "pytest", clock.dumping, tid := tid);
    var dumped := EndDurationEvent(clock.dumped, tid := tid);
    BalancedWrap(start, rendered, end);
    BalancedWrap(dumping, [], dumped);
    assert Balanced([]);
    BalancedAppend([start] + rendered + [end], [dumping] + [] + [dumped]);
    assert Batch(rootFrameName, args, tid, clock, rendered) == [start] + rendered + [end] + ([dumping] + [] + [dumped]);
  }

  /** `n` copies of `b`, one after the other. */
  function Repeat(b: seq<TraceEvent>, n: nat): (r: seq<TraceEvent>)
    ensures |r| == n * |b|
  {
    if n == 0 then [] else Repeat(b, n - 1) + b
  }

  /** One more copy of `b` after `n` copies is `n + 1` copies. */
  lemma RepeatStep(prefix: seq<TraceEvent>, b: seq<TraceEvent>, n: nat)
    ensures prefix + Repeat(b, n) + b == prefix + Repeat(b, n + 1)
  {
  }

  /** Extending a prefix by one entry counts that entry once more and every other entry as before. */
  lemma CountStep<T>(s: seq<T>, k: nat)
    requires k < |s|
    ensures forall x :: multiset(s[..k + 1])[x] == multiset(s[..k])[x] + (if x == s[k] then 1 else 0)
  {
    assert s[..k + 1] == s[..k] + [s[k]];
  }

  // ---------------------------------------------------------------------------
  // The coordinator
  // ---------------------------------------------------------------------------

  /** What the profiler recorded: the call tree, its root frame (if any) and the speedscope
      view of it. */
  datatype Session = Session(arena: FrameArena, rootFrame: Option<FrameId>, speedscope: Speedscope)

  ghost predicate SessionValid(s: Session)
    reads s.arena
  {
    && s.arena.Valid() && Describes(s.speedscope, |s.arena.children|) && IndexedBy(s.speedscope, s.arena.frames)
    && (s.rootFrame.Some? ==> s.rootFrame.value < |s.arena.children|)
  }

  /** `rendered` is what the renderer makes of the session's tree once it is filtered: the
      tree, which stood as `before`, has been filtered of the framework's frames below the
      root frame into `after`, leaving `newRoots` in the root frame's place, and the
      OPEN/CLOSE streams of those roots are rendered in order from `startTime` on thread `tid`. */
  ghost predicate RenderedFrom(s: Session, before: Forest, after: Forest, locations: seq<string>, newRoots: seq<FrameId>,
                               startTime: int, tid: int, synthetic: set<string>, rendered: seq<TraceEvent>)
    requires s.rootFrame.Some? && Valid(before) && s.rootFrame.value < |before.children|
  {
    && FilteredRoots(before, Excluded(s.arena.frames, locations), s.rootFrame.value, after, newRoots)
    && Ordered(after.children) && Describes(s.speedscope, |after.children|)
    && AllBelow(newRoots, |after.children|)
    && rendered == RenderEvents(Stream(after.children, s.speedscope, newRoots), s.speedscope.index, startTime, tid, synthetic)
  }

  /** The session's tree as it stands, if there is a session. */
  function TreeOf(last: Option<Session>): (f: Forest)
    reads if last.Some? then {last.value.arena} else {}
    ensures last.Some? ==> f == last.value.arena.Tree()
  {
    if last.Some? then last.value.arena.Tree() else Forest([], [])
  }

  /** What rendering the recorded session `last`, whose tree stood as `before` and now
      stands as `after`, yields from `startTime` on thread `tid`: nothing without a session
      or without a root frame; otherwise the rendering of the roots left by filtering
      (RenderedFrom), and, for a root frame without a parent, roots that walk exactly the
      surviving frames in their original depth-first order and begin events named after
      the non-synthetic ones among them. */
  ghost predicate SessionRendered(last: Option<Session>, before: Forest, after: Forest, locations: seq<string>,
                                  newRoots: seq<FrameId>, startTime: int, tid: int, synthetic: set<string>,
                                  rendered: seq<TraceEvent>)
    requires last.Some? && last.value.rootFrame.Some? ==>
      Valid(before) && last.value.rootFrame.value < |before.children|
  {
    if last.None? || last.value.rootFrame.None? then rendered == []
    else
      var s, root := last.value, last.value.rootFrame.value;
      var survivors := Kept(Dfs(before.children, root), Excluded(s.arena.frames, locations));
      && RenderedFrom(s, before, after, locations, newRoots, startTime, tid, synthetic, rendered)
      && (before.parent[root].None? ==>
            && Walk(after.children, newRoots) == survivors
            && BeginNames(rendered) == DisplayNames(s.speedscope, synthetic, survivors))
  }

  class Profiler {
    var threadIds: map<int, nat>
    /** The thread idents in the order they were first seen. */
    ghost var seen: seq<int>
    /** Each subscriber is the event list its callback extends. */
    var subscribers: seq<EventList>

    ghost predicate Valid()
      reads this
    {
      Registry(threadIds, seen)
    }

    constructor ()
      ensures Valid() && threadIds == map[] && seen == [] && subscribers == []
    {
      threadIds := map[];
      seen := [];
      subscribers := [];
    }

    /** The logical id of thread `ident`, registering it when it is new. */
    method ThreadId(ident: int) returns (tid: nat)
      requires Valid()
      modifies this
      ensures Valid() && subscribers == old(subscribers)
      ensures threadIds == GetOrInsert(old(threadIds), ident).0 && tid == GetOrInsert(old(threadIds), ident).1
      ensures seen == if ident in old(seen) then old(seen) else old(seen) + [ident]
      ensures 1 <= tid <= |seen| && seen[tid - 1] == ident
    {
      if ident in threadIds {
        RegistryGetOrInsert(threadIds, seen, ident);
        tid := threadIds[ident];
      } else {
        RegistryGetOrInsert(threadIds, seen, ident);
        threadIds := threadIds[ident := |threadIds| + 1];
        seen := seen + [ident];
        tid := threadIds[ident];
      }
    }

    method Subscribe(subscriber: EventList)
      modifies this
      ensures subscribers == old(subscribers) + [subscriber]
      ensures threadIds == old(threadIds) && seen == old(seen)
    {
      subscribers := subscribers + [subscriber];
    }

    /** Hands `batch` to every subscriber in order; a list subscribed n times receives it n times. */
    method Notify(batch: seq<TraceEvent>)
      modifies subscribers
      ensures forall l :: l in subscribers ==>
        l.events == old(l.events) + Repeat(batch, multiset(subscribers)[l])
    {
      for k := 0 to |subscribers|
        invariant forall l :: l in subscribers ==>
          l.events == old(l.events) + Repeat(batch, multiset(subscribers[..k])[l])
      {
        var subscriber := subscribers[k];
        CountStep(subscribers, k);
        ghost var n := multiset(subscribers[..k])[subscriber];
        RepeatStep(old(subscriber.events), batch, n);
        subscriber.Extend(batch);
      }
      assert subscribers[..|subscribers|] == subscribers;
    }

    /** Profiles one region on behalf of thread `ident`: the region's begin event carries
        `args` (no arguments when None) and the thread's logical id; after the region the
        recorded session, if there is one, is filtered and rendered from the begin event's
        timestamp on that thread; the batch is handed to every subscriber. */
    method Profile(rootFrameName: string, isAsync: bool, args: Option<Args>, ident: int, clock: Clock,
                   lastSession: Option<Session>, locations: seq<string>, synthetic: set<string>)
      returns (batch: seq<TraceEvent>, asyncMode: string, ghost rendered: seq<TraceEvent>, ghost newRoots: seq<FrameId>)
      requires Valid()
      requires lastSession.Some? ==> SessionValid(lastSession.value)
      modifies this, subscribers, if lastSession.Some? then {lastSession.value.arena} else {}
      ensures Valid() && subscribers == old(subscribers)
      ensures threadIds == GetOrInsert(old(threadIds), ident).0
      ensures var tid := GetOrInsert(old(threadIds), ident).1;
        && 1 <= tid <= |seen| && seen[tid - 1] == ident
        && batch == Batch(rootFrameName, if args.None? then map[] else args.value, tid, clock, rendered)
        && Balanced(batch) && (forall j :: 0 <= j < |batch| ==> batch[j].tid == tid)
        && SessionRendered(lastSession, old(TreeOf(lastSession)), TreeOf(lastSession), locations, newRoots, clock.start, tid, synthetic, rendered)
      ensures asyncMode == if isAsync then "enabled" else "disabled"
      ensures forall l :: l in subscribers ==>
        l.events == old(l.events) + Repeat(batch, multiset(subscribers)[l])
    {
      var regionArgs: Args := if args.None? then map[] else args.value;
      ghost var before := TreeOf(lastSession);
      var threadId := ThreadId(ident);
      assert TreeOf(lastSession) == before;
      asyncMode := if isAsync then "enabled" else "disabled";
      batch, rendered, newRoots := RecordRegion(rootFrameName, regionArgs, threadId, clock, lastSession, locations, synthetic);
      ghost var after := TreeOf(lastSession);
      Notify(batch);
      // the subscribers are event lists: notifying them leaves the session's tree alone
      assert TreeOf(lastSession) == after;
    }
  }

  /** The batch of one region on thread `tid`: its begin event, then (after the region has
      run) the rendered session, if there is one, and the closing events. The session is
      rendered from the begin event's timestamp. */
  method RecordRegion(rootFrameName: string, regionArgs: Args, tid: nat, clock: Clock,
                      lastSession: Option<Session>, locations: seq<string>, synthetic: set<string>)
    returns (batch: seq<TraceEvent>, ghost rendered: seq<TraceEvent>, ghost newRoots: seq<FrameId>)
    requires lastSession.Some? ==> SessionValid(lastSession.value)
    modifies if lastSession.Some? then {lastSession.value.arena} else {}
    ensures batch == Batch(rootFrameName, regionArgs, tid, clock, rendered)
    ensures Balanced(batch) && forall j :: 0 <= j < |batch| ==> batch[j].tid == tid
    ensures SessionRendered(lastSession, old(TreeOf(lastSession)), TreeOf(lastSession), locations, newRoots, clock.start, tid, synthetic, rendered)
  {
    var result := [];
    var startEvent := BeginDurationEvent(rootFrameName, "test", clock.start, tid := tid, args := regionArgs);
    result := result + [startEvent];
    // the profiled region runs here
    var endEvent := EndDurationEvent(clock.end, tid := tid);
    var startRenderingEvent := BeginDurationEvent(DumpingFrames, "pytest", clock.dumping, tid := tid);
    var events;
    events, newRoots := RenderSession(lastSession, locations, startEvent.ts, tid, synthetic);
    rendered := events;
    result := result + events;
    var endRenderingEvent := EndDurationEvent(clock.dumped, tid := tid);
    result := result + [endEvent, startRenderingEvent, endRenderingEvent];
    assert result == Batch(rootFrameName, regionArgs, tid, clock, rendered);
    BatchBalanced(rootFrameName, regionArgs, tid, clock, rendered);
    batch := result;
  }

  /** Renders the recorded session, if there is one, from `startTime` on thread `tid`: nothing
      without a session or without a root frame, otherwise the rendering of the roots left by
      filtering the session's tree. */
  method RenderSession(lastSession: Option<Session>, locations: seq<string>, startTime: int, tid: int,
                       synthetic: set<string>) returns (rendered: seq<TraceEvent>, ghost newRoots: seq<FrameId>)
    requires lastSession.Some? ==> SessionValid(lastSession.value)
    modifies if lastSession.Some? then {lastSession.value.arena} else {}
    ensures Balanced(rendered) && forall j :: 0 <= j < |rendered| ==> rendered[j].tid == tid
    ensures SessionRendered(lastSession, old(TreeOf(lastSession)), TreeOf(lastSession), locations, newRoots, startTime, tid, synthetic, rendered)
  {
    rendered, newRoots := [], [];
    if lastSession.Some? {
      var s := lastSession.value;
      rendered, newRoots := Render(s.arena, s.rootFrame, locations, startTime, tid, synthetic, s.speedscope);
    }
  }
}
