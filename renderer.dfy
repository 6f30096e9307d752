/**
 * Turning a filtered call tree into Chrome trace events.
 *
 * pyinstrument's speedscope renderer is not part of this model. What it reports about a
 * profile is taken as a value, `Speedscope`: for every frame of the arena the index of its
 * speedscope frame and the offsets at which the frame opens and closes, and the table from
 * speedscope frame index back to the frame's name, file and line. The OPEN/CLOSE stream of
 * a root is the depth-first walk of its subtree (`Stream`).
 *
 * Each OPEN becomes a begin event and each CLOSE an end event on the caller's thread,
 * unless the frame's name is one of the profiler's synthetic leaf names; the streams of
 * the roots left by filtering are rendered one after the other.
 */
module PerfettoRenderer {
  import opened Wrappers
  import opened FrameForest
  import opened FrameFilter
  import opened TraceEvents
  import Decimal

  datatype SpeedscopeEventType = OPEN | CLOSE

  datatype SpeedscopeFrame = SpeedscopeFrame(name: Option<string>, file: Option<string>, line: Option<int>)

  /** `frame` is a speedscope frame index; `at` is an offset from the start of the session. */
  datatype SpeedscopeEvent = SpeedscopeEvent(kind: SpeedscopeEventType, at: int, frame: nat)

  /** The speedscope view of an arena: `key[n]`, `openAt[n]` and `closeAt[n]` are frame n's
      speedscope frame index and the offsets of its OPEN and CLOSE events; `index` maps a
      speedscope frame index back to its frame. */
  datatype Speedscope = Speedscope(key: seq<nat>, openAt: seq<int>, closeAt: seq<int>, index: map<nat, SpeedscopeFrame>)

  /** `ss` has an entry for every one of the `n` frames of an arena. */
  ghost predicate Describes(ss: Speedscope, n: nat)
  {
    |ss.key| == n && |ss.openAt| == n && |ss.closeAt| == n
  }

  /** `ss` was taken from the arena whose frame records are `frames`: an index entry, where
      there is one, is the name, file and line of the frame it stands for. */
  ghost predicate IndexedBy(ss: Speedscope, frames: seq<FrameInfo>)
  {
    forall c :: 0 <= c < |ss.key| && c < |frames| && ss.key[c] in ss.index ==>
      ss.index[ss.key[c]] == SpeedscopeFrame(frames[c].name, frames[c].filePath, frames[c].line)
  }

  // ---------------------------------------------------------------------------
  // The OPEN/CLOSE stream of a forest
  // ---------------------------------------------------------------------------

  function OpenOf(ss: Speedscope, c: FrameId): SpeedscopeEvent
    requires c < |ss.key| && c < |ss.openAt|
  {
    SpeedscopeEvent(OPEN, ss.openAt[c], ss.key[c])
  }

  function CloseOf(ss: Speedscope, c: FrameId): SpeedscopeEvent
    requires c < |ss.key| && c < |ss.closeAt|
  {
    SpeedscopeEvent(CLOSE, ss.closeAt[c], ss.key[c])
  }

  /** Every frame of the subtrees rooted at `cs` opens, its children's streams follow, and it closes. */
  function StreamBelow(ch: seq<seq<FrameId>>, ss: Speedscope, cs: seq<FrameId>, bound: nat): (r: seq<SpeedscopeEvent>)
    requires Ordered(ch) && bound <= |ch| && AllBelow(cs, bound) && Describes(ss, |ch|)
    decreases bound, |cs|
  {
    if cs == [] then []
    else
      ChildBelow(ch, cs[0]);
      [OpenOf(ss, cs[0])] + StreamBelow(ch, ss, ch[cs[0]], cs[0]) + [CloseOf(ss, cs[0])]
      + StreamBelow(ch, ss, cs[1..], bound)
  }

  /** The OPEN/CLOSE stream of the forest whose roots are `cs`, in order. */
  function Stream(ch: seq<seq<FrameId>>, ss: Speedscope, cs: seq<FrameId>): (r: seq<SpeedscopeEvent>)
    requires Ordered(ch) && AllBelow(cs, |ch|) && Describes(ss, |ch|)
  {
    StreamBelow(ch, ss, cs, |ch|)
  }

  lemma {:induction false} StreamBelowAnyBound(ch: seq<seq<FrameId>>, ss: Speedscope, cs: seq<FrameId>, b1: nat, b2: nat)
    requires Ordered(ch) && b1 <= |ch| && b2 <= |ch| && Describes(ss, |ch|)
    requires AllBelow(cs, b1) && AllBelow(cs, b2)
    ensures StreamBelow(ch, ss, cs, b1) == StreamBelow(ch, ss, cs, b2)
    decreases |cs|
  {
    if cs != [] {
      StreamBelowAnyBound(ch, ss, cs[1..], b1, b2);
    }
  }

  lemma StreamCons(ch: seq<seq<FrameId>>, ss: Speedscope, cs: seq<FrameId>)
    requires Ordered(ch) && cs != [] && AllBelow(cs, |ch|) && Describes(ss, |ch|)
    ensures AllBelow(ch[cs[0]], |ch|)
    ensures Stream(ch, ss, cs) ==
      [OpenOf(ss, cs[0])] + Stream(ch, ss, ch[cs[0]]) + [CloseOf(ss, cs[0])] + Stream(ch, ss, cs[1..])
  {
    ChildBelow(ch, cs[0]);
    StreamBelowAnyBound(ch, ss, ch[cs[0]], cs[0], |ch|);
  }

  /** The stream of a list of roots is the streams of the roots one after the other. */
  lemma {:induction false} StreamAppend(ch: seq<seq<FrameId>>, ss: Speedscope, a: seq<FrameId>, b: seq<FrameId>)
    requires Ordered(ch) && AllBelow(a, |ch|) && AllBelow(b, |ch|) && Describes(ss, |ch|)
    ensures Stream(ch, ss, a + b) == Stream(ch, ss, a) + Stream(ch, ss, b)
    decreases |a|
  {
    if a == [] {
      assert a + b == b;
      assert Stream(ch, ss, a) == [];
    } else {
      assert AllBelow(a[1..], |ch|) && AllBelow(a[1..] + b, |ch|);
      StreamCons(ch, ss, a);
      var x := [OpenOf(ss, a[0])] + Stream(ch, ss, ch[a[0]]) + [CloseOf(ss, a[0])];
      var y, z := Stream(ch, ss, a[1..]), Stream(ch, ss, b);
      assert Stream(ch, ss, a + b) == x + Stream(ch, ss, a[1..] + b) by {
        assert (a + b)[0] == a[0] && (a + b)[1..] == a[1..] + b;
        StreamCons(ch, ss, a + b);
      }
      assert Stream(ch, ss, a[1..] + b) == y + z by {
        StreamAppend(ch, ss, a[1..], b);
      }
      assert x + (y + z) == x + y + z;
    }
  }

  /** The nesting depth after the stream `es`, starting at `depth`; None when a CLOSE
      closes nothing. */
  function Nesting(es: seq<SpeedscopeEvent>, depth: nat): Option<nat>
    decreases |es|
  {
    if es == [] then Some(depth)
    else if es[0].kind == OPEN then Nesting(es[1..], depth + 1)
    else if depth == 0 then None
    else Nesting(es[1..], depth - 1)
  }

  lemma {:induction false} NestingAppend(a: seq<SpeedscopeEvent>, b: seq<SpeedscopeEvent>, depth: nat)
    ensures Nesting(a + b, depth) == if Nesting(a, depth).None? then None else Nesting(b, Nesting(a, depth).value)
    decreases |a|
  {
    if a == [] {
      assert a + b == b;
    } else {
      assert (a + b)[0] == a[0] && (a + b)[1..] == a[1..] + b;
      if a[0].kind == OPEN {
        NestingAppend(a[1..], b, depth + 1);
      } else if depth > 0 {
        NestingAppend(a[1..], b, depth - 1);
      }
    }
  }

  /** The number of OPEN events. */
  function Opens(es: seq<SpeedscopeEvent>): (n: nat)
    ensures n <= |es|
  {
    if es == [] then 0 else (if es[0].kind == OPEN then 1 else 0) + Opens(es[1..])
  }

  lemma {:induction false} OpensAppend(a: seq<SpeedscopeEvent>, b: seq<SpeedscopeEvent>)
    ensures Opens(a + b) == Opens(a) + Opens(b)
    decreases |a|
  {
    if a == [] {
      assert a + b == b;
    } else {
      assert (a + b)[0] == a[0] && (a + b)[1..] == a[1..] + b;
      OpensAppend(a[1..], b);
    }
  }

  /** The stream of a forest is well nested: every frame's CLOSE matches its OPEN. */
  lemma {:induction false} StreamBelowNested(ch: seq<seq<FrameId>>, ss: Speedscope, cs: seq<FrameId>, bound: nat, depth: nat)
    requires Ordered(ch) && bound <= |ch| && AllBelow(cs, bound) && Describes(ss, |ch|)
    ensures Nesting(StreamBelow(ch, ss, cs, bound), depth) == Some(depth)
    decreases bound, |cs|
  {
    if cs != [] {
      var c := cs[0];
      ChildBelow(ch, c);
      var o, inner, e, rest := [OpenOf(ss, c)], StreamBelow(ch, ss, ch[c], c), [CloseOf(ss, c)], StreamBelow(ch, ss, cs[1..], bound);
      assert Nesting(o, depth) == Some(depth + 1) by {
        assert o[1..] == [];
      }
      StreamBelowNested(ch, ss, ch[c], c, depth + 1);
      NestingAppend(o, inner, depth);
      assert Nesting(e, depth + 1) == Some(depth) by {
        assert e[1..] == [];
      }
      NestingAppend(o + inner, e, depth);
      StreamBelowNested(ch, ss, cs[1..], bound, depth);
      NestingAppend(o + inner + e, rest, depth);
    }
  }

  /** Each frame of the walk opens exactly once in the stream. */
  lemma {:induction false} StreamBelowOpens(ch: seq<seq<FrameId>>, ss: Speedscope, cs: seq<FrameId>, bound: nat)
    requires Ordered(ch) && bound <= |ch| && AllBelow(cs, bound) && Describes(ss, |ch|)
    ensures Opens(StreamBelow(ch, ss, cs, bound)) == |WalkBelow(ch, cs, bound)|
    decreases bound, |cs|
  {
    if cs != [] {
      var c := cs[0];
      ChildBelow(ch, c);
      var o, inner, e, rest := [OpenOf(ss, c)], StreamBelow(ch, ss, ch[c], c), [CloseOf(ss, c)], StreamBelow(ch, ss, cs[1..], bound);
      StreamBelowOpens(ch, ss, ch[c], c);
      StreamBelowOpens(ch, ss, cs[1..], bound);
      OpensAppend(o + inner + e, rest);
      OpensAppend(o + inner, e);
      OpensAppend(o, inner);
      assert o[1..] == [] && e[1..] == [];
    }
  }

  lemma StreamShape(ch: seq<seq<FrameId>>, ss: Speedscope, cs: seq<FrameId>)
    requires Ordered(ch) && AllBelow(cs, |ch|) && Describes(ss, |ch|)
    ensures Nesting(Stream(ch, ss, cs), 0) == Some(0)
    ensures Opens(Stream(ch, ss, cs)) == |Walk(ch, cs)|
    ensures |Stream(ch, ss, cs)| == 2 * |Walk(ch, cs)|
  {
    StreamBelowNested(ch, ss, cs, |ch|, 0);
    StreamBelowOpens(ch, ss, cs, |ch|);
    StreamBelowLength(ch, ss, cs, |ch|);
  }

  /** Two events, an OPEN and a CLOSE, per frame of the walk. */
  lemma {:induction false} StreamBelowLength(ch: seq<seq<FrameId>>, ss: Speedscope, cs: seq<FrameId>, bound: nat)
    requires Ordered(ch) && bound <= |ch| && AllBelow(cs, bound) && Describes(ss, |ch|)
    ensures |StreamBelow(ch, ss, cs, bound)| == 2 * |WalkBelow(ch, cs, bound)|
    decreases bound, |cs|
  {
    if cs != [] {
      ChildBelow(ch, cs[0]);
      StreamBelowLength(ch, ss, ch[cs[0]], cs[0]);
      StreamBelowLength(ch, ss, cs[1..], bound);
    }
  }

  // ---------------------------------------------------------------------------
  // One speedscope event
  // ---------------------------------------------------------------------------

  /** Python's `s or d` on an optional string: `d` for None and for the empty string. */
  function OrElse(s: Option<string>, d: string): string
  {
    if s.Some? && s.value != [] then s.value else d
  }

  /** The frame stored under a speedscope index; None when the index has no entry. */
  function Lookup(index: map<nat, SpeedscopeFrame>, k: nat): Option<SpeedscopeFrame>
  {
    if k in index then Some(index[k]) else None
  }

  function NameOf(sf: Option<SpeedscopeFrame>): Option<string>
  {
    if sf.Some? then sf.value.name else None
  }

  function FileOf(sf: Option<SpeedscopeFrame>): Option<string>
  {
    if sf.Some? then sf.value.file else None
  }

  function LineOf(sf: Option<SpeedscopeFrame>): Option<int>
  {
    if sf.Some? then sf.value.line else None
  }

  /** A name in the profiler's set of synthetic leaf names; a missing name is not one. */
  predicate Synthetic(name: Option<string>, synthetic: set<string>)
  {
    name.Some? && name.value in synthetic
  }

  /** The trace events for one speedscope event: a begin event for an OPEN and an end event
      for a CLOSE, on thread `tid` at `at + startTime`, and nothing for a synthetic frame. */
  function RenderEvent(e: SpeedscopeEvent, index: map<nat, SpeedscopeFrame>, startTime: int, tid: int,
                       synthetic: set<string>): (r: seq<TraceEvent>)
    ensures var sf := Lookup(index, e.frame);
      |r| == if Synthetic(NameOf(sf), synthetic) then 0 else 1
    ensures r != [] ==>
      && r[0].ts == e.at + startTime && r[0].tid == tid && r[0].pid == 1
      && (r[0].BeginDurationEvent? <==> e.kind == OPEN)
      && (r[0].EndDurationEvent? <==> e.kind == CLOSE)
    ensures r != [] && e.kind == OPEN ==>
      var sf := Lookup(index, e.frame);
      && r[0].name == OrElse(NameOf(sf), "nothing") && r[0].name != []
      && r[0].cat == "runtime"
      && r[0].args.Keys == {"file", "line", "name"}
      && r[0].args["file"] == Str(OrElse(FileOf(sf), ""))
      && r[0].args["name"] == Str(OrElse(NameOf(sf), ""))
      && r[0].args["line"].Str?
      && Decimal.ParseInt(r[0].args["line"].s) == Some(if LineOf(sf).Some? then LineOf(sf).value else 0)
  {
    var sf := Lookup(index, e.frame);
    var ts := e.at + startTime;
    if Synthetic(NameOf(sf), synthetic) then []
    else match e.kind
      case OPEN =>
        var line := if LineOf(sf).Some? then LineOf(sf).value else 0;
        Decimal.IntToStringRoundTrip(line);
        [BeginDurationEvent(
           OrElse(NameOf(sf), "nothing"), "runtime", ts, tid := tid,
           args := map["file" := Str(OrElse(FileOf(sf), "")),
                       "line" := Str(Decimal.IntToString(line)),
                       "name" := Str(OrElse(NameOf(sf), ""))])]
      case CLOSE => [EndDurationEvent(ts, tid := tid)]
  }

  /** The begin event of a frame that survived filtering carries that frame's own name, file
      and line, and its file contains none of the framework's locations: the file that
      decides exclusion is the file written into the event. */
  lemma KeptFrameArgs(ss: Speedscope, frames: seq<FrameInfo>, locations: seq<string>, c: FrameId,
                      startTime: int, tid: int, synthetic: set<string>)
    requires IndexedBy(ss, frames) && Describes(ss, |frames|) && c < |frames|
    requires c !in Excluded(frames, locations) && ss.key[c] in ss.index
    ensures var r := RenderEvent(OpenOf(ss, c), ss.index, startTime, tid, synthetic);
      && (r == [] <==> Synthetic(frames[c].name, synthetic))
      && (r != [] ==>
        && r[0].args["file"] == Str(OrElse(frames[c].filePath, ""))
        && r[0].args["name"] == Str(OrElse(frames[c].name, ""))
        && Decimal.ParseInt(r[0].args["line"].s) == Some(if frames[c].line.Some? then frames[c].line.value else 0)
        && forall j :: 0 <= j < |locations| && frames[c].filePath.Some? && frames[c].filePath.value != [] ==>
             !Contains(frames[c].filePath.value, locations[j]))
  {
    assert Lookup(ss.index, ss.key[c]) == Some(SpeedscopeFrame(frames[c].name, frames[c].filePath, frames[c].line));
  }

  // ---------------------------------------------------------------------------
  // A stream of speedscope events
  // ---------------------------------------------------------------------------

  /** The trace events for a stream, event by event, in order. */
  function RenderEvents(es: seq<SpeedscopeEvent>, index: map<nat, SpeedscopeFrame>, startTime: int, tid: int,
                        synthetic: set<string>): (r: seq<TraceEvent>)
    ensures |r| <= |es|
    ensures forall j :: 0 <= j < |r| ==> r[j].tid == tid && r[j].pid == 1 && !r[j].InstantEvent?
  {
    if es == [] then []
    else RenderEvent(es[0], index, startTime, tid, synthetic) + RenderEvents(es[1..], index, startTime, tid, synthetic)
  }

  lemma {:induction false} RenderEventsAppend(a: seq<SpeedscopeEvent>, b: seq<SpeedscopeEvent>,
                                              index: map<nat, SpeedscopeFrame>, startTime: int, tid: int,
                                              synthetic: set<string>)
    ensures RenderEvents(a + b, index, startTime, tid, synthetic)
         == RenderEvents(a, index, startTime, tid, synthetic) + RenderEvents(b, index, startTime, tid, synthetic)
    decreases |a|
  {
    if a == [] {
      assert a + b == b;
    } else {
      var head := RenderEvent(a[0], index, startTime, tid, synthetic);
      assert (a + b)[0] == a[0] && (a + b)[1..] == a[1..] + b;
      RenderEventsAppend(a[1..], b, index, startTime, tid, synthetic);
      var rest := RenderEvents(a[1..], index, startTime, tid, synthetic);
      var tail := RenderEvents(b, index, startTime, tid, synthetic);
      assert head + (rest + tail) == (head + rest) + tail;
    }
  }

  lemma RenderEventsOne(e: SpeedscopeEvent, index: map<nat, SpeedscopeFrame>, startTime: int, tid: int,
                        synthetic: set<string>)
    ensures RenderEvents([e], index, startTime, tid, synthetic) == RenderEvent(e, index, startTime, tid, synthetic)
  {
    assert [e][1..] == [];
  }

  /** The names of the begin events, in order. */
  function BeginNames(ts: seq<TraceEvent>): (r: seq<string>)
    ensures |r| <= |ts|
  {
    if ts == [] then []
    else (if ts[0].BeginDurationEvent? then [ts[0].name] else []) + BeginNames(ts[1..])
  }

  lemma {:induction false} BeginNamesAppend(a: seq<TraceEvent>, b: seq<TraceEvent>)
    ensures BeginNames(a + b) == BeginNames(a) + BeginNames(b)
    decreases |a|
  {
    if a == [] {
      assert a + b == b;
    } else {
      var head := if a[0].BeginDurationEvent? then [a[0].name] else [];
      assert (a + b)[0] == a[0] && (a + b)[1..] == a[1..] + b;
      assert BeginNames(a + b) == head + BeginNames(a[1..] + b);
      BeginNamesAppend(a[1..], b);
      assert BeginNames(a) == head + BeginNames(a[1..]);
    }
  }

  lemma BeginNamesSplit(a: seq<TraceEvent>, b: seq<TraceEvent>, c: seq<TraceEvent>, d: seq<TraceEvent>)
    ensures BeginNames(a + b + c + d) == BeginNames(a) + (BeginNames(b) + (BeginNames(c) + BeginNames(d)))
  {
    var na, nb, nc, nd := BeginNames(a), BeginNames(b), BeginNames(c), BeginNames(d);
    assert BeginNames(a + b) == na + nb by {
      BeginNamesAppend(a, b);
    }
    assert BeginNames(a + b + c) == na + nb + nc by {
      BeginNamesAppend(a + b, c);
    }
    assert BeginNames(a + b + c + d) == na + nb + nc + nd by {
      BeginNamesAppend(a + b + c, d);
    }
    assert na + nb + nc + nd == na + (nb + (nc + nd));
  }

  /** The speedscope frame of arena frame `n`, if the table has it. */
  function FrameOf(ss: Speedscope, n: FrameId): Option<SpeedscopeFrame>
  {
    if n < |ss.key| then Lookup(ss.index, ss.key[n]) else None
  }

  /** The begin-event names that the frames `ws` produce, in order: a frame's name, or
      "nothing" when it has none, for every frame that is not synthetic. */
  function DisplayNames(ss: Speedscope, synthetic: set<string>, ws: seq<FrameId>): (r: seq<string>)
    ensures |r| <= |ws|
  {
    if ws == [] then []
    else
      var name := NameOf(FrameOf(ss, ws[0]));
      (if Synthetic(name, synthetic) then [] else [OrElse(name, "nothing")])
      + DisplayNames(ss, synthetic, ws[1..])
  }

  lemma {:induction false} DisplayNamesAppend(ss: Speedscope, synthetic: set<string>, a: seq<FrameId>, b: seq<FrameId>)
    ensures DisplayNames(ss, synthetic, a + b) == DisplayNames(ss, synthetic, a) + DisplayNames(ss, synthetic, b)
    decreases |a|
  {
    if a == [] {
      assert a + b == b;
    } else {
      assert (a + b)[1..] == a[1..] + b;
      DisplayNamesAppend(ss, synthetic, a[1..], b);
    }
  }

  lemma DisplayNamesSplit(ss: Speedscope, synthetic: set<string>, a: seq<FrameId>, b: seq<FrameId>, c: seq<FrameId>)
    ensures DisplayNames(ss, synthetic, a + b + c)
         == DisplayNames(ss, synthetic, a) + (DisplayNames(ss, synthetic, b) + DisplayNames(ss, synthetic, c))
  {
    DisplayNamesAppend(ss, synthetic, a + b, c);
    DisplayNamesAppend(ss, synthetic, a, b);
  }

  /** The rendering of one frame's OPEN and CLOSE: both are kept or both are dropped, and
      a kept OPEN names the frame as DisplayNames does. */
  lemma RenderFrameEvents(ss: Speedscope, c: FrameId, startTime: int, tid: int, synthetic: set<string>)
    requires c < |ss.key| && c < |ss.openAt| && c < |ss.closeAt|
    ensures var o := RenderEvents([OpenOf(ss, c)], ss.index, startTime, tid, synthetic);
            var e := RenderEvents([CloseOf(ss, c)], ss.index, startTime, tid, synthetic);
      && |o| == |e|
      && (o != [] ==> o[0].BeginDurationEvent? && e[0].EndDurationEvent?)
      && BeginNames(o) == DisplayNames(ss, synthetic, [c])
      && BeginNames(e) == []
  {
    RenderEventsOne(OpenOf(ss, c), ss.index, startTime, tid, synthetic);
    RenderEventsOne(CloseOf(ss, c), ss.index, startTime, tid, synthetic);
    assert [c][1..] == [];
  }

  /** Rendering a stream: every begin event is closed by an end event, innermost first. */
  lemma {:induction false} RenderStreamBelowBalanced(ch: seq<seq<FrameId>>, ss: Speedscope, cs: seq<FrameId>, bound: nat,
                                                     startTime: int, tid: int, synthetic: set<string>)
    requires Ordered(ch) && bound <= |ch| && AllBelow(cs, bound) && Describes(ss, |ch|)
    ensures Balanced(RenderEvents(StreamBelow(ch, ss, cs, bound), ss.index, startTime, tid, synthetic))
    decreases bound, |cs|
  {
    if cs != [] {
      var c := cs[0];
      ChildBelow(ch, c);
      var o, inner, e, rest := [OpenOf(ss, c)], StreamBelow(ch, ss, ch[c], c), [CloseOf(ss, c)], StreamBelow(ch, ss, cs[1..], bound);
      var ro := RenderEvents(o, ss.index, startTime, tid, synthetic);
      var ri := RenderEvents(inner, ss.index, startTime, tid, synthetic);
      var re := RenderEvents(e, ss.index, startTime, tid, synthetic);
      var rr := RenderEvents(rest, ss.index, startTime, tid, synthetic);
      RenderStreamBelowBalanced(ch, ss, ch[c], c, startTime, tid, synthetic);
      RenderStreamBelowBalanced(ch, ss, cs[1..], bound, startTime, tid, synthetic);
      RenderFrameEvents(ss, c, startTime, tid, synthetic);
      RenderEventsAppend(o + inner + e, rest, ss.index, startTime, tid, synthetic);
      RenderEventsAppend(o + inner, e, ss.index, startTime, tid, synthetic);
      RenderEventsAppend(o, inner, ss.index, startTime, tid, synthetic);
      if ro == [] {
        assert ro + ri + re == ri;
      } else {
        assert ro == [ro[0]] && re == [re[0]];
        BalancedWrap(ro[0], ri, re[0]);
      }
      BalancedAppend(ro + ri + re, rr);
    }
  }

  /** Rendering a stream: the begin events name the non-synthetic frames of the walk, in
      depth-first order. */
  lemma {:induction false} RenderStreamBelowNames(ch: seq<seq<FrameId>>, ss: Speedscope, cs: seq<FrameId>, bound: nat,
                                                  startTime: int, tid: int, synthetic: set<string>)
    requires Ordered(ch) && bound <= |ch| && AllBelow(cs, bound) && Describes(ss, |ch|)
    ensures BeginNames(RenderEvents(StreamBelow(ch, ss, cs, bound), ss.index, startTime, tid, synthetic))
         == DisplayNames(ss, synthetic, WalkBelow(ch, cs, bound))
    decreases bound, |cs|
  {
    if cs != [] {
      var c := cs[0];
      ChildBelow(ch, c);
      var o, inner, e, rest := [OpenOf(ss, c)], StreamBelow(ch, ss, ch[c], c), [CloseOf(ss, c)], StreamBelow(ch, ss, cs[1..], bound);
      var ro := RenderEvents(o, ss.index, startTime, tid, synthetic);
      var ri := RenderEvents(inner, ss.index, startTime, tid, synthetic);
      var re := RenderEvents(e, ss.index, startTime, tid, synthetic);
      var rr := RenderEvents(rest, ss.index, startTime, tid, synthetic);
      RenderStreamBelowNames(ch, ss, ch[c], c, startTime, tid, synthetic);
      RenderStreamBelowNames(ch, ss, cs[1..], bound, startTime, tid, synthetic);
      RenderFrameEvents(ss, c, startTime, tid, synthetic);
      RenderEventsAppend(o + inner + e, rest, ss.index, startTime, tid, synthetic);
      RenderEventsAppend(o + inner, e, ss.index, startTime, tid, synthetic);
      RenderEventsAppend(o, inner, ss.index, startTime, tid, synthetic);
      BeginNamesSplit(ro, ri, re, rr);
      DisplayNamesSplit(ss, synthetic, [c], WalkBelow(ch, ch[c], c), WalkBelow(ch, cs[1..], bound));
      assert BeginNames(re) + BeginNames(rr) == BeginNames(rr);
    }
  }

  lemma RenderStream(ch: seq<seq<FrameId>>, ss: Speedscope, cs: seq<FrameId>, startTime: int, tid: int,
                     synthetic: set<string>)
    requires Ordered(ch) && AllBelow(cs, |ch|) && Describes(ss, |ch|)
    ensures var out := RenderEvents(Stream(ch, ss, cs), ss.index, startTime, tid, synthetic);
      Balanced(out) && BeginNames(out) == DisplayNames(ss, synthetic, Walk(ch, cs))
  {
    RenderStreamBelowBalanced(ch, ss, cs, |ch|, startTime, tid, synthetic);
    RenderStreamBelowNames(ch, ss, cs, |ch|, startTime, tid, synthetic);
  }

  // ---------------------------------------------------------------------------
  // The renderer's loops
  // ---------------------------------------------------------------------------

  /** Renders the speedscope events of one root, one after the other. */
  method RenderRootFrame(events: seq<SpeedscopeEvent>, index: map<nat, SpeedscopeFrame>, startTime: int, tid: int,
                         synthetic: set<string>) returns (result: seq<TraceEvent>)
    ensures result == RenderEvents(events, index, startTime, tid, synthetic)
  {
    result := [];
    for k := 0 to |events|
      invariant result == RenderEvents(events[..k], index, startTime, tid, synthetic)
    {
      var e := events[k];
      ghost var before := result;
      var name := NameOf(Lookup(index, e.frame));
      var file := FileOf(Lookup(index, e.frame));
      var line := LineOf(Lookup(index, e.frame));
      var timestamp := e.at + startTime;
      if e.kind == OPEN && !Synthetic(name, synthetic) {
        var lineText := Decimal.IntToString(if line.Some? then line.value else 0);
        var begin := BeginDurationEvent(
          OrElse(name, "nothing"), "runtime", timestamp, tid := tid,
          args := map["file" := Str(OrElse(file, "")), "line" := Str(lineText), "name" := Str(OrElse(name, ""))]);
        assert RenderEvent(e, index, startTime, tid, synthetic) == [begin];
        result := result + [begin];
      } else if e.kind == CLOSE && !Synthetic(name, synthetic) {
        assert RenderEvent(e, index, startTime, tid, synthetic) == [EndDurationEvent(timestamp, tid := tid)];
        result := result + [EndDurationEvent(timestamp, tid := tid)];
      } else {
        assert RenderEvent(e, index, startTime, tid, synthetic) == [];
      }
      assert RenderEvents(events[..k + 1], index, startTime, tid, synthetic) == before + RenderEvent(e, index, startTime, tid, synthetic) by {
        assert events[..k + 1] == events[..k] + [e];
        RenderEventsAppend(events[..k], [e], index, startTime, tid, synthetic);
        RenderEventsOne(e, index, startTime, tid, synthetic);
      }
    }
    assert events[..|events|] == events;
  }

  /** Renders the roots left by filtering, one after the other, and concatenates their events. */
  method RenderRoots(children: seq<seq<FrameId>>, roots: seq<FrameId>, ss: Speedscope, startTime: int, tid: int,
                     synthetic: set<string>) returns (events: seq<TraceEvent>)
    requires Ordered(children) && AllBelow(roots, |children|) && Describes(ss, |children|)
    ensures events == RenderEvents(Stream(children, ss, roots), ss.index, startTime, tid, synthetic)
  {
    events := [];
    for k := 0 to |roots|
      invariant events == RenderEvents(Stream(children, ss, roots[..k]), ss.index, startTime, tid, synthetic)
    {
      var root := roots[k];
      var rendered := RenderRootFrame(Stream(children, ss, [root]), ss.index, startTime, tid, synthetic);
      events := events + rendered;
      assert roots[..k + 1] == roots[..k] + [root];
      StreamAppend(children, ss, roots[..k], [root]);
      RenderEventsAppend(Stream(children, ss, roots[..k]), Stream(children, ss, [root]), ss.index, startTime, tid, synthetic);
    }
    assert roots[..|roots|] == roots;
  }

  /** Filters the session's tree of the framework's frames and renders what is left: no
      events without a root frame; otherwise the roots left by filtering (`newRoots`, the
      three outcomes of FrameArena.RemovePytestRelatedFrames) are rendered in order from
      `startTime` on thread `tid`. For a root frame without a parent, the begin events then
      name, in depth-first order, exactly the frames that survive filtering and are not
      synthetic; every begin event is closed by an end event. */
  method Render(arena: FrameArena, rootFrame: Option<FrameId>, locations: seq<string>, startTime: int, tid: int,
                synthetic: set<string>, ss: Speedscope) returns (events: seq<TraceEvent>, ghost newRoots: seq<FrameId>)
    requires arena.Valid() && Describes(ss, |arena.children|) && IndexedBy(ss, arena.frames)
    requires rootFrame.Some? ==> rootFrame.value < |arena.children|
    modifies arena
    ensures rootFrame.None? ==> events == [] && arena.children == old(arena.children) && arena.parent == old(arena.parent)
    ensures arena.Valid() && |arena.children| == old(|arena.children|) && Balanced(events)
    ensures forall j :: 0 <= j < |events| ==> events[j].tid == tid
    ensures rootFrame.Some? ==>
      var root, x := rootFrame.value, Excluded(arena.frames, locations);
      && AllBelow(newRoots, |arena.children|)
      && events == RenderEvents(Stream(arena.children, ss, newRoots), ss.index, startTime, tid, synthetic)
      && FilteredRoots(old(arena.Tree()), x, root, arena.Tree(), newRoots)
    ensures rootFrame.Some? && old(arena.parent[rootFrame.value]).None? ==>
      && Walk(arena.children, newRoots) == Kept(Dfs(old(arena.children), rootFrame.value), Excluded(arena.frames, locations))
      && BeginNames(events) == DisplayNames(ss, synthetic,
           Kept(Dfs(old(arena.children), rootFrame.value), Excluded(arena.frames, locations)))
  {
    newRoots := [];
    if rootFrame.None? {
      return [], newRoots;
    }
    var roots := arena.RemovePytestRelatedFrames(rootFrame.value, locations);
    newRoots := roots;
    assert AllBelow(roots, |arena.children|);
    events := RenderRoots(arena.children, roots, ss, startTime, tid, synthetic);
    RenderStream(arena.children, ss, roots, startTime, tid, synthetic);
  }
}
