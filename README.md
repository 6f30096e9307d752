# pytest-perfetto, modelled in Dafny

pytest-perfetto (later renamed perfsephone) is a pytest plugin that records a test run as a
Chrome Trace Event Format trace, ready to open in Perfetto. It has two sources of events:
- **Hooks.** pytest's hooks add begin/end duration events and instant events for the session, for collection, and for each test's phases and fixtures.
- **The sampling profiler.** A profiler wraps each test call and each fixture setup. It records a call tree, and the tree is turned into nested duration events on the calling thread's logical id.

This project models the core of that pipeline:

- **Trace events** (`trace_events.dfy`, module `TraceEvents`). This module holds:
  - the phases `B`/`E`/`i`;
  - the instant scopes `g`/`p`/`t`;
  - the begin, end and instant events with their defaults: process 1, thread 1, thread scope;
  - the nesting discipline of duration events (`Balanced`);
  - the shared, appendable event list (`EventList`).
- **Call tree and hoisting** (`frame_forest.dfy`, module `FrameForest`). The call tree is an arena of frames with ordered child lists and parent links. The module defines:
  - its depth-first order;
  - hoisting a frame as a value-level operation, with the splice laws.
- **Frame filter** (`frame_filter.dfy`, module `FrameFilter`). This module contains:
  - the exclusion predicate (substring containment of an install location in the frame's file path);
  - the class `FrameArena`, whose `Hoist` and `RemovePytestRelatedFrames` methods rewrite child lists and parent links in place, as the source does.
- **Renderer** (`renderer.dfy`, module `PerfettoRenderer`; `legacy_renderer.dfy`, module `LegacyRenderer`). Each surviving root's depth-first OPEN/CLOSE stream becomes begin/end events. There are two renderers:
  - the current one drops synthetic frames and tags events with the caller's thread id;
  - the older one renders every event on thread 1 and fails with a KeyError on an OPEN whose frame is not in the index.
- **Session coordinator** (`profiler.dfy`, module `SessionProfiler`). The class `Profiler` does three things:
  - it assigns dense logical thread ids, in first-seen order;
  - it brackets the rendered events of a profiled region with the region's begin/end pair and a "Dumping frames" pair;
  - it hands the batch to its subscribers in order.
- **Plugin** (`plugin.dfy`, module `PerfettoPlugin`; `legacy_plugin.dfy`, module `LegacyPlugin`). This covers:
  - the hooks, each modelled as a method that appends to the run's event list;
  - the plugin object, whose list is the profiler's only subscriber;
  - the location arguments of a test, with the line number written as decimal text (`decimal.dfy`, module `Decimal`);
  - the test report filter and the fixture arguments.

Where the two code generations differ, both are modelled. The `perfsephone/` files are the current plugin, renderer and profiler. The `src/pytest_perfetto/` files are the older plugin and renderer.

Hoisting and filtering are identical in the two renderer files, so they are modelled once. `src/pytest_perfetto/perfetto_renderer.py:31-63` has the same `is_pytest_related_frame`, `hoist` and `remove_pytest_related_frames` as `perfsephone/perfetto_renderer.py:36-68`. Likewise, `create_args_from_location` (`src/pytest_perfetto/plugin.py:157-165`) is the same function as `perfsephone/plugin.py:85-99`, and `PerfettoPlugin.CreateArgsFromLocation` serves both plugins.

Behaviour of the code worth noting, which the model follows:
- **Exclusion is a substring test** (`blacklisted_location in frame.file_path`). A location occurring anywhere in the path excludes the frame.
- **No release on failure.** The profiler has no `try`/`finally` around the profiled region. If the region raises, no closing events are built and no subscriber is notified. Only normal exit is modelled.
- **Report filter.** Here the two code generations differ. The current plugin's report hook skips the `"call"` phase as well as reports without a phase. The older one skips only reports without a phase. `LegacyPlugin.LogReportForms` states the difference.
- **Missing frames.** Here too the two code generations differ. The older renderer reads the frame name of an OPEN with a plain index. An OPEN whose frame is missing from the index therefore fails with a KeyError and ends the whole rendering, which `LegacyRenderer.RenderLegacy` returns as `Failure(KeyError(...))`. The current renderer uses `.get`, so a missing frame renders as `"nothing"`.

## Model

| member | source | states |
|---|---|---|
| Decimal.IntToStringRoundTrip | perfsephone/plugin.py:96-97 | `str(n)` of any integer (a line number) reads back as `n` |
| Decimal.ParseIntExactly | perfsephone/plugin.py:96-97 | a text reads back as `n` exactly when it is `str(n)`: no leading zeros, no "-0", nothing but an optional minus and digits |
| Decimal.IntToStringInjective | src/pytest_perfetto/plugin.py:162-163 | different line numbers give different `str` texts |
| TraceEvents.TraceEvent.Ph | src/pytest_perfetto/plugin.py:60-101 | the phase is B exactly for begin events, E exactly for end events, i exactly for instant events |
| TraceEvents.ParsePhase | src/pytest_perfetto/plugin.py:30-53 | a character is read as a phase iff it is one of the three phase letters, and it reads back to that letter |
| TraceEvents.PhaseRoundTrip | src/pytest_perfetto/plugin.py:48-53 | every phase's letter reads back as that phase |
| TraceEvents.ParseScope | src/pytest_perfetto/plugin.py:79-91 | a character is read as an instant scope iff it is `g`, `p` or `t`, and it reads back to that letter |
| TraceEvents.Defaults | src/pytest_perfetto/plugin.py:60-101 | events built without process, thread, args or scope get pid 1, tid 1, empty args and thread scope, with phases B/E/i |
| TraceEvents.BalancedAppend | src/pytest_perfetto/plugin.py:37-42 | two well-nested runs of duration events in a row are well nested |
| TraceEvents.BalancedWrap | src/pytest_perfetto/plugin.py:37-42 | a well-nested run between a begin and an end event is well nested |
| TraceEvents.EventList.Append | src/pytest_perfetto/plugin.py:104 | appending adds exactly the event at the end of the list |
| TraceEvents.EventList.Extend | perfsephone/plugin.py:33 | extending adds exactly the batch at the end of the list, in order |
| FrameFilter.Contains | perfsephone/perfetto_renderer.py:38 | true iff the location occurs at some position of the file path |
| FrameFilter.IsPytestRelatedFrame | perfsephone/perfetto_renderer.py:36-40 | a frame is the framework's iff its file path is present and non-empty and contains one of the locations; the same predicate as src/pytest_perfetto/perfetto_renderer.py:31-35 |
| FrameForest.HoistShape | perfsephone/perfetto_renderer.py:47-52 | hoisting a frame with a parent succeeds; its children replace it in the parent's list, it is left childless and detached, its children point to the parent, and every other list and link is unchanged |
| FrameForest.HoistPreservesValid | perfsephone/perfetto_renderer.py:51-52 | hoisting keeps the tree well formed: links and lists agree, no list repeats a frame, callees stay below callers |
| FrameForest.HoistSplicesChildren | perfsephone/perfetto_renderer.py:51-52 | the parent's children become `old[..i] + frame.children + old[i+1..]` where the frame stood at `i`; the count changes by k-1 and the frame is no longer among them; same code as src/pytest_perfetto/perfetto_renderer.py:46-47 |
| FrameForest.HoistChildlessDeletes | tests/test_perfetto_renderer.py:36-42 | hoisting a childless frame deletes it: the parent has one child fewer and the others keep their order |
| FrameForest.HoistMiddleOfThree | tests/test_perfetto_renderer.py:45-64 | hoisting the middle of three siblings with two children puts the children at positions 1 and 2 and the third sibling at 3 |
| FrameForest.HoistKeepsWalk | perfsephone/perfetto_renderer.py:51-52 | hoisting deletes exactly the hoisted frame from the depth-first order of the parent's subtree |
| FrameForest.HoistParentWalk | perfsephone/perfetto_renderer.py:51-52 | after hoisting, the parent's subtree walks through the siblings before the frame, the frame's children, then the siblings after it |
| FrameFilter.FrameArena.Hoist | perfsephone/perfetto_renderer.py:47-52 | a frame without a parent fails with RootFrameCannotBeHoisted and nothing changes; otherwise the tree becomes the hoisted tree and stays well formed |
| FrameFilter.FrameArena.RemovePytestRelatedFrames | perfsephone/perfetto_renderer.py:55-68 | filters the subtree in place over the children as they stood. It returns `[root]` for a kept root, the filtered children for an excluded root without a parent, and `[]` after hoisting an excluded root that has a parent. Every surviving frame of the subtree ends up with the surviving tops of its original children as children (each removed frame's children spliced in at its position), so the survivors keep their nesting; nothing outside the subtree changes but the parent's list after a hoist. For a parentless root, the returned forest walks in the original depth-first order minus the excluded frames, and none of its frames is the framework's |
| FrameFilter.LoopStart | perfsephone/perfetto_renderer.py:58-60 | before the child loop, no child is filtered and the tree is unchanged |
| FrameFilter.LoopStep | perfsephone/perfetto_renderer.py:58-60 | filtering the next child (as it stood before the loop) extends the filtered prefix by that child's survivors, with their nesting, and leaves the rest of the tree alone |
| FrameFilter.DoneKept | perfsephone/perfetto_renderer.py:68 | a root that is not the framework's keeps its place, with its filtered children |
| FrameFilter.DoneRoot | perfsephone/perfetto_renderer.py:62-63 | an excluded root without a parent stays in place, and its filtered children are what replaces it |
| FrameFilter.DoneHoist | perfsephone/perfetto_renderer.py:65-67 | an excluded root with a parent is hoisted: its surviving children take its place in the parent's list |
| FrameFilter.FilteredSurvivors | perfsephone/perfetto_renderer.py:62-68 | what replaces a filtered root holds exactly the surviving frames, in their original depth-first order, and no excluded frame |
| PerfettoRenderer.StreamShape | perfsephone/perfetto_renderer.py:82 | a root's OPEN/CLOSE stream is well nested, has one OPEN per frame of its subtree and twice as many events as frames |
| PerfettoRenderer.RenderEvent | perfsephone/perfetto_renderer.py:88-113 | A non-synthetic OPEN gives one begin event and a non-synthetic CLOSE one end event; a synthetic frame gives nothing. Events are at `at + start_time` on `tid`. A begin event has category "runtime", name `name or "nothing"` and args file `file or ""`, line that reads back as `line or 0` (which, by `Decimal.ParseIntExactly`, is exactly `str(line or 0)`), name `name or ""` |
| PerfettoRenderer.KeptFrameArgs | perfsephone/perfetto_renderer.py:36-40 | for a speedscope view taken from the arena's own frames (`IndexedBy`, a precondition of `Render`, `RenderLegacy` and every profiled session), the begin event of a frame that survived filtering carries that frame's own file, name and line, and that file contains none of the framework's locations; the event is dropped exactly when the frame's name is synthetic |
| PerfettoRenderer.RenderEvents | perfsephone/perfetto_renderer.py:88-113 | rendering a stream gives at most one event per speedscope event, all duration events on the caller's thread |
| PerfettoRenderer.RenderFrameEvents | perfsephone/perfetto_renderer.py:96-113 | a frame's OPEN and CLOSE are both kept or both dropped; a kept OPEN is a begin event named as the frame's display name |
| PerfettoRenderer.RenderStream | perfsephone/perfetto_renderer.py:80-117 | the rendered streams of a forest are well nested, and the begin events name the forest's non-synthetic frames in depth-first order |
| PerfettoRenderer.RenderRootFrame | perfsephone/perfetto_renderer.py:80-114 | the per-event loop renders exactly the stream, event by event, in order |
| PerfettoRenderer.RenderRoots | perfsephone/perfetto_renderer.py:116-117 | the roots are rendered in list order and their outputs concatenated: the rendering of the forest's stream |
| PerfettoRenderer.Render | perfsephone/perfetto_renderer.py:71-119 | no root frame gives `[]` and leaves the tree alone. Otherwise the tree is filtered (`FilteredRoots`: every survivor nested under its nearest surviving ancestor, and the three outcomes for the roots left), and the result is exactly `RenderEvents` of those roots' speedscope stream from `startTime` on `tid`: well nested, on `tid`, and for a parentless root its begin events name the surviving non-synthetic frames in depth-first order |
| LegacyRenderer.RenderEventLegacy | src/pytest_perfetto/perfetto_renderer.py:83-101 | An OPEN whose frame is not in the index fails with a KeyError; otherwise the event corresponds: a begin event for an OPEN (name `name or "nothing"`, raw file/line/name args) or an end event for a CLOSE. It is at `at + start_time` on pid 1, tid 1 |
| LegacyRenderer.RenderEventsLegacy | src/pytest_perfetto/perfetto_renderer.py:83-101 | a successful rendering has exactly one event per speedscope event |
| LegacyRenderer.RenderEventsLegacySpec | src/pytest_perfetto/perfetto_renderer.py:83-101 | rendering succeeds iff no OPEN's frame is missing; then event j corresponds to speedscope event j; otherwise the error is the KeyError of the first missing OPEN |
| LegacyRenderer.RenderEventsLegacyAppend | src/pytest_perfetto/perfetto_renderer.py:104-105 | rendering two streams in a row is rendering the first and then the second, stopping at the first error |
| LegacyRenderer.CorrespondingCounts | src/pytest_perfetto/perfetto_renderer.py:90-101 | an event-for-event rendering has as many begin events as OPENs and end events as CLOSEs, and nests as the stream does |
| LegacyRenderer.RenderRootFrameLegacy | src/pytest_perfetto/perfetto_renderer.py:75-102 | the per-event loop gives the stream's rendering, or the first KeyError |
| LegacyRenderer.RenderRootsLegacy | src/pytest_perfetto/perfetto_renderer.py:104-105 | the roots are rendered in order and concatenated, or the first KeyError is returned |
| LegacyRenderer.LegacyOutcome | src/pytest_perfetto/perfetto_renderer.py:83-107 | rendering a forest the older way either fails on a frame missing from the index or gives a well-nested run on thread 1 with one begin and one end event per frame of the forest |
| LegacyRenderer.RenderLegacy | src/pytest_perfetto/perfetto_renderer.py:66-107 | No root frame gives `[]` and leaves the tree alone. Otherwise the tree is filtered (`FilteredRoots`, as for `Render`) and the outcome is exactly `RenderEventsLegacy` of the remaining roots' stream from `startTime`. A failure names a frame missing from the index. A success is well nested on thread 1 and, for a parentless root, has one begin and one end event per surviving frame |
| SessionProfiler.GetOrInsert | perfsephone/profiler.py:30-34 | a known thread ident keeps its id and the map is unchanged; a new one is added; no entry is removed or changed |
| SessionProfiler.RegistryGetOrInsert | perfsephone/profiler.py:30-34 | the registry stays dense and in first-seen order: a new ident gets `len + 1`, and every id is its ident's first-seen position |
| SessionProfiler.RegistryInsert | perfsephone/profiler.py:33 | adding the next id for a new ident keeps ids 1..n unique and in first-seen order |
| SessionProfiler.SecondThreadGetsTwo | tests/test_fastapi_integration.py:35-37 | a second, different thread gets id 2 while the first keeps id 1 |
| SessionProfiler.Batch | perfsephone/profiler.py:36-52 | a region's batch has the rendered events plus four bracket events |
| SessionProfiler.BatchLayout | perfsephone/profiler.py:36-52 | The batch is: the region's begin (category "test", args, tid), then the rendered events, the region's end, and the "[pytest-perfetto] Dumping frames" begin (category "pytest") and end. With nothing rendered it is exactly the four |
| SessionProfiler.BatchBalanced | perfsephone/profiler.py:36-52 | a batch around well-nested rendered events on `tid` is well nested and entirely on `tid` |
| SessionProfiler.Profiler.constructor | perfsephone/profiler.py:14-16 | a new profiler has no thread ids and no subscribers |
| SessionProfiler.Profiler.ThreadId | perfsephone/profiler.py:28-34 | returns the ident's get-or-insert id, its position among the idents first seen |
| SessionProfiler.Profiler.Subscribe | perfsephone/profiler.py:55-56 | only appends the subscriber |
| SessionProfiler.Profiler.Notify | perfsephone/profiler.py:58-60 | every subscriber receives the batch once per subscription, in order, and nothing else |
| SessionProfiler.Profiler.Profile | perfsephone/profiler.py:18-53 | `args` defaults to an empty mapping; the thread gets its logical id and the registry records it. The batch has the fixed layout on that id and is well nested. Its rendered part is `[]` without a session or root frame; otherwise the session's tree has been filtered (`FilteredRoots`) and the rendered part is the rendering, from the region's start time, of the roots left, naming the surviving non-synthetic frames in depth-first order (`SessionRendered`). Every subscriber receives the batch once per subscription |
| SessionProfiler.RecordRegion | perfsephone/profiler.py:36-52 | assembles the fixed batch layout around the rendered session: nothing without a session or root frame, otherwise the session's tree filtered (`FilteredRoots`) and the rendering of the roots left from the begin event's timestamp (`clock.start`) on the same thread (`SessionRendered`) |
| SessionProfiler.RenderSession | perfsephone/profiler.py:49-50 | no recorded session or no root frame gives no rendered events; otherwise the session's tree is filtered (`FilteredRoots`, with the three outcomes) and the result is exactly the rendering of the roots left from `startTime` on `tid`, well nested (`SessionRendered`) |
| PerfettoPlugin.CreateArgsFromLocation | perfsephone/plugin.py:85-99 | Always has `file_name` and `test_name`. It has `line_number` iff the line is present, as text that reads back as the line (exactly `str(line)`, by `Decimal.ParseIntExactly`), and no other keys. The same function as src/pytest_perfetto/plugin.py:157-165 |
| PerfettoPlugin.CreateArgsInjective | perfsephone/plugin.py:85-99 | different locations give different arguments |
| PerfettoPlugin.LogReportEvents | perfsephone/plugin.py:115-122 | nothing when the phase is absent or `"call"`, otherwise exactly a begin named after the phase (category "test", at start) and an end at stop |
| PerfettoPlugin.FixtureArgs | perfsephone/plugin.py:142-149 | argnames, baseid and scope as given; params as the list of texts when non-empty, `""` otherwise |
| PerfettoPlugin.CollectionEvents | perfsephone/plugin.py:65-81 | a collection is a begin, one "[Item Collected] " instant per item in order, and an end: well nested |
| PerfettoPlugin.ItemEvents | perfsephone/plugin.py:75-76 | one instant named `"[Item Collected] " + nodeid` per collected item, in order |
| PerfettoPlugin.ItemEventsSnoc | perfsephone/plugin.py:65-81 | each item-collected hook appends one instant to what the earlier items produced, so the hooks in order build `CollectionEvents` |
| PerfettoPlugin.PytestPerfettoPlugin.constructor | perfsephone/plugin.py:30-33 | a fresh plugin has an empty event list that is the profiler's only subscriber |
| PerfettoPlugin.PytestPerfettoPlugin.SessionStart | perfsephone/plugin.py:36-46 | appends exactly `Begin("pytest session", "pytest")` |
| PerfettoPlugin.PytestPerfettoPlugin.SessionFinish | perfsephone/plugin.py:48-63 | appends exactly one end event |
| PerfettoPlugin.PytestPerfettoPlugin.Collection | perfsephone/plugin.py:65-73 | appends exactly `Begin("Start Collection", "pytest")` |
| PerfettoPlugin.PytestPerfettoPlugin.ItemCollected | perfsephone/plugin.py:75-76 | appends exactly the instant `"[Item Collected] " + nodeid` |
| PerfettoPlugin.PytestPerfettoPlugin.CollectionFinish | perfsephone/plugin.py:78-81 | appends exactly one end event |
| PerfettoPlugin.PytestPerfettoPlugin.LogStart | perfsephone/plugin.py:101-110 | appends exactly a begin named after the node id, category "test", with the location arguments |
| PerfettoPlugin.PytestPerfettoPlugin.LogFinish | perfsephone/plugin.py:112-113 | appends exactly one end event |
| PerfettoPlugin.PytestPerfettoPlugin.LogReport | perfsephone/plugin.py:115-122 | appends exactly the report's events (none for no phase or the call phase) |
| PerfettoPlugin.PytestPerfettoPlugin.MakeReportEnter | perfsephone/plugin.py:131-133 | before the report, appends exactly `Begin("pytest make report", "pytest")` |
| PerfettoPlugin.PytestPerfettoPlugin.MakeReportExit | perfsephone/plugin.py:134-135 | after the report, appends exactly one end event |
| PerfettoPlugin.PytestPerfettoPlugin.ProfiledRegion | perfsephone/plugin.py:128-129 | `with self.profiler(...)`: the batch lands once, unchanged, at the end of the run's events (their list is the sole subscriber), the thread's id is registered, and the rendered part is the filtered session's rendering (`SessionRendered`) |
| PerfettoPlugin.PytestPerfettoPlugin.PyfuncCall | perfsephone/plugin.py:124-129 | profiles a region named "call" with no args and async mode "enabled" iff the test function is a coroutine; the thread's id is registered; the batch lands once, unchanged, at the end of the events, and its rendered part is the filtered session's rendering on that id (`SessionRendered`) |
| PerfettoPlugin.PytestPerfettoPlugin.FixtureSetup | perfsephone/plugin.py:138-152 | profiles a region named after the fixture carrying its arguments; the thread's id is registered; the well-nested batch lands once, unchanged, at the end of the events, and its rendered part is the filtered session's rendering on that id (`SessionRendered`) |
| LegacyPlugin.LegacyLogReportEvents | src/pytest_perfetto/plugin.py:182-189 | nothing exactly when the phase is absent, otherwise exactly a begin event named after the phase in category "test" at the start time followed by an end event at the stop time |
| LegacyPlugin.LogReportForms | src/pytest_perfetto/plugin.py:182-189 | the two report filters agree except on the call phase, which only the older plugin records |
| LegacyPlugin.LegacyFixtureArgs | src/pytest_perfetto/plugin.py:197-203 | argnames, baseid and scope as given; ids and params as given (their strings, in order), null when absent |
| LegacyPlugin.SessionStart | src/pytest_perfetto/plugin.py:107-117 | appends exactly `Begin("pytest session", "pytest")` to the module-level list |
| LegacyPlugin.SessionFinish | src/pytest_perfetto/plugin.py:120-129 | appends exactly one end event |
| LegacyPlugin.Collection | src/pytest_perfetto/plugin.py:132-140 | appends exactly `Begin("Start Collection", "pytest")` |
| LegacyPlugin.ItemCollected | src/pytest_perfetto/plugin.py:143-144 | appends exactly the instant `"[Item Collected] " + nodeid` |
| LegacyPlugin.CollectionFinish | src/pytest_perfetto/plugin.py:147-150 | appends exactly one end event |
| LegacyPlugin.LogStart | src/pytest_perfetto/plugin.py:168-175 | appends exactly a begin named after the node id, category "test", with the location arguments |
| LegacyPlugin.LogFinish | src/pytest_perfetto/plugin.py:178-179 | appends exactly one end event |
| LegacyPlugin.LogReport | src/pytest_perfetto/plugin.py:182-189 | appends exactly the report's events (none only when there is no phase) |
| LegacyPlugin.FixtureSetupEnter | src/pytest_perfetto/plugin.py:195-204 | before setup, appends exactly a begin named after the fixture, category "test", with its arguments |
| LegacyPlugin.FixtureSetupExit | src/pytest_perfetto/plugin.py:205-206 | after setup, appends exactly one end event |
| LegacyPlugin.FixtureSetupBalanced | src/pytest_perfetto/plugin.py:195-206 | a fixture's begin, the well-nested events made during its setup and its end nest |

## Left out

- Wall-clock time: the `time.time()` default timestamps and the seconds-to-microseconds division before writing. Both are floating point. Every timestamp is an integer parameter; the profiler's four moments are a `Clock` value.
- pyinstrument: the recording itself, `Session.root_frame`, the speedscope renderer, `Frame.add_children`/`remove_from_parent` and `SYNTHETIC_LEAF_IDENTIFIERS`. These are foreign code. The model takes each of them differently:
  - the recorded tree is a `FrameArena`;
  - the speedscope view of it is a `Speedscope` value (frame index table and OPEN/CLOSE offsets), whose stream is the depth-first walk of the tree;
  - the synthetic names are a set parameter;
  - the child-list updates are the splice they perform.
- The blacklist construction from the `__file__` paths of pytest, pluggy and _pytest (perfsephone/perfetto_renderer.py:24-33). The locations are a parameter.
- `threading.get_ident()` and concurrency: the thread ident is a parameter of a sequential get-or-insert.
- The `async_mode` profiler setting is computed and returned; what it changes in the recording is not modelled.
- JSON serialisation, writing the trace file, the `--perfetto` option and the directory check (`pytest_addoption`, `pytest_configure`).
- perfsephone/fastapi.py, which patches a web framework's router to profile route handlers.
- The hook-wrapper and generator mechanics of pytest. A hook that appends before and after its `yield` is two methods, such as `MakeReportEnter`/`MakeReportExit` or `FixtureSetupEnter`/`FixtureSetupExit`.
- perfsephone/__init__.py is not part of this model. The current plugin's event classes are taken to be the same as those of src/pytest_perfetto/plugin.py.
- SessionProfiler.Profiler.Profile: only the normal exit is modelled. There is no `try`/`finally` in the source, so a raising region builds no closing events and notifies nobody. A subscriber that raises stops the notification. The list handed to the profiled region at its `yield` is not modelled, since no caller writes to it.
- SessionProfiler.Profiler.Notify: subscribers are the event lists their callbacks extend, which is the only kind of subscriber the plugin registers. Arbitrary callbacks are not modelled.
- PerfettoPlugin.FixtureArgs: `str()` of each fixture param is taken as given text, and the params are passed in already converted.
- PerfettoRenderer.Render: the depth-first naming of begin events is stated for a root frame without a parent, which is what a session's root frame is. For other frames, `FrameFilter.FrameArena.RemovePytestRelatedFrames` states what filtering does.
- LegacyRenderer.RenderLegacy: the begin/end counts are stated for a root frame without a parent, as for `Render`.
- LegacyPlugin.LegacyFixtureArgs: the source stores the fixture's `ids` and `params` as they are, which can be arbitrary objects (and `ids` a callable). The model takes both as lists of strings.
- Timestamp monotonicity of the rendered events is not stated; offsets are taken as given.
