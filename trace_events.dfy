/**
 * The events of the Chrome Trace Event Format that the plugin writes: duration
 * events (phases `B` and `E`, which nest like calls on one thread) and instant events
 * (phase `i`, drawn across the thread, the process or the whole trace).
 *
 * Timestamps are integers supplied by the caller; process and thread ids default to 1
 * and an instant event's scope defaults to the thread.
 */
module TraceEvents {
  import opened Wrappers

  /** The one-letter event type. */
  datatype Phase = B | E | i

  function PhaseChar(p: Phase): (c: char)
  {
    match p
    case B => 'B'
    case E => 'E'
    case i => 'i'
  }

  /** Reads a phase letter back; None for any other character. */
  function ParsePhase(c: char): (r: Option<Phase>)
    ensures r.Some? <==> exists p :: PhaseChar(p) == c
    ensures r.Some? ==> PhaseChar(r.value) == c
  {
    if c == 'B' then assert PhaseChar(B) == c; Some(B)
    else if c == 'E' then assert PhaseChar(E) == c; Some(E)
    else if c == 'i' then assert PhaseChar(i) == c; Some(i)
    else
      assert PhaseChar(B) != c && PhaseChar(E) != c && PhaseChar(i) != c;
      None
  }

  /** Documentation of the phase table: each phase's letter reads back as that phase. */
  lemma PhaseRoundTrip(p: Phase)
    ensures ParsePhase(PhaseChar(p)) == Some(p)
  {
  }

  /** How tall an instant event is drawn: the whole trace, one process, one thread. */
  datatype InstantScope = g | p | t

  function ScopeChar(s: InstantScope): (c: char)
  {
    match s
    case g => 'g'
    case p => 'p'
    case t => 't'
  }

  /** Reads a scope letter back; None for any other character. */
  function ParseScope(c: char): (r: Option<InstantScope>)
    ensures r.Some? <==> exists s :: ScopeChar(s) == c
    ensures r.Some? ==> ScopeChar(r.value) == c
  {
    if c == 'g' then assert ScopeChar(g) == c; Some(g)
    else if c == 'p' then assert ScopeChar(p) == c; Some(p)
    else if c == 't' then assert ScopeChar(t) == c; Some(t)
    else
      assert ScopeChar(g) != c && ScopeChar(p) != c && ScopeChar(t) != c;
      None
  }

  /** The values an event's `args` mapping holds. */
  datatype ArgValue = Str(s: string) | Strs(items: seq<string>) | Int(n: int) | Null

  type Args = map<string, ArgValue>

  datatype TraceEvent =
    | BeginDurationEvent(name: string, cat: string, ts: int, pid: int := 1, tid: int := 1, args: Args := map[])
    | EndDurationEvent(ts: int, pid: int := 1, tid: int := 1)
    | InstantEvent(name: string, ts: int, pid: int := 1, tid: int := 1, s: InstantScope := InstantScope.t)
  {
    /** The event's phase, fixed by its kind. */
    function Ph(): (ph: Phase)
      ensures ph == B <==> this.BeginDurationEvent?
      ensures ph == E <==> this.EndDurationEvent?
      ensures ph == i <==> this.InstantEvent?
    {
      match this
      case BeginDurationEvent(_, _, _, _, _, _) => B
      case EndDurationEvent(_, _, _) => E
      case InstantEvent(_, _, _, _, _) => i
    }
  }

  /** Documentation of the field defaults: events built without naming a process, thread
      or scope get process 1, thread 1 and thread scope. */
  lemma Defaults(name: string, cat: string, ts: int)
    ensures var b := BeginDurationEvent(name, cat, ts);
      b.pid == 1 && b.tid == 1 && b.args == map[] && b.Ph() == B
    ensures var e := EndDurationEvent(ts);
      e.pid == 1 && e.tid == 1 && e.Ph() == E
    ensures var n := InstantEvent(name, ts);
      n.pid == 1 && n.tid == 1 && n.s == InstantScope.t && n.Ph() == i
  {
  }

  // ---------------------------------------------------------------------------
  // Nesting of duration events
  // ---------------------------------------------------------------------------

  /** The nesting depth after `ts`, starting at `depth`; None when an end event closes
      nothing. Instant events do not nest. */
  function Scan(ts: seq<TraceEvent>, depth: nat): (r: Option<nat>)
    ensures r.Some? ==> r.value + |ts| >= depth
    decreases |ts|
  {
    if ts == [] then Some(depth)
    else match ts[0]
      case BeginDurationEvent(_, _, _, _, _, _) => Scan(ts[1..], depth + 1)
      case EndDurationEvent(_, _, _) => if depth == 0 then None else Scan(ts[1..], depth - 1)
      case InstantEvent(_, _, _, _, _) => Scan(ts[1..], depth)
  }

  /** Every end event closes the latest open begin event, and none stays open. */
  ghost predicate Balanced(ts: seq<TraceEvent>)
  {
    Scan(ts, 0) == Some(0)
  }

  /** Scanning a concatenation scans the parts one after the other. */
  lemma {:induction false} ScanAppend(a: seq<TraceEvent>, b: seq<TraceEvent>, depth: nat)
    ensures Scan(a + b, depth) == if Scan(a, depth).None? then None else Scan(b, Scan(a, depth).value)
    decreases |a|
  {
    if a != [] {
      assert (a + b)[0] == a[0] && (a + b)[1..] == a[1..] + b;
      match a[0]
      case BeginDurationEvent(_, _, _, _, _, _) => ScanAppend(a[1..], b, depth + 1);
      case EndDurationEvent(_, _, _) =>
        if depth > 0 {
          ScanAppend(a[1..], b, depth - 1);
        }
      case InstantEvent(_, _, _, _, _) => ScanAppend(a[1..], b, depth);
    } else {
      assert a + b == b;
    }
  }

  /** A balanced run returns to the depth it started from, whatever that depth. */
  lemma {:induction false} ScanShift(ts: seq<TraceEvent>, d: nat, k: nat)
    requires Scan(ts, d).Some?
    ensures Scan(ts, d + k) == Some(Scan(ts, d).value + k)
    decreases |ts|
  {
    if ts != [] {
      match ts[0]
      case BeginDurationEvent(_, _, _, _, _, _) => ScanShift(ts[1..], d + 1, k);
      case EndDurationEvent(_, _, _) => ScanShift(ts[1..], d - 1, k);
      case InstantEvent(_, _, _, _, _) => ScanShift(ts[1..], d, k);
    }
  }

  /** Balanced runs in a row are balanced. */
  lemma BalancedAppend(a: seq<TraceEvent>, b: seq<TraceEvent>)
    requires Balanced(a) && Balanced(b)
    ensures Balanced(a + b)
  {
    ScanAppend(a, b, 0);
  }

  /** A balanced run between a begin and an end event is balanced. */
  lemma BalancedWrap(open: TraceEvent, inner: seq<TraceEvent>, close: TraceEvent)
    requires open.BeginDurationEvent? && close.EndDurationEvent? && Balanced(inner)
    ensures Balanced([open] + inner + [close])
  {
    ScanAppend([open] + inner, [close], 0);
    ScanAppend([open], inner, 0);
    ScanShift(inner, 0, 1);
  }

  // ---------------------------------------------------------------------------
  // A list of events that several owners append to
  // ---------------------------------------------------------------------------

  /** A mutable list of events, shared by reference. */
  class EventList {
    var events: seq<TraceEvent>

    constructor ()
      ensures events == []
    {
      events := [];
    }

    method Append(e: TraceEvent)
      modifies this
      ensures events == old(events) + [e]
    {
      events := events + [e];
    }

    method Extend(es: seq<TraceEvent>)
      modifies this
      ensures events == old(events) + es
    {
      events := events + es;
    }
  }
}
