/**
 * The append-only event log of game/src/engine/Telemetry.ts. The clock
 * `performance.now()` is an input: every operation that reads it takes the
 * reading as `now` (whole milliseconds, so `Math.round` of the difference
 * is the difference itself).
 */
module TelemetryLog {
  import opened Wrappers
  import opened Values

  datatype TelemetryEvent = TelemetryEvent(t: int, event: string, data: Option<Value>)

  /** The two fields of a Telemetry object, as a value. */
  datatype LogState = LogState(events: seq<TelemetryEvent>, startTime: int)

  /** The operations that change a log. */
  datatype LogOp =
    | StartAt(now: int)
    | EmitAt(now: int, event: string, data: Option<Value>)
    | ClearLog

  /** The state a Telemetry object has after one operation. */
  function Apply(s: LogState, op: LogOp): LogState
  {
    match op
    case StartAt(now) => LogState([], now)
    case EmitAt(now, e, d) => LogState(s.events + [TelemetryEvent(now - s.startTime, e, d)], s.startTime)
    case ClearLog => LogState([], s.startTime)
  }

  /** The state after a sequence of operations, applied first to last. */
  function Replay(s: LogState, ops: seq<LogOp>): LogState
    decreases |ops|
  {
    if ops == [] then s else Apply(Replay(s, ops[..|ops| - 1]), ops[|ops| - 1])
  }

  /** Replaying a history is replaying all but its last operation, then applying that one. */
  lemma ReplaySnoc(ops: seq<LogOp>)
    requires ops != []
    ensures Replay(LogState([], 0), ops) == Apply(Replay(LogState([], 0), ops[..|ops| - 1]), ops[|ops| - 1])
  {
  }

  /** Whether the operation empties the log. */
  predicate IsReset(op: LogOp)
  {
    op.StartAt? || op.ClearLog?
  }

  /** The number of emits after the last start or clear in `ops`. */
  function EmitsSinceReset(ops: seq<LogOp>): nat
    decreases |ops|
  {
    if ops == [] then 0
    else if IsReset(ops[|ops| - 1]) then 0
    else EmitsSinceReset(ops[..|ops| - 1]) + 1
  }

  /**
   * count() after any history, starting from a new Telemetry object, is the
   * number of emits since the last start or clear.
   */
  lemma {:induction false} CountIsEmitsSinceReset(ops: seq<LogOp>)
    ensures |Replay(LogState([], 0), ops).events| == EmitsSinceReset(ops)
    decreases |ops|
  {
    if ops != [] {
      CountIsEmitsSinceReset(ops[..|ops| - 1]);
    }
  }

  /** The clock readings of the operations that have one. */
  predicate ClockNonDecreasing(ops: seq<LogOp>)
  {
    forall i, j :: 0 <= i < j < |ops| && !ops[i].ClearLog? && !ops[j].ClearLog? ==> ops[i].now <= ops[j].now
  }

  predicate TimesSorted(es: seq<TelemetryEvent>)
  {
    forall i, j :: 0 <= i < j < |es| ==> es[i].t <= es[j].t
  }

  /**
   * With a clock that never goes back and reads at least 0, the log of a new
   * Telemetry object stays ordered by timestamp, and every timestamp is
   * at most the latest reading taken relative to the time origin.
   */
  lemma {:induction false} ReplayKeepsTimesSorted(ops: seq<LogOp>, latest: int)
    requires ClockNonDecreasing(ops) && 0 <= latest
    requires forall i :: 0 <= i < |ops| && !ops[i].ClearLog? ==> 0 <= ops[i].now <= latest
    ensures TimesSorted(Replay(LogState([], 0), ops).events)
    ensures forall e :: e in Replay(LogState([], 0), ops).events ==> e.t <= latest - Replay(LogState([], 0), ops).startTime
    ensures Replay(LogState([], 0), ops).startTime <= latest
    decreases |ops|
  {
    if ops != [] {
      var init := ops[..|ops| - 1];
      var op := ops[|ops| - 1];
      var bound := if op.ClearLog? then latest else op.now;
      assert ClockNonDecreasing(init);
      forall i | 0 <= i < |init| && !init[i].ClearLog?
        ensures 0 <= init[i].now <= bound
      {
        assert init[i] == ops[i];
      }
      ReplayKeepsTimesSorted(init, bound);
    }
  }

  /**
   * `Array.prototype.slice(start)` with one argument: a negative start
   * counts from the end and is clipped at 0, a start past the end gives [].
   */
  function SliceFrom<T>(s: seq<T>, start: int): (r: seq<T>)
    ensures |r| <= |s| && r == s[|s| - |r|..]
  {
    var k := if start < 0 then (if |s| + start < 0 then 0 else |s| + start)
             else (if start < |s| then start else |s|);
    s[k..]
  }

  /** Array.prototype.some with a name test, scanning left to right. */
  function AnyNamed(es: seq<TelemetryEvent>, name: string): bool
    decreases |es|
  {
    if es == [] then false else es[0].event == name || AnyNamed(es[1..], name)
  }

  lemma {:induction false} AnyNamedIff(es: seq<TelemetryEvent>, name: string)
    ensures AnyNamed(es, name) <==> exists i :: 0 <= i < |es| && es[i].event == name
    decreases |es|
  {
    if es != [] {
      AnyNamedIff(es[1..], name);
      if AnyNamed(es[1..], name) {
        var i :| 0 <= i < |es| - 1 && es[1..][i].event == name;
        assert es[i + 1].event == name;
      }
      if exists i :: 0 <= i < |es| && es[i].event == name {
        var i :| 0 <= i < |es| && es[i].event == name;
        if i > 0 { assert es[1..][i - 1].event == name; }
      }
    }
  }

  class Telemetry {
    var events: seq<TelemetryEvent>
    var startTime: int
    /** The starts, emits and clears this object has seen, oldest first. */
    ghost var ops: seq<LogOp>

    /** The object's fields as a LogState. */
    function State(): LogState
      reads this
    {
      LogState(events, startTime)
    }

    /** The fields are what the recorded history makes of a new log. */
    ghost predicate Valid()
      reads this
    {
      State() == Replay(LogState([], 0), ops)
    }

    constructor ()
      ensures events == [] && startTime == 0
      ensures ops == [] && Valid()
    {
      events := [];
      startTime := 0;
      ops := [];
    }

    method Start(now: int)
      modifies this
      ensures events == [] && startTime == now
      ensures State() == Apply(old(State()), StartAt(now))
      ensures ops == old(ops) + [StartAt(now)]
      ensures old(Valid()) ==> Valid()
    {
      events := [];
      startTime := now;
      ops := ops + [StartAt(now)];
      ReplaySnoc(ops);
    }

    method Emit(now: int, event: string, data: Option<Value>)
      modifies this
      ensures events == old(events) + [TelemetryEvent(now - old(startTime), event, data)]
      ensures startTime == old(startTime)
      ensures State() == Apply(old(State()), EmitAt(now, event, data))
      ensures ops == old(ops) + [EmitAt(now, event, data)]
      ensures old(Valid()) ==> Valid()
    {
      events := events + [TelemetryEvent(now - startTime, event, data)];
      ops := ops + [EmitAt(now, event, data)];
      ReplaySnoc(ops);
    }

    /**
     * `dump()`: a new array holding a copy of each entry. The log is a value
     * held by this object, so nothing done to the array reaches it.
     */
    method Dump() returns (dump: array<TelemetryEvent>)
      ensures fresh(dump)
      ensures dump[..] == events
    {
      dump := new TelemetryEvent[|events|](i reads this requires 0 <= i < |events| => events[i]);
    }

    method Clear()
      modifies this
      ensures events == [] && startTime == old(startTime)
      ensures State() == Apply(old(State()), ClearLog)
      ensures ops == old(ops) + [ClearLog]
      ensures old(Valid()) ==> Valid()
    {
      events := [];
      ops := ops + [ClearLog];
      ReplaySnoc(ops);
    }

    /** `count()`: the number of emits since the last start or clear. */
    function Count(): (n: nat)
      reads this
      requires Valid()
      ensures n == EmitsSinceReset(ops)
    {
      CountIsEmitsSinceReset(ops);
      |events|
    }

    function HasEvent(name: string): (b: bool)
      reads this
      ensures b <==> exists i :: 0 <= i < |events| && events[i].event == name
    {
      AnyNamedIff(events, name);
      AnyNamed(events, name)
    }

    /** `last(n)`, which is `slice(-n)`. */
    function Last(n: int): (r: seq<TelemetryEvent>)
      reads this
      ensures 1 <= n <= |events| ==> r == events[|events| - n..]
      ensures n >= |events| || n == 0 ==> r == events
      ensures n < 0 ==> r == events[if -n < |events| then -n else |events|..]
    {
      SliceFrom(events, -n)
    }
  }
}
