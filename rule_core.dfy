/**
 * The shared vocabulary of game/src/engine/RuleEngine.ts that the rules
 * themselves depend on: the entity snapshot a rule sees, the rule context,
 * catalog entries and the catalog-driven parameter check `validateParams`.
 */
module RuleCore {
  import opened Wrappers
  import opened Values
  import Random
  import TelemetryLog

  /** The two player fields a rule touches. */
  class PlayerEntity {
    var hp: real
    var isMoving: bool

    constructor (hp: real, isMoving: bool)
      ensures this.hp == hp && this.isMoving == isMoving
    {
      this.hp := hp;
      this.isMoving := isMoving;
    }
  }

  /** The one bullet field a rule touches. */
  class BulletEntity {
    var bouncesRemaining: int

    constructor (bouncesRemaining: int)
      ensures this.bouncesRemaining == bouncesRemaining
    {
      this.bouncesRemaining := bouncesRemaining;
    }
  }

  /** `ctx.entities`: references into state owned by the game loop. */
  datatype Entities = Entities(player: PlayerEntity?, enemies: seq<object>, bullets: seq<BulletEntity>)

  datatype RuleContext = RuleContext(
    rng: Random.RNG,
    telemetry: TelemetryLog.Telemetry,
    gameTime: real,
    spec: Value,
    entities: Entities)

  /** A player as a value, for stating what a hook does to it. */
  datatype PlayerSnap = PlayerSnap(hp: real, isMoving: bool)

  function PlayerOf(p: PlayerEntity?): Option<PlayerSnap>
    reads p
  {
    if p == null then None else Some(PlayerSnap(p.hp, p.isMoving))
  }

  /** A telemetry event a hook emits, before the log stamps it with a time. */
  datatype Emission = Emission(event: string, data: Value)

  /** The log entries a run of emissions becomes when all are stamped `t`. */
  function Stamped(ems: seq<Emission>, t: int): (r: seq<TelemetryLog.TelemetryEvent>)
    ensures |r| == |ems|
    ensures forall i :: 0 <= i < |ems| ==> r[i] == TelemetryLog.TelemetryEvent(t, ems[i].event, Some(ems[i].data))
  {
    seq(|ems|, i requires 0 <= i < |ems| => TelemetryLog.TelemetryEvent(t, ems[i].event, Some(ems[i].data)))
  }

  /** One emission stamped `t` is one log entry. */
  lemma StampedOne(e: Emission, t: int)
    ensures Stamped([e], t) == [TelemetryLog.TelemetryEvent(t, e.event, Some(e.data))]
  {
  }

  lemma StampedAppend(a: seq<Emission>, b: seq<Emission>, t: int)
    ensures Stamped(a + b, t) == Stamped(a, t) + Stamped(b, t)
  {
    assert forall i :: 0 <= i < |a + b| ==> Stamped(a + b, t)[i] == (Stamped(a, t) + Stamped(b, t))[i];
  }

  /** How many of the emissions carry the event name `name`. */
  function CountNamed(ems: seq<Emission>, name: string): (n: nat)
    ensures n <= |ems|
    decreases |ems|
  {
    if ems == [] then 0
    else CountNamed(ems[..|ems| - 1], name) + (if ems[|ems| - 1].event == name then 1 else 0)
  }

  lemma {:induction false} CountNamedAppend(a: seq<Emission>, b: seq<Emission>, name: string)
    ensures CountNamed(a + b, name) == CountNamed(a, name) + CountNamed(b, name)
    decreases |b|
  {
    if b != [] {
      assert (a + b)[..|a + b| - 1] == a + b[..|b| - 1];
      CountNamedAppend(a, b[..|b| - 1], name);
    } else {
      assert a + b == a;
    }
  }

  /** The `rule_start` event every rule emits from its start hook. */
  function RuleStartEmission(ruleType: string, params: map<string, Value>): Emission
  {
    Emission("rule_start", Obj(map["type" := Str(ruleType), "params" := Obj(params)]))
  }

  /** One `name: [min, max]` entry of a catalog entry's `params`. */
  datatype ParamRange = ParamRange(key: string, min: real, max: real)

  /** A catalog entry; `params` keeps the object's key order. */
  datatype RuleCatalogEntry = RuleCatalogEntry(params: seq<ParamRange>, mustEmit: seq<string>)

  /** The two exceptions `validateParams` throws. */
  datatype ParamError =
    | MissingParam(key: string)
    | ParamOutOfRange(key: string, min: real, max: real, got: Value)

  /** `params[key]` is `undefined` or `null`. */
  predicate IsMissing(params: map<string, Value>, key: string)
  {
    key !in params || params[key] == Null
  }

  /** `params[key]` is a number within `[min, max]`. */
  predicate InRange(params: map<string, Value>, r: ParamRange)
  {
    r.key in params && params[r.key].Num? && r.min <= params[r.key].n <= r.max
  }

  /** The check of one catalog entry, in the order RuleEngine.ts checks it: presence first. */
  function CheckParam(params: map<string, Value>, r: ParamRange): (e: Option<ParamError>)
    ensures e == Some(MissingParam(r.key)) <==> IsMissing(params, r.key)
    ensures e.None? <==> InRange(params, r)
    ensures e.Some? && !IsMissing(params, r.key) ==> e.value.ParamOutOfRange? && e.value.key == r.key
  {
    if IsMissing(params, r.key) then Some(MissingParam(r.key))
    else if !params[r.key].Num? || params[r.key].n < r.min || params[r.key].n > r.max then
      Some(ParamOutOfRange(r.key, r.min, r.max, params[r.key]))
    else None
  }

  /** The outcome of `validateParams`: the first failing entry's error, if any. */
  function Validation(params: map<string, Value>, ranges: seq<ParamRange>): Option<ParamError>
    decreases |ranges|
  {
    if ranges == [] then None
    else if CheckParam(params, ranges[0]).Some? then CheckParam(params, ranges[0])
    else Validation(params, ranges[1..])
  }

  /** Validation succeeds exactly when every declared key holds an in-range number. */
  lemma {:induction false} ValidationSucceedsIff(params: map<string, Value>, ranges: seq<ParamRange>)
    ensures Validation(params, ranges).None? <==> forall i :: 0 <= i < |ranges| ==> InRange(params, ranges[i])
    decreases |ranges|
  {
    if ranges != [] {
      ValidationSucceedsIff(params, ranges[1..]);
      assert forall i :: 1 <= i < |ranges| ==> ranges[i] == ranges[1..][i - 1];
    }
  }

  /** Entry `i` fails with `e` and every entry before it passes. */
  predicate FirstFailureAt(params: map<string, Value>, ranges: seq<ParamRange>, i: int, e: ParamError)
  {
    0 <= i < |ranges| && CheckParam(params, ranges[i]) == Some(e) &&
    forall j :: 0 <= j < i ==> InRange(params, ranges[j])
  }

  /**
   * Validation fails with `e` exactly when some entry fails with `e` and
   * every entry before it passes: the first failure in catalog order decides.
   */
  lemma {:induction false} ValidationFirstFailure(params: map<string, Value>, ranges: seq<ParamRange>, e: ParamError)
    ensures Validation(params, ranges) == Some(e) <==> exists i :: FirstFailureAt(params, ranges, i, e)
    decreases |ranges|
  {
    if ranges != [] {
      ValidationFirstFailure(params, ranges[1..], e);
      var tail := ranges[1..];
      if Validation(params, ranges) == Some(e) {
        if CheckParam(params, ranges[0]).Some? {
          assert FirstFailureAt(params, ranges, 0, e);
        } else {
          var i :| FirstFailureAt(params, tail, i, e);
          forall j | 0 <= j < i + 1 ensures InRange(params, ranges[j]) {
            if j > 0 { assert ranges[j] == tail[j - 1]; }
          }
          assert FirstFailureAt(params, ranges, i + 1, e);
        }
      }
      if exists i :: FirstFailureAt(params, ranges, i, e) {
        var i :| FirstFailureAt(params, ranges, i, e);
        if i > 0 {
          assert InRange(params, ranges[0]);
          forall j | 0 <= j < i - 1 ensures InRange(params, tail[j]) {
            assert tail[j] == ranges[j + 1];
          }
          assert FirstFailureAt(params, tail, i - 1, e);
        }
      }
    }
  }

  /** `validateParams(params, catalog)`; the exception it throws is the error returned. */
  method ValidateParams(params: map<string, Value>, catalog: RuleCatalogEntry) returns (r: Option<ParamError>)
    ensures r == Validation(params, catalog.params)
    ensures r.None? <==> forall i :: 0 <= i < |catalog.params| ==> InRange(params, catalog.params[i])
  {
    var ranges := catalog.params;
    var i := 0;
    while i < |ranges|
      invariant 0 <= i <= |ranges|
      invariant Validation(params, ranges) == Validation(params, ranges[i..])
    {
      var entry := ranges[i];
      assert ranges[i..][1..] == ranges[i + 1..];
      var value := if entry.key in params then Some(params[entry.key]) else None;
      if value.None? || value.value == Null {
        return Some(MissingParam(entry.key));
      }
      if !value.value.Num? || value.value.n < entry.min || value.value.n > entry.max {
        return Some(ParamOutOfRange(entry.key, entry.min, entry.max, value.value));
      }
      i := i + 1;
    }
    r := None;
    ValidationSucceedsIff(params, ranges);
  }
}
