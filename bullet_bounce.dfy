/**
 * game/src/rules/BulletBounce.ts: on every `BulletHitWall` event that
 * carries a bullet, take one bounce off that bullet and report how many
 * remain. The parameter `maxBounces` is validated and reported, but the
 * rule never reads it, and the counter is not kept from going negative.
 */
module BulletBounceRule {
  import opened Wrappers
  import opened Values
  import opened RuleCore
  import opened TelemetryLog

  const RULE_TYPE: string := "BulletBounce"

  /** The range the constructor validates against, written into it. */
  const PARAM_RANGES: seq<ParamRange> := [ParamRange("maxBounces", 0.0, 6.0)]

  const HIT_WALL: string := "BulletHitWall"
  const BOUNCE_EVENT: string := "rule_effect:bullet_bounce"

  datatype BounceConfig = BounceConfig(params: map<string, Value>, maxBounces: real)

  function ConfigOf(params: map<string, Value>): (c: BounceConfig)
    requires Validation(params, PARAM_RANGES).None?
    ensures c.params == params
    ensures 0.0 <= c.maxBounces <= 6.0 && params["maxBounces"] == Num(c.maxBounces)
  {
    ValidationSucceedsIff(params, PARAM_RANGES);
    assert InRange(params, PARAM_RANGES[0]);
    BounceConfig(params, params["maxBounces"].n)
  }

  /** What `onStart` emits. */
  function StartEmissions(c: BounceConfig): seq<Emission>
  {
    [RuleStartEmission(RULE_TYPE, c.params)]
  }

  function BounceEmission(remaining: int): Emission
  {
    Emission(BOUNCE_EVENT, Obj(map["remaining" := Num(remaining as real)]))
  }

  datatype EventOutcome = EventOutcome(counter: Option<int>, emitted: seq<Emission>)

  /**
   * What `onEvent(ctx, evt, data)` does, given the `bouncesRemaining` of the
   * bullet `data` carries (None when there is no bullet).
   */
  function EventStep(evt: string, counter: Option<int>): EventOutcome
  {
    if evt == HIT_WALL && counter.Some? then
      EventOutcome(Some(counter.value - 1), [BounceEmission(counter.value - 1)])
    else EventOutcome(counter, [])
  }

  datatype RunOutcome = RunOutcome(counter: int, emitted: seq<Emission>)

  /** A sequence of events delivered with the same bullet. */
  function Run(counter: int, events: seq<string>): RunOutcome
    decreases |events|
  {
    if events == [] then RunOutcome(counter, [])
    else
      var pre := Run(counter, events[..|events| - 1]);
      var out := EventStep(events[|events| - 1], Some(pre.counter));
      RunOutcome(out.counter.value, pre.emitted + out.emitted)
  }

  function Hits(events: seq<string>): nat
    decreases |events|
  {
    if events == [] then 0
    else Hits(events[..|events| - 1]) + (if events[|events| - 1] == HIT_WALL then 1 else 0)
  }

  /**
   * After a run the counter has dropped by exactly the number of wall hits,
   * with one bounce event per hit and none for any other event; nothing
   * consults `maxBounces` and nothing stops the counter below 0.
   */
  lemma {:induction false} CounterDropsOncePerHit(counter: int, events: seq<string>)
    ensures Run(counter, events).counter == counter - Hits(events)
    ensures |Run(counter, events).emitted| == Hits(events)
    ensures CountNamed(Run(counter, events).emitted, BOUNCE_EVENT) == Hits(events)
    decreases |events|
  {
    if events != [] {
      var prefix := events[..|events| - 1];
      CounterDropsOncePerHit(counter, prefix);
      var pre := Run(counter, prefix);
      var out := EventStep(events[|events| - 1], Some(pre.counter));
      CountNamedAppend(pre.emitted, out.emitted, BOUNCE_EVENT);
      assert out.emitted != [] ==> out.emitted[..0] == [];
    }
  }

  /** The counter is unguarded: a bullet with no bounces left still bounces, to -1. */
  lemma CounterGoesNegative()
    ensures Run(0, [HIT_WALL]) == RunOutcome(-1, [BounceEmission(-1)])
  {
    assert [HIT_WALL][..0] == [];
  }

  // ----- the host's wall-hit path (game/src/scenes/GameScene.ts:251-263) -----

  datatype HostOutcome = HostOutcome(counter: int, destroyed: bool, bounceEvents: nat)

  /**
   * What the game loop does on each of `hits` world-bounds hits of one
   * bullet, with one BulletBounce rule active: a bullet with bounces left
   * records a bounce (one decrement) and the event goes to the rule (a
   * second decrement); a bullet with none left is destroyed.
   */
  function HostHits(counter: int, hits: nat): HostOutcome
    decreases hits
  {
    if hits == 0 then HostOutcome(counter, false, 0)
    else
      var pre := HostHits(counter, hits - 1);
      if pre.destroyed then pre
      else if pre.counter > 0 then
        var ruled := EventStep(HIT_WALL, Some(pre.counter - 1));
        HostOutcome(ruled.counter.value, false, pre.bounceEvents + |ruled.emitted|)
      else HostOutcome(pre.counter, true, pre.bounceEvents)
  }

  /**
   * With both decrements, a bullet that starts with `n >= 0` bounces yields
   * only `(n + 1) / 2` bounce events however often it hits a wall
   * (one, not two, for `n = 2`).
   */
  lemma {:induction false} HostBounceEvents(n: int, hits: nat)
    requires n >= 0
    ensures HostHits(n, hits).bounceEvents == if hits < (n + 1) / 2 then hits else (n + 1) / 2
    ensures !HostHits(n, hits).destroyed ==> HostHits(n, hits).counter == n - 2 * hits
    ensures HostHits(n, hits).destroyed <==> hits > (n + 1) / 2
    decreases hits
  {
    if hits > 0 {
      HostBounceEvents(n, hits - 1);
    }
  }

  /**
   * The wall-hit path with one decrement per hit, as the bounce budget is
   * meant to work: a bullet with bounces left hands the event to the rule,
   * which takes the bounce off; a bullet with none left is destroyed.
   */
  function SingleDecrementHits(counter: int, hits: nat): HostOutcome
    decreases hits
  {
    if hits == 0 then HostOutcome(counter, false, 0)
    else
      var pre := SingleDecrementHits(counter, hits - 1);
      if pre.destroyed then pre
      else if pre.counter > 0 then
        var ruled := EventStep(HIT_WALL, Some(pre.counter));
        HostOutcome(ruled.counter.value, false, pre.bounceEvents + |ruled.emitted|)
      else HostOutcome(pre.counter, true, pre.bounceEvents)
  }

  /**
   * With one decrement per hit, a bullet that starts with `n >= 0` bounces
   * yields one bounce event per hit until `n` have been used, its counter
   * stops at 0, and the hit after the last bounce destroys it.
   */
  lemma {:induction false} SingleDecrementBounceEvents(n: int, hits: nat)
    requires n >= 0
    ensures SingleDecrementHits(n, hits).bounceEvents == if hits < n then hits else n
    ensures SingleDecrementHits(n, hits).counter == if hits < n then n - hits else 0
    ensures SingleDecrementHits(n, hits).destroyed <==> hits > n
    decreases hits
  {
    if hits > 0 {
      SingleDecrementBounceEvents(n, hits - 1);
    }
  }

  /** Two bounces, three hits: two bounce events with one decrement per hit, one with the two decrements GameScene.ts and Bullet.ts make. */
  lemma TwoBouncesThreeHits()
    ensures SingleDecrementHits(2, 3) == HostOutcome(0, true, 2)
    ensures HostHits(2, 3) == HostOutcome(0, true, 1)
  {
    SingleDecrementBounceEvents(2, 3);
    HostBounceEvents(2, 3);
    HostBounceEvents(2, 1);
    assert HostHits(2, 1) == HostOutcome(0, false, 1);
  }

  class BulletBounce {
    const ruleType: string := RULE_TYPE
    const params: map<string, Value>
    const maxBounces: real

    function Config(): BounceConfig
    {
      BounceConfig(params, maxBounces)
    }

    /** The construction that follows a successful validation. */
    constructor (params: map<string, Value>)
      requires Validation(params, PARAM_RANGES).None?
      ensures Config() == ConfigOf(params)
    {
      this.params := params;
      maxBounces := ConfigOf(params).maxBounces;
    }

    method OnStart(ctx: RuleContext, now: int)
      modifies ctx.telemetry
      ensures old(ctx.telemetry.Valid()) ==> ctx.telemetry.Valid()
      ensures ctx.telemetry.events == old(ctx.telemetry.events) + Stamped(StartEmissions(Config()), now - old(ctx.telemetry.startTime))
      ensures ctx.telemetry.startTime == old(ctx.telemetry.startTime)
    {
      ctx.telemetry.Emit(now, "rule_start", Some(Obj(map["type" := Str(ruleType), "params" := Obj(params)])));
    }

    /** `onEvent(ctx, evt, data)`, with `data.bullet` passed as `bullet` (null when absent). */
    method OnEvent(ctx: RuleContext, evt: string, bullet: BulletEntity?, now: int)
      modifies ctx.telemetry, bullet
      ensures old(ctx.telemetry.Valid()) ==> ctx.telemetry.Valid()
      ensures var out := EventStep(evt, old(BulletOf(bullet)));
        && BulletOf(bullet) == out.counter
        && ctx.telemetry.events == old(ctx.telemetry.events) + Stamped(out.emitted, now - old(ctx.telemetry.startTime))
        && ctx.telemetry.startTime == old(ctx.telemetry.startTime)
    {
      if evt == HIT_WALL && bullet != null {
        bullet.bouncesRemaining := bullet.bouncesRemaining - 1;
        ctx.telemetry.Emit(now, BOUNCE_EVENT, Some(Obj(map["remaining" := Num(bullet.bouncesRemaining as real)])));
      }
    }
  }

  /** The bullet's counter as a value; None when there is no bullet. */
  function BulletOf(b: BulletEntity?): Option<int>
    reads b
  {
    if b == null then None else Some(b.bouncesRemaining)
  }

  /**
   * `new BulletBounce(params)`: validate against the written-in range and
   * throw the validation error, or produce the rule.
   */
  method NewBulletBounce(params: map<string, Value>) returns (r: Result<BulletBounce, ParamError>)
    ensures r.Err? <==> Validation(params, PARAM_RANGES).Some?
    ensures r.Err? ==> Validation(params, PARAM_RANGES) == Some(r.error)
    ensures r.Ok? ==> fresh(r.value) && r.value.Config() == ConfigOf(params)
  {
    var failure := ValidateParams(params, RuleCatalogEntry(PARAM_RANGES, []));
    if failure.Some? {
      return Err(failure.value);
    }
    var rule := new BulletBounce(params);
    r := Ok(rule);
  }
}
