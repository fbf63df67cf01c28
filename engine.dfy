/**
 * game/src/engine/RuleEngine.ts: the registry of rule constructors,
 * `createRule`, and the engine that keeps the active rules in the order
 * they were added and hands each lifecycle hook to every rule in turn.
 *
 * The two rule classes are the closed set a `GameRule` can be. Each hook
 * pass is specified by a left fold over the rules' values (`RuleView`),
 * and each engine method is proved against its fold.
 */
module Engine {
  import opened Wrappers
  import opened Values
  import Random
  import TelemetryLog
  import opened RuleCore
  import Idle = NoIdleDamageRule
  import Bounce = BulletBounceRule
  import SpecLoader

  // ----- registry and createRule -----

  /** A registered constructor: which rule class `new RuleClass(params)` builds. */
  datatype RuleKind = NoIdleDamageKind | BulletBounceKind

  /** The `type` field of the rule each constructor builds. */
  function KindType(k: RuleKind): string
  {
    match k
    case NoIdleDamageKind => Idle.RULE_TYPE
    case BulletBounceKind => Bounce.RULE_TYPE
  }

  /** The ranges each constructor validates its parameters against. */
  function KindRanges(k: RuleKind): seq<ParamRange>
  {
    match k
    case NoIdleDamageKind => Idle.PARAM_RANGES
    case BulletBounceKind => Bounce.PARAM_RANGES
  }

  /** What `createRule` throws: an unknown type, or the constructor's validation error. */
  datatype RuleError = UnknownRuleType(ruleType: string) | BadParam(cause: ParamError)

  /** The error `createRule(ruleType, params)` throws, or None when it returns a rule. */
  function CreateFailure(registry: map<string, RuleKind>, ruleType: string, params: map<string, Value>): (e: Option<RuleError>)
    ensures ruleType !in registry ==> e == Some(UnknownRuleType(ruleType))
    ensures ruleType in registry ==>
      match Validation(params, KindRanges(registry[ruleType]))
      case None => e.None?
      case Some(p) => e == Some(BadParam(p))
  {
    if ruleType !in registry then Some(UnknownRuleType(ruleType))
    else
      var failure := Validation(params, KindRanges(registry[ruleType]));
      if failure.Some? then Some(BadParam(failure.value)) else None
  }

  /**
   * `createRule` succeeds exactly when the type is registered and every
   * range of the registered constructor holds; any catalog entry a caller
   * passes plays no part.
   */
  lemma CreateSucceedsIff(registry: map<string, RuleKind>, ruleType: string, params: map<string, Value>)
    ensures CreateFailure(registry, ruleType, params).None? <==>
      ruleType in registry &&
      forall i :: 0 <= i < |KindRanges(registry[ruleType])| ==> InRange(params, KindRanges(registry[ruleType])[i])
  {
    if ruleType in registry {
      ValidationSucceedsIff(params, KindRanges(registry[ruleType]));
    }
  }

  /** A rule the engine holds: one of the two rule classes. */
  datatype GameRule = IdleRule(idle: Idle.NoIdleDamage) | BounceRule(bounce: Bounce.BulletBounce)

  /** A rule's `type` field. */
  function RuleType(r: GameRule): string
  {
    match r
    case IdleRule(x) => x.ruleType
    case BounceRule(b) => b.ruleType
  }

  /** The module-level `ruleRegistry` with `registerRule` and `createRule`. */
  class RuleRegistry {
    var ctors: map<string, RuleKind>

    constructor ()
      ensures ctors == map[]
    {
      ctors := map[];
    }

    /** `registerRule(name, ruleClass)`: a later registration replaces an earlier one. */
    method Register(name: string, kind: RuleKind)
      modifies this
      ensures ctors == old(ctors)[name := kind]
    {
      ctors := ctors[name := kind];
    }

    /** `createRule(type, params)`: the rule the registered constructor builds, or what it throws. */
    method CreateRule(ruleType: string, params: map<string, Value>) returns (r: Result<GameRule, RuleError>)
      ensures r.Err? <==> CreateFailure(ctors, ruleType, params).Some?
      ensures r.Err? ==> Some(r.error) == CreateFailure(ctors, ruleType, params)
      ensures r.Ok? ==> ruleType in ctors && RuleType(r.value) == KindType(ctors[ruleType])
      ensures r.Ok? && r.value.IdleRule? ==>
        fresh(r.value.idle) && r.value.idle.Config() == Idle.ConfigOf(params) && r.value.idle.State() == Idle.INITIAL_STATE
      ensures r.Ok? && r.value.BounceRule? ==>
        fresh(r.value.bounce) && r.value.bounce.Config() == Bounce.ConfigOf(params)
    {
      if ruleType !in ctors {
        return Err(UnknownRuleType(ruleType));
      }
      match ctors[ruleType]
      case NoIdleDamageKind =>
        var made := Idle.NewNoIdleDamage(params);
        if made.Err? {
          return Err(BadParam(made.error));
        }
        r := Ok(IdleRule(made.value));
      case BulletBounceKind =>
        var made := Bounce.NewBulletBounce(params);
        if made.Err? {
          return Err(BadParam(made.error));
        }
        r := Ok(BounceRule(made.value));
    }
  }

  // ----- hook passes as folds over rule values -----

  /** A rule as a value: its configuration and, for NoIdleDamage, its mutable state. */
  datatype RuleView =
    | IdleView(idleConfig: Idle.IdleConfig, idleState: Idle.IdleState)
    | BounceView(bounceConfig: Bounce.BounceConfig)

  function ViewType(v: RuleView): string
  {
    if v.IdleView? then Idle.RULE_TYPE else Bounce.RULE_TYPE
  }

  function ViewParams(v: RuleView): map<string, Value>
  {
    if v.IdleView? then v.idleConfig.params else v.bounceConfig.params
  }

  function Footprint(r: GameRule): set<object>
  {
    if r.IdleRule? then {r.idle} else {}
  }

  function ViewOf(r: GameRule): RuleView
    reads Footprint(r)
  {
    match r
    case IdleRule(x) => IdleView(x.Config(), x.State())
    case BounceRule(b) => BounceView(b.Config())
  }

  /** The objects whose fields the hooks of `rules` may change, besides the context's. */
  function IdleObjects(rules: seq<GameRule>): set<object>
  {
    set i | 0 <= i < |rules| && rules[i].IdleRule? :: rules[i].idle
  }

  function ViewsOf(rules: seq<GameRule>): (vs: seq<RuleView>)
    reads IdleObjects(rules)
    ensures |vs| == |rules| && forall i :: 0 <= i < |rules| ==> vs[i] == ViewOf(rules[i])
  {
    seq(|rules|, i requires 0 <= i < |rules| reads IdleObjects(rules) => ViewOf(rules[i]))
  }

  /** Rules whose values are `views`, one by one, have exactly those values. */
  lemma ViewsAre(rules: seq<GameRule>, views: seq<RuleView>)
    requires |rules| == |views| && forall j :: 0 <= j < |rules| ==> ViewOf(rules[j]) == views[j]
    ensures ViewsOf(rules) == views
  {
  }

  /** One rule's part of a pass: its new value, what it passes on, what it emits. */
  datatype Step<X> = Step(view: RuleView, carry: X, emitted: seq<Emission>)

  /** A whole pass: the new values, what is passed on at the end, everything emitted in order. */
  datatype Pass<X> = Pass(views: seq<RuleView>, carry: X, emitted: seq<Emission>)

  /** A rule's value once started at `gameTime`. */
  function StartedView(v: RuleView, gameTime: real): RuleView
  {
    if v.IdleView? then IdleView(v.idleConfig, Idle.IdleState(gameTime, false)) else v
  }

  /** `r.onStart?.(ctx)` for one rule. */
  function StartOne(v: RuleView, gameTime: real): Step<()>
  {
    match v
    case IdleView(c, s) =>
      var out := Idle.StartStep(c, gameTime);
      Step(IdleView(c, out.state), (), out.emitted)
    case BounceView(c) => Step(v, (), Bounce.StartEmissions(c))
  }

  function StartAll(views: seq<RuleView>, gameTime: real): (p: Pass<()>)
    ensures |p.views| == |views|
    ensures forall j :: 0 <= j < |views| ==> p.views[j] == StartedView(views[j], gameTime)
    decreases |views|
  {
    if views == [] then Pass([], (), [])
    else
      var pre := StartAll(views[..|views| - 1], gameTime);
      var one := StartOne(views[|views| - 1], gameTime);
      Pass(pre.views + [one.view], (), pre.emitted + one.emitted)
  }

  /** `r.onTick?.(ctx, dt)` for one rule; BulletBounce has no tick hook. */
  function TickOne(v: RuleView, player: Option<PlayerSnap>, gameTime: real, dt: real): Step<Option<PlayerSnap>>
  {
    match v
    case IdleView(c, s) =>
      var out := Idle.TickStep(c, s, player, gameTime, dt);
      Step(IdleView(c, out.state), out.player, out.emitted)
    case BounceView(_) => Step(v, player, [])
  }

  /** The rules tick in order, each seeing the player as the rules before it left it. */
  function TickAll(views: seq<RuleView>, player: Option<PlayerSnap>, gameTime: real, dt: real): (p: Pass<Option<PlayerSnap>>)
    ensures |p.views| == |views|
    decreases |views|
  {
    if views == [] then Pass([], player, [])
    else
      var pre := TickAll(views[..|views| - 1], player, gameTime, dt);
      var one := TickOne(views[|views| - 1], pre.carry, gameTime, dt);
      Pass(pre.views + [one.view], one.carry, pre.emitted + one.emitted)
  }

  /** What an event does to a rule's value, whatever the bullet. */
  function EventView(v: RuleView, evt: string, gameTime: real): RuleView
  {
    if v.IdleView? then IdleView(v.idleConfig, Idle.EventStep(v.idleState, evt, gameTime)) else v
  }

  /** `r.onEvent?.(ctx, evt, { bullet })` for one rule, with the bullet's counter. */
  function EmitOne(v: RuleView, evt: string, counter: Option<int>, gameTime: real): Step<Option<int>>
  {
    match v
    case IdleView(_, _) => Step(EventView(v, evt, gameTime), counter, [])
    case BounceView(_) =>
      var out := Bounce.EventStep(evt, counter);
      Step(v, out.counter, out.emitted)
  }

  function EmitAll(views: seq<RuleView>, evt: string, counter: Option<int>, gameTime: real): (p: Pass<Option<int>>)
    ensures |p.views| == |views|
    ensures forall j :: 0 <= j < |views| ==> p.views[j] == EventView(views[j], evt, gameTime)
    decreases |views|
  {
    if views == [] then Pass([], counter, [])
    else
      var pre := EmitAll(views[..|views| - 1], evt, counter, gameTime);
      var one := EmitOne(views[|views| - 1], evt, pre.carry, gameTime);
      Pass(pre.views + [one.view], one.carry, pre.emitted + one.emitted)
  }

  // ----- what the passes do -----

  /**
   * Starting emits one `rule_start` per rule, in the order the rules were
   * added, each with that rule's type and parameters, and leaves every
   * NoIdleDamage rule with its idle clock at the start time and disarmed.
   */
  lemma {:induction false} StartEmitsOnePerRule(views: seq<RuleView>, gameTime: real)
    ensures var p := StartAll(views, gameTime);
      && |p.emitted| == |views|
      && (forall i :: 0 <= i < |views| ==> p.emitted[i] == RuleStartEmission(ViewType(views[i]), ViewParams(views[i])))
      && (forall i :: 0 <= i < |views| && views[i].IdleView? ==>
            p.views[i] == IdleView(views[i].idleConfig, Idle.IdleState(gameTime, false)))
    decreases |views|
  {
    if views != [] {
      var prefix := views[..|views| - 1];
      StartEmitsOnePerRule(prefix, gameTime);
      assert forall i :: 0 <= i < |prefix| ==> prefix[i] == views[i];
    }
  }

  /** The NoIdleDamage rules of a list, in order. */
  function IdleViews(views: seq<RuleView>): (r: seq<RuleView>)
    ensures |r| <= |views|
    ensures forall i :: 0 <= i < |r| ==> r[i].IdleView?
    decreases |views|
  {
    if views == [] then []
    else IdleViews(views[..|views| - 1]) + (if views[|views| - 1].IdleView? then [views[|views| - 1]] else [])
  }

  function Carried<X>(p: Pass<X>): (X, seq<Emission>)
  {
    (p.carry, p.emitted)
  }

  /**
   * A tick pass does to the player and the log exactly what it would do with
   * the BulletBounce rules taken out.
   */
  lemma {:induction false} TickIgnoresBounceRules(views: seq<RuleView>, player: Option<PlayerSnap>, gameTime: real, dt: real)
    ensures Carried(TickAll(views, player, gameTime, dt)) == Carried(TickAll(IdleViews(views), player, gameTime, dt))
    decreases |views|
  {
    if views != [] {
      var prefix := views[..|views| - 1];
      var last := views[|views| - 1];
      TickIgnoresBounceRules(prefix, player, gameTime, dt);
      var pre := TickAll(prefix, player, gameTime, dt);
      var idsPre := IdleViews(prefix);
      var ids := IdleViews(views);
      if last.IdleView? {
        assert ids == idsPre + [last];
        assert ids[..|ids| - 1] == idsPre;
        var q := TickAll(idsPre, player, gameTime, dt);
        assert q.carry == pre.carry && q.emitted == pre.emitted;
        assert TickAll(ids, player, gameTime, dt).carry == TickOne(last, q.carry, gameTime, dt).carry;
      } else {
        assert ids == idsPre;
        var one := TickOne(last, pre.carry, gameTime, dt);
        assert one.carry == pre.carry && one.emitted == [];
        assert TickAll(views, player, gameTime, dt) == Pass(pre.views + [one.view], one.carry, pre.emitted + one.emitted);
        assert TickAll(views, player, gameTime, dt).emitted == pre.emitted;
      }
    }
  }

  /**
   * With the default rule list (one NoIdleDamage, then one BulletBounce) a
   * tick is exactly one NoIdleDamage tick.
   */
  lemma DefaultTickIsIdleTick(c: Idle.IdleConfig, s: Idle.IdleState, bc: Bounce.BounceConfig,
                              player: Option<PlayerSnap>, gameTime: real, dt: real)
    ensures var p := TickAll([IdleView(c, s), BounceView(bc)], player, gameTime, dt);
      var out := Idle.TickStep(c, s, player, gameTime, dt);
      p.carry == out.player && p.emitted == out.emitted && p.views == [IdleView(c, out.state), BounceView(bc)]
  {
    var out := Idle.TickStep(c, s, player, gameTime, dt);
    var vs := [IdleView(c, s), BounceView(bc)];
    assert vs[..1] == [IdleView(c, s)];
    assert [IdleView(c, s)][..0] == [];
    var zero := TickAll([], player, gameTime, dt);
    assert zero == Pass([], player, []);
    var one := TickOne(IdleView(c, s), player, gameTime, dt);
    assert one == Step(IdleView(c, out.state), out.player, out.emitted);
    var first := TickAll([IdleView(c, s)], player, gameTime, dt);
    assert first == Pass(zero.views + [one.view], one.carry, zero.emitted + one.emitted);
    assert first.views == [IdleView(c, out.state)] && first.carry == out.player;
    assert first.emitted == out.emitted;
    var p := TickAll(vs, player, gameTime, dt);
    assert p.emitted == first.emitted + [];
  }

  /** How many BulletBounce rules a list holds. */
  function BounceCount(views: seq<RuleView>): nat
    decreases |views|
  {
    if views == [] then 0
    else BounceCount(views[..|views| - 1]) + (if views[|views| - 1].BounceView? then 1 else 0)
  }

  /**
   * A `BulletHitWall` event with a bullet takes one bounce off the bullet
   * and emits one bounce event per BulletBounce rule; any other event, or
   * one without a bullet, leaves the counter alone and emits nothing.
   */
  lemma EmitCountsBounceRules(views: seq<RuleView>, evt: string, counter: Option<int>, gameTime: real)
    ensures var p := EmitAll(views, evt, counter, gameTime);
      if evt == Bounce.HIT_WALL && counter.Some? then
        && p.carry == Some(counter.value - BounceCount(views))
        && |p.emitted| == BounceCount(views)
        && CountNamed(p.emitted, Bounce.BOUNCE_EVENT) == BounceCount(views)
      else p.carry == counter && p.emitted == []
  {
    if evt == Bounce.HIT_WALL && counter.Some? {
      WallHitCounts(views, counter.value, gameTime);
    } else {
      OtherEventsSilent(views, evt, counter, gameTime);
    }
  }

  /** The wall-hit half of `EmitCountsBounceRules`. */
  lemma {:induction false} WallHitCounts(views: seq<RuleView>, n: int, gameTime: real)
    ensures var p := EmitAll(views, Bounce.HIT_WALL, Some(n), gameTime);
      && p.carry == Some(n - BounceCount(views))
      && |p.emitted| == BounceCount(views)
      && CountNamed(p.emitted, Bounce.BOUNCE_EVENT) == BounceCount(views)
    decreases |views|
  {
    if views != [] {
      var prefix, last := views[..|views| - 1], views[|views| - 1];
      WallHitCounts(prefix, n, gameTime);
      var pre := EmitAll(prefix, Bounce.HIT_WALL, Some(n), gameTime);
      var one := EmitOne(last, Bounce.HIT_WALL, pre.carry, gameTime);
      EmitOneCounts(last, Bounce.HIT_WALL, pre.carry, gameTime);
      assert EmitAll(views, Bounce.HIT_WALL, Some(n), gameTime) == Pass(pre.views + [one.view], one.carry, pre.emitted + one.emitted);
      if last.BounceView? {
        assert BounceCount(views) == BounceCount(prefix) + 1;
        assert one.carry == Some(n - BounceCount(prefix) - 1);
      } else {
        assert BounceCount(views) == BounceCount(prefix);
        assert one.carry == pre.carry && one.emitted == [];
      }
      CountNamedAppend(pre.emitted, one.emitted, Bounce.BOUNCE_EVENT);
    }
  }

  /** The other half: no counter or another event changes nothing and emits nothing. */
  lemma {:induction false} OtherEventsSilent(views: seq<RuleView>, evt: string, counter: Option<int>, gameTime: real)
    requires !(evt == Bounce.HIT_WALL && counter.Some?)
    ensures var p := EmitAll(views, evt, counter, gameTime);
      p.carry == counter && p.emitted == []
    decreases |views|
  {
    if views != [] {
      var prefix, last := views[..|views| - 1], views[|views| - 1];
      OtherEventsSilent(prefix, evt, counter, gameTime);
      EmitOneCounts(last, evt, counter, gameTime);
    }
  }

  /** One rule's share of `EmitCountsBounceRules`. */
  lemma EmitOneCounts(v: RuleView, evt: string, counter: Option<int>, gameTime: real)
    ensures var one := EmitOne(v, evt, counter, gameTime);
      if evt == Bounce.HIT_WALL && counter.Some? && v.BounceView? then
        && one.carry == Some(counter.value - 1)
        && |one.emitted| == 1
        && CountNamed(one.emitted, Bounce.BOUNCE_EVENT) == 1
      else one.carry == counter && one.emitted == []
  {
    var one := EmitOne(v, evt, counter, gameTime);
    if evt == Bounce.HIT_WALL && counter.Some? && v.BounceView? {
      assert one.emitted == [Bounce.BounceEmission(counter.value - 1)];
      assert one.emitted[..0] == [];
    }
  }

  lemma StartAllSnoc(vs: seq<RuleView>, i: int, gameTime: real)
    requires 0 <= i < |vs|
    ensures var pre := StartAll(vs[..i], gameTime);
      var one := StartOne(vs[i], gameTime);
      StartAll(vs[..i + 1], gameTime) == Pass(pre.views + [one.view], (), pre.emitted + one.emitted)
  {
    assert vs[..i + 1][..i] == vs[..i];
  }

  lemma TickAllSnoc(vs: seq<RuleView>, i: int, player: Option<PlayerSnap>, gameTime: real, dt: real)
    requires 0 <= i < |vs|
    ensures var pre := TickAll(vs[..i], player, gameTime, dt);
      var one := TickOne(vs[i], pre.carry, gameTime, dt);
      TickAll(vs[..i + 1], player, gameTime, dt) == Pass(pre.views + [one.view], one.carry, pre.emitted + one.emitted)
  {
    assert vs[..i + 1][..i] == vs[..i];
  }

  lemma EmitAllSnoc(vs: seq<RuleView>, i: int, evt: string, counter: Option<int>, gameTime: real)
    requires 0 <= i < |vs|
    ensures var pre := EmitAll(vs[..i], evt, counter, gameTime);
      var one := EmitOne(vs[i], evt, pre.carry, gameTime);
      EmitAll(vs[..i + 1], evt, counter, gameTime) == Pass(pre.views + [one.view], one.carry, pre.emitted + one.emitted)
  {
    assert vs[..i + 1][..i] == vs[..i];
  }

  /** Starting a rule that was already started does and emits what starting it once does. */
  lemma StartOneAfterStart(v: RuleView, gameTime: real)
    ensures StartOne(StartedView(v, gameTime), gameTime) == StartOne(v, gameTime)
    ensures StartOne(v, gameTime).view == StartedView(v, gameTime)
  {
  }

  /** An event hook sees the same thing whether or not that rule already took the event. */
  lemma EmitOneAfterEvent(v: RuleView, evt: string, counter: Option<int>, gameTime: real)
    ensures EmitOne(EventView(v, evt, gameTime), evt, counter, gameTime) == EmitOne(v, evt, counter, gameTime)
    ensures EmitOne(v, evt, counter, gameTime).view == EventView(v, evt, gameTime)
  {
  }

  // ----- the engine, one rule at a time -----

  /** `r.onStart?.(ctx)` for one rule whose value is `v`. */
  method StartRule(r: GameRule, ctx: RuleContext, now: int, ghost v: RuleView)
    requires ViewOf(r) == v
    modifies Footprint(r), ctx.telemetry
    ensures old(ctx.telemetry.Valid()) ==> ctx.telemetry.Valid()
    ensures var one := StartOne(v, ctx.gameTime);
      && ViewOf(r) == one.view
      && ctx.telemetry.events == old(ctx.telemetry.events) + Stamped(one.emitted, now - old(ctx.telemetry.startTime))
      && ctx.telemetry.startTime == old(ctx.telemetry.startTime)
  {
    match r
    case IdleRule(x) => x.OnStart(ctx, now);
    case BounceRule(b) => b.OnStart(ctx, now);
  }

  /**
   * `r.onTick?.(ctx, dt)` for one rule whose value is `v` and whose player
   * is `player`; BulletBounce has no tick hook.
   */
  method TickRule(r: GameRule, ctx: RuleContext, dt: real, now: int, ghost v: RuleView, ghost player: Option<PlayerSnap>)
    requires ViewOf(r) == v && PlayerOf(ctx.entities.player) == player
    modifies Footprint(r), ctx.telemetry, ctx.entities.player
    ensures old(ctx.telemetry.Valid()) ==> ctx.telemetry.Valid()
    ensures var one := TickOne(v, player, ctx.gameTime, dt);
      && ViewOf(r) == one.view
      && PlayerOf(ctx.entities.player) == one.carry
      && ctx.telemetry.events == old(ctx.telemetry.events) + Stamped(one.emitted, now - old(ctx.telemetry.startTime))
      && ctx.telemetry.startTime == old(ctx.telemetry.startTime)
  {
    match r
    case IdleRule(x) => x.OnTick(ctx, dt, now);
    case BounceRule(_) =>
  }

  /** `r.onEvent?.(ctx, evt, { bullet })` for one rule whose value is `v` and whose bullet counter is `counter`. */
  method EventRule(r: GameRule, ctx: RuleContext, evt: string, bullet: BulletEntity?, now: int,
                   ghost v: RuleView, ghost counter: Option<int>)
    requires ViewOf(r) == v && Bounce.BulletOf(bullet) == counter
    modifies Footprint(r), ctx.telemetry, bullet
    ensures old(ctx.telemetry.Valid()) ==> ctx.telemetry.Valid()
    ensures var one := EmitOne(v, evt, counter, ctx.gameTime);
      && ViewOf(r) == one.view
      && Bounce.BulletOf(bullet) == one.carry
      && ctx.telemetry.events == old(ctx.telemetry.events) + Stamped(one.emitted, now - old(ctx.telemetry.startTime))
      && ctx.telemetry.startTime == old(ctx.telemetry.startTime)
  {
    match r
    case IdleRule(x) =>
      x.OnEvent(ctx, evt);
      assert Stamped([], now - ctx.telemetry.startTime) == [];
    case BounceRule(b) => b.OnEvent(ctx, evt, bullet, now);
  }

  /** No NoIdleDamage object occurs twice in `rules`. */
  predicate DistinctIdle(rules: seq<GameRule>)
  {
    forall i, j :: 0 <= i < j < |rules| && rules[i].IdleRule? && rules[j].IdleRule? ==> rules[i].idle != rules[j].idle
  }

  /** Equal rules had equal values when the pass began. */
  predicate SameRuleSameView(rules: seq<GameRule>, vs: seq<RuleView>)
  {
    |rules| == |vs| && forall j, k :: 0 <= j < |rules| && 0 <= k < |rules| && rules[j] == rules[k] ==> vs[j] == vs[k]
  }

  // ----- start -----

  /**
   * The start pass has run over the first `i` rules, logging `pass`; a
   * later rule that is the same object as an earlier one is already started.
   */
  ghost predicate StartedThrough(rules: seq<GameRule>, i: int, vs: seq<RuleView>, pass: Pass<()>,
                                 ctx: RuleContext, events: seq<TelemetryLog.TelemetryEvent>, t: int)
    reads IdleObjects(rules), ctx.telemetry
  {
    && 0 <= i <= |rules| == |vs| && pass == StartAll(vs[..i], ctx.gameTime)
    && ctx.telemetry.events == events + Stamped(pass.emitted, t)
    && (forall j :: 0 <= j < i ==> ViewOf(rules[j]) == StartedView(vs[j], ctx.gameTime))
    && (forall j :: i <= j < |rules| ==> ViewOf(rules[j]) == vs[j] || ViewOf(rules[j]) == StartedView(vs[j], ctx.gameTime))
  }

  /** One step of the start pass: rule `i` starts. */
  method StartAt(rules: seq<GameRule>, i: int, ghost vs: seq<RuleView>, ghost pass: Pass<()>,
                 ctx: RuleContext, now: int, ghost events: seq<TelemetryLog.TelemetryEvent>, ghost t: int)
    returns (ghost next: Pass<()>)
    requires 0 <= i < |rules| == |vs| && SameRuleSameView(rules, vs) && t == now - ctx.telemetry.startTime
    requires StartedThrough(rules, i, vs, pass, ctx, events, t)
    modifies Footprint(rules[i]), ctx.telemetry
    ensures old(ctx.telemetry.Valid()) ==> ctx.telemetry.Valid()
    ensures StartedThrough(rules, i + 1, vs, next, ctx, events, t)
    ensures ctx.telemetry.startTime == old(ctx.telemetry.startTime)
  {
    ghost var before := ctx.telemetry.events;
    ghost var cur := ViewOf(rules[i]);
    StartOneAfterStart(vs[i], ctx.gameTime);
    assert StartOne(cur, ctx.gameTime) == StartOne(vs[i], ctx.gameTime);
    label pre:
    StartRule(rules[i], ctx, now, cur);
    forall j | 0 <= j < |rules| && rules[j] != rules[i]
      ensures ViewOf(rules[j]) == old@pre(ViewOf(rules[j]))
    {
      assert Footprint(rules[j]) !! Footprint(rules[i]);
    }
    StartAllSnoc(vs, i, ctx.gameTime);
    next := StartAll(vs[..i + 1], ctx.gameTime);
    StartAdvance(rules, i, vs, pass, StartOne(vs[i], ctx.gameTime), next, ctx, events, t, before);
  }

  /** The facts one start step leaves behind extend the start pass by rule `i`. */
  lemma StartAdvance(rules: seq<GameRule>, i: int, vs: seq<RuleView>, pass: Pass<()>, one: Step<()>, next: Pass<()>,
                     ctx: RuleContext, events: seq<TelemetryLog.TelemetryEvent>, t: int, before: seq<TelemetryLog.TelemetryEvent>)
    requires 0 <= i < |rules| && SameRuleSameView(rules, vs) && |pass.views| == i
    requires next == Pass(pass.views + [one.view], (), pass.emitted + one.emitted)
    requires next == StartAll(vs[..i + 1], ctx.gameTime)
    requires one.view == StartedView(vs[i], ctx.gameTime)
    requires before == events + Stamped(pass.emitted, t)
    requires ViewOf(rules[i]) == one.view
    requires ctx.telemetry.events == before + Stamped(one.emitted, t)
    requires forall j :: 0 <= j < i && rules[j] != rules[i] ==> ViewOf(rules[j]) == StartedView(vs[j], ctx.gameTime)
    requires forall j :: i < j < |rules| && rules[j] != rules[i] ==>
      ViewOf(rules[j]) == vs[j] || ViewOf(rules[j]) == StartedView(vs[j], ctx.gameTime)
    ensures StartedThrough(rules, i + 1, vs, next, ctx, events, t)
  {
    StampedAppend(pass.emitted, one.emitted, t);
    assert forall j :: 0 <= j < |rules| && rules[j] == rules[i] ==> vs[j] == vs[i];
  }

  // ----- tick -----

  /** The tick pass has run over the first `i` rules, with outcome `pass`. */
  ghost predicate TickedThrough(rules: seq<GameRule>, i: int, vs: seq<RuleView>, p0: Option<PlayerSnap>, dt: real,
                                pass: Pass<Option<PlayerSnap>>, ctx: RuleContext, events: seq<TelemetryLog.TelemetryEvent>, t: int)
    reads IdleObjects(rules), ctx.telemetry, ctx.entities.player
  {
    && 0 <= i <= |rules| == |vs| && pass == TickAll(vs[..i], p0, ctx.gameTime, dt)
    && PlayerOf(ctx.entities.player) == pass.carry
    && ctx.telemetry.events == events + Stamped(pass.emitted, t)
    && (forall j :: 0 <= j < i ==> ViewOf(rules[j]) == pass.views[j])
    && (forall j :: i <= j < |rules| ==> ViewOf(rules[j]) == vs[j])
  }

  /** One step of the tick pass: rule `i` ticks. */
  method TickAt(rules: seq<GameRule>, i: int, ghost vs: seq<RuleView>, ghost p0: Option<PlayerSnap>,
                ghost pass: Pass<Option<PlayerSnap>>, ctx: RuleContext, dt: real, now: int,
                ghost events: seq<TelemetryLog.TelemetryEvent>, ghost t: int)
    returns (ghost next: Pass<Option<PlayerSnap>>)
    requires DistinctIdle(rules) && 0 <= i < |rules| == |vs| && t == now - ctx.telemetry.startTime
    requires TickedThrough(rules, i, vs, p0, dt, pass, ctx, events, t)
    modifies Footprint(rules[i]), ctx.telemetry, ctx.entities.player
    ensures old(ctx.telemetry.Valid()) ==> ctx.telemetry.Valid()
    ensures TickedThrough(rules, i + 1, vs, p0, dt, next, ctx, events, t)
    ensures ctx.telemetry.startTime == old(ctx.telemetry.startTime)
  {
    ghost var before := ctx.telemetry.events;
    label pre:
    TickRule(rules[i], ctx, dt, now, vs[i], pass.carry);
    forall j | 0 <= j < |rules| && j != i
      ensures ViewOf(rules[j]) == old@pre(ViewOf(rules[j]))
    {
      assert Footprint(rules[j]) !! Footprint(rules[i]);
    }
    TickAllSnoc(vs, i, p0, ctx.gameTime, dt);
    next := TickAll(vs[..i + 1], p0, ctx.gameTime, dt);
    TickAdvance(rules, i, vs, p0, dt, pass, TickOne(vs[i], pass.carry, ctx.gameTime, dt), next, ctx, events, t, before);
  }

  /** The facts one tick step leaves behind extend the tick pass by rule `i`. */
  lemma TickAdvance(rules: seq<GameRule>, i: int, vs: seq<RuleView>, p0: Option<PlayerSnap>, dt: real,
                    pass: Pass<Option<PlayerSnap>>,
                    one: Step<Option<PlayerSnap>>, next: Pass<Option<PlayerSnap>>,
                    ctx: RuleContext, events: seq<TelemetryLog.TelemetryEvent>, t: int, before: seq<TelemetryLog.TelemetryEvent>)
    requires 0 <= i < |rules| == |vs| && |pass.views| == i
    requires next == Pass(pass.views + [one.view], one.carry, pass.emitted + one.emitted)
    requires next == TickAll(vs[..i + 1], p0, ctx.gameTime, dt)
    requires before == events + Stamped(pass.emitted, t)
    requires ViewOf(rules[i]) == one.view && PlayerOf(ctx.entities.player) == one.carry
    requires ctx.telemetry.events == before + Stamped(one.emitted, t)
    requires forall j :: 0 <= j < i ==> ViewOf(rules[j]) == pass.views[j]
    requires forall j :: i < j < |rules| ==> ViewOf(rules[j]) == vs[j]
    ensures TickedThrough(rules, i + 1, vs, p0, dt, next, ctx, events, t)
  {
    StampedAppend(pass.emitted, one.emitted, t);
  }

  // ----- emit -----

  /**
   * The event pass has run over the first `i` rules, with outcome `pass`; a
   * later rule that is the same object as an earlier one has already taken the event.
   */
  ghost predicate EmittedThrough(rules: seq<GameRule>, i: int, vs: seq<RuleView>, c0: Option<int>, pass: Pass<Option<int>>, evt: string,
                                 ctx: RuleContext, bullet: BulletEntity?, events: seq<TelemetryLog.TelemetryEvent>, t: int)
    reads IdleObjects(rules), ctx.telemetry, bullet
  {
    && 0 <= i <= |rules| == |vs| && pass == EmitAll(vs[..i], evt, c0, ctx.gameTime)
    && Bounce.BulletOf(bullet) == pass.carry
    && ctx.telemetry.events == events + Stamped(pass.emitted, t)
    && (forall j :: 0 <= j < i ==> ViewOf(rules[j]) == EventView(vs[j], evt, ctx.gameTime))
    && (forall j :: i <= j < |rules| ==> ViewOf(rules[j]) == vs[j] || ViewOf(rules[j]) == EventView(vs[j], evt, ctx.gameTime))
  }

  /** One step of the event pass: rule `i` takes the event. */
  method EmitAt(rules: seq<GameRule>, i: int, ghost vs: seq<RuleView>, ghost c0: Option<int>, ghost pass: Pass<Option<int>>,
                evt: string, ctx: RuleContext, bullet: BulletEntity?, now: int,
                ghost events: seq<TelemetryLog.TelemetryEvent>, ghost t: int)
    returns (ghost next: Pass<Option<int>>)
    requires 0 <= i < |rules| == |vs| && SameRuleSameView(rules, vs) && t == now - ctx.telemetry.startTime
    requires EmittedThrough(rules, i, vs, c0, pass, evt, ctx, bullet, events, t)
    modifies Footprint(rules[i]), ctx.telemetry, bullet
    ensures old(ctx.telemetry.Valid()) ==> ctx.telemetry.Valid()
    ensures EmittedThrough(rules, i + 1, vs, c0, next, evt, ctx, bullet, events, t)
    ensures ctx.telemetry.startTime == old(ctx.telemetry.startTime)
  {
    ghost var before := ctx.telemetry.events;
    ghost var cur := ViewOf(rules[i]);
    EmitOneAfterEvent(vs[i], evt, pass.carry, ctx.gameTime);
    assert EmitOne(cur, evt, pass.carry, ctx.gameTime) == EmitOne(vs[i], evt, pass.carry, ctx.gameTime);
    label pre:
    EventRule(rules[i], ctx, evt, bullet, now, cur, pass.carry);
    forall j | 0 <= j < |rules| && rules[j] != rules[i]
      ensures ViewOf(rules[j]) == old@pre(ViewOf(rules[j]))
    {
      assert Footprint(rules[j]) !! Footprint(rules[i]);
    }
    EmitAllSnoc(vs, i, evt, c0, ctx.gameTime);
    next := EmitAll(vs[..i + 1], evt, c0, ctx.gameTime);
    EmitAdvance(rules, i, vs, c0, pass, EmitOne(vs[i], evt, pass.carry, ctx.gameTime), next, evt, ctx, bullet, events, t, before);
  }

  /** The facts one event step leaves behind extend the event pass by rule `i`. */
  lemma EmitAdvance(rules: seq<GameRule>, i: int, vs: seq<RuleView>, c0: Option<int>, pass: Pass<Option<int>>,
                    one: Step<Option<int>>, next: Pass<Option<int>>, evt: string,
                    ctx: RuleContext, bullet: BulletEntity?, events: seq<TelemetryLog.TelemetryEvent>, t: int,
                    before: seq<TelemetryLog.TelemetryEvent>)
    requires 0 <= i < |rules| && SameRuleSameView(rules, vs) && |pass.views| == i
    requires next == Pass(pass.views + [one.view], one.carry, pass.emitted + one.emitted)
    requires next == EmitAll(vs[..i + 1], evt, c0, ctx.gameTime)
    requires one.view == EventView(vs[i], evt, ctx.gameTime)
    requires before == events + Stamped(pass.emitted, t)
    requires ViewOf(rules[i]) == one.view && Bounce.BulletOf(bullet) == one.carry
    requires ctx.telemetry.events == before + Stamped(one.emitted, t)
    requires forall j :: 0 <= j < i && rules[j] != rules[i] ==> ViewOf(rules[j]) == EventView(vs[j], evt, ctx.gameTime)
    requires forall j :: i < j < |rules| && rules[j] != rules[i] ==>
      ViewOf(rules[j]) == vs[j] || ViewOf(rules[j]) == EventView(vs[j], evt, ctx.gameTime)
    ensures EmittedThrough(rules, i + 1, vs, c0, next, evt, ctx, bullet, events, t)
  {
    StampedAppend(pass.emitted, one.emitted, t);
    assert forall j :: 0 <= j < |rules| && rules[j] == rules[i] ==> vs[j] == vs[i];
  }

  // ----- the engine -----

  class RuleEngine {
    var rules: seq<GameRule>
    const telemetry: TelemetryLog.Telemetry
    const rng: Random.RNG

    /** `new RuleEngine(telemetry, rng, getGameTime)`; the clock is an argument of `Emit`. */
    constructor (telemetry: TelemetryLog.Telemetry, rng: Random.RNG)
      ensures rules == [] && this.telemetry == telemetry && this.rng == rng
    {
      rules := [];
      this.telemetry := telemetry;
      this.rng := rng;
    }

    /** No NoIdleDamage object is held twice. */
    predicate Distinct()
      reads this
    {
      DistinctIdle(rules)
    }

    /** `addRule(rule)`; adding a NoIdleDamage object not yet held keeps `Distinct`. */
    method AddRule(rule: GameRule)
      modifies this
      ensures rules == old(rules) + [rule]
      ensures old(Distinct()) && (rule.IdleRule? ==> rule !in old(rules)) ==> Distinct()
    {
      rules := rules + [rule];
    }

    /** `start(ctx)`: every rule's start hook in order, emissions stamped with `now`. */
    method Start(ctx: RuleContext, now: int)
      modifies IdleObjects(rules), ctx.telemetry
      ensures var p := StartAll(old(ViewsOf(rules)), ctx.gameTime);
        && ViewsOf(rules) == p.views
        && ctx.telemetry.events == old(ctx.telemetry.events) + Stamped(p.emitted, now - old(ctx.telemetry.startTime))
        && ctx.telemetry.startTime == old(ctx.telemetry.startTime)
      ensures old(ctx.telemetry.Valid()) ==> ctx.telemetry.Valid()
    {
      StartPass(rules, ctx, now);
    }

    /**
     * `tick(ctx, dt)`: every rule's tick hook in order, each seeing the
     * player as the hooks before it left it.
     */
    method Tick(ctx: RuleContext, dt: real, now: int)
      requires Distinct()
      modifies IdleObjects(rules), ctx.telemetry, ctx.entities.player
      ensures var p := TickAll(old(ViewsOf(rules)), old(PlayerOf(ctx.entities.player)), ctx.gameTime, dt);
        && ViewsOf(rules) == p.views
        && PlayerOf(ctx.entities.player) == p.carry
        && ctx.telemetry.events == old(ctx.telemetry.events) + Stamped(p.emitted, now - old(ctx.telemetry.startTime))
        && ctx.telemetry.startTime == old(ctx.telemetry.startTime)
      ensures old(ctx.telemetry.Valid()) ==> ctx.telemetry.Valid()
    {
      TickPass(rules, ctx, dt, now);
    }

    /**
     * `emit(evt, { bullet })`: every rule's event hook in order, each given
     * the engine's own log and generator, the current game time, an empty
     * spec and no entities.
     */
    method Emit(evt: string, bullet: BulletEntity?, gameTime: real, now: int)
      modifies IdleObjects(rules), telemetry, bullet
      ensures var p := EmitAll(old(ViewsOf(rules)), evt, old(Bounce.BulletOf(bullet)), gameTime);
        && ViewsOf(rules) == p.views
        && Bounce.BulletOf(bullet) == p.carry
        && telemetry.events == old(telemetry.events) + Stamped(p.emitted, now - old(telemetry.startTime))
        && telemetry.startTime == old(telemetry.startTime)
      ensures old(telemetry.Valid()) ==> telemetry.Valid()
    {
      var ctx := RuleContext(rng, telemetry, gameTime, EmptyObject, Entities(null, [], []));
      EmitPass(rules, evt, ctx, bullet, now);
    }
  }

  // ----- the three passes over a rule list -----

  /** The start pass over `rules`: the loop of `start`. */
  method StartPass(rules: seq<GameRule>, ctx: RuleContext, now: int)
    modifies IdleObjects(rules), ctx.telemetry
    ensures var p := StartAll(old(ViewsOf(rules)), ctx.gameTime);
      && ViewsOf(rules) == p.views
      && ctx.telemetry.events == old(ctx.telemetry.events) + Stamped(p.emitted, now - old(ctx.telemetry.startTime))
      && ctx.telemetry.startTime == old(ctx.telemetry.startTime)
    ensures old(ctx.telemetry.Valid()) ==> ctx.telemetry.Valid()
  {
    ghost var vs := ViewsOf(rules);
    ghost var t := now - ctx.telemetry.startTime;
    ghost var valid0 := ctx.telemetry.Valid();
    assert vs[..0] == [];
    ghost var pass := StartAll(vs[..0], ctx.gameTime);
    assert SameRuleSameView(rules, vs);
    var i := 0;
    while i < |rules|
      invariant 0 <= i <= |rules|
      invariant ctx.telemetry.startTime == old(ctx.telemetry.startTime)
      invariant valid0 ==> ctx.telemetry.Valid()
      invariant StartedThrough(rules, i, vs, pass, ctx, old(ctx.telemetry.events), t)
      decreases |rules| - i
    {
      pass := StartAt(rules, i, vs, pass, ctx, now, old(ctx.telemetry.events), t);
      i := i + 1;
    }
    assert vs[..i] == vs;
    assert pass == StartAll(vs, ctx.gameTime);
    ViewsAre(rules, pass.views);
  }

  /** The tick pass over `rules`: the loop of `tick`. */
  method TickPass(rules: seq<GameRule>, ctx: RuleContext, dt: real, now: int)
    requires DistinctIdle(rules)
    modifies IdleObjects(rules), ctx.telemetry, ctx.entities.player
    ensures var p := TickAll(old(ViewsOf(rules)), old(PlayerOf(ctx.entities.player)), ctx.gameTime, dt);
      && ViewsOf(rules) == p.views
      && PlayerOf(ctx.entities.player) == p.carry
      && ctx.telemetry.events == old(ctx.telemetry.events) + Stamped(p.emitted, now - old(ctx.telemetry.startTime))
      && ctx.telemetry.startTime == old(ctx.telemetry.startTime)
    ensures old(ctx.telemetry.Valid()) ==> ctx.telemetry.Valid()
  {
    ghost var vs := ViewsOf(rules);
    ghost var p0 := PlayerOf(ctx.entities.player);
    ghost var t := now - ctx.telemetry.startTime;
    ghost var valid0 := ctx.telemetry.Valid();
    assert vs[..0] == [];
    ghost var pass := TickAll(vs[..0], p0, ctx.gameTime, dt);
    var i := 0;
    while i < |rules|
      invariant 0 <= i <= |rules|
      invariant ctx.telemetry.startTime == old(ctx.telemetry.startTime)
      invariant valid0 ==> ctx.telemetry.Valid()
      invariant TickedThrough(rules, i, vs, p0, dt, pass, ctx, old(ctx.telemetry.events), t)
      decreases |rules| - i
    {
      pass := TickAt(rules, i, vs, p0, pass, ctx, dt, now, old(ctx.telemetry.events), t);
      i := i + 1;
    }
    assert vs[..i] == vs;
    assert pass == TickAll(vs, p0, ctx.gameTime, dt);
    ViewsAre(rules, pass.views);
  }

  /** The event pass over `rules`: the loop of `emit`. */
  method EmitPass(rules: seq<GameRule>, evt: string, ctx: RuleContext, bullet: BulletEntity?, now: int)
    modifies IdleObjects(rules), ctx.telemetry, bullet
    ensures var p := EmitAll(old(ViewsOf(rules)), evt, old(Bounce.BulletOf(bullet)), ctx.gameTime);
      && ViewsOf(rules) == p.views
      && Bounce.BulletOf(bullet) == p.carry
      && ctx.telemetry.events == old(ctx.telemetry.events) + Stamped(p.emitted, now - old(ctx.telemetry.startTime))
      && ctx.telemetry.startTime == old(ctx.telemetry.startTime)
    ensures old(ctx.telemetry.Valid()) ==> ctx.telemetry.Valid()
  {
    ghost var vs := ViewsOf(rules);
    ghost var c0 := Bounce.BulletOf(bullet);
    ghost var t := now - ctx.telemetry.startTime;
    ghost var valid0 := ctx.telemetry.Valid();
    assert vs[..0] == [];
    ghost var pass := EmitAll(vs[..0], evt, c0, ctx.gameTime);
    assert SameRuleSameView(rules, vs);
    var i := 0;
    while i < |rules|
      invariant 0 <= i <= |rules|
      invariant ctx.telemetry.startTime == old(ctx.telemetry.startTime)
      invariant valid0 ==> ctx.telemetry.Valid()
      invariant EmittedThrough(rules, i, vs, c0, pass, evt, ctx, bullet, old(ctx.telemetry.events), t)
      decreases |rules| - i
    {
      pass := EmitAt(rules, i, vs, c0, pass, evt, ctx, bullet, now, old(ctx.telemetry.events), t);
      i := i + 1;
    }
    assert vs[..i] == vs;
    assert pass == EmitAll(vs, evt, c0, ctx.gameTime);
    ViewsAre(rules, pass.views);
  }

  // ----- how the scene drives the engine (game/src/scenes/GameScene.ts) -----

  /** The registrations the scene module makes as it loads. */
  const SCENE_REGISTRY: map<string, RuleKind> := map["NoIdleDamage" := NoIdleDamageKind, "BulletBounce" := BulletBounceKind]

  method RegisterSceneRules() returns (registry: RuleRegistry)
    ensures fresh(registry) && registry.ctors == SCENE_REGISTRY
  {
    registry := new RuleRegistry();
    registry.Register("NoIdleDamage", NoIdleDamageKind);
    registry.Register("BulletBounce", BulletBounceKind);
  }

  /**
   * Each registered constructor builds a rule of the type it is registered
   * under and validates against exactly the catalog entry of that name, so
   * the catalog entry the scene passes to `createRule` would change nothing.
   */
  lemma ConstructorRangesMatchCatalog()
    ensures forall name :: name in SCENE_REGISTRY ==>
      && KindType(SCENE_REGISTRY[name]) == name
      && name in SpecLoader.RULES_CATALOG
      && KindRanges(SCENE_REGISTRY[name]) == SpecLoader.RULES_CATALOG[name].params
  {
  }

  /** Every rule the default spec declares is created without an error. */
  lemma DefaultRulesCreate()
    ensures SpecLoader.DeclaredRules(SpecLoader.DEFAULT_SPEC).Some?
    ensures forall d :: d in SpecLoader.DeclaredRules(SpecLoader.DEFAULT_SPEC).value ==>
      CreateFailure(SCENE_REGISTRY, d.ruleType, d.params).None?
  {
    SpecLoader.DefaultRulesWithinCatalog();
    ConstructorRangesMatchCatalog();
  }

  /** The frame step the scene hands to `tick`: `Math.min(delta, 50)`. */
  function FrameDt(delta: real): (dt: real)
    ensures dt <= 50.0 && dt <= delta
    ensures dt == delta || dt == 50.0
  {
    if delta <= 50.0 then delta else 50.0
  }

  /**
   * With the default rules, a wall hit of a bullet with `n` bounces left
   * records one bounce before the event and the BulletBounce rule takes
   * another: `n - 2` remain, and the one event reports `n - 2`.
   */
  lemma DefaultWallHit(c: Idle.IdleConfig, s: Idle.IdleState, bc: Bounce.BounceConfig, n: int, gameTime: real)
    ensures var p := EmitAll([IdleView(c, s), BounceView(bc)], Bounce.HIT_WALL, Some(n - 1), gameTime);
      p.carry == Some(n - 2) && p.emitted == [Bounce.BounceEmission(n - 2)]
  {
    var vs := [IdleView(c, s), BounceView(bc)];
    assert vs[..1] == [IdleView(c, s)];
    assert [IdleView(c, s)][..0] == [];
    var zero := EmitAll([], Bounce.HIT_WALL, Some(n - 1), gameTime);
    assert zero == Pass([], Some(n - 1), []);
    var one := EmitOne(IdleView(c, s), Bounce.HIT_WALL, Some(n - 1), gameTime);
    assert one.carry == Some(n - 1) && one.emitted == [];
    var first := EmitAll([IdleView(c, s)], Bounce.HIT_WALL, Some(n - 1), gameTime);
    assert first == Pass(zero.views + [one.view], one.carry, zero.emitted + one.emitted);
    assert first.carry == Some(n - 1) && first.emitted == [];
    var second := EmitOne(BounceView(bc), Bounce.HIT_WALL, first.carry, gameTime);
    assert second.carry == Some(n - 2) && second.emitted == [Bounce.BounceEmission(n - 2)];
  }
}
