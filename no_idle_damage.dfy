/**
 * game/src/rules/NoIdleDamage.ts: once the player has stood still for longer
 * than `idleGraceMs`, damage them at `dps` hit points per second of game
 * time, announcing the onset once per idle episode.
 */
module NoIdleDamageRule {
  import opened Wrappers
  import opened Values
  import opened RuleCore
  import opened TelemetryLog

  const RULE_TYPE: string := "NoIdleDamage"

  /** The ranges the constructor validates against, written into it. */
  const PARAM_RANGES: seq<ParamRange> := [ParamRange("dps", 0.5, 6.0), ParamRange("idleGraceMs", 0.0, 1500.0)]

  /** The validated parameters: the bag as given, and the two numbers read from it. */
  datatype IdleConfig = IdleConfig(params: map<string, Value>, dps: real, idleGraceMs: real)

  /** The rule's private fields. */
  datatype IdleState = IdleState(lastMoveTime: real, idleTimerStarted: bool)

  const INITIAL_STATE: IdleState := IdleState(0.0, false)

  function ConfigOf(params: map<string, Value>): (c: IdleConfig)
    requires Validation(params, PARAM_RANGES).None?
    ensures c.params == params
    ensures 0.5 <= c.dps <= 6.0 && 0.0 <= c.idleGraceMs <= 1500.0
    ensures params["dps"] == Num(c.dps) && params["idleGraceMs"] == Num(c.idleGraceMs)
  {
    ValidationSucceedsIff(params, PARAM_RANGES);
    assert InRange(params, PARAM_RANGES[0]) && InRange(params, PARAM_RANGES[1]);
    IdleConfig(params, params["dps"].n, params["idleGraceMs"].n)
  }

  const ONSET_EVENT: string := "rule_effect:idle_damage"
  const DAMAGE_EVENT: string := "player_damage"
  const DEAD_EVENT: string := "player_dead"

  function OnsetEmission(c: IdleConfig): Emission
  {
    Emission(ONSET_EVENT, Obj(map["dps" := Num(c.dps), "idleGraceMs" := Num(c.idleGraceMs)]))
  }

  function DamageEmission(amount: real): Emission
  {
    Emission(DAMAGE_EVENT, Obj(map["amount" := Num(amount), "reason" := Str("idle")]))
  }

  const DEAD_EMISSION: Emission := Emission(DEAD_EVENT, Obj(map["reason" := Str("idle_damage")]))

  /** The hit points `dps` takes off over `dt` milliseconds: `dps * (dt / 1000)`. */
  function IdleDamage(dps: real, dt: real): real
  {
    dps * (dt / 1000.0)
  }

  datatype StartOutcome = StartOutcome(state: IdleState, emitted: seq<Emission>)

  /** What `onStart` does. */
  function StartStep(c: IdleConfig, gameTime: real): StartOutcome
  {
    StartOutcome(IdleState(gameTime, false), [RuleStartEmission(RULE_TYPE, c.params)])
  }

  datatype TickOutcome = TickOutcome(state: IdleState, player: Option<PlayerSnap>, emitted: seq<Emission>)

  /** What `onTick(ctx, dt)` does, given the player the context refers to. */
  function TickStep(c: IdleConfig, s: IdleState, player: Option<PlayerSnap>, gameTime: real, dt: real): TickOutcome
  {
    if player.None? || player.value.hp <= 0.0 then TickOutcome(s, player, [])
    else if player.value.isMoving then TickOutcome(IdleState(gameTime, false), player, [])
    else if gameTime - s.lastMoveTime > c.idleGraceMs then
      var onset := if !s.idleTimerStarted then [OnsetEmission(c)] else [];
      var damage := IdleDamage(c.dps, dt);
      var hp := player.value.hp - damage;
      var dead := if hp <= 0.0 then [DEAD_EMISSION] else [];
      TickOutcome(IdleState(s.lastMoveTime, true), Some(player.value.(hp := hp)), onset + [DamageEmission(damage)] + dead)
    else TickOutcome(s, player, [])
  }

  /** What `onEvent(ctx, evt)` does. */
  function EventStep(s: IdleState, evt: string, gameTime: real): IdleState
  {
    if evt == "PlayerMoved" then s.(lastMoveTime := gameTime) else s
  }

  /** The cases of one tick, as the rule's behaviour is documented. */
  lemma TickStepCases(c: IdleConfig, s: IdleState, player: Option<PlayerSnap>, gameTime: real, dt: real)
    ensures var out := TickStep(c, s, player, gameTime, dt);
      && (player.None? || player.value.hp <= 0.0 ==> out == TickOutcome(s, player, []))
      && (player.Some? && player.value.hp > 0.0 && player.value.isMoving ==>
            out == TickOutcome(IdleState(gameTime, false), player, []))
      && (player.Some? && player.value.hp > 0.0 && !player.value.isMoving && gameTime - s.lastMoveTime <= c.idleGraceMs ==>
            out == TickOutcome(s, player, []))
      && (player.Some? && player.value.hp > 0.0 && !player.value.isMoving && gameTime - s.lastMoveTime > c.idleGraceMs ==>
            && out.player == Some(PlayerSnap(player.value.hp - IdleDamage(c.dps, dt), false))
            && out.state == IdleState(s.lastMoveTime, true)
            && CountNamed(out.emitted, DAMAGE_EVENT) == 1
            && CountNamed(out.emitted, ONSET_EVENT) == (if s.idleTimerStarted then 0 else 1)
            && CountNamed(out.emitted, DEAD_EVENT) == (if out.player.value.hp <= 0.0 then 1 else 0))
  {
    if player.Some? && player.value.hp > 0.0 && !player.value.isMoving && gameTime - s.lastMoveTime > c.idleGraceMs {
      TickPastGrace(c, s, player, gameTime, dt);
    }
  }

  lemma TickPastGrace(c: IdleConfig, s: IdleState, player: Option<PlayerSnap>, gameTime: real, dt: real)
    requires player.Some? && player.value.hp > 0.0 && !player.value.isMoving
    requires gameTime - s.lastMoveTime > c.idleGraceMs
    ensures var out := TickStep(c, s, player, gameTime, dt);
      var hp := player.value.hp - IdleDamage(c.dps, dt);
      && out.state == IdleState(s.lastMoveTime, true)
      && out.player == Some(PlayerSnap(hp, false))
      && out.emitted == (if s.idleTimerStarted then [] else [OnsetEmission(c)])
           + [DamageEmission(IdleDamage(c.dps, dt))] + (if hp <= 0.0 then [DEAD_EMISSION] else [])
      && CountNamed(out.emitted, DAMAGE_EVENT) == 1
      && CountNamed(out.emitted, ONSET_EVENT) == (if s.idleTimerStarted then 0 else 1)
      && CountNamed(out.emitted, DEAD_EVENT) == (if out.player.value.hp <= 0.0 then 1 else 0)
  {
    var out := TickStep(c, s, player, gameTime, dt);
    var onset := if !s.idleTimerStarted then [OnsetEmission(c)] else [];
    var hp := player.value.hp - IdleDamage(c.dps, dt);
    var dead := if hp <= 0.0 then [DEAD_EMISSION] else [];
    var damage := [DamageEmission(IdleDamage(c.dps, dt))];
    assert !(player.None? || player.value.hp <= 0.0);
    assert !player.value.isMoving;
    assert out.state == IdleState(s.lastMoveTime, true);
    assert out.player.value.hp == hp;
    assert out.player == Some(player.value.(hp := hp));
    assert out.emitted == onset + damage + dead;
    assert out == TickOutcome(IdleState(s.lastMoveTime, true), Some(player.value.(hp := hp)), onset + damage + dead);
    CountNamedAppend(onset + damage, dead, DAMAGE_EVENT);
    CountNamedAppend(onset, damage, DAMAGE_EVENT);
    CountNamedAppend(onset + damage, dead, ONSET_EVENT);
    CountNamedAppend(onset, damage, ONSET_EVENT);
    CountNamedAppend(onset + damage, dead, DEAD_EVENT);
    CountNamedAppend(onset, damage, DEAD_EVENT);
    assert damage[..0] == [];
    assert onset != [] ==> onset[..0] == [];
    assert dead != [] ==> dead[..0] == [];
  }

  // ----- runs of ticks -----

  /** One frame as the host drives it: the clock, the step and whether the player moves. */
  datatype Frame = Frame(gameTime: real, dt: real, isMoving: bool)

  datatype RunOutcome = RunOutcome(state: IdleState, hp: real, emitted: seq<Emission>)

  /** Frames applied first to last to one present player whose movement the host sets. */
  function Run(c: IdleConfig, s: IdleState, hp: real, frames: seq<Frame>): RunOutcome
    decreases |frames|
  {
    if frames == [] then RunOutcome(s, hp, [])
    else
      var pre := Run(c, s, hp, frames[..|frames| - 1]);
      var f := frames[|frames| - 1];
      var out := TickStep(c, pre.state, Some(PlayerSnap(pre.hp, f.isMoving)), f.gameTime, f.dt);
      RunOutcome(out.state, out.player.value.hp, pre.emitted + out.emitted)
  }

  /** How many frames have the player moving. */
  function MovingFrames(frames: seq<Frame>): nat
    decreases |frames|
  {
    if frames == [] then 0
    else MovingFrames(frames[..|frames| - 1]) + (if frames[|frames| - 1].isMoving then 1 else 0)
  }

  /**
   * The onset event fires at most once per idle episode: at most once before
   * the first movement (never, if the rule was already armed) and at most
   * once after each frame in which the player moves.
   */
  lemma {:induction false} OnsetOncePerEpisode(c: IdleConfig, s: IdleState, hp: real, frames: seq<Frame>)
    ensures var out := Run(c, s, hp, frames);
      CountNamed(out.emitted, ONSET_EVENT) + (if out.state.idleTimerStarted then 0 else 1)
        <= MovingFrames(frames) + (if s.idleTimerStarted then 0 else 1)
    decreases |frames|
  {
    if frames != [] {
      var prefix := frames[..|frames| - 1];
      var f := frames[|frames| - 1];
      OnsetOncePerEpisode(c, s, hp, prefix);
      var pre := Run(c, s, hp, prefix);
      TickStepCases(c, pre.state, Some(PlayerSnap(pre.hp, f.isMoving)), f.gameTime, f.dt);
      var out := TickStep(c, pre.state, Some(PlayerSnap(pre.hp, f.isMoving)), f.gameTime, f.dt);
      CountNamedAppend(pre.emitted, out.emitted, ONSET_EVENT);
    }
  }

  /** With the player never moving, the onset fires at most once over the whole run. */
  lemma OnsetAtMostOnceWhileIdle(c: IdleConfig, s: IdleState, hp: real, frames: seq<Frame>)
    requires forall i :: 0 <= i < |frames| ==> !frames[i].isMoving
    ensures CountNamed(Run(c, s, hp, frames).emitted, ONSET_EVENT) <= (if s.idleTimerStarted then 0 else 1)
  {
    OnsetOncePerEpisode(c, s, hp, frames);
    NoMovingFrames(frames);
  }

  lemma {:induction false} NoMovingFrames(frames: seq<Frame>)
    requires forall i :: 0 <= i < |frames| ==> !frames[i].isMoving
    ensures MovingFrames(frames) == 0
    decreases |frames|
  {
    if frames != [] {
      NoMovingFrames(frames[..|frames| - 1]);
    }
  }

  /**
   * `player_dead` is emitted at most once in any run, only once hp is at
   * or below 0, and never when the player starts out defeated.
   */
  lemma {:induction false} DeathAtMostOnce(c: IdleConfig, s: IdleState, hp: real, frames: seq<Frame>)
    ensures var out := Run(c, s, hp, frames);
      && CountNamed(out.emitted, DEAD_EVENT) <= 1
      && (CountNamed(out.emitted, DEAD_EVENT) == 1 ==> out.hp <= 0.0)
      && (hp <= 0.0 ==> CountNamed(out.emitted, DEAD_EVENT) == 0 && out.hp == hp)
    decreases |frames|
  {
    if frames != [] {
      var prefix := frames[..|frames| - 1];
      var f := frames[|frames| - 1];
      DeathAtMostOnce(c, s, hp, prefix);
      var pre := Run(c, s, hp, prefix);
      TickStepCases(c, pre.state, Some(PlayerSnap(pre.hp, f.isMoving)), f.gameTime, f.dt);
      var out := TickStep(c, pre.state, Some(PlayerSnap(pre.hp, f.isMoving)), f.gameTime, f.dt);
      CountNamedAppend(pre.emitted, out.emitted, DEAD_EVENT);
    }
  }

  /** The hp the `player_damage` events of a log report, added up. */
  function ReportedDamage(ems: seq<Emission>): real
    decreases |ems|
  {
    if ems == [] then 0.0
    else
      var e := ems[|ems| - 1];
      var amount :=
        if e.event == DAMAGE_EVENT && e.data.Obj? && "amount" in e.data.fields && e.data.fields["amount"].Num?
        then e.data.fields["amount"].n else 0.0;
      ReportedDamage(ems[..|ems| - 1]) + amount
  }

  lemma {:induction false} ReportedDamageAppend(a: seq<Emission>, b: seq<Emission>)
    ensures ReportedDamage(a + b) == ReportedDamage(a) + ReportedDamage(b)
    decreases |b|
  {
    if b != [] {
      assert (a + b)[..|a + b| - 1] == a + b[..|b| - 1];
      ReportedDamageAppend(a, b[..|b| - 1]);
    } else {
      assert a + b == a;
    }
  }

  /** What the events one tick can emit report, one by one. */
  lemma ReportedParts(c: IdleConfig, damage: real)
    ensures ReportedDamage([OnsetEmission(c)]) == 0.0
    ensures ReportedDamage([DamageEmission(damage)]) == damage
    ensures ReportedDamage([DEAD_EMISSION]) == 0.0
  {
    assert [OnsetEmission(c)][..0] == [];
    assert [DamageEmission(damage)][..0] == [];
    assert [DEAD_EMISSION][..0] == [];
  }

  /** Within one tick, the hp the player loses is what the tick's events report. */
  lemma TickDamageReported(c: IdleConfig, s: IdleState, p: PlayerSnap, gameTime: real, dt: real)
    ensures var out := TickStep(c, s, Some(p), gameTime, dt);
      out.player.Some? && out.player.value.hp == p.hp - ReportedDamage(out.emitted)
  {
    if p.hp > 0.0 && !p.isMoving && gameTime - s.lastMoveTime > c.idleGraceMs {
      TickPastGrace(c, s, Some(p), gameTime, dt);
      var damage := IdleDamage(c.dps, dt);
      var onset := if s.idleTimerStarted then [] else [OnsetEmission(c)];
      var dead := if p.hp - damage <= 0.0 then [DEAD_EMISSION] else [];
      ReportedParts(c, damage);
      assert ReportedDamage(onset) == 0.0 && ReportedDamage(dead) == 0.0;
      ReportedDamageAppend(onset + [DamageEmission(damage)], dead);
      ReportedDamageAppend(onset, [DamageEmission(damage)]);
    }
  }

  /**
   * The hp lost over a run is exactly the sum of the amounts the
   * `player_damage` events report: one increment per damaging frame.
   */
  lemma {:induction false} DamageMatchesLog(c: IdleConfig, s: IdleState, hp: real, frames: seq<Frame>)
    ensures var out := Run(c, s, hp, frames); out.hp == hp - ReportedDamage(out.emitted)
    decreases |frames|
  {
    if frames != [] {
      var prefix := frames[..|frames| - 1];
      var f := frames[|frames| - 1];
      DamageMatchesLog(c, s, hp, prefix);
      var pre := Run(c, s, hp, prefix);
      var out := TickStep(c, pre.state, Some(PlayerSnap(pre.hp, f.isMoving)), f.gameTime, f.dt);
      TickDamageReported(c, pre.state, PlayerSnap(pre.hp, f.isMoving), f.gameTime, f.dt);
      ReportedDamageAppend(pre.emitted, out.emitted);
    }
  }

  class NoIdleDamage {
    const ruleType: string := RULE_TYPE
    const params: map<string, Value>
    const dps: real
    const idleGraceMs: real
    var lastMoveTime: real
    var idleTimerStarted: bool

    function Config(): IdleConfig
    {
      IdleConfig(params, dps, idleGraceMs)
    }

    function State(): IdleState
      reads this
    {
      IdleState(lastMoveTime, idleTimerStarted)
    }

    /** The construction that follows a successful validation. */
    constructor (params: map<string, Value>)
      requires Validation(params, PARAM_RANGES).None?
      ensures ruleType == RULE_TYPE
      ensures Config() == ConfigOf(params)
      ensures State() == INITIAL_STATE
    {
      var c := ConfigOf(params);
      this.params := params;
      dps := c.dps;
      idleGraceMs := c.idleGraceMs;
      lastMoveTime := 0.0;
      idleTimerStarted := false;
    }

    method OnStart(ctx: RuleContext, now: int)
      modifies this, ctx.telemetry
      ensures old(ctx.telemetry.Valid()) ==> ctx.telemetry.Valid()
      ensures var out := StartStep(Config(), ctx.gameTime);
        && State() == out.state
        && ctx.telemetry.events == old(ctx.telemetry.events) + Stamped(out.emitted, now - old(ctx.telemetry.startTime))
        && ctx.telemetry.startTime == old(ctx.telemetry.startTime)
    {
      lastMoveTime := ctx.gameTime;
      idleTimerStarted := false;
      ctx.telemetry.Emit(now, "rule_start", Some(Obj(map["type" := Str(ruleType), "params" := Obj(params)])));
    }

    method OnTick(ctx: RuleContext, dt: real, now: int)
      modifies this, ctx.telemetry, ctx.entities.player
      ensures old(ctx.telemetry.Valid()) ==> ctx.telemetry.Valid()
      ensures var out := TickStep(Config(), old(State()), old(PlayerOf(ctx.entities.player)), ctx.gameTime, dt);
        && State() == out.state
        && PlayerOf(ctx.entities.player) == out.player
        && ctx.telemetry.events == old(ctx.telemetry.events) + Stamped(out.emitted, now - old(ctx.telemetry.startTime))
        && ctx.telemetry.startTime == old(ctx.telemetry.startTime)
    {
      var player := ctx.entities.player;
      if player == null || player.hp <= 0.0 {
        return;
      }
      var isMoving := player.isMoving;
      if isMoving {
        lastMoveTime := ctx.gameTime;
        idleTimerStarted := false;
      } else if ctx.gameTime - lastMoveTime > idleGraceMs {
        TickPastGrace(Config(), State(), PlayerOf(player), ctx.gameTime, dt);
        DamageIdlePlayer(ctx.telemetry, player, dt, now);
      }
    }

    /** The past-grace branch of `onTick`: announce the onset once, damage the player, report a death. */
    method DamageIdlePlayer(telemetry: Telemetry, player: PlayerEntity, dt: real, now: int)
      modifies this, telemetry, player
      ensures old(telemetry.Valid()) ==> telemetry.Valid()
      ensures var hp := old(player.hp) - IdleDamage(dps, dt);
        && State() == IdleState(old(lastMoveTime), true)
        && player.hp == hp && player.isMoving == old(player.isMoving)
        && telemetry.events == old(telemetry.events) + Stamped(
             (if old(idleTimerStarted) then [] else [OnsetEmission(Config())])
             + [DamageEmission(IdleDamage(dps, dt))] + (if hp <= 0.0 then [DEAD_EMISSION] else []),
             now - old(telemetry.startTime))
        && telemetry.startTime == old(telemetry.startTime)
    {
      ghost var t := now - telemetry.startTime;
      ghost var onset: seq<Emission> := [];
      if !idleTimerStarted {
        idleTimerStarted := true;
        telemetry.Emit(now, ONSET_EVENT, Some(Obj(map["dps" := Num(dps), "idleGraceMs" := Num(idleGraceMs)])));
        onset := [OnsetEmission(Config())];
        StampedOne(OnsetEmission(Config()), t);
      }
      assert telemetry.events == old(telemetry.events) + Stamped(onset, t);
      var damage := IdleDamage(dps, dt);
      player.hp := player.hp - damage;
      telemetry.Emit(now, DAMAGE_EVENT, Some(Obj(map["amount" := Num(damage), "reason" := Str("idle")])));
      StampedOne(DamageEmission(damage), t);
      StampedAppend(onset, [DamageEmission(damage)], t);
      assert telemetry.events == old(telemetry.events) + Stamped(onset + [DamageEmission(damage)], t);
      ghost var dead: seq<Emission> := [];
      if player.hp <= 0.0 {
        telemetry.Emit(now, DEAD_EVENT, Some(Obj(map["reason" := Str("idle_damage")])));
        dead := [DEAD_EMISSION];
        StampedOne(DEAD_EMISSION, t);
      }
      StampedAppend(onset + [DamageEmission(damage)], dead, t);
    }

    method OnEvent(ctx: RuleContext, evt: string)
      modifies this
      ensures State() == EventStep(old(State()), evt, ctx.gameTime)
    {
      if evt == "PlayerMoved" {
        lastMoveTime := ctx.gameTime;
      }
    }
  }

  /**
   * `new NoIdleDamage(params)`: validate against the written-in ranges and
   * throw the validation error, or produce a rule in its initial state.
   */
  method NewNoIdleDamage(params: map<string, Value>) returns (r: Result<NoIdleDamage, ParamError>)
    ensures r.Err? <==> Validation(params, PARAM_RANGES).Some?
    ensures r.Err? ==> Validation(params, PARAM_RANGES) == Some(r.error)
    ensures r.Ok? ==> fresh(r.value) && r.value.ruleType == RULE_TYPE
    ensures r.Ok? ==> r.value.Config() == ConfigOf(params) && r.value.State() == INITIAL_STATE
  {
    var failure := ValidateParams(params, RuleCatalogEntry(PARAM_RANGES, []));
    if failure.Some? {
      return Err(failure.value);
    }
    var rule := new NoIdleDamage(params);
    r := Ok(rule);
  }
}
