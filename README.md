# Survival-game rule core in Dafny

This project models the deterministic gameplay-modifier core of a small
browser survival game and proves properties of the model. The core has six
parts:

- **Random**: a seeded linear-congruential generator holding one integer `state`.
- **TelemetryLog**: an append-only event log. Its timestamps are taken relative to a start time.
- **RuleCore**: the entity snapshot, the rule context and `validateParams`.
  - `validateParams` is the catalog-driven range check every rule constructor runs.
- **Engine**:
  - the registry that `registerRule` / `createRule` share;
  - the `RuleEngine`, which keeps the active rules in the order they were added;
  - the dispatch of `start`, `tick` and `emit` to every rule in that order.
- **SpecLoader**:
  - the built-in session spec and the rule catalog;
  - the shallow-merge loader;
  - the 32-bit rolling hash `getSpecHash`, with its signed base-16 rendering.
- **The two rule plugins**:
  - **NoIdleDamage** is a timer and arming state machine. It damages a player who stands still past a grace period.
  - **BulletBounce** takes one bounce off a bullet on every wall hit.

State that the TypeScript code changes in place is modelled as classes with
`modifies` frames:

- the generator;
- the log;
- the registry;
- the engine's rule list;
- the two rule classes;
- the player's `hp`;
- the bullet's `bouncesRemaining`.

Each mutating method is proved against a pure function of the old state:

- `TickStep`, `EventStep` and `Apply`.
- The log also keeps a ghost history of its starts, emits and clears. Every mutator preserves `Valid()`, which says the fields are what `Replay` makes of that history. So does every rule hook and engine pass that writes to the log.
- The hash loop of `getSpecHash` changes only a local accumulator. It is proved against the fold `HashFold`.
- The engine passes are the left folds `StartAll`, `TickAll` and `EmitAll` over the rules' values (`RuleView`).
- The lemmas state what those functions promise: counts of events, ordering, the arming discipline, round trips and the error cases.

Where the intended behaviour and the code part ways, the model follows the code:

- **BulletBounce**:
  - The rule never reads `maxBounces` and does not stop the counter at 0. A wall hit on a bullet with no bounces left still emits a bounce event, reporting −1 (`BulletBounceRule.CounterGoesNegative`).
  - The intended scenario is "two bounces, three hits, two bounce events". It holds only for the corrected wall-hit path in the findings below.
- **getSpecHash**:
  - It is not injective. The documents "Aa" and "BB" hash alike (`SpecLoader.HashCollides`).
  - So two documents that differ do not always get different hashes.

## Model

| member | source | states |
|---|---|---|
| JsNumbers.ToInt32 | game/src/engine/SpecLoader.ts:43-44 | the ECMAScript 32-bit wrap: the result lies in [-2^31, 2^31) and is congruent to the input modulo 2^32 |
| JsNumbers.MaskLow31 | game/src/engine/RNG.ts:14 | `x & 0x7fffffff` is the Euclidean residue of x modulo 2^31, so it is never negative |
| Random.Step | game/src/engine/RNG.ts:14 | one generator step is `(state * 1103515245 + 12345) mod 2^31` and lies in [0, 2^31) |
| Random.UnitValueInRange | game/src/engine/RNG.ts:15 | for a masked state, `state / 2^31` lies in [0, 1) |
| Random.ScaledInt | game/src/engine/RNG.ts:18-20 | `floor(next() * (max - min + 1)) + min` is the integer `(state * (max-min+1)) / 2^31 + min`; it lies in [min, max] whenever min <= max |
| Random.NextBoolThreshold | game/src/engine/RNG.ts:26-28 | `next() < 0.5` holds exactly when the new state is below 2^30 |
| Random.RNG.constructor | game/src/engine/RNG.ts:5-7 | the generator starts in the state it is seeded with |
| Random.RNG.Seed | game/src/engine/RNG.ts:9-11 | `seed(v)` sets the state to v and changes nothing else |
| Random.RNG.Next | game/src/engine/RNG.ts:13-16 | advances the state by exactly one step and returns `state / 2^31`, which lies in [0, 1) |
| Random.RNG.NextInt | game/src/engine/RNG.ts:18-20 | one step, then the scaled integer of the new state, in [min, max] when min <= max |
| Random.RNG.NextBool | game/src/engine/RNG.ts:26-28 | one step; the result is true iff the new state is below 2^30 |
| Random.RNG.Pick | game/src/engine/RNG.ts:30-32 | one step; for a non-empty array it returns the element at the scaled index, which is some element of the array; for an empty one it returns nothing |
| TelemetryLog.Telemetry.constructor | game/src/engine/Telemetry.ts:8-9 | a new log is empty, with start time 0 and an empty history that it is valid for |
| TelemetryLog.Telemetry.Start | game/src/engine/Telemetry.ts:11-14 | empties the log and sets the start time to the clock reading; records the start in the history and keeps `Valid()` |
| TelemetryLog.Telemetry.Emit | game/src/engine/Telemetry.ts:16-22 | appends exactly one entry `(now - startTime, event, data)` and leaves the earlier entries and the start time unchanged; records the emit in the history and keeps `Valid()` |
| TelemetryLog.Telemetry.Dump | game/src/engine/Telemetry.ts:24-26 | returns a new array whose entries equal the log, so writes to it cannot reach the log |
| TelemetryLog.Telemetry.Clear | game/src/engine/Telemetry.ts:28-30 | empties the log and keeps the start time; records the clear in the history and keeps `Valid()` |
| TelemetryLog.Telemetry.Count | game/src/engine/Telemetry.ts:32-34 | on a valid log, `count()` is the number of emits since the last start or clear in the object's history |
| TelemetryLog.Telemetry.HasEvent | game/src/engine/Telemetry.ts:36-38 | true iff some entry carries the given name |
| TelemetryLog.AnyNamedIff | game/src/engine/Telemetry.ts:37 | the left-to-right `some` scan is true iff an entry with the name exists, in both directions |
| TelemetryLog.Telemetry.Last | game/src/engine/Telemetry.ts:40-42 | `last(n)` is the final n entries for 1 <= n <= count, the whole log for n >= count or n = 0, and a suffix clipped by `slice` for negative n |
| TelemetryLog.SliceFrom | game/src/engine/Telemetry.ts:41 | `slice(start)` returns a suffix of the array, never longer than it |
| TelemetryLog.CountIsEmitsSinceReset | game/src/engine/Telemetry.ts:11-34 | after any history of starts, emits and clears on a new log, `count()` is the number of emits since the last start or clear |
| TelemetryLog.ReplayKeepsTimesSorted | game/src/engine/Telemetry.ts:11-22 | with a clock that never goes back, the log stays sorted by timestamp and no timestamp is later than the latest reading relative to the start time |
| RuleCore.CheckParam | game/src/engine/RuleEngine.ts:43-47 | one catalog entry: the error is "missing" exactly when the value is undefined or null, and the check passes exactly when the value is a number in [min, max]; otherwise it is "out of range" for that key |
| RuleCore.ValidationSucceedsIff | game/src/engine/RuleEngine.ts:41-49 | validation succeeds iff every catalog key holds a number within its inclusive range; extra keys play no part |
| RuleCore.ValidationFirstFailure | game/src/engine/RuleEngine.ts:42-47 | validation fails with e iff some entry fails with e and every entry before it in catalog order passes |
| RuleCore.ValidateParams | game/src/engine/RuleEngine.ts:41-49 | the loop returns the first failing entry's error, checking presence before type and range, and succeeds iff every entry is in range |
| SpecLoader.LoadSpec | game/src/engine/SpecLoader.ts:30-32 | with no overrides the result is the default spec; otherwise each top-level key takes the override's value when the override has it and the default's otherwise, and nested objects are replaced whole |
| SpecLoader.LoadRulesCatalog | game/src/engine/SpecLoader.ts:34-36 | the copy has exactly the catalog's two keys, each with the catalog's entry |
| SpecLoader.DefaultRulesWithinCatalog | game/src/engine/SpecLoader.ts:10-16 | the default spec declares NoIdleDamage, then BulletBounce, and each one's parameters pass validation against its catalog entry |
| SpecLoader.HashStepIsTimes31 | game/src/engine/SpecLoader.ts:43-44 | one loop round `((h << 5) - h) + c`, then `h & h`, is `ToInt32(31 * h + c)` |
| SpecLoader.HashFold | game/src/engine/SpecLoader.ts:40-45 | the accumulator after the loop always lies in [-2^31, 2^31) |
| SpecLoader.HashIsWrappedPolynomial | game/src/engine/SpecLoader.ts:40-45 | the rolling hash is the polynomial `sum c_i * 31^(n-1-i)` wrapped to 32 bits |
| SpecLoader.HashCollides | game/src/engine/SpecLoader.ts:38-47 | two different strings, "Aa" and "BB", get the same hash |
| SpecLoader.HexDigits | game/src/engine/SpecLoader.ts:46 | `n.toString(16)` is a non-empty string of lower-case hex digits |
| SpecLoader.HexDigitsRoundTrip | game/src/engine/SpecLoader.ts:46 | reading the base-16 digits back gives n |
| SpecLoader.SignedHexRoundTrip | game/src/engine/SpecLoader.ts:46 | the signed rendering, with a leading `-` for negative h, reads back to h, so the string determines the hash |
| SpecLoader.GetSpecHash | game/src/engine/SpecLoader.ts:38-47 | the loop's result is the signed hex of the fold, which is the wrapped polynomial hash; the empty string hashes to "0" |
| NoIdleDamageRule.ConfigOf | game/src/rules/NoIdleDamage.ts:9-12 | validated parameters have dps in [0.5, 6] and idleGraceMs in [0, 1500], read from the bag as given |
| NoIdleDamageRule.NewNoIdleDamage | game/src/rules/NoIdleDamage.ts:9-12 | construction fails with the validation error iff the written-in ranges reject the parameters; otherwise it yields a fresh rule, disarmed and with idle clock 0 |
| NoIdleDamageRule.NoIdleDamage.constructor | game/src/rules/NoIdleDamage.ts:4-12 | after validation the rule has type "NoIdleDamage", the given parameters and its initial fields |
| NoIdleDamageRule.NoIdleDamage.OnStart | game/src/rules/NoIdleDamage.ts:14-18 | sets the idle clock to the game time and disarms; emits exactly one `rule_start` with type and params |
| NoIdleDamageRule.NoIdleDamage.OnTick | game/src/rules/NoIdleDamage.ts:20-38 | the rule's fields, the player and the log end up as `TickStep` says, from the old fields and player |
| NoIdleDamageRule.NoIdleDamage.DamageIdlePlayer | game/src/rules/NoIdleDamage.ts:28-37 | past the grace period: arms the flag, emits the onset only if it was disarmed, lowers hp by `dps * dt / 1000`, emits one `player_damage`, and emits `player_dead` iff the new hp is <= 0 |
| NoIdleDamageRule.TickStepCases | game/src/rules/NoIdleDamage.ts:20-38 | the four cases of a tick. No player or hp <= 0: nothing changes. Moving: reset the clock and disarm. Idle within grace (a strict `>`): nothing changes. Past grace: exact damage, one damage event, onset iff disarmed, death event iff the new hp <= 0 |
| NoIdleDamageRule.TickPastGrace | game/src/rules/NoIdleDamage.ts:28-36 | the past-grace tick's exact new state, player and emitted sequence, in the order NoIdleDamage.ts emits them |
| NoIdleDamageRule.NoIdleDamage.OnEvent | game/src/rules/NoIdleDamage.ts:40-42 | "PlayerMoved" sets the idle clock to the game time and leaves the flag; any other event changes nothing |
| NoIdleDamageRule.OnsetOncePerEpisode | game/src/rules/NoIdleDamage.ts:26-32 | over any run of frames, onset events number at most one per idle episode: at most one before the first movement, and one more after each moving frame |
| NoIdleDamageRule.OnsetAtMostOnceWhileIdle | game/src/rules/NoIdleDamage.ts:29-32 | with the player never moving, the onset fires at most once, and never if the rule was already armed |
| NoIdleDamageRule.DeathAtMostOnce | game/src/rules/NoIdleDamage.ts:22-36 | `player_dead` is emitted at most once in any run, only with hp <= 0, and never when the player starts defeated |
| NoIdleDamageRule.TickDamageReported | game/src/rules/NoIdleDamage.ts:33-35 | within one tick, the hp lost is exactly the amount the tick's `player_damage` events report |
| NoIdleDamageRule.DamageMatchesLog | game/src/rules/NoIdleDamage.ts:33-35 | over any run, the hp lost is exactly the sum the `player_damage` events report |
| BulletBounceRule.ConfigOf | game/src/rules/BulletBounce.ts:7-10 | validated parameters have maxBounces in [0, 6] |
| BulletBounceRule.NewBulletBounce | game/src/rules/BulletBounce.ts:7-10 | construction fails with the validation error iff maxBounces is missing or outside [0, 6]; otherwise it yields a fresh rule |
| BulletBounceRule.BulletBounce.constructor | game/src/rules/BulletBounce.ts:3-10 | after validation the rule keeps the given parameters |
| BulletBounceRule.BulletBounce.OnStart | game/src/rules/BulletBounce.ts:12-14 | emits exactly one `rule_start` with type and params and changes nothing else |
| BulletBounceRule.BulletBounce.OnEvent | game/src/rules/BulletBounce.ts:16-21 | on "BulletHitWall" with a bullet: decrements the counter by one and emits one bounce event reporting the new value; otherwise changes nothing and emits nothing |
| BulletBounceRule.CounterDropsOncePerHit | game/src/rules/BulletBounce.ts:16-21 | after any event sequence the counter is the initial value minus the number of wall hits, with exactly one bounce event per hit |
| BulletBounceRule.CounterGoesNegative | game/src/rules/BulletBounce.ts:16-21 | a wall hit on a bullet with 0 bounces left takes the counter to −1 and still reports a bounce |
| BulletBounceRule.HostBounceEvents | game/src/scenes/GameScene.ts:251-263 | with the host's decrement and the rule's decrement, a bullet with n >= 0 bounces yields min(hits, (n+1)/2) bounce events and is destroyed once hits exceed (n+1)/2 |
| BulletBounceRule.SingleDecrementBounceEvents | game/src/scenes/GameScene.ts:251-263 | with one decrement per hit, a bullet with n >= 0 bounces yields min(hits, n) events, its counter stops at 0, and it is destroyed on hit n+1 |
| BulletBounceRule.TwoBouncesThreeHits | game/src/scenes/GameScene.ts:251-263 | two bounces and three wall hits give two bounce events with one decrement per hit, and one with the two decrements GameScene.ts and Bullet.ts make |
| Engine.CreateFailure | game/src/engine/RuleEngine.ts:35-39 | an unregistered type fails as "unknown rule type"; a registered one fails exactly with its constructor's validation error |
| Engine.CreateSucceedsIff | game/src/engine/RuleEngine.ts:35-39 | `createRule` succeeds iff the type is registered and every range its constructor checks holds; the catalog argument plays no part |
| Engine.RuleRegistry.constructor | game/src/engine/RuleEngine.ts:29 | the registry starts empty |
| Engine.RuleRegistry.Register | game/src/engine/RuleEngine.ts:31-33 | the name now maps to the constructor and every other entry is unchanged, so re-registering overwrites |
| Engine.RuleRegistry.CreateRule | game/src/engine/RuleEngine.ts:35-39 | fails exactly as `CreateFailure` says; otherwise it returns a fresh rule of the registered class and type, built from the parameters, in its initial state |
| Engine.StartAll | game/src/engine/RuleEngine.ts:67-69 | the start pass keeps one value per rule, and each is that rule started at the game time |
| Engine.TickAll | game/src/engine/RuleEngine.ts:71-73 | the tick pass keeps one value per rule; its own contract states only that. What the pass does is stated by `Engine.TickIgnoresBounceRules` and `Engine.DefaultTickIsIdleTick` |
| Engine.EmitAll | game/src/engine/RuleEngine.ts:75-80 | the event pass keeps one value per rule, and each is that rule after the event |
| Engine.StartEmitsOnePerRule | game/src/engine/RuleEngine.ts:67-69 | starting emits one `rule_start` per rule, in list order, each with that rule's type and parameters, and resets every NoIdleDamage rule |
| Engine.TickIgnoresBounceRules | game/src/engine/RuleEngine.ts:71-73 | a tick does to the player and the log exactly what it does with the BulletBounce rules, which have no tick hook, taken out |
| Engine.DefaultTickIsIdleTick | game/src/engine/RuleEngine.ts:71-73 | with the default rule list a tick is exactly one NoIdleDamage tick |
| Engine.EmitCountsBounceRules | game/src/engine/RuleEngine.ts:75-80 | a wall hit with a bullet takes one bounce per BulletBounce rule and emits one bounce event per such rule; any other event, or no bullet, leaves the bullet unchanged and emits nothing |
| Engine.RuleEngine.constructor | game/src/engine/RuleEngine.ts:57-61 | a new engine holds no rules and keeps the given log and generator |
| Engine.RuleEngine.AddRule | game/src/engine/RuleEngine.ts:63-65 | appends the rule at the end and keeps every earlier rule in place |
| Engine.RuleEngine.Start | game/src/engine/RuleEngine.ts:67-69 | every rule's start hook runs once in list order: the rules' values and the log end up as `StartAll` of the old values |
| Engine.RuleEngine.Tick | game/src/engine/RuleEngine.ts:71-73 | every rule's tick hook runs once in list order, each seeing the player as the previous hooks left it: values, player and log end up as `TickAll` |
| Engine.RuleEngine.Emit | game/src/engine/RuleEngine.ts:75-90 | every rule's event hook runs once in list order. Each gets a context with the engine's log and generator, the current game time, an empty spec and no entities. Values, bullet and log end up as `EmitAll` |
| Engine.RegisterSceneRules | game/src/scenes/GameScene.ts:14-15 | the registry the scene builds maps each rule name to its own class |
| Engine.ConstructorRangesMatchCatalog | game/src/engine/SpecLoader.ts:14-17 | each registered constructor builds the type it is registered under and checks exactly the catalog's ranges for that name |
| Engine.DefaultRulesCreate | game/src/scenes/GameScene.ts:164-168 | every rule the default spec declares is created without an error |
| Engine.FrameDt | game/src/scenes/GameScene.ts:268 | the step handed to `tick` is the frame delta capped at 50 |
| Engine.DefaultWallHit | game/src/scenes/GameScene.ts:256-258 | with the default rules, a wall hit on a bullet that had n bounces leaves n − 2, and its one bounce event reports n − 2 |

## Left out

- `RNG.nextFloat` is not modelled: it is floating-point output.
- Random.Step: the multiplication is exact here. In JavaScript, `state * 1103515245` can exceed 2^53 and lose precision before the mask.
- The generator's seed is an `int` argument. The default `seed = 0` of the constructor is not a separate member.
- Determinism: two generators seeded alike produce the same draws. This is not stated as a lemma. It follows because every draw's contract gives the new state and the result as functions of the old state.
- `performance.now()` is a `now: int` argument of `Telemetry.Start`, `Telemetry.Emit` and every hook and dispatch.
  - One dispatch uses one reading for all of its entries.
  - The reading is a whole number of milliseconds, so `Math.round` of the difference is the difference.
- Two objects that JavaScript shares are copied values here. NoIdleDamage keeps the live `params` object and reads `dps` and `idleGraceMs` from it on every tick, but the model keeps the two validated numbers. `{...DEFAULT_SPEC, ...overrides}` shares its nested `rules` and `params` objects with `DEFAULT_SPEC`. No code in the modelled files mutates either object, so no behaviour is lost.
- TelemetryLog.Telemetry.Dump returns the copied array itself. The `{ events: ... }` object that wraps it is not modelled.
- TelemetryLog.Telemetry.Dump: the copy is modelled as values. The per-entry shallow copy, and the entry's `data` object still being shared, are not modelled.
- `JSON.stringify` is not modelled. `getSpecHash` takes the serialization as its sequence of UTF-16 code units, so the key order of the serialized spec is not modelled either.
- JavaScript values are JSON-like `Value`s:
  - NaN and the infinities are not modelled.
  - A key that is present with the value `undefined` is modelled as absent. `validateParams` treats such a key the same way.
  - SpecLoader.LoadSpec therefore does not model an override key whose value is `undefined`. SpecLoader.ts spreads that key, so `loadSpec({seed: undefined})` has `seed: undefined`. The model keeps the default 88421 instead.
- Registry look-ups through the object's prototype (`createRule("toString")`, `createRule("constructor")`) are not modelled. Only names registered with `registerRule` are found.
- Engine.RuleRegistry.CreateRule takes no catalog argument, because `createRule` ignores the one the scene passes.
- The engine's `getGameTime` callback is the `gameTime` argument of `Engine.RuleEngine.Emit`.
- `emit`'s `data` argument is reduced to the bullet it may carry, because that is all the rules read.
- Engine.RuleEngine.Tick requires that no NoIdleDamage object is held twice.
  - `Start` and `Emit` allow the same object twice.
  - Ticking the same object twice in one pass is not modelled.
- Engine.RuleEngine.Start, Engine.RuleEngine.Tick and Engine.RuleEngine.Emit: the context carries `spec`, the enemy list and the bullet list. No rule reads them, so no contract says anything about them.
- The player and the bullet are classes that have only the fields the rules touch: `hp`, `isMoving` and `bouncesRemaining`.
  - The sprites and their physics are not modelled.
  - `Player.fire` configures every bullet with 0 bounces, so in the shipped game the wall-hit path never reaches the rule.
- `hp`, `dps` and the game time are `real`s. IEEE-754 rounding in `dps * (dt / 1000)` is not modelled.
- The scene (`GameScene.ts`) is not modelled, except for three facts:
  - the registrations;
  - the frame step `min(delta, 50)`;
  - the wall-hit path, which records a bounce before emitting the event.
- TestHooks, the UI, input, the bot, enemies and spawning are not modelled.

## Findings

| source | as written | input that shows it | evidently intended | confidence | as-written member | corrected member |
|---|---|---|---|---|---|---|
| game/src/scenes/GameScene.ts:256-258 | on a wall hit the scene calls `recordBounce()`, which decrements `bouncesRemaining`, and then emits `BulletHitWall`; the BulletBounce rule decrements the same counter again | a bullet with 2 bounces hitting a wall three times: one bounce event, and the counter is 0 after the first hit | one decrement per hit, so 2 bounces give 2 bounce events and the bullet is destroyed on the third hit | medium, not executed | BulletBounceRule.HostBounceEvents | BulletBounceRule.SingleDecrementBounceEvents |
