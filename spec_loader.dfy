/**
 * game/src/engine/SpecLoader.ts: the built-in session spec, the rule
 * catalog, the shallow-merge loader and the 32-bit rolling hash used to tag
 * a session. `JSON.stringify` is not modelled: the hash takes the
 * serialization as its sequence of UTF-16 code units.
 */
module SpecLoader {
  import opened Wrappers
  import opened Values
  import opened JsNumbers
  import opened RuleCore

  /** `DEFAULT_SPEC`, a top-level object. */
  const DEFAULT_SPEC: map<string, Value> := map[
    "version" := Str("0.1"),
    "seed" := Num(88421.0),
    "meta" := Obj(map[
      "title" := Str("One Room, Many Fates"),
      "difficultyTarget" := Str("medium"),
      "sessionSeconds" := Num(120.0)]),
    "arena" := Obj(map["width" := Num(960.0), "height" := Num(540.0), "walls" := Bool(true)]),
    "player" := Obj(map[
      "hp" := Num(100.0),
      "speed" := Num(220.0),
      "weapon" := Obj(map[
        "type" := Str("pistol"), "fireRate" := Num(5.0), "damage" := Num(8.0), "bulletSpeed" := Num(520.0)])]),
    "enemies" := Obj(map[
      "spawn" := Obj(map["pattern" := Str("waves"), "everySeconds" := Num(8.0), "count" := Num(4.0)]),
      "templates" := Arr([Obj(map[
        "id" := Str("chaser"), "hp" := Num(22.0), "speed" := Num(135.0), "behavior" := Str("ChasePlayer")])])]),
    "rules" := Arr([
      Obj(map["type" := Str("NoIdleDamage"), "params" := Obj(map["dps" := Num(1.4), "idleGraceMs" := Num(700.0)])]),
      Obj(map["type" := Str("BulletBounce"), "params" := Obj(map["maxBounces" := Num(2.0)])])]),
    "winCondition" := Obj(map["type" := Str("SurviveTime"), "params" := Obj(map["seconds" := Num(90.0)])])
  ]

  /** `RULES_CATALOG`. */
  const RULES_CATALOG: map<string, RuleCatalogEntry> := map[
    "NoIdleDamage" := RuleCatalogEntry(
      [ParamRange("dps", 0.5, 6.0), ParamRange("idleGraceMs", 0.0, 1500.0)],
      ["rule_effect:idle_damage"]),
    "BulletBounce" := RuleCatalogEntry(
      [ParamRange("maxBounces", 0.0, 6.0)],
      ["rule_effect:bullet_bounce"])
  ]

  /**
   * `loadSpec(overrides?)`: `{ ...DEFAULT_SPEC, ...overrides }`. A top-level
   * key of the overrides replaces the default's value whole; nothing below
   * the top level is merged.
   */
  function LoadSpec(overrides: Option<map<string, Value>>): (spec: map<string, Value>)
    ensures overrides.None? ==> spec == DEFAULT_SPEC
    ensures forall k :: k in spec <==> k in DEFAULT_SPEC || (overrides.Some? && k in overrides.value)
    ensures forall k :: k in spec ==>
      spec[k] == if overrides.Some? && k in overrides.value then overrides.value[k] else DEFAULT_SPEC[k]
  {
    match overrides
    case None => DEFAULT_SPEC
    case Some(o) => DEFAULT_SPEC + o
  }

  /** `loadRulesCatalog()`: a shallow copy of `RULES_CATALOG`. */
  function LoadRulesCatalog(): (catalog: map<string, RuleCatalogEntry>)
    ensures catalog.Keys == {"NoIdleDamage", "BulletBounce"}
    ensures forall k :: k in catalog ==> catalog[k] == RULES_CATALOG[k]
  {
    RULES_CATALOG
  }

  /** One `{type, params}` entry of a spec's `rules` list. */
  datatype RuleDecl = RuleDecl(ruleType: string, params: map<string, Value>)

  function DeclOf(v: Value): Option<RuleDecl>
  {
    if v.Obj? && "type" in v.fields && v.fields["type"].Str? && "params" in v.fields && v.fields["params"].Obj?
    then Some(RuleDecl(v.fields["type"].s, v.fields["params"].fields))
    else None
  }

  /** The rule declarations of a spec, when its `rules` list is well formed. */
  function DeclsOf(items: seq<Value>): Option<seq<RuleDecl>>
    decreases |items|
  {
    if items == [] then Some([])
    else
      var d, ds := DeclOf(items[0]), DeclsOf(items[1..]);
      if d.Some? && ds.Some? then Some([d.value] + ds.value) else None
  }

  function DeclaredRules(spec: map<string, Value>): Option<seq<RuleDecl>>
  {
    if "rules" in spec && spec["rules"].Arr? then DeclsOf(spec["rules"].items) else None
  }

  /**
   * The default spec declares one NoIdleDamage and one BulletBounce rule,
   * each of whose parameters lies within its catalog ranges
   * (dps 1.4 in [0.5, 6], idleGraceMs 700 in [0, 1500], maxBounces 2 in [0, 6]).
   */
  lemma DefaultRulesWithinCatalog()
    ensures DeclaredRules(DEFAULT_SPEC).Some?
    ensures |DeclaredRules(DEFAULT_SPEC).value| == 2
    ensures DeclaredRules(DEFAULT_SPEC).value[0].ruleType == "NoIdleDamage"
    ensures DeclaredRules(DEFAULT_SPEC).value[1].ruleType == "BulletBounce"
    ensures forall d :: d in DeclaredRules(DEFAULT_SPEC).value ==>
      d.ruleType in RULES_CATALOG && Validation(d.params, RULES_CATALOG[d.ruleType].params).None?
  {
    var items := DEFAULT_SPEC["rules"].items;
    var idle := RuleDecl("NoIdleDamage", map["dps" := Num(1.4), "idleGraceMs" := Num(700.0)]);
    var bounce := RuleDecl("BulletBounce", map["maxBounces" := Num(2.0)]);
    assert DeclOf(items[0]) == Some(idle);
    assert DeclOf(items[1]) == Some(bounce);
    assert items[1..][0] == items[1];
    assert DeclsOf(items[1..][1..]) == Some([]);
    assert DeclsOf(items[1..]) == Some([bounce] + []);
    assert DeclsOf(items) == Some([DeclOf(items[0]).value] + DeclsOf(items[1..]).value);
    assert [idle] + ([bounce] + []) == [idle, bounce];
    assert DeclaredRules(DEFAULT_SPEC) == Some([idle, bounce]);
    ValidationSucceedsIff(idle.params, RULES_CATALOG["NoIdleDamage"].params);
    ValidationSucceedsIff(bounce.params, RULES_CATALOG["BulletBounce"].params);
  }

  // ----- getSpecHash -----

  /** A UTF-16 code unit, what `charCodeAt` returns. */
  type CodeUnit = c: int | 0 <= c < 0x1_0000

  /**
   * One round of the loop as SpecLoader.ts writes it:
   * `hash = ((hash << 5) - hash) + char; hash = hash & hash`.
   * `<<` and `&` apply ToInt32; the subtraction and addition are exact.
   */
  function HashStep(hash: int, c: CodeUnit): int
  {
    ToInt32(ToInt32(hash * 32) - hash + c)
  }

  /** The round is `h := ToInt32(31 * h + c)`. */
  lemma HashStepIsTimes31(hash: int, c: CodeUnit)
    ensures HashStep(hash, c) == ToInt32(31 * hash + c)
  {
    var k := (hash * 32 - ToInt32(hash * 32)) / TWO_32;
    assert (ToInt32(hash * 32) - hash + c) - (31 * hash + c) == -(k * TWO_32);
    ToInt32Congruent(ToInt32(hash * 32) - hash + c, 31 * hash + c);
  }

  /** The accumulator after the loop has consumed `units`, from `hash = 0`. */
  function HashFold(units: seq<CodeUnit>): (h: int)
    ensures -TWO_31 <= h < TWO_31
    decreases |units|
  {
    if units == [] then 0 else HashStep(HashFold(units[..|units| - 1]), units[|units| - 1])
  }

  /** The exact polynomial `sum c_i * 31^(n-1-i)`, computed by Horner's rule. */
  function Polynomial(units: seq<CodeUnit>): int
    decreases |units|
  {
    if units == [] then 0 else 31 * Polynomial(units[..|units| - 1]) + units[|units| - 1]
  }

  /** The rolling hash is the polynomial hash of the code units, wrapped to 32 bits. */
  lemma {:induction false} HashIsWrappedPolynomial(units: seq<CodeUnit>)
    ensures HashFold(units) == ToInt32(Polynomial(units))
    decreases |units|
  {
    if units != [] {
      var init, c := units[..|units| - 1], units[|units| - 1];
      HashIsWrappedPolynomial(init);
      HashStepIsTimes31(HashFold(init), c);
      WrapThenTimes31(Polynomial(init), c);
    }
  }

  /** Wrapping before the round `31 * h + c` gives the same 32-bit result as wrapping after it. */
  lemma WrapThenTimes31(p: int, c: int)
    ensures ToInt32(31 * ToInt32(p) + c) == ToInt32(31 * p + c)
  {
    var r := ToInt32(p);
    var k := if p % TWO_32 >= TWO_31 then p / TWO_32 + 1 else p / TWO_32;
    assert p == r + k * TWO_32;
    var m := 31 * k;
    assert 31 * p + c == (31 * r + c) + m * TWO_32;
    ModShift32(31 * r + c, m);
  }

  /** The hash does not tell every pair of documents apart: "Aa" and "BB" collide. */
  lemma HashCollides()
    ensures HashFold([65, 97]) == HashFold([66, 66])
  {
    HashIsWrappedPolynomial([65, 97]);
    HashIsWrappedPolynomial([66, 66]);
    assert [65, 97][..1] == [65];
    assert [66, 66][..1] == [66];
  }

  /** The base-16 digit for `d`, lower-case as `toString(16)` writes it. */
  function HexChar(d: nat): char
    requires d < 16
  {
    if d < 10 then ('0' as int + d) as char else ('a' as int + d - 10) as char
  }

  predicate IsHexChar(c: char)
  {
    '0' <= c <= '9' || 'a' <= c <= 'f'
  }

  /** `n.toString(16)` for a non-negative integer: lower-case, no leading zeros. */
  function HexDigits(n: nat): (s: string)
    ensures |s| >= 1
    ensures forall i :: 0 <= i < |s| ==> IsHexChar(s[i])
    decreases n
  {
    if n < 16 then [HexChar(n)] else HexDigits(n / 16) + [HexChar(n % 16)]
  }

  /** `h.toString(16)` for any integer: a leading `-` when negative. */
  function SignedHex(h: int): string
  {
    if h < 0 then "-" + HexDigits(-h) else HexDigits(h)
  }

  function DigitValue(c: char): (d: nat)
    ensures d < 16
  {
    if '0' <= c <= '9' then (c as int - '0' as int)
    else if 'a' <= c <= 'f' then (c as int - 'a' as int) + 10
    else 0
  }

  /** Reading a base-16 rendering back, the partner of HexDigits and SignedHex. */
  function ParseHex(s: string): nat
    decreases |s|
  {
    if s == [] then 0 else 16 * ParseHex(s[..|s| - 1]) + DigitValue(s[|s| - 1])
  }

  function ParseSignedHex(s: string): int
  {
    if |s| > 0 && s[0] == '-' then -(ParseHex(s[1..]) as int) else ParseHex(s)
  }

  lemma {:induction false} HexDigitsRoundTrip(n: nat)
    ensures ParseHex(HexDigits(n)) == n
    decreases n
  {
    var s := HexDigits(n);
    if n >= 16 {
      HexDigitsRoundTrip(n / 16);
      assert s[..|s| - 1] == HexDigits(n / 16);
      assert DigitValue(s[|s| - 1]) == n % 16;
      assert n == 16 * (n / 16) + n % 16;
    } else {
      assert s[..0] == [];
      assert DigitValue(s[0]) == n;
    }
  }

  /** The rendered hash determines the hash: reading it back gives `h`. */
  lemma SignedHexRoundTrip(h: int)
    ensures ParseSignedHex(SignedHex(h)) == h
  {
    if h < 0 {
      HexDigitsRoundTrip(-h);
      assert SignedHex(h)[1..] == HexDigits(-h);
    } else {
      HexDigitsRoundTrip(h);
      assert IsHexChar(HexDigits(h)[0]);
    }
  }

  /** `getSpecHash(spec)`, over the code units of `JSON.stringify(spec)`. */
  method GetSpecHash(serialized: seq<CodeUnit>) returns (s: string)
    ensures s == SignedHex(HashFold(serialized))
    ensures s == SignedHex(ToInt32(Polynomial(serialized)))
    ensures serialized == [] ==> s == "0"
  {
    var hash := 0;
    for i := 0 to |serialized|
      invariant hash == HashFold(serialized[..i])
    {
      assert serialized[..i + 1][..i] == serialized[..i];
      hash := ToInt32(ToInt32(hash * 32) - hash + serialized[i]);
    }
    assert serialized[..|serialized|] == serialized;
    HashIsWrappedPolynomial(serialized);
    s := SignedHex(hash);
  }
}
