/**
 * The three-tier lookup of PropertyResolver.fromPropertiesThenSystemThenEnvironment:
 * explicit properties, then the system properties, then (only for keys starting
 * with "env.") the environment with the prefix stripped.
 */
module PropertyLookup {
  import opened Wrappers

  /**
   * The value sources of one resolution. The system properties, which the Java
   * code reads from the running JVM, are passed in as a read-only snapshot; the
   * environment may be null.
   */
  datatype Sources = Sources(
    properties: map<string, string>,
    system: map<string, string>,
    environment: Option<map<string, string>>)

  const EnvPrefix: string := "env."

  /** `key.startsWith("env.")` */
  predicate IsEnvKey(key: string) {
    |EnvPrefix| <= |key| && key[..|EnvPrefix|] == EnvPrefix
  }

  /** The lookup itself; `None` is Java's null (no tier has the key). */
  function FromPropertiesThenSystemThenEnvironment(key: string, src: Sources): (r: Option<string>)
    ensures r.Some? ==> r.value in AllValues(src)
  {
    var value := if key in src.properties then Some(src.properties[key]) else None;
    var value := if value.None? && key in src.system then Some(src.system[key]) else value;
    if value.None? && IsEnvKey(key) && src.environment.Some? && key[|EnvPrefix|..] in src.environment.value then
      Some(src.environment.value[key[|EnvPrefix|..]])
    else
      value
  }

  // ----- reference definition: the tiers as an ordered list, searched front to back -----

  /** One tier: a mapping and the key it is asked for. */
  datatype Tier = Tier(entries: map<string, string>, key: string)

  /** The tiers consulted for `key`, in order. */
  function Tiers(key: string, src: Sources): seq<Tier> {
    [Tier(src.properties, key), Tier(src.system, key)]
    + (if IsEnvKey(key) && src.environment.Some? then [Tier(src.environment.value, key[|EnvPrefix|..])] else [])
  }

  /** The value held by the first tier that has its key. */
  function FirstHit(tiers: seq<Tier>): (r: Option<string>)
    ensures r.None? <==> forall i :: 0 <= i < |tiers| ==> tiers[i].key !in tiers[i].entries
    ensures r.Some? ==> exists i :: 0 <= i < |tiers| && tiers[i].key in tiers[i].entries && r.value == tiers[i].entries[tiers[i].key]
  {
    if tiers == [] then None
    else if tiers[0].key in tiers[0].entries then Some(tiers[0].entries[tiers[0].key])
    else
      var r := FirstHit(tiers[1..]);
      assert forall i :: 1 <= i < |tiers| ==> tiers[i] == tiers[1..][i - 1];
      r
  }

  /** Every value that any tier could yield. */
  function AllValues(src: Sources): set<string> {
    src.properties.Values + src.system.Values
    + (if src.environment.Some? then src.environment.value.Values else {})
  }

  /** Every key that some tier resolves. */
  function ResolvableKeys(src: Sources): set<string> {
    src.properties.Keys + src.system.Keys
    + (if src.environment.Some? then set e | e in src.environment.value.Keys :: EnvPrefix + e else {})
  }

  // ----- properties of the lookup -----

  /** The lookup is exactly "first tier that has the key wins". */
  lemma {:induction false} LookupIsFirstHit(key: string, src: Sources)
    ensures FromPropertiesThenSystemThenEnvironment(key, src) == FirstHit(Tiers(key, src))
  {
    var ts := Tiers(key, src);
    assert ts[1..][0] == ts[1];
    if |ts| == 3 {
      assert ts[1..][1..][0] == ts[2];
      assert ts[1..][1..][1..] == [];
    } else {
      assert ts[1..][1..] == [];
    }
  }

  /** A key in `properties` gets that value, whatever the system properties and environment hold. */
  lemma {:induction false} PropertiesTierWins(key: string, src: Sources, system: map<string, string>, environment: Option<map<string, string>>)
    requires key in src.properties
    ensures FromPropertiesThenSystemThenEnvironment(key, src) == Some(src.properties[key])
    ensures FromPropertiesThenSystemThenEnvironment(key, src.(system := system, environment := environment))
         == FromPropertiesThenSystemThenEnvironment(key, src)
  {
  }

  /** The system tier decides exactly when `properties` lacks the key; the environment then is not looked at. */
  lemma {:induction false} SystemTierWhenPropertiesMiss(key: string, src: Sources, environment: Option<map<string, string>>)
    requires key !in src.properties && key in src.system
    ensures FromPropertiesThenSystemThenEnvironment(key, src) == Some(src.system[key])
    ensures FromPropertiesThenSystemThenEnvironment(key, src.(environment := environment))
         == FromPropertiesThenSystemThenEnvironment(key, src)
  {
  }

  /**
   * The environment supplies the value if and only if both earlier tiers miss,
   * the key starts with "env.", an environment is given and it has the key
   * without its four-character prefix.
   */
  lemma {:induction false} EnvironmentTierConditions(key: string, src: Sources)
    ensures (key !in src.properties && key !in src.system && IsEnvKey(key)
             && src.environment.Some? && key[4..] in src.environment.value)
        <==> (FromPropertiesThenSystemThenEnvironment(key, src).Some?
              && key !in src.properties && key !in src.system)
    ensures (key !in src.properties && key !in src.system && IsEnvKey(key)
             && src.environment.Some? && key[4..] in src.environment.value)
        ==> FromPropertiesThenSystemThenEnvironment(key, src) == Some(src.environment.value[key[4..]])
  {
  }

  /** A key no tier has resolves to null, and only such a key does. */
  lemma {:induction false} MissingEverywhereIsNull(key: string, src: Sources)
    ensures FromPropertiesThenSystemThenEnvironment(key, src).None?
        <==> key !in ResolvableKeys(src)
  {
    if FromPropertiesThenSystemThenEnvironment(key, src).Some? && key !in src.properties && key !in src.system {
      assert key == EnvPrefix + key[4..];
    }
    if key in ResolvableKeys(src) && key !in src.properties && key !in src.system {
      var e :| e in src.environment.value.Keys && key == EnvPrefix + e;
      assert key[4..] == e;
    }
  }
}
