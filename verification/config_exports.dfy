/**
 * The exporter of whitelisted configuration values
 * (`ConfigExports::getConfigExports`) and the hook that merges its result
 * into the client-side configuration variables
 * (`ConfigExports::onMakeGlobalVariablesScript`).
 */
module ConfigExports {
  import opened Wrappers
  import opened KeyLists
  import opened OrderedMaps

  /** Config entry naming the keys that may ever be exported. */
  const WhitelistConfigName: string := "ConfigExportsKeysWhitelist"

  /**
   * Config entry naming the keys exported by default; other extensions
   * contribute more under the extension attribute of the same name.
   */
  const DesiredConfigName: string := "ConfigExportsKeys"

  /**
   * A configuration value: a list of strings (the shape of the whitelist
   * and default-key entries), or any other value, carried as an opaque `T`.
   */
  datatype Value<T> = List(items: seq<string>) | Other(payload: T)

  /** The configuration store: key lookup with `has` and `get`. */
  type Config<T> = map<string, Value<T>>

  /**
   * The caller's `$desiredKeys` argument: left out (`null`), a value that
   * is not an array (of which only its truthiness matters), or a list of keys.
   */
  datatype DesiredKeys = Omitted | Scalar(truthy: bool) | Given(keys: seq<string>)

  /** The exceptions the exporter can end with. */
  datatype Error =
    | MissingWhitelist           // no whitelist entry in the config
    | DesiredKeysNotArray        // a truthy `$desiredKeys` that is not an array
    | NotAList(name: string)     // a whitelist or default-key entry that is not an array
    | NoSuchConfig(key: string)  // `get` of a key the store does not hold

  /**
   * PHP truthiness of the argument, the negation of the test
   * `!$desiredKeys` in `getConfigExports`: exactly `null`, a falsy scalar
   * and the empty array are false.
   */
  predicate Truthy(d: DesiredKeys) {
    match d
    case Omitted => false
    case Scalar(t) => t
    case Given(ks) => |ks| > 0
  }

  /**
   * The keys configured to be exported by default: `[]` when that entry is
   * absent, its items when it is a list, and an error naming the entry
   * otherwise.
   */
  function ConfiguredDefaults<T>(cfg: Config<T>): Result<seq<string>, Error> {
    if DesiredConfigName !in cfg then Success([])
    else match cfg[DesiredConfigName]
      case List(ks) => Success(ks)
      case Other(_) => Failure(NotAList(DesiredConfigName))
  }

  /** The whitelist entry is present, is a list, and names `key`. */
  ghost predicate Whitelisted<T>(cfg: Config<T>, key: string) {
    WhitelistConfigName in cfg && cfg[WhitelistConfigName].List? && key in cfg[WhitelistConfigName].items
  }

  /**
   * The effective list of desired keys. A truthy argument is used as given
   * when it is an array and rejected otherwise; a falsy one is replaced by
   * the configured defaults followed by the extension-contributed keys,
   * each key kept at its first occurrence.
   */
  function ResolveDesiredKeys<T>(cfg: Config<T>, extensionKeys: seq<string>, d: DesiredKeys)
    : (r: Result<seq<string>, Error>)
    ensures d.Given? && d.keys != [] ==> r == Success(d.keys)
    ensures d == Scalar(true) ==> r == Failure(DesiredKeysNotArray)
    ensures (d == Omitted || d == Scalar(false) || d == Given([]))
            && DesiredConfigName in cfg && cfg[DesiredConfigName].Other? ==>
      r == Failure(NotAList(DesiredConfigName))
    ensures (d == Omitted || d == Scalar(false) || d == Given([]))
            && !(DesiredConfigName in cfg && cfg[DesiredConfigName].Other?) ==>
      var all := (if DesiredConfigName in cfg then cfg[DesiredConfigName].items else []) + extensionKeys;
      && r.Success?
      && Distinct(r.value)
      && (forall k :: k in r.value <==> k in all)
      && InFirstOccurrenceOrder(r.value, all)
  {
    if !Truthy(d) then
      var fromConfig :- ConfiguredDefaults(cfg);
      Success(Dedup(fromConfig + extensionKeys))
    else if d.Given? then
      Success(d.keys)
    else
      Failure(DesiredKeysNotArray)
  }

  /** The first key of `ks` the store does not hold, if any. */
  function FirstMissing<T>(cfg: Config<T>, ks: seq<string>): (r: Option<string>)
    ensures r.None? <==> forall k :: k in ks ==> k in cfg
    ensures r.Some? ==>
      && r.value in ks && r.value !in cfg
      && forall i :: 0 <= i < IndexOf(ks, r.value) ==> ks[i] in cfg
  {
    if ks == [] then None
    else if ks[0] !in cfg then Some(ks[0])
    else
      var r := FirstMissing(cfg, ks[1..]);
      assert r.Some? ==> IndexOf(ks, r.value) == 1 + IndexOf(ks[1..], r.value);
      r
  }

  /**
   * The loop `$exportedConfigs[$key] = $config->get($key)` over `ks`: each
   * key mapped to its stored value, in first-seen order. `get` of a key the
   * store lacks throws, so the first such key ends the export.
   */
  function ExportValues<T>(cfg: Config<T>, ks: seq<string>): (r: Result<OMap<Value<T>>, Error>)
    ensures r.Success? <==> forall k :: k in ks ==> k in cfg
    ensures r.Failure? ==>
      && r.error.NoSuchConfig? && r.error.key in ks && r.error.key !in cfg
      && forall i :: 0 <= i < IndexOf(ks, r.error.key) ==> ks[i] in cfg
    ensures r.Success? ==>
      && r.value.Valid()
      && r.value.keys == Dedup(ks)
      && (forall k :: k in r.value.entries <==> k in ks)
      && forall k :: k in r.value.entries ==> r.value.entries[k] == cfg[k]
  {
    match FirstMissing(cfg, ks)
    case Some(k) => Failure(NoSuchConfig(k))
    case None =>
      assert [] + ks == ks;
      Success(PutAll(Empty(), ks, cfg))
  }

  /**
   * `getConfigExports($config, $desiredKeys)`: the values of the desired
   * keys that the whitelist allows, in the order the desired list first
   * names them. Desired keys that are not whitelisted are dropped silently.
   */
  function GetConfigExports<T>(cfg: Config<T>, extensionKeys: seq<string>, d: DesiredKeys)
    : (r: Result<OMap<Value<T>>, Error>)
    ensures WhitelistConfigName !in cfg ==> r == Failure(MissingWhitelist)
    ensures r.Success? ==>
      && r.value.Valid()
      && forall k :: k in r.value.entries ==> k in cfg && r.value.entries[k] == cfg[k]
    ensures r.Success? ==>
      && ResolveDesiredKeys(cfg, extensionKeys, d).Success?
      && var desired := ResolveDesiredKeys(cfg, extensionKeys, d).value;
      && (forall k :: k in r.value.entries <==> k in desired && Whitelisted(cfg, k))
      && InFirstOccurrenceOrder(r.value.keys, desired)
  {
    if WhitelistConfigName !in cfg then Failure(MissingWhitelist)
    else
      var desired :- ResolveDesiredKeys(cfg, extensionKeys, d);
      var whitelist :- match cfg[WhitelistConfigName]
        case List(ks) => Success(ks)
        case Other(_) => Failure(NotAList(WhitelistConfigName));
      var keysToExport := Intersect(desired, whitelist);
      DedupIntersectOrder(desired, whitelist);
      ExportValues(cfg, keysToExport)
  }

  /**
   * `onMakeGlobalVariablesScript(&$vars, $out)`: exports the default keys
   * and writes every exported pair into `vars`. Exported keys take their
   * exported values, every other variable keeps its value and its place,
   * and new keys are appended in export order.
   */
  function OnMakeGlobalVariablesScript<T>(vars: OMap<Value<T>>, cfg: Config<T>, extensionKeys: seq<string>)
    : (r: Result<OMap<Value<T>>, Error>)
    requires vars.Valid()
    ensures GetConfigExports(cfg, extensionKeys, Omitted).Failure? ==>
      r == Failure(GetConfigExports(cfg, extensionKeys, Omitted).error)
    ensures GetConfigExports(cfg, extensionKeys, Omitted).Success? ==>
      var exported := GetConfigExports(cfg, extensionKeys, Omitted).value;
      && r.Success?
      && r.value.Valid()
      && r.value.entries.Keys == vars.entries.Keys + exported.entries.Keys
      && (forall k :: k in exported.entries ==> r.value.entries[k] == exported.entries[k])
      && (forall k :: k in vars.entries && k !in exported.entries ==> r.value.entries[k] == vars.entries[k])
      && |vars.keys| <= |r.value.keys| && r.value.keys[..|vars.keys|] == vars.keys
      && InFirstOccurrenceOrder(r.value.keys, vars.keys + exported.keys)
  {
    var exported :- GetConfigExports(cfg, extensionKeys, Omitted);
    DedupKeepsDistinctPrefix(vars.keys, exported.keys);
    Success(PutAll(vars, exported.keys, exported.entries))
  }
}
