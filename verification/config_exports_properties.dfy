/** Properties of the exporter that relate several calls or several inputs. */
module ConfigExportsProperties {
  import opened Wrappers
  import opened KeyLists
  import opened OrderedMaps
  import opened ConfigExports

  /**
   * The export fails exactly in these cases, checked in this order: no
   * whitelist entry; a rejected argument or a default-key entry that is not
   * a list; a whitelist entry that is not a list; a whitelisted desired key
   * that the store does not hold.
   */
  lemma ExportErrors<T>(cfg: Config<T>, extensionKeys: seq<string>, d: DesiredKeys)
    ensures WhitelistConfigName !in cfg ==>
      GetConfigExports(cfg, extensionKeys, d) == Failure(MissingWhitelist)
    ensures WhitelistConfigName in cfg && ResolveDesiredKeys(cfg, extensionKeys, d).Failure? ==>
      GetConfigExports(cfg, extensionKeys, d) == Failure(ResolveDesiredKeys(cfg, extensionKeys, d).error)
    ensures (WhitelistConfigName in cfg && ResolveDesiredKeys(cfg, extensionKeys, d).Success?
             && cfg[WhitelistConfigName].Other?) ==>
      GetConfigExports(cfg, extensionKeys, d) == Failure(NotAList(WhitelistConfigName))
    ensures (WhitelistConfigName in cfg && ResolveDesiredKeys(cfg, extensionKeys, d).Success?
             && cfg[WhitelistConfigName].List?) ==>
      var desired := ResolveDesiredKeys(cfg, extensionKeys, d).value;
      && (GetConfigExports(cfg, extensionKeys, d).Success?
          <==> forall k :: k in desired && Whitelisted(cfg, k) ==> k in cfg)
      && (GetConfigExports(cfg, extensionKeys, d).Failure? ==>
          var e := GetConfigExports(cfg, extensionKeys, d).error;
          && e.NoSuchConfig? && e.key in desired && Whitelisted(cfg, e.key) && e.key !in cfg
          && forall i :: 0 <= i < IndexOf(desired, e.key) && Whitelisted(cfg, desired[i]) ==> desired[i] in cfg)
  {
    if WhitelistConfigName in cfg && ResolveDesiredKeys(cfg, extensionKeys, d).Success?
       && cfg[WhitelistConfigName].List? && GetConfigExports(cfg, extensionKeys, d).Failure? {
      var desired := ResolveDesiredKeys(cfg, extensionKeys, d).value;
      var whitelist := cfg[WhitelistConfigName].items;
      var key := GetConfigExports(cfg, extensionKeys, d).error.key;
      FirstMissingThroughIntersect(cfg, desired, whitelist, key);
    }
  }

  /**
   * A key that is first missing among the whitelisted desired keys is also
   * first missing in the desired list itself, once non-whitelisted keys are
   * disregarded.
   */
  lemma FirstMissingThroughIntersect<T>(cfg: Config<T>, desired: seq<string>, whitelist: seq<string>, key: string)
    requires key in Intersect(desired, whitelist)
    requires forall i :: 0 <= i < IndexOf(Intersect(desired, whitelist), key) ==> Intersect(desired, whitelist)[i] in cfg
    ensures key in desired
    ensures forall i :: 0 <= i < IndexOf(desired, key) && desired[i] in whitelist ==> desired[i] in cfg
  {
    var ks := Intersect(desired, whitelist);
    forall i | 0 <= i < IndexOf(desired, key) && desired[i] in whitelist
      ensures desired[i] in cfg
    {
      var x := desired[i];
      assert x in ks;
      assert IndexOf(desired, x) <= i;
      IntersectKeepsOrder(desired, whitelist, x, key);
      assert ks[IndexOf(ks, x)] == x;
    }
  }

  /**
   * The export order is determined: any repetition-free list of exactly the
   * exported keys that follows the first-seen order of the desired list is
   * the order the export produces.
   */
  lemma ExportOrderDetermined<T>(cfg: Config<T>, extensionKeys: seq<string>, d: DesiredKeys, s: seq<string>)
    requires GetConfigExports(cfg, extensionKeys, d).Success?
    requires ResolveDesiredKeys(cfg, extensionKeys, d).Success?
    requires Distinct(s)
    requires forall k :: k in s <==> k in ResolveDesiredKeys(cfg, extensionKeys, d).value && Whitelisted(cfg, k)
    requires InFirstOccurrenceOrder(s, ResolveDesiredKeys(cfg, extensionKeys, d).value)
    ensures GetConfigExports(cfg, extensionKeys, d).value.keys == s
  {
    var m := GetConfigExports(cfg, extensionKeys, d).value;
    var desired := ResolveDesiredKeys(cfg, extensionKeys, d).value;
    FirstOccurrenceOrderUnique(desired, m.keys, s);
  }

  /**
   * Without an argument, the export lists the whitelisted keys among the
   * configured defaults and the extension-contributed keys, in the order
   * they are first seen in the defaults followed by the contributed keys.
   */
  lemma DefaultExportOrder<T>(cfg: Config<T>, extensionKeys: seq<string>, d: DesiredKeys)
    requires d == Omitted || d == Scalar(false) || d == Given([])
    requires GetConfigExports(cfg, extensionKeys, d).Success?
    ensures DesiredConfigName in cfg ==> cfg[DesiredConfigName].List?
    ensures var all := (if DesiredConfigName in cfg then cfg[DesiredConfigName].items else []) + extensionKeys;
      var m := GetConfigExports(cfg, extensionKeys, d).value;
      && (forall k :: k in m.entries <==> k in all && Whitelisted(cfg, k))
      && InFirstOccurrenceOrder(m.keys, all)
  {
    var all := (if DesiredConfigName in cfg then cfg[DesiredConfigName].items else []) + extensionKeys;
    var m := GetConfigExports(cfg, extensionKeys, d).value;
    var desired := ResolveDesiredKeys(cfg, extensionKeys, d).value;
    FirstOccurrenceOrderTransitive(m.keys, desired, all);
  }

  /** Two stores agree on `key`: both lack it, or both hold the same value. */
  ghost predicate AgreeOn<T>(cfg1: Config<T>, cfg2: Config<T>, key: string) {
    (key in cfg1 <==> key in cfg2) && (key in cfg1 ==> cfg1[key] == cfg2[key])
  }

  /** The first missing key depends only on the entries for the keys looked up. */
  lemma {:induction false} FirstMissingFrame<T>(cfg1: Config<T>, cfg2: Config<T>, ks: seq<string>)
    requires forall k :: k in ks ==> AgreeOn(cfg1, cfg2, k)
    ensures FirstMissing(cfg1, ks) == FirstMissing(cfg2, ks)
    decreases |ks|
  {
    if ks != [] {
      assert AgreeOn(cfg1, cfg2, ks[0]);
      FirstMissingFrame(cfg1, cfg2, ks[1..]);
    }
  }

  /** The value loop depends only on the entries for the keys it exports. */
  lemma ExportValuesFrame<T>(cfg1: Config<T>, cfg2: Config<T>, ks: seq<string>)
    requires forall k :: k in ks ==> AgreeOn(cfg1, cfg2, k)
    ensures ExportValues(cfg1, ks) == ExportValues(cfg2, ks)
  {
    FirstMissingFrame(cfg1, cfg2, ks);
    if ExportValues(cfg1, ks).Success? {
      var m1, m2 := ExportValues(cfg1, ks).value, ExportValues(cfg2, ks).value;
      assert m1.entries == m2.entries;
    }
  }

  /**
   * With a non-empty list of keys, neither the default-key entry nor the
   * extension-contributed keys are consulted: the result depends only on the
   * given keys, the whitelist and the stored values of the given whitelisted keys.
   */
  lemma GivenKeysIgnoreDefaults<T>(cfg1: Config<T>, cfg2: Config<T>, ext1: seq<string>, ext2: seq<string>,
                                   ks: seq<string>)
    requires |ks| > 0
    requires AgreeOn(cfg1, cfg2, WhitelistConfigName)
    requires forall k :: k in ks && Whitelisted(cfg1, k) ==> AgreeOn(cfg1, cfg2, k)
    ensures GetConfigExports(cfg1, ext1, Given(ks)) == GetConfigExports(cfg2, ext2, Given(ks))
  {
    if WhitelistConfigName in cfg1 && cfg1[WhitelistConfigName].List? {
      var whitelist := cfg1[WhitelistConfigName].items;
      ExportValuesFrame(cfg1, cfg2, Intersect(ks, whitelist));
    }
  }

  /** The store of the example below: whitelist `[A, B]`, default keys `[A]`. */
  function ExampleConfig(a: Value<int>, b: Value<int>): Config<int> {
    map[WhitelistConfigName := List(["A", "B"]), DesiredConfigName := List(["A"]), "A" := a, "B" := b]
  }

  /** The entries of the example store. */
  lemma ExampleLookups(a: Value<int>, b: Value<int>)
    ensures var cfg := ExampleConfig(a, b);
      && WhitelistConfigName in cfg && cfg[WhitelistConfigName] == List(["A", "B"])
      && DesiredConfigName in cfg && cfg[DesiredConfigName] == List(["A"])
      && "A" in cfg && cfg["A"] == a && "B" in cfg && cfg["B"] == b
  {
    assert WhitelistConfigName != DesiredConfigName by { assert |WhitelistConfigName| != |DesiredConfigName|; }
  }

  /** The example's default keys: `A` from the store, then `B` from the extension. */
  lemma ExampleDesiredKeys(a: Value<int>, b: Value<int>)
    ensures ResolveDesiredKeys(ExampleConfig(a, b), ["B"], Omitted) == Success(["A", "B"])
  {
    var all: seq<string> := ["A", "B"];
    ExampleLookups(a, b);
    assert ConfiguredDefaults(ExampleConfig(a, b)) == Success(["A"]);
    assert ["A"] + ["B"] == all;
    DedupOfDistinct(all);
  }

  /**
   * With whitelist `[A, B]`, default keys `[A]` and an extension
   * contributing `[B]`, the default export holds `A` and `B`, `A` first.
   */
  lemma DefaultsExample(a: Value<int>, b: Value<int>)
    ensures var r := GetConfigExports(ExampleConfig(a, b), ["B"], Omitted);
      && r.Success? && r.value.keys == ["A", "B"]
      && "A" in r.value.entries && r.value.entries["A"] == a
      && "B" in r.value.entries && r.value.entries["B"] == b
  {
    var all: seq<string> := ["A", "B"];
    var cfg := ExampleConfig(a, b);
    ExampleLookups(a, b);
    ExampleDesiredKeys(a, b);
    assert Whitelisted(cfg, "A") && Whitelisted(cfg, "B");
    ExportErrors(cfg, ["B"], Omitted);
    var r := GetConfigExports(cfg, ["B"], Omitted).value;
    assert InFirstOccurrenceOrder(all, all);
    FirstOccurrenceOrderUnique(all, r.keys, all);
  }

  /**
   * The script hook on that store, starting from no variables, sets `A`
   * and then `B` to their configured values.
   */
  lemma HookExample(a: Value<int>, b: Value<int>)
    ensures var r := OnMakeGlobalVariablesScript(Empty(), ExampleConfig(a, b), ["B"]);
      && r.Success? && r.value.keys == ["A", "B"]
      && "A" in r.value.entries && r.value.entries["A"] == a
      && "B" in r.value.entries && r.value.entries["B"] == b
  {
    var all: seq<string> := ["A", "B"];
    DefaultsExample(a, b);
    var exported := GetConfigExports(ExampleConfig(a, b), ["B"], Omitted).value;
    var r := OnMakeGlobalVariablesScript(Empty(), ExampleConfig(a, b), ["B"]).value;
    assert [] + exported.keys == all;
    assert InFirstOccurrenceOrder(all, all);
    FirstOccurrenceOrderUnique(all, r.keys, all);
  }
}
