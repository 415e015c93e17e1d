# ConfigExports in Dafny

A model of the MediaWiki ConfigExports extension's core: the function
`ConfigExports::getConfigExports`, which hands out the configuration values a
caller asks for, restricted to the keys an operator whitelisted in
`$wgConfigExportsKeysWhitelist`, and the hook `onMakeGlobalVariablesScript`,
which writes the default export into the page's `mw.config` variables.

The model is functional. The configuration store is a `map<string, Value<T>>`.
A `Value<T>` is a list of key names, or any other value carried as an opaque
`T`. The whitelist and the default-key list are ordinary entries of that store,
under the source's two names `ConfigExportsKeysWhitelist` and
`ConfigExportsKeys`. A PHP array with string keys is an `OMap`: a map plus the
insertion order of its keys. The keys contributed by other extensions through
the `ConfigExports`/`Keys` extension attribute arrive as a plain
`seq<string>` parameter. Every exception becomes a `Failure` of a `Result`.

Modules:

- `Wrappers` (wrappers.dfy): `Option` and `Result`.
- `KeyLists` (key_lists.dfy): `array_unique` as `Dedup`, `array_intersect` as
  `Intersect`, and the first-occurrence order both of them keep.
- `OrderedMaps` (ordered_maps.dfy): PHP arrays with string keys, where
  `$a[$k] = $v` overwrites a key in place or appends it.
- `ConfigExports` (config_exports.dfy): the exporter and the hook.
- `ConfigExportsProperties` (config_exports_properties.dfy): lemmas relating
  several inputs or several calls, plus a worked example.

Choices where the code leaves something to its host:

- `$config->get($key)` of a key the store does not hold is the error
  `NoSuchConfig(key)`. MediaWiki's `Config::get` throws in that case. The
  export stops at the first such key in export order. This is an explicit
  error case, not a precondition.
- A whitelist or default-key entry that is not an array is the error
  `NotAList(name)`. Under PHP 8, a non-array default entry makes the
  `join(',', ...)` in the debug call at line 81 throw a `TypeError`. A
  non-array whitelist makes `array_intersect` at line 95 throw one.
- `$desiredKeys` is `Omitted` (`null`), `Scalar(truthy)` for any non-array
  value, or `Given(keys)`. Only a scalar's PHP truthiness affects the result.

`includes/ConfigExports.php` silently drops desired keys that are not
whitelisted and has no fail-closed check and no dotted `Top.sub` sub-key
addressing; the model follows the code.

## Model

| member | source | states |
|---|---|---|
| KeyLists.Dedup | includes/ConfigExports.php:85-87 | `array_unique` result: no key repeats, it holds exactly the keys of its input, and it lists them in the order of their first occurrence |
| KeyLists.FirstOccurrenceOrderUnique | includes/ConfigExports.php:85-87 | any two repetition-free lists of the same keys in first-occurrence order of one list are equal, so `Dedup`'s contract determines its result |
| KeyLists.DedupKeepsDistinctPrefix | includes/ConfigExports.php:119-121 | after de-duplicating `a + b` with `a` repetition-free, `a` stays unchanged at the front: existing array keys keep their places |
| KeyLists.Intersect | includes/ConfigExports.php:95 | `array_intersect` result: a key survives iff it is in the first list and in the allowed list; each allowed key keeps its multiplicity, so duplicates are kept and nothing is added |
| KeyLists.IntersectConcat | includes/ConfigExports.php:95 | `array_intersect` filters entry by entry: the intersection of a concatenation is the concatenation of the intersections |
| KeyLists.IntersectSingle | includes/ConfigExports.php:95 | a single key survives `array_intersect` exactly when it is allowed; with `IntersectConcat` this fixes the result as an order-preserving filter |
| KeyLists.IntersectKeepsOrder | includes/ConfigExports.php:95 | `array_intersect` keeps the order of its first argument: two surviving keys are first seen in the same relative order before and after |
| KeyLists.DedupIntersectOrder | includes/ConfigExports.php:95-101 | the keys that survive the intersection, de-duplicated, follow the first-seen order of the desired list |
| OrderedMaps.PutAll | includes/ConfigExports.php:119-121 | a loop of `$a[$k] = $src[$k]` results in the map union with the source's values winning; the key order is the old order followed by the new keys in first-seen order |
| ConfigExports.ResolveDesiredKeys | includes/ConfigExports.php:68-92 | a non-empty key list is used as given; a truthy non-array is rejected with `DesiredKeysNotArray`; a falsy argument (`null`, a falsy scalar or the empty array) fails with `NotAList` when the default-key entry is present but not an array, and otherwise yields that entry's keys (none when it is absent) followed by the extension keys, without repeats, in first-seen order |
| ConfigExports.FirstMissing | includes/ConfigExports.php:99-100 | no key is reported iff every key is in the store; a reported key is the first one the store lacks |
| ConfigExports.ExportValues | includes/ConfigExports.php:98-101 | succeeds iff every key is stored; the result maps exactly the given keys to their stored values, in first-seen order; a failure names the first unstored key |
| ConfigExports.GetConfigExports | includes/ConfigExports.php:59-104 | no whitelist entry means `MissingWhitelist` for every argument; on success the result's keys are exactly the effective desired keys that are whitelisted, each maps to its stored value, and they follow the desired list's first-seen order |
| ConfigExports.OnMakeGlobalVariablesScript | includes/ConfigExports.php:113-122 | on success every exported key holds its exported value and every other variable is unchanged; no key outside the variables and the export appears; existing variables keep their places; new keys follow export order; an export failure propagates unchanged |
| ConfigExportsProperties.ExportErrors | includes/ConfigExports.php:62-100 | the export fails exactly in these cases, checked in this order: missing whitelist, rejected argument or non-list defaults, non-list whitelist, and a whitelisted desired key that is not stored; in the last case the reported key is the first such key in the desired list |
| ConfigExportsProperties.FirstMissingThroughIntersect | includes/ConfigExports.php:95-100 | a key first missing among the intersected keys is also first missing among the whitelisted keys of the desired list |
| ConfigExportsProperties.ExportOrderDetermined | includes/ConfigExports.php:95-101 | any repetition-free list of exactly the whitelisted desired keys in the desired list's first-seen order is the export's key order |
| ConfigExportsProperties.DefaultExportOrder | includes/ConfigExports.php:68-101 | when the export with a falsy argument succeeds, the default-key entry is a list or absent, and the export holds exactly the whitelisted keys among defaults and extension keys, ordered by first occurrence in defaults followed by extension keys |
| ConfigExportsProperties.FirstMissingFrame | includes/ConfigExports.php:99-100 | which key is missing depends only on the store's entries for the keys looked up |
| ConfigExportsProperties.ExportValuesFrame | includes/ConfigExports.php:98-101 | the value loop's outcome depends only on the store's entries for the keys it exports |
| ConfigExportsProperties.GivenKeysIgnoreDefaults | includes/ConfigExports.php:68-101 | with a non-empty key list, the default-key entry and the extension keys are never consulted: the result depends only on the list, the whitelist and the given whitelisted keys' stored values |
| ConfigExportsProperties.ExampleDesiredKeys | includes/ConfigExports.php:74-87 | whitelist `[A, B]`, defaults `[A]`, extension keys `[B]`: the effective desired keys are `[A, B]` |
| ConfigExportsProperties.DefaultsExample | includes/ConfigExports.php:59-104 | in that example, the default export is `A` then `B`, with their stored values |
| ConfigExportsProperties.HookExample | includes/ConfigExports.php:113-122 | in that example, the hook run on empty variables sets `A` then `B` to their stored values |

## Left out

- Debug logging through `LoggerFactory` (lines 60, 81-82, 96) is output only. The one exception is line 81, which throws on a non-array default entry. The model folds that failure into `NotAList`.
- `ExtensionRegistry::getInstance()->getAttribute` (lines 78-79) is a global registry lookup. It is the `extensionKeys` parameter.
- includes/ApiConfigExports.php is left out. It handles API parameters, cache headers and result wrapping through the MediaWiki API framework. That framework is not part of this model.
- includes/ConfigExportsModule.php is left out. It emits JavaScript through ResourceLoader and calls `getConfigExportsFromContext`, which `ConfigExports.php` does not define.
- PHP loose typing is left out. Keys are strings compared by plain equality. Lists of non-strings, associative arrays used as key lists (as `$desiredKeys` or as the whitelist or default entry), and numeric-string array keys turning into integers are not modelled.
- A non-array `$desiredKeys` is reduced to its truthiness. Its exact value only appears in the exception message, and messages are not modelled.
- A non-list whitelist or default entry is one error, as under PHP 8. PHP 7 only warns in that case. For a non-array default entry, `join`, `array_merge` and `array_unique` each warn and return `null`, and line 90 then throws anyway, so the failure is the same under both versions. For a non-array whitelist, `array_intersect` returns `null`, the `foreach` at line 99 is skipped, and PHP 7 returns an empty export. That PHP 7 outcome is not modelled.
- The hook's in-place update of `&$vars` is a function returning the new variables. The `OutputPage` argument reduces to the store it supplies.
- Purity and idempotence hold by construction: every operation is a Dafny function of its inputs.
