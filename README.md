# Regex selector of the event bus

A model of `RegexSelector`, the selector of the reactor event bus that routes
keys by regular expression. A selector owns one compiled pattern, fixed at
construction. `matches(key)` is the bus's fast reject path: it is false for any
key that is not a `String`, and otherwise the result of an anchored full match.
The header resolver, handed out by `getHeaderResolver()`, turns any key into
text with `toString()`, runs the same full match, and returns `null` when it
fails; on a match it returns a new map binding `"group" + i` to capture `i`
for every `i` from 1 to the pattern's group count.

Modules:

- `Wrappers` (`wrappers.dfy`): `Option` (Java `null` is `None`) and `Result`
  (a thrown exception is `Failure`).
- `Decimal` (`decimal.dfy`): the decimal rendering of `i` in `"group" + i`,
  with its inverse, which proves two group indices never share a header name.
- `Regex` (`regex.dfy`): the regex engine as an oracle. A `CompiledPattern`
  is known only by its group count and its full-match routine; the engine
  guarantees that a successful match has one capture per group plus group 0,
  the whole input.
- `RegexSelectors` (`regex_selector.dfy`): routing keys (`StrKey`, `OtherKey`
  carrying its `toString()`, `NullKey`), the reference definition of the
  resolver's result (`Resolve`, `GroupHeaders`), the classes `HeaderResolver`
  (its `Apply` is the map-filling loop) and `RegexSelector`, and the lemmas
  relating them.
- `RegexSelectorScenarios` (`scenarios.dfy`): concrete scenarios on
  `event([0-9]+)`, the pattern of the class's documentation, on `(a)(b)(c)`
  and on `.*` (default flags, so `.` does not match a line terminator).

The intended invariant "`matches(k)` holds exactly when the resolver returns a
map" holds only for `String` keys. For any other key `matches` is false while
the resolver still coerces the key with `toString()` and may return a map;
for a `null` key the resolver throws `NullPointerException`. The model
follows the code (`NonStringKeysDisagree`,
`NumericKeyResolvesUnderAnyPattern`): a non-`String` key `12345` under `.*`
is rejected by `matches` but resolves to the empty map, not to `null`.

## Model

| member | source | states |
|---|---|---|
| `Decimal.NatToDecimal` | src/main/java/reactor/bus/selector/RegexSelector.java:54 | the rendering of a group index is a non-empty string of decimal digits with no leading zero |
| `Decimal.ParseNatToDecimal` | src/main/java/reactor/bus/selector/RegexSelector.java:54 | reading the rendering back as a decimal number gives the index again |
| `Decimal.NatToDecimalInjective` | src/main/java/reactor/bus/selector/RegexSelector.java:54 | two different indices never render to the same digits |
| `RegexSelectors.ToText` | src/main/java/reactor/bus/selector/RegexSelector.java:47 | `key.toString()` of a non-null key: a `String` is its own text, any other key renders as its `toString()` says |
| `RegexSelectors.GroupName` | src/main/java/reactor/bus/selector/RegexSelector.java:54 | the header name `"group" + i` is the prefix `group` followed by a digit string, with no leading zero for a group `i >= 1` |
| `RegexSelectors.GroupNameDigits` | src/main/java/reactor/bus/selector/RegexSelector.java:54 | the digits after `group` are exactly the decimal rendering of `i`, and read back as `i` |
| `RegexSelectors.GroupNameInjective` | src/main/java/reactor/bus/selector/RegexSelector.java:54 | `"group" + i` equals `"group" + j` only when `i == j` |
| `RegexSelectors.GroupNamesGrow` | src/main/java/reactor/bus/selector/RegexSelector.java:53-54 | the name of group i+1 is none of `group1`..`group`i, and adding it gives the names of i+1 groups |
| `RegexSelectors.GroupNamesCount` | src/main/java/reactor/bus/selector/RegexSelector.java:53-54 | the names `group1`..`groupN` are exactly N distinct strings |
| `RegexSelectors.GroupHeadersExtend` | src/main/java/reactor/bus/selector/RegexSelector.java:53-57 | the `put` of group i+1 finds no earlier entry under its name, and the map after it is the headers of groups 1..i+1 |
| `RegexSelectors.GroupHeadersShape` | src/main/java/reactor/bus/selector/RegexSelector.java:51-58 | the headers of a match have key set exactly `{group1..groupN}`, exactly N entries, entry `group` + i holding capture i (absent for a group that did not participate), and no `group0` |
| `RegexSelectors.Resolve` | src/main/java/reactor/bus/selector/RegexSelector.java:46-59 | what `apply` returns: among keys whose `toString()` returns a string, it throws exactly on a `null` key, and for any other key returns `null` exactly when the full match of `key.toString()` fails |
| `RegexSelectors.ResolveContract` | src/main/java/reactor/bus/selector/RegexSelector.java:46-59 | among keys whose `toString()` returns a string, the resolver throws exactly on a `null` key, returns `null` exactly when the full match of `key.toString()` fails, and otherwise returns the map of `group1..groupN` to the captures |
| `RegexSelectors.ZeroGroupsGiveEmptyHeaders` | src/main/java/reactor/bus/selector/RegexSelector.java:51-58 | a pattern without groups yields a non-null empty map on a match, distinct from the `null` of no match |
| `RegexSelectors.HeaderResolver.constructor` | src/main/java/reactor/bus/selector/RegexSelector.java:43 | the resolver is created over the selector's pattern |
| `RegexSelectors.HeaderResolver.Apply` | src/main/java/reactor/bus/selector/RegexSelector.java:46-59 | the loop that fills a new map returns exactly `Resolve(pattern, key)`, so the result is a deterministic function of pattern and key |
| `RegexSelectors.RegexSelector.constructor` | src/main/java/reactor/bus/selector/RegexSelector.java:67-69 | the selector's pattern is the compiled one, and its resolver reads that same pattern |
| `RegexSelectors.RegexSelector.Create` | src/main/java/reactor/bus/selector/RegexSelector.java:77-79 | the factory returns a new selector, equivalent to the constructor |
| `RegexSelectors.RegexSelector.Matches` | src/main/java/reactor/bus/selector/RegexSelector.java:82-85 | false for every key that is not a `String`, whatever the pattern; for a `String`, the full-match result of the pattern |
| `RegexSelectors.RegexSelector.GetHeaderResolver` | src/main/java/reactor/bus/selector/RegexSelector.java:87-90 | every call returns the same resolver object, which works on the selector's pattern |
| `RegexSelectors.MatchesAgreesWithResolver` | src/main/java/reactor/bus/selector/RegexSelector.java:47-85 | for a `String` key, `matches` holds exactly when the resolver returns a map rather than `null` |
| `RegexSelectors.NonStringKeysDisagree` | src/main/java/reactor/bus/selector/RegexSelector.java:47-85 | for a non-`String` key `matches` is false, while the resolver returns a map exactly when the key's `toString()` fully matches, and throws on `null` |
| `RegexSelectorScenarios.EventKeyResolves` | src/main/java/reactor/bus/selector/RegexSelector.java:30-36 | under `event([0-9]+)` the key `"event23"` matches and resolves to `{group1: "23"}` |
| `RegexSelectorScenarios.NonEventKeysDoNotResolve` | src/main/java/reactor/bus/selector/RegexSelector.java:47-50 | under `event([0-9]+)` the keys `"eventX"` and `"prefix-event9"` do not match, and the resolver returns `null` |
| `RegexSelectorScenarios.ThreeGroupKeyResolves` | src/main/java/reactor/bus/selector/RegexSelector.java:51-58 | under `(a)(b)(c)` the key `"abc"` matches and resolves to `{group1: "a", group2: "b", group3: "c"}` |
| `RegexSelectorScenarios.AnyPatternRejectsLineTerminator` | src/main/java/reactor/bus/selector/RegexSelector.java:47-50 | under `.*` the key `"a\nb"` does not fully match, so the resolver returns `null` |
| `RegexSelectorScenarios.NumericKeyResolvesUnderAnyPattern` | src/main/java/reactor/bus/selector/RegexSelector.java:47-85 | under `.*` a non-`String` key rendering as `"12345"` is rejected by `matches` yet resolves to the empty map |

## Left out

- The regex engine (`Pattern.compile`, `Matcher.matches`, `groupCount`, `group(i)`) is a foreign library: a compiled pattern is an oracle, so anchoring and capture semantics of particular patterns are not modelled. The scenarios write out the full-match behaviour of three small patterns by hand (`event([0-9]+)`, `(a)(b)(c)`, and `.*` with default flags); these are stated, not derived from an engine.
- `RegexSelector.constructor`: takes the pattern `Pattern.compile` produced rather than the pattern text, so the `PatternSyntaxException` of an invalid expression is not modelled.
- Exceptions the engine may raise while matching (for example a stack overflow on pathological input) are not modelled.
- `Object.toString()` of a non-`String` key is code outside the class: `OtherKey` carries its result as a parameter, so it assumes a `toString()` that returns a string and does not throw.
- `Resolve`, `ResolveContract`: two error paths of `apply` for a non-null key are not modelled: a key whose `toString()` throws (the exception propagates), and a key whose `toString()` returns `null` (`Pattern.matcher` then throws `NullPointerException`). In the model only a `null` key makes the resolver fail.
- `HeaderResolver.Apply`: the `HashMap` is a map value, so that each call allocates a fresh map not shared with the selector holds by construction and is not stated with `fresh`; its hashing and iteration order are not modelled.
- `HeaderResolver.Apply`: the loop counter is an unbounded integer; the 32-bit `int i` would wrap only for a pattern with `Integer.MAX_VALUE` groups, which no pattern string can declare.
- The `ObjectSelector` base class and the `Selector` interface are not part of this model; `getObject()` is the selector's `pattern` field.
- Thread safety and concurrent readers: the model is sequential; the selector has no mutable state.
