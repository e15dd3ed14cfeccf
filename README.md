# Locale resource store

A model of `Locale<T>`, the localization service of the studio web
application. A store holds:

- the current locale tag, read through `current` and falling back to the
  page's `document.body.lang`;
- the provenance ledger (`_resourceKeyCache`), which maps each origin URL to
  the top-level keys its bundle contributed;
- the active resource bundle (`_resources`, exposed as `resources`), a plain
  JSON object.

The operations are:

- `get(key, ...args)`: dot-path lookup with a flat-key fallback, `{name}`
  argument interpolation, and the key itself echoed back for falsy values;
- `has(url)`;
- `from(url)`: creates the ledger and substitutes the locale into the URL
  template `RES_PATTERN`;
- `origin(url)`: replaces the whole bundle;
- `merge(url)`: `Object.assign` into the bundle;
- `dispose(url?)`: deletes the keys an origin contributed, emitting each one,
  or tears everything down;
- `exclude(url)`: moves an origin's keys out into a fragment and returns it.

Modules:

- `Wrappers`: `Option` and `Result`.
- `Numerals`: the decimal text of numbers, and the reverse reading JavaScript
  applies to array-index property names.
- `JsonValues`: parsed JSON values. An object keeps its `Object.keys` order
  beside its property map. Also JavaScript truthiness and `String(v)`.
- `Objects`:
  - `delete` and property assignment;
  - `Object.assign`;
  - the key sweep that `dispose` and `exclude` run over a ledger entry, with
    its specification lemmas and the merge/origin-then-exclude round trips.
- `Strings`: the left-to-right `{token}` scan of a global `replace` with a
  brace pattern, and `split(".")` / `join(".")`.
- `Templates`: `RES_PATTERN` locale substitution and argument interpolation.
- `LocaleService`:
  - the resolution of `get` as functions;
  - the class `Locale`, whose fields are the stored locale, the page locale,
    the ledger and the bundle; its methods update them as the service does;
  - a short session (merge, greet, dispose, echo) that puts the methods
    together.

The HTTP transport and JSON parsing are parameters. `Origin` and `Merge`
receive what the fetch of the requested URL produced: the parsed object, or
the reason it failed. They return the URL they asked the transport for. An
operation that emits through an observable returns what it would emit.
`document.body.lang` is the field `docLang`.

Where the code and the service's documented intent differ, the model follows
the code:

- **`get` can raise.**
  - A `null` met on the dot path with segments left makes `hasOwnProperty`
    raise. See `ResolveThroughNull`.
  - A lone `null` argument passes the `typeof args[0] === "object"` test, so
    the first placeholder reads a property of `null`. See `GetNullArgument`.
- **`has` and `exclude` raise after a full `dispose()`.** It sets the ledger
  to `null`. `exclude` catches the error but still emits an empty fragment
  after it; the model returns the error.
- **`merge` into a store with no bundle raises after writing the ledger
  entry.** `Object.assign(undefined, …)` throws, so the URL is tracked while
  none of its keys were installed.

## Model

| member | source | states |
|---|---|---|
| `LocaleService.Locale.constructor` | src/app/services/locale/locale.service.ts:12-16 | a new store has no stored locale, no ledger and no bundle, and is valid |
| `LocaleService.Locale.Current` | src/app/services/locale/locale.service.ts:21-23 | the stored locale when one is set, else the page's locale |
| `LocaleService.Locale.SetCurrent` | src/app/services/locale/locale.service.ts:25-29 | an empty or unchanged value changes nothing; any other value becomes both the stored and the page locale, so `current` then reads it |
| `LocaleService.Locale.Has` | src/app/services/locale/locale.service.ts:82-84 | true exactly when the ledger tracks the URL; raises exactly when there is no ledger |
| `LocaleService.Locale.Get` | src/app/services/locale/locale.service.ts:45-76 | the walk loop agrees with the resolution function `GetSpec`; the result is truthy or the key itself; with no bundle it is the key; the only error is a TypeError |
| `LocaleService.Descend` | src/app/services/locale/locale.service.ts:51-55 | the walk follows own properties one segment at a time and never steps past the last segment |
| `LocaleService.Resolve` | src/app/services/locale/locale.service.ts:46-64 | with no bundle the value is falsy; the only error the walk raises is a TypeError; `ResolveNested`, `ResolveFlat`, `ResolveDeepest` and `ResolveThroughNull` give its value in each case |
| `LocaleService.Lookup` | src/app/services/locale/locale.service.ts:58 | the flat own-property read of the whole key, `undefined` when absent; `ResolveFlat` shows when `get` uses it |
| `LocaleService.NullArgument` | src/app/services/locale/locale.service.ts:69-70 | when a lone `null` argument does not raise, interpolation leaves the text as it is |
| `LocaleService.GetSpec` | src/app/services/locale/locale.service.ts:45-76 | the result is truthy or the key itself; with no bundle it is the key; it raises a TypeError exactly when the walk faults or a lone `null` argument meets a placeholder |
| `LocaleService.Finish` | src/app/services/locale/locale.service.ts:66-75 | a falsy value gives the key; with no arguments a truthy value is returned as is; otherwise its text is interpolated, and an empty result falls back to the key |
| `LocaleService.GetPlain` | src/app/services/locale/locale.service.ts:66-75 | for any bundle, a key resolving to a non-empty text without placeholders makes `get` return that text, whatever the arguments |
| `LocaleService.GetNullArgument` | src/app/services/locale/locale.service.ts:68-72 | for any bundle, a key resolving to a text that starts with a placeholder makes `get` raise a TypeError when the single argument is `null` |
| `LocaleService.DescendPath` | src/app/services/locale/locale.service.ts:51-55 | when every segment is an own property, the walk ends at the path's node after all segments |
| `LocaleService.DescendPrefix` | src/app/services/locale/locale.service.ts:51-55 | a walk that has followed a prefix continues from the node the prefix reaches |
| `LocaleService.ResolveNested` | src/app/services/locale/locale.service.ts:46-59 | a dot key whose segments all exist resolves to the nested value |
| `LocaleService.ResolveFlat` | src/app/services/locale/locale.service.ts:57-58 | when the first segment is missing, the whole key is looked up as one flat property |
| `LocaleService.ResolveDeepest` | src/app/services/locale/locale.service.ts:51-59 | when a later segment is missing, the deepest node reached is the value, not the flat property |
| `LocaleService.ResolveThroughNull` | src/app/services/locale/locale.service.ts:51-53 | a `null` reached with segments left raises a TypeError |
| `LocaleService.Locale.From` | src/app/services/locale/locale.service.ts:95-102 | creates the ledger only when there is none, and requests the URL with its locale placeholders replaced by `current` |
| `LocaleService.Locale.Origin` | src/app/services/locale/locale.service.ts:108-118 | on success the fetched object becomes the whole bundle and its keys the URL's ledger entry, so `has(url)` holds; a fetch failure is passed on and changes only the ledger's existence |
| `LocaleService.Locale.Merge` | src/app/services/locale/locale.service.ts:124-134 | the ledger entry is written first; with a bundle the result is `Object.assign(bundle, fetched)`: the union of the keys, fetched values win, other values are unchanged; with no bundle it raises a TypeError; a fetch failure is passed on |
| `LocaleService.Locale.Dispose` | src/app/services/locale/locale.service.ts:140-170 | with a URL and a bundle: the entry leaves the ledger, its keys leave the bundle, the remaining keys keep their order, and exactly the keys the bundle held are emitted in entry order; otherwise ledger and bundle are cleared and one empty emission is made |
| `LocaleService.Locale.Exclude` | src/app/services/locale/locale.service.ts:176-200 | the entry leaves the ledger; the fragment is the bundle restricted to the entry's keys, in entry order; those keys leave the bundle and the remaining keys keep their order; raises with no ledger, or with no bundle when the entry names keys |
| `LocaleService.Locale.ExcludeKeys` | src/app/services/locale/locale.service.ts:184-192 | the loop of `exclude` leaves the bundle and the fragment that the sweep `SweepKeys` of the entry computes |
| `LocaleService.SessionMerge` | src/app/services/locale/locale.service.ts:124-134 | installing `{}` from one URL and merging a one-key bundle from another leaves exactly that bundle, recorded under the second URL |
| `LocaleService.SessionGreet` | src/app/services/locale/locale.service.ts:66-72 | reading `greeting` (`hi {0}`) with the argument `Sam` gives `hi Sam` |
| `LocaleService.SessionDispose` | src/app/services/locale/locale.service.ts:148-156 | disposing of the URL that contributed `greeting` emits `greeting` once and leaves no property |
| `LocaleService.SessionEcho` | src/app/services/locale/locale.service.ts:75 | once the key is gone, `get` echoes the key |
| `Objects.Remove` | src/app/services/locale/locale.service.ts:152 | `delete` removes the property, keeps every other property and the order of the remaining keys, and keeps the object well formed |
| `Objects.Put` | src/app/services/locale/locale.service.ts:187 | a property assignment sets the value and keeps every other property; an existing key keeps its place and a new key is appended; the object stays well formed |
| `Objects.Assign` | src/app/services/locale/locale.service.ts:128 | `Object.assign` unions the keys, the source's values win and the target's other values are kept; `AssignSpec` adds the key order |
| `Objects.AssignKeysValues` | src/app/services/locale/locale.service.ts:128 | copying keys one by one yields the union of the keys, each copied key holding the source value |
| `Objects.AssignKeysOrder` | src/app/services/locale/locale.service.ts:128 | copying keys one by one keeps the target's keys in place and appends the new ones in source order |
| `Objects.AssignSpec` | src/app/services/locale/locale.service.ts:128 | `Object.assign` is well formed, orders keys old-then-new, unions the keys, takes the source's values and keeps the rest |
| `Objects.AssignIntoEmpty` | src/app/services/locale/locale.service.ts:128 | assigning into `{}` reproduces the source object, key order included |
| `Objects.SweepStep` | src/app/services/locale/locale.service.ts:186-190 | one iteration of the sweep (also lines 150-153 of `dispose`) leaves the name out of the bundle and emits at most that one name |
| `Objects.SweepKeys` | src/app/services/locale/locale.service.ts:184-192 | the sweep over an entry (also lines 148-156 of `dispose`) emits at most one name per entry name; `SweepSpec` characterises its result |
| `Objects.SweepKeysNext` | src/app/services/locale/locale.service.ts:184 | sweeping one more name of the entry is one more iteration |
| `Objects.SweepSpec` | src/app/services/locale/locale.service.ts:184-192 | the fragment is the bundle restricted to the entry's keys, in entry order; the bundle keeps the other keys, in their old order |
| `Objects.SweepRemoves` | src/app/services/locale/locale.service.ts:148-156 | the sweep removes exactly the entry's keys and emits exactly those the bundle held, in entry order |
| `Objects.SweepKeepsOrder` | src/app/services/locale/locale.service.ts:150-153 | the bundle left by the sweep is well formed and keeps its remaining keys in their old order |
| `Objects.SweepTaken` | src/app/services/locale/locale.service.ts:184-192 | the fragment is well formed, its keys are the emitted ones, and it is the bundle restricted to the entry's keys |
| `Objects.MergeThenDisposeEmits` | src/app/services/locale/locale.service.ts:148-156 | after merging a fragment, disposing of its origin emits every fragment key, in order |
| `Objects.MergeThenExcludeFragment` | src/app/services/locale/locale.service.ts:184-192 | after merging a fragment, excluding its origin gives the fragment back exactly |
| `Objects.MergeThenExcludeRest` | src/app/services/locale/locale.service.ts:186-190 | after merging a fragment, excluding its origin leaves the earlier properties outside the fragment, unchanged |
| `Objects.OriginThenExcludeTaken` | src/app/services/locale/locale.service.ts:184-192 | excluding the origin that installed the whole bundle gives the bundle back |
| `Objects.OriginThenExcludeRest` | src/app/services/locale/locale.service.ts:186-190 | excluding the origin that installed the whole bundle leaves `{}` |
| `Templates.Substitute` | src/app/services/locale/locale.service.ts:100 | a URL without an opening brace is requested as it is; with `SubstitutePlaceholder`, `SubstituteText`, `SubstituteSkip` and `SubstituteUnmatched` every position of the URL is covered: a placeholder becomes the locale and every other character, braces included, is kept |
| `Templates.ArgText` | src/app/services/locale/locale.service.ts:69-71 | with no arguments a placeholder reads `undefined`; `ArgPositional`, `ArgPositionalMissing`, `InterpolateNamed` and `ArgNamedMissing` give the other cases |
| `Templates.Interpolate` | src/app/services/locale/locale.service.ts:68 | a text in which no placeholder matches is returned unchanged; with `InterpolateToken`, `InterpolateText`, `InterpolateSkip` and `InterpolateUnmatched` every position is covered: a placeholder becomes its argument's text and all other text, braces included, is kept |
| `Templates.SubstitutePlaceholder` | src/app/services/locale/locale.service.ts:10 | each of the six placeholder names, in any letter case, is replaced by the locale |
| `Templates.SubstituteText` | src/app/services/locale/locale.service.ts:100 | text without an opening brace is copied unchanged |
| `Templates.SubstituteSkip` | src/app/services/locale/locale.service.ts:100 | a position that opens no locale placeholder, a brace included, is copied and the scan moves on by one character |
| `Templates.SubstituteUnmatched` | src/app/services/locale/locale.service.ts:100 | a braced name that is not a locale placeholder, such as `{v2}`, is kept whole |
| `Templates.SubstituteExample` | src/app/services/locale/locale.service.ts:100 | `/i18n/{Lang}.json` requests the locale's file |
| `Templates.InterpolateToken` | src/app/services/locale/locale.service.ts:68-72 | a `[0-9a-z_$]+` placeholder is replaced by its argument's text and scanning resumes after it |
| `Templates.InterpolateText` | src/app/services/locale/locale.service.ts:68 | text without an opening brace is copied unchanged |
| `Templates.InterpolatePlain` | src/app/services/locale/locale.service.ts:68 | text without a placeholder is left as it is, whatever the arguments |
| `Templates.InterpolateSkip` | src/app/services/locale/locale.service.ts:68 | a position that opens no argument placeholder, a brace included, is copied and the scan moves on by one character |
| `Templates.InterpolateUnmatched` | src/app/services/locale/locale.service.ts:68 | a braced text that is not an argument placeholder, such as `{user.name}`, is kept whole |
| `Templates.InterpolatePositional` | src/app/services/locale/locale.service.ts:71 | with positional arguments, `{i}` becomes the text of argument i |
| `Templates.InterpolateNamed` | src/app/services/locale/locale.service.ts:69-70 | with one object argument, `{name}` becomes the text of its property |
| `Templates.InterpolateExample` | src/app/services/locale/locale.service.ts:68-72 | `hi {0}` with one string argument reads `hi ` followed by it |
| `Templates.ArgPositional` | src/app/services/locale/locale.service.ts:71 | `args[key]` with the decimal text of an index in range is that argument |
| `Templates.ArgPositionalMissing` | src/app/services/locale/locale.service.ts:71 | a name that is no index in range reads `undefined` |
| `Templates.ArgNamedMissing` | src/app/services/locale/locale.service.ts:70 | with one object argument, a name it does not hold reads `undefined` |
| `Numerals.ParseIndex` | src/app/services/locale/locale.service.ts:71 | which names `args[key]` reads as an array index: `DecimalRoundTrip` and `ParseIndexDecimal` show these are exactly the decimal texts of the indices, each with one name |
| `Numerals.DecimalRoundTrip` | src/app/services/locale/locale.service.ts:71 | reading the decimal text of n as an array index gives n |
| `Numerals.ParseIndexDecimal` | src/app/services/locale/locale.service.ts:71 | every array-index name is the decimal text of its index, so an index has exactly one name |
| `JsonValues.ToText` | src/app/services/locale/locale.service.ts:68 | `toString` of a string is the string itself; a truthy value never renders empty |
| `JsonValues.Truthy` | src/app/services/locale/locale.service.ts:66-75 | JavaScript truthiness (also the test at line 49): falsy exactly for `""`, `0`, `false` and `null` |
| `Strings.Expand` | src/app/services/locale/locale.service.ts:68 | the left-to-right scan of a global `replace` with a brace pattern; `ExpandPrefix`, `ExpandToken`, `ExpandSkip` and `ExpandUnaccepted` fix its result at every position |
| `Strings.ExpandNoBraceIf` | src/app/services/locale/locale.service.ts:100 | the global brace scan (also the one at line 68) returns a text without an opening brace unchanged |
| `Strings.ExpandPrefix` | src/app/services/locale/locale.service.ts:68 | the global brace scan copies text without an opening brace unchanged |
| `Strings.ExpandToken` | src/app/services/locale/locale.service.ts:68 | an accepted brace token is replaced by its rendering |
| `Strings.ExpandNoToken` | src/app/services/locale/locale.service.ts:68 | a text in which no token is accepted comes out unchanged |
| `Strings.ExpandSkip` | src/app/services/locale/locale.service.ts:68 | a position that opens no accepted token is copied and the scan moves on by one character |
| `Strings.ExpandUnaccepted` | src/app/services/locale/locale.service.ts:68 | a brace token whose body is not accepted and holds no brace is copied whole |
| `Strings.TokenAtBrace` | src/app/services/locale/locale.service.ts:68 | a brace, a body without `}` and a `}` form the token with that body, as the pattern's character class stops at the first `}` |
| `Strings.HasTokenAt` | src/app/services/locale/locale.service.ts:68 | a text that starts with an accepted token contains one |
| `Strings.Split` | src/app/services/locale/locale.service.ts:46 | `split(".")` gives at least one piece, none containing a dot |
| `Strings.JoinSplit` | src/app/services/locale/locale.service.ts:46 | joining the pieces with dots gives back the key |
| `Strings.SplitJoin` | src/app/services/locale/locale.service.ts:46 | splitting dot-joined dot-free pieces gives back the pieces |
| `Strings.SplitPlain` | src/app/services/locale/locale.service.ts:46 | a dot-free key is its own only segment |
| `Strings.SplitPiece` | src/app/services/locale/locale.service.ts:46 | a dot-free piece followed by a dot is split off first |

## Left out

- The HTTP transport, response parsing and Angular dependency injection: a
  fetch is a parameter (the parsed object or a failure reason) of `Origin`
  and `Merge`.
- RxJS plumbing. The model does not capture:
  - that nothing happens until an observable is subscribed;
  - interleaving between concurrent fetches;
  - the `next` that `exclude` sends after reporting an error.
- Floating-point numbers: JSON numbers are integers (`Num(int)`), so
  `toString` of fractions and exponents is not modelled.
- JSON arrays as values, and arrays or other objects passed as the single
  argument.
- Own properties of strings, such as `"abc".hasOwnProperty("0")` during the
  dot walk: a string node stops the walk.
- What `args[0][key]` and `args[key]` read beyond the own elements and
  properties: the array's own `length`, as in `args["length"]`, and
  inherited properties such as `args[0]["constructor"]`. The model reads
  `undefined` for both.
- The replacement-pattern meaning of `$` in a replacement string: `replace`
  with a string replacement (line 100) would expand `$&`, `$1` and similar in
  the locale; the model inserts the locale literally.
- Case folding of non-ASCII letters by the `i` flag: the six placeholder
  names are ASCII.
- `Object.keys` lists integer-like keys first, in numeric order. The model
  keeps insertion order for all keys.
- The `null` written to a property just before it is deleted in `dispose` and
  `exclude`: nothing can observe it.
- `LocaleService.Resolve` (`depth == 0`) and `LocaleService.Locale.Get`
  (`i == 0`) model `nestedResource === this.resources` as "no segment was
  followed". Parsed JSON is acyclic, so the walk can never return to the
  root.
- `LocaleService.Resolve`, `LocaleService.Lookup` and `LocaleService.Locale.Get`:
  the flat lookup `nestedResource[resourceKey]` (line 58) also reads
  inherited properties. `get("constructor")` on a bundle without that key
  gives the truthy `Object` function; the model echoes the key.
- `LocaleService.Locale.Get`, `LocaleService.Locale.Dispose` and
  `LocaleService.Locale.Exclude`: an own property named `hasOwnProperty`
  shadows the method, so lines 52, 150 and 186 raise; an own `toString`
  property makes line 68 raise. Bundles with such keys are treated like any
  other in the model.
- `LocaleService.Locale.Origin`: `origin` emits the very object it installs
  (lines 112-114), so a later `merge`, `dispose` or `exclude` also changes
  what the subscriber received. The model returns values, with no aliasing.
- `LocaleService.Locale.Origin` and `LocaleService.Locale.Merge`: a fetch
  failure is modelled as passed on to the subscriber. Lines 116 and 132
  hand over `observer.error` without binding it to `observer`; whether RxJS
  then still reaches the subscriber depends on library code that is not
  part of this model.
- `Objects.Put` and `Objects.Assign`, and so `LocaleService.Locale.Merge`
  and `LocaleService.Locale.Exclude`: a fetched object's own `__proto__`
  property is modelled as an ordinary key. In the source, `Object.assign`
  (line 128) and `exclusion[key] = …` (line 187) write it through the
  inherited `__proto__` setter. That changes the target's prototype and adds
  no own key, so for this one name `get`, `dispose` and `exclude` differ
  from the model.
- The generic type parameter `T` of `Locale<T>`: bundles are JSON objects.
