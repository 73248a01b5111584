# Oppia translation ids and map-answer rules, in Dafny

This project models the two pieces of deterministic logic in Oppia's
client-side code:

- **Translation bootstrap** (`core/templates/dev/head/i18n.js`): the library
  translation ids built by `i18nIdService.getLibraryId`, the file URL that
  `I18nFileHashLoader` joins from prefix, key and suffix, the list of language
  keys and the wildcard map that the configuration block registers with the
  translation library, and the language the `I18nFooter` controller selects
  when the page loads. Module `I18n` (file `i18n.dfy`), on top of module
  `Text` (file `text.dfy`), which models the JavaScript string built-ins it
  uses: `toUpperCase` over ASCII letters, `split` on one character and
  `Array.prototype.join`.
- **InteractiveMap interaction**
  (`extensions/interactions/InteractiveMap/InteractiveMap.js`): the `Within`
  and `NotWithin` answer rules of `interactiveMapRulesService`, and the
  hemisphere label that the short-response directive writes into
  `$scope.formattedCoords`. Module `InteractiveMap` (file
  `interactive_map.dfy`).

The haversine distance is floating-point trigonometry, so the rules take it
as a parameter `distanceKm: (Point, Point) -> real`; lemmas that need a
property of it (symmetry, zero self-distance, non-negativity) state it as a
precondition. Likewise `toFixed(3)` is a parameter `fixed3: real -> string`
of the label. The configuration loop is a method with a loop, proved against
the functions `LanguageIds` and `LanguageKeyMap`; the label is built
field-update by field-update in the constructor of `ShortResponseScope`,
proved equal to the function `CoordinateLabel`.

The rules validate nothing: out-of-range coordinates and negative radii are
classified like any other input, and with non-negative distances a negative
radius makes every answer `NotWithin`. The footer's initial language when
there is no usable preference is `'zh-hans'`, although the translation
library's fallback language is `'en'`.

## Model

| member | source | states |
|---|---|---|
| `Text.UpperChar` | core/templates/dev/head/i18n.js:154-155 | ASCII `a`-`z` become the letter 32 code points lower; every other character is unchanged; the result is never a lower-case ASCII letter |
| `Text.ToUpper` | core/templates/dev/head/i18n.js:154-155 | `toUpperCase` keeps the length and upper-cases each character in place |
| `Text.Replace` | core/templates/dev/head/i18n.js:155 | reference definition: same length, each `from` becomes `to`, every other character kept |
| `Text.Split` | core/templates/dev/head/i18n.js:155 | `split(sep)` yields one more piece than there are separators, and no piece contains the separator |
| `Text.Join` | core/templates/dev/head/i18n.js:49-53 | `join` of no parts is the empty string, and of at least one part starts with the first part |
| `Text.JoinLength` | core/templates/dev/head/i18n.js:49-53 | a join adds exactly one separator fewer than there are parts: its length is the parts' total length plus (parts - 1) separator lengths |
| `Text.JoinThreeConcatenates` | core/templates/dev/head/i18n.js:49-53 | `[a, b, c].join('')` is `a + b + c` |
| `Text.JoinSplitReplaces` | core/templates/dev/head/i18n.js:155 | `split(sep).join(glue)` replaces every `sep` by `glue` and changes nothing else |
| `Text.JoinSplitRoundTrip` | core/templates/dev/head/i18n.js:155 | splitting and joining with the same character gives back the original string |
| `I18n.NameSegment` | core/templates/dev/head/i18n.js:155 | the name part has the name's length; each space becomes `_`, each other character its upper-case form |
| `I18n.GetLibraryId` | core/templates/dev/head/i18n.js:152-156 | the id starts with `I18N_LIBRARY_`, then the upper-cased prefix, then `_`, then the name segment; its length is 13 + prefix length + 1 + name length |
| `I18n.LibraryIdNameHasNoSpaces` | core/templates/dev/head/i18n.js:154-155 | the part of the id after the prefix's `_` contains no space |
| `I18n.LibraryIdKeepsPrefixSpaces` | core/templates/dev/head/i18n.js:154 | each prefix character appears upper-cased at its place in the id, so a space in the prefix stays a space |
| `I18n.LibraryIdExample` | core/templates/dev/head/i18n.js:150-156 | `getLibraryId('categories', 'art')` is `I18N_LIBRARY_CATEGORIES_ART` |
| `I18n.LibraryIdMergesSpaceAndUnderscore` | core/templates/dev/head/i18n.js:155 | the id does not determine the name: `'a b'` and `'A_B'` give the same id |
| `I18n.FileUrl` | core/templates/dev/head/i18n.js:49-53 | the `fileUrl` the loader hands to `getTranslateJsonUrl` is exactly prefix, key and suffix concatenated |
| `I18n.FileUrlKeyRoundTrip` | core/templates/dev/head/i18n.js:49-53 | the URL starts with the prefix, ends with the suffix, and the key is what lies between them |
| `I18n.ConfiguredFileUrl` | core/templates/dev/head/i18n.js:125-128 | with the registered options the `fileUrl` is `/i18n/` + key + `.json` |
| `I18n.LanguageIds` | core/templates/dev/head/i18n.js:116-117 | the key list has one entry per supported language, the i-th being the i-th language's id |
| `I18n.WildcardEntries` | core/templates/dev/head/i18n.js:116-119 | every key of the entries assigned in the loop is its own value followed by `*`; the last language's wildcard is present |
| `I18n.WildcardEntriesContents` | core/templates/dev/head/i18n.js:116-119 | the wildcard entries have exactly the keys `id + "*"`, and each maps to its id, even when ids repeat |
| `I18n.LanguageKeyMap` | core/templates/dev/head/i18n.js:118-120 | `"*"` maps to `"en"`, and every other key is its own value followed by `*` |
| `I18n.LanguageKeyMapContents` | core/templates/dev/head/i18n.js:114-120 | `"*"` maps to `"en"`; every non-empty id's `id + "*"` maps to that id; no key other than `"*"` and the `id + "*"` is present |
| `I18n.LanguageIdsDistinct` | core/templates/dev/head/i18n.js:116-117 | distinct supported ids give a key list in which each id appears once |
| `I18n.RegisterLanguageKeys` | core/templates/dev/head/i18n.js:114-120 | the loop yields exactly `LanguageIds` and `LanguageKeyMap` of the supported languages; the list is as long as the input and `"*"` ends as `"en"` |
| `I18n.HasPreferredCode` | core/templates/dev/head/i18n.js:72 | the JavaScript truthiness of the preferred code: it is false exactly for an absent code and for the empty string |
| `I18n.InitialLanguage` | core/templates/dev/head/i18n.js:72-77 | the preferred code when the user is logged in and has a non-empty one, otherwise `zh-hans`; never empty |
| `I18n.LoggedOutUsesDefault` | core/templates/dev/head/i18n.js:72-77 | a visitor who is not logged in starts in `zh-hans` whatever preference is present |
| `I18n.InitialLanguageIsPreferredOrDefault` | core/templates/dev/head/i18n.js:72-77 | the initial language is either the default or the preferred code |
| `InteractiveMap.Within` | extensions/interactions/InteractiveMap/InteractiveMap.js:194-197 | `Within` holds exactly when the distance from `inputs.p` to the answer is not greater than `d`, so a distance equal to `d` is within |
| `InteractiveMap.NotWithin` | extensions/interactions/InteractiveMap/InteractiveMap.js:198-201 | `NotWithin` (distance from `inputs.p` to the answer strictly greater than `d`) holds exactly when `Within` does not |
| `InteractiveMap.ExactlyOneRuleHolds` | extensions/interactions/InteractiveMap/InteractiveMap.js:194-201 | for every real distance and real radius, exactly one of `Within` and `NotWithin` holds |
| `InteractiveMap.BoundaryIsWithin` | extensions/interactions/InteractiveMap/InteractiveMap.js:194-201 | at distance exactly `d`, `Within` holds and `NotWithin` does not |
| `InteractiveMap.RulesMeasureFromReference` | extensions/interactions/InteractiveMap/InteractiveMap.js:195-199 | both rules measure from `inputs.p` to the answer: with an asymmetric distance the reverse direction would decide differently |
| `InteractiveMap.WithinSymmetric` | extensions/interactions/InteractiveMap/InteractiveMap.js:194-201 | with a symmetric distance, swapping reference point and answer does not change either rule |
| `InteractiveMap.WithinMonotoneInRadius` | extensions/interactions/InteractiveMap/InteractiveMap.js:194-197 | an answer within radius `d` is within every larger radius |
| `InteractiveMap.ReferencePointIsWithin` | extensions/interactions/InteractiveMap/InteractiveMap.js:194-201 | when a point's distance to itself is zero, the reference point is within every non-negative radius |
| `InteractiveMap.NegativeRadiusIsNeverWithin` | extensions/interactions/InteractiveMap/InteractiveMap.js:194-201 | with a non-negative distance, a negative radius makes the answer `NotWithin` |
| `InteractiveMap.Abs` | extensions/interactions/InteractiveMap/InteractiveMap.js:163-166 | `Math.abs` is non-negative and equals the value or its negation |
| `InteractiveMap.HemisphereLetter` | extensions/interactions/InteractiveMap/InteractiveMap.js:164-167 | the letter is one of the two given letters, and the non-negative one (`N` for latitude, `E` for longitude) exactly when the coordinate is at least zero, so zero counts as `N` and `E` |
| `InteractiveMap.LatitudeLetter` | extensions/interactions/InteractiveMap/InteractiveMap.js:164 | the latitude letter is `N` or `S`, and `N` exactly when the latitude is at least zero |
| `InteractiveMap.LongitudeLetter` | extensions/interactions/InteractiveMap/InteractiveMap.js:167 | the longitude letter is `E` or `W`, and `E` exactly when the longitude is at least zero |
| `InteractiveMap.HemisphereRoundTrip` | extensions/interactions/InteractiveMap/InteractiveMap.js:163-167 | the magnitude and the hemisphere letter together give back the latitude and the longitude, zero included |
| `InteractiveMap.CoordinateLabel` | extensions/interactions/InteractiveMap/InteractiveMap.js:163-167 | the label starts with the latitude magnitude, ends with the longitude letter, and is 8 characters longer than the two magnitudes together |
| `InteractiveMap.CoordinateLabelLayout` | extensions/interactions/InteractiveMap/InteractiveMap.js:163-167 | the label is the latitude magnitude, the degree sign and a space, its letter, `", "`, the longitude magnitude, the degree sign and a space, and the longitude letter last |
| `InteractiveMap.ShortResponseScope.constructor` | extensions/interactions/InteractiveMap/InteractiveMap.js:161-168 | the successive `+=` leave `formattedCoords` equal to `CoordinateLabel` of the answer |

## Left out

- The haversine argument is not clamped to [0, 1] before the square root; since the distance is a parameter here, neither that nor any rounding of it is modelled.
- The haversine distance (`getDistanceInKm`, `degreesToRadians`, the Earth radius 6371 km): floating-point trigonometry; it is the parameter `distanceKm` of the rules.
- `toFixed(3)`: float-to-string conversion; it is the parameter `fixed3` of the label.
- Everything that drives Google Maps or AMap (markers, centring, resize, map options, the latitude/longitude swap for AMap, static map URLs) and the `is_Google` switch: third-party SDK calls and rendering.
- `extensions/objects/templates/CoordTwoDimEditor.js`: a form editor driven by framework watchers and map SDK objects, with no algorithm of its own.
- `UrlInterpolationService.getTranslateJsonUrl`: the loader passes `fileUrl` through it before the request; its code is not part of this model, so `I18n.FileUrl` stops at the `fileUrl` it is given.
- The `$http` request of the loader and its rejection path, `changeLanguage` with its `$http.put` and cookie, the `$timeout` dropdown workaround and the `$translateProvider` configuration chain: I/O and a library whose code is not part of this model.
- The `DEFAULT_TRANSLATIONS` constant table: static data.
- `Text.UpperChar`: upper-cases ASCII letters only; JavaScript's `toUpperCase` also maps other Unicode letters and can lengthen a string (`ß` becomes `SS`), so the length property of `I18n.GetLibraryId` is stated for this ASCII model.
- `InteractiveMap.HemisphereLetter`: coordinates are exact reals, so JavaScript's `-0` (which `>= 0` classes as `N`/`E`) and `NaN` (which classes as `S`/`W`) are not represented.
- Coordinates are a datatype with two fields rather than a two-element array; inputs with fewer or more elements are not represented.
- `InteractiveMap.ExactlyOneRuleHolds`: holds for real distances and radii only. A radius or distance that converts to NaN (a missing `inputs.d`, a non-numeric string, or a NaN distance, which the unclamped haversine argument can produce when rounding lifts it above 1) makes both comparisons false, so neither rule holds. `null`, booleans and numeric strings are converted to numbers first. Distances and radii here are reals, so none of these cases is represented.
- `I18n.LanguageKeyMap`: a Dafny `map` has no key order, whereas the JavaScript object keeps keys in first-insertion order (the wildcard entries in language order, then `"*"`, unless an empty id already created `"*"` inside the loop); a consumer that walks the keys sees that order, which is not represented.
