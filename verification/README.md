# streetsupport-web: the page formatters, modelled in Dafny

This project models the pure data-reshaping logic of two pages of the
streetsupport-web front end, and proves properties about it.

- **The accommodation details page** (`src/js/pages/accommodation/details/app.js`).
  These are the seven formatters that rewrite sub-objects of the API response
  before the template renders them:
  - general information and contact information, whose text is sanitised;
  - the postal address line;
  - the eleven 0/1 feature flags and the derived `hasIndividualFeatures` and
    `hasContent`;
  - pricing and requirements;
  - support provided, where codes become display names;
  - resident criteria.
- **The category-by-day page** (`src/js/page-category-by-day.js`):
  - the week of services is turned so that it starts today (`sortDaysFromToday`,
    including lodash's negative-index `slice` on Sunday);
  - each day's providers are sorted stably by start time (`sortByOpeningTimes`,
    lodash `sortBy`);
  - `buildList` chooses the template;
  - the page decides which URL to fetch the list from: a named location,
    browser geolocation, or no location.

The source rewrites objects in place. Here each formatter is a pure function
from the input record to the output record. A record is a map from property
names (`AccommodationDetails.Field`) to JavaScript values (`JsValues.Value`).

Three things become parameters:
- the sanitiser `clean` (`marked(htmlDecode(s))`), passed as a function. It is
  assumed total: it returns a string for every value and never throws.
  Nothing else is assumed about it; in particular `clean(clean(x)) == clean(x)`
  is not;
- the weekday `new Date().getDay()`;
- the browser's geolocation (whether it exists, and whether the position
  request resolved or failed).

The model also covers the JavaScript behaviour the code relies on, under the
same modules:
- truthiness;
- template-literal string conversion;
- `String.prototype.trim`;
- `Array.prototype.filter`, `map` and `join`;
- a `TypeError` thrown by `.trim` on a non-string or by `.name` / `.latitude`
  read from `undefined`. It is modelled as `Result.TypeError`.

Modules:
- `JsValues` (`js_values.dfy`)
- `JsStrings` (`js_strings.dfy`)
- `JsArrays` (`js_arrays.dfy`)
- `Lodash` (`lodash.dfy`)
- `AccommodationDetails` (`accommodation_details.dfy`)
- `CategoryByDay` (`category_by_day.dfy`)

## Model

| member | source | states |
|---|---|---|
| AccommodationDetails.FormatGeneralInfo | src/js/pages/accommodation/details/app.js:37-43 | `synopsis` and `description` become `clean` of their old values (created if missing); every other property is kept unchanged |
| AccommodationDetails.FormatContactInformation | src/js/pages/accommodation/details/app.js:45-51 | `additionalInfo` becomes `clean` of its old value; every other property is kept unchanged |
| AccommodationDetails.Unguarded | src/js/pages/accommodation/details/app.js:37-85 | a formatter without an `if (!data)` guard throws exactly when its sub-object is `undefined` or `null`, and otherwise gives the formatter's result |
| AccommodationDetails.FormatGeneralInfoOf | src/js/pages/accommodation/details/app.js:37-43 | `formatGeneralInfo` throws exactly on an absent sub-object; on a present one the result is `FormatGeneralInfo`'s, with its whole contract: `synopsis` and `description` cleaned, every other property kept |
| AccommodationDetails.FormatContactInformationOf | src/js/pages/accommodation/details/app.js:45-51 | `formatContactInformation` throws exactly on an absent sub-object; on a present one the result is `FormatContactInformation`'s: `additionalInfo` cleaned, every other property kept |
| AccommodationDetails.FormatFeaturesOf | src/js/pages/accommodation/details/app.js:63-85 | `formatFeatures` throws exactly on an absent sub-object; on a present one the result is `FormatFeatures`'s, whose flags, presence flags and frame the `FormatFeatures*` lemmas state |
| AccommodationDetails.FormattersKeepWellFormed | src/js/pages/accommodation/details/app.js:37-51 | the two text formatters add only named properties, so each output key still stands for exactly one JavaScript property |
| AccommodationDetails.FormatFeaturesKeepsWellFormed | src/js/pages/accommodation/details/app.js:76-82 | `formatFeatures` adds only named properties, so its frame cannot be read as keeping a second copy of a written property |
| AccommodationDetails.FormatPricingAndReqsKeepsWellFormed | src/js/pages/accommodation/details/app.js:92-96 | `formatPricingAndReqs` adds only named properties |
| AccommodationDetails.FormatSupportProvidedKeepsWellFormed | src/js/pages/accommodation/details/app.js:110-113 | `formatSupportProvided` adds only named properties |
| AccommodationDetails.FormatResidentCriteriaKeepsWellFormed | src/js/pages/accommodation/details/app.js:120 | `formatResidentCriteria` adds only `hasContent` |
| AccommodationDetails.FormatAddress | src/js/pages/accommodation/details/app.js:53-61 | `formatAddress` on a present address: a successful result ends with ". " and the postcode; the full characterisation is `FormatAddressSpec` |
| AccommodationDetails.FormatAddressOf | src/js/pages/accommodation/details/app.js:53-61 | an absent address throws, and a present one gives `FormatAddress`'s result; the full characterisation is `FormatAddressOfSpec` |
| AccommodationDetails.FormatAddressOfSpec | src/js/pages/accommodation/details/app.js:53-61 | an absent address throws; a present one throws exactly when one of its parts is unusable, and otherwise gives the address line, ". " and the postcode |
| JsStrings.Trim | src/js/pages/accommodation/details/app.js:57 | the result starts and ends with no whitespace; `TrimInfix` pins down which piece of the input it is |
| JsStrings.TrimInfix | src/js/pages/accommodation/details/app.js:57 | `trim` returns a contiguous piece of its input, and everything it removes on either side is whitespace |
| JsStrings.TrimEmptyIff | src/js/pages/accommodation/details/app.js:57-58 | a part trims to the empty string exactly when it is all whitespace |
| AccommodationDetails.KeptLinesSucceedIff | src/js/pages/accommodation/details/app.js:55-58 | the filter/trim/filter pipeline throws exactly when some listed part is truthy but not a string |
| AccommodationDetails.KeptLinesJoin | src/js/pages/accommodation/details/app.js:55-59 | every kept line is non-empty, and the lines joined with ", " equal the reference line: the trimmed non-blank parts in list order |
| AccommodationDetails.FormatAddressSpec | src/js/pages/accommodation/details/app.js:53-61 | `formatAddress` succeeds exactly when none of street1, street2, street3 and city is a truthy non-string; its result is then the address line, ". " and the postcode as `${}` prints it |
| AccommodationDetails.AddressLineEmptyIff | src/js/pages/accommodation/details/app.js:54-59 | the address line is empty exactly when every part is absent, falsy, not a string, or blank |
| AccommodationDetails.AddressLineTrimmed | src/js/pages/accommodation/details/app.js:57-59 | the address line neither starts nor ends with whitespace |
| AccommodationDetails.FormatAddressNoLines | src/js/pages/accommodation/details/app.js:59-60 | with no usable part text the result is exactly ". " followed by the postcode |
| AccommodationDetails.BlankPartsSkipped | src/js/pages/accommodation/details/app.js:53-61 | a blank street2 and a missing street3 leave no empty segment: the result is "street1, city. postcode" |
| AccommodationDetails.FormatFeatures | src/js/pages/accommodation/details/app.js:63-85 | the two derived flags are booleans, and a feature offered implies content; the flags, presence flags, keys and frame are stated by the `FormatFeatures*` lemmas |
| AccommodationDetails.FeatureKeysComplete | src/js/pages/accommodation/details/app.js:64-75 | the key list names all eleven features |
| AccommodationDetails.FormatFeaturesFlags | src/js/pages/accommodation/details/app.js:76-79 | each feature flag ends `true` exactly when its input was the number 1, and `false` otherwise, including when it was missing |
| AccommodationDetails.FormatFeaturesPresence | src/js/pages/accommodation/details/app.js:80-82 | `additionalFeatures` becomes `clean(old)`; `hasIndividualFeatures` is true exactly when some feature was 1; `hasContent` is true exactly when a feature was 1 or the cleaned text is non-empty |
| AccommodationDetails.FormatFeaturesKeys | src/js/pages/accommodation/details/app.js:63-85 | the output has exactly the input's properties plus the ones `formatFeatures` writes |
| AccommodationDetails.FormatFeaturesFrame | src/js/pages/accommodation/details/app.js:63-85 | every property `formatFeatures` does not write keeps its value |
| AccommodationDetails.FormatFeaturesTwiceClearsFlags | src/js/pages/accommodation/details/app.js:76-81 | formatting an already formatted object turns every feature flag and `hasIndividualFeatures` to `false` |
| AccommodationDetails.FormatPricingAndReqsTwiceClearsFood | src/js/pages/accommodation/details/app.js:92 | formatting an already formatted object turns `foodIsIncluded` to `false`, because `true === 1` fails |
| AccommodationDetails.FormatPricingAndReqs | src/js/pages/accommodation/details/app.js:87-88 | there is an output exactly when there is an input |
| AccommodationDetails.FormatPricingAndReqsFrame | src/js/pages/accommodation/details/app.js:87-99 | the output adds exactly the five written properties, and every other property keeps its value |
| AccommodationDetails.FormatPricingAndReqsFields | src/js/pages/accommodation/details/app.js:92-95 | `foodIsIncluded` is true exactly when it was 1; each of the three text properties becomes `clean` of its old value |
| AccommodationDetails.FormatPricingAndReqsContent | src/js/pages/accommodation/details/app.js:90-96 | `hasContent` is true exactly when food was 1 or some cleaned text property is non-empty |
| AccommodationDetails.SupportTypesDistinct | src/js/pages/accommodation/details/app.js:103-109 | no two rows of the support table share a code or a display name |
| AccommodationDetails.SupportName | src/js/pages/accommodation/details/app.js:111 | the lookup succeeds exactly for the five table codes, and then yields that row's display name; any other code throws |
| AccommodationDetails.SupportNameRoundTrip | src/js/pages/accommodation/details/app.js:103-111 | the reverse lookup of a code's display name gives back that code |
| AccommodationDetails.NoNameIsCode | src/js/pages/accommodation/details/app.js:103-109 | no display name of the support table is also one of its codes |
| AccommodationDetails.FormatSupportProvidedTwiceThrows | src/js/pages/accommodation/details/app.js:110-111 | formatting an already formatted object with a non-empty `supportOffered` throws: the display names written by the first pass are not codes |
| AccommodationDetails.FormatSupportProvided | src/js/pages/accommodation/details/app.js:101-102 | an absent input gives no output and no error; a present one that is formatted gives an output |
| AccommodationDetails.FormatSupportProvidedLabels | src/js/pages/accommodation/details/app.js:110-112 | a present input is formatted exactly when `supportOffered` is an array of table codes; the names then line up one to one with the codes, in the same order and number; `supportInfo` becomes `clean(old)` |
| AccommodationDetails.FormatSupportProvidedContent | src/js/pages/accommodation/details/app.js:113-114 | `hasContent` is `true` or else the `hasOnSiteManager` value itself; it is truthy exactly when there is a name, cleaned info text, or a truthy `hasOnSiteManager`; no other property changes |
| AccommodationDetails.FormatResidentCriteria | src/js/pages/accommodation/details/app.js:117-123 | an absent input gives no output; otherwise `hasContent` is added and is true exactly when some input property is the boolean `true`; every other property is kept |
| Lodash.Slice | src/js/page-category-by-day.js:116-117 | `_.slice` always returns a contiguous window of its input; `SliceInRange` and `SliceNegative` say which |
| Lodash.SliceRotation | src/js/page-category-by-day.js:116-118 | `slice(a, t).concat(slice(a, 0, t))` is `a` turned to start at some index, for every integer `t` |
| Lodash.SliceNegative | src/js/page-category-by-day.js:116-117 | a negative index `-m` counts back from the end of the array |
| Lodash.SortBy | src/js/page-category-by-day.js:105-107 | the providers are rearranged (same multiset) into ascending start-time order, and providers with equal start times keep their relative order |
| Lodash.SortByIsTheStableSort | src/js/page-category-by-day.js:105-107 | any sorted arrangement that keeps each start time's providers in input order is the one `sortBy` returns |
| CategoryByDay.SortDaysFromToday | src/js/page-category-by-day.js:113-119 | the result has the same days as the input, each as often; which rotation it is is stated by the `SortDaysFromToday*` lemmas |
| CategoryByDay.RotationElements | src/js/page-category-by-day.js:116-118 | a turned week has the same days, and position `i` holds the day `i` places after the start, wrapping round the end |
| CategoryByDay.SortDaysFromTodayIsRotation | src/js/page-category-by-day.js:113-119 | for any weekday the result is the week turned to start at some day |
| CategoryByDay.SortDaysFromTodayWeekday | src/js/page-category-by-day.js:115-118 | for `0 <= today <= n` the result is `days[today..] + days[..today]`; it starts with `days[today]`; on Monday nothing moves |
| CategoryByDay.SortDaysFromTodaySunday | src/js/page-category-by-day.js:114-118 | on Sunday (`today` = -1) the last day comes first, then the others in order |
| CategoryByDay.SortDaysFromTodayWeek | src/js/page-category-by-day.js:113-119 | for a seven-day week, position `i` shows the API day `(getDay() + 6 + i) mod 7`, that is `i` days after today |
| CategoryByDay.SortByOpeningTimes | src/js/page-category-by-day.js:103-111 | the number and order of days and their names are kept; each day's providers become a stable ascending rearrangement by start time |
| CategoryByDay.SortByOpeningTimesIdempotent | src/js/page-category-by-day.js:103-111 | sorting an already sorted week changes nothing |
| CategoryByDay.SortByOpeningTimesUnique | src/js/page-category-by-day.js:103-111 | any stable ascending arrangement of a day's providers is the one shown |
| CategoryByDay.BuildList | src/js/page-category-by-day.js:80-93 | the chosen template is always one of the two templates |
| CategoryByDay.BuildListFromResponse | src/js/page-category-by-day.js:78-86 | a response without `daysServices` throws at `.length`; otherwise the listing is `BuildList`'s |
| CategoryByDay.BuildListTemplates | src/js/page-category-by-day.js:83-93 | the result template is chosen exactly for a non-empty week and the no-results template exactly for an empty one; an empty week is passed on unchanged |
| CategoryByDay.BuildListShowsTurnedWeek | src/js/page-category-by-day.js:83-86 | a non-empty week is shown turned to start at some day, with every day's providers sorted |
| CategoryByDay.RequestedLocation | src/js/page-category-by-day.js:34-53 | a location is found exactly for "manchester" and "leeds", and it is the table row with that key |
| CategoryByDay.ChooseListUrlAsWritten | src/js/page-category-by-day.js:49-74 | when the code as written gets through, the browser was never asked for its position |
| CategoryByDay.AsWrittenFailsWithoutNamedLocation | src/js/page-category-by-day.js:49-60 | the code as written throws exactly when the `location` parameter is not a named location, whatever geolocation offers |
| CategoryByDay.AsWrittenCounterexample | src/js/page-category-by-day.js:49-60 | with no `location` parameter and a browser that knows its position, the code as written throws |
| CategoryByDay.ChooseListUrl | src/js/page-category-by-day.js:55-74 | corrected branch: the browser is asked only when it has geolocation, and the URL is the category URL, with or without coordinates appended |
| CategoryByDay.KnownLocationSkipsDevice | src/js/page-category-by-day.js:55-60 | corrected branch: a named location bypasses the browser, and the URL carries that location's fixed coordinates |
| CategoryByDay.UnknownLocationUsesDevice | src/js/page-category-by-day.js:61-74 | corrected branch: otherwise the browser is asked exactly when it has geolocation; the URL carries the position when one resolved, and is the plain category URL when it failed or was never available |
| CategoryByDay.ChooseListUrlAgrees | src/js/page-category-by-day.js:49-74 | wherever the code as written succeeds, the corrected branch makes the same choice |

## Left out

- `src/js/get-location.js`, the browser geolocation API, and the `navigator.geolocation` test are not part of this model. They are platform I/O, so their results are parameters.
- `tasks/config/webpack.config.js`: build configuration.
- `initMap` and the map widget (`app.js:15-26`), `renderTemplate`/Hogan and all DOM writes, the spinner, `socialShare`, `accordion`, `nav` and FastClick. These are UI side effects.
- `getApiData.data`, the `/500` redirect, the promise chaining and the driver in `app.js:129-145`. These are network and asynchronous plumbing. Each formatter is modelled on its own input.
- The internals of `marked` and `htmlencode`. `clean` is an arbitrary total function from values to strings, so a sanitiser that throws is not modelled.
- `new Date().getDay()`. The weekday is a parameter.
- Conversion of the latitude/longitude floats to text. Coordinates are kept as the decimal text JavaScript prints for them, and the URL is their concatenation.
- Non-integer numbers, integers beyond 2^53 (which are not JavaScript numbers), and the exponent form (`1e+21`) that JavaScript prints for magnitudes of 10^21 and more. `Value.Num` holds unbounded integers and `ToJsString` prints them in plain decimal, which is all the 0/1 flags and ordinary postcodes need.
- String ordering in `sortBy` compares characters as code points. JavaScript compares UTF-16 code units, which can differ only outside the Basic Multilingual Plane.
- In-place mutation. The source writes into the sub-object and returns it; the model returns a new record. The caller sees no difference, because it stores the returned object back in the same place (`app.js:132-138`).
- A sub-object whose value is truthy but not an object. Its absence is `None`, so the guard `if (!data) return` is `Option`.
- A provider whose `openingTimes` or day whose `serviceProviders` is missing. The typed model always has them.
- Start times that are not strings. `OpeningTimes.startTime` is a string, so lodash 3's placement of `null` and `undefined` keys after all others in `sortBy` is not modelled.
- A `daysServices` that is present but not an array. A missing one is modelled by `BuildListFromResponse` and throws; any other value is typed as a sequence of days.
- The `+=` on `apiRoutes.categoryServiceProvidersByDay` and on `categoryUrl` (`page-category-by-day.js:32`, `58`, `65`). These are mutations of module state that matter only for a second call, which the page never makes. The category URL is a parameter.
- Idempotence of re-formatting is not claimed, because it does not hold for three formatters:
  - `formatFeatures`: a second pass sees booleans instead of the number 1 and switches every flag off (`AccommodationDetails.FormatFeaturesTwiceClearsFlags`);
  - `formatPricingAndReqs`: a second pass turns `foodIsIncluded` to `false` (`AccommodationDetails.FormatPricingAndReqsTwiceClearsFood`);
  - `formatSupportProvided`: a second pass over a non-empty list throws, because display names are not codes (`AccommodationDetails.FormatSupportProvidedTwiceThrows`).

  The text properties would be stable under a second pass only if `clean(clean(x)) == clean(x)`, which the model does not assume.

## Findings

| source | as written | input that shows it | evidently intended | confidence | as-written member | corrected member |
|---|---|---|---|---|---|---|
| src/js/page-category-by-day.js:55 | `requestedLocation !== false` is always true, because lodash `find` returns the match or `undefined`, never `false`. The first branch is always taken, and `requestedLocation.latitude` throws when there is no match | a page opened with no `location` parameter (or an unknown one, e.g. `york`) on a browser with geolocation | use the named location when there is one; otherwise ask the browser, and fall back to the plain category URL when that fails or is unavailable | not executed | CategoryByDay.AsWrittenCounterexample | CategoryByDay.UnknownLocationUsesDevice |
