# Africa risk map: district and country helpers in Dafny

This project models the decision logic of the browser script of a risk map of Africa,
`static/js/map.js`. The map shows country polygons coloured by a risk metric. When a
country is chosen, the map loads that country's district file, draws the districts and
lists them in a side panel. The panel can be searched and sorted, and a district can be
selected.

The model covers:
- **Colour ramp.** `getColor` maps a label to a colour. `getColorNumeric` buckets a
  number at 20/40/60/80. `getFillColor` chooses between the two.
- **Metric resolver.** `getMetricValue` finds a named metric, trying per-sector, flat and
  sector-suffixed fields in that order.
- **District fallback chains.** `getDistrictName`, `getDistrictId`, `getDistrictScore`,
  `getDistrictRawValue` and `getDistrictRisk`. `safeNum` is part of this.
- **Risk rank.** `riskOrder` ranks a label by substring tests.
- **Polygon style.** `styleDistrictPolygon`.
- **Slug and URL.** The country slug and the district-file URL (`slugifyCountry`,
  `getDistrictsUrl`).
- **Dropdown options.** The collection loops behind the country and sector dropdowns
  (`getUniqueCountries`, `getUniqueSectors`).
- **Country filter** of `applyFilters`.
- **District panel.** Search, then sort, as in `getFilteredDistrictFeatures`.
- **Page state.** The `state` record; `rawDistrictsGeoJSON`, `districtLayer`,
  `selectedDistrictId` and the `districtLayerIndex` map; and the handlers that change them:
  - the dropdown change handlers;
  - `onEachDistrictFeature`, `clearDistricts`, `loadDistrictsForCountry` and
    `selectDistrict`;
  - `applyFilters`;
  - the initial load.

## Modules

- **Property values.**
  - `JsValue` gives JavaScript values as a datatype, with truthiness, `??`, property
    reads, `String(v)`, `Number(v)` and `safeNum`.
  - `JsString` gives `trim`, `toLowerCase`, `includes` and decimal integers.
- **Metrics and colours.**
  - `Metrics` is `getMetricValue`.
  - `Colors` is the colour ramp, with colours as a five-valued datatype.
- **Risk and districts.**
  - `Risk` is `riskOrder`.
  - `Districts` holds the district helpers and `styleDistrictPolygon`.
- **Slugs.** `Slug` is the slug pipeline and the district URL.
- **Collections and sorting.**
  - `Seqs` is `Array.prototype.filter`.
  - `Sorting` is a stable sort by keys (specified by `ISort`), an in-place insertion sort
    on an array that implements it, and string comparison in code-point order.
- **Panel and catalogue.**
  - `Panel` is `getFilteredDistrictFeatures`.
  - `Catalog` holds the country filter, `getUniqueCountries` and `getUniqueSectors`.
- **Page.** `MapApp` holds the page state as the class `MapPage`, and its handlers.

**Data and sorting.**
- Numbers are integers.
- A district layer is represented by its feature.
- A district file is looked up in a map from URL to file contents; a missing URL is a
  failed fetch.
- Each comparator of the panel sort is matched by a sort key. `Panel.CompareIsKeyOrder`
  proves that the comparator puts `a` before or level with `b` exactly when `a`'s key is
  at most `b`'s.
- So the stable sort of `Sorting` is `Array.prototype.sort` with that comparator, and
  `Panel.FilterSort` states the result in comparator terms.

**Two defects.** Verifying the natural contracts found two defects in the script, listed
under "## Findings".
- Each defect is modelled both ways. An `...AsWritten` member behaves as the code does,
  and a lemma shows the discrepancy.
- The rest of the model (the panel sort, the risk labels, the polygon style) uses the
  corrected definitions, `JsValue.SafeNum` and `Risk.RiskOrder`.

## Model

| member | source | states |
|---|---|---|
| JsValue.Field | static/js/map.js:48-58 | A property read yields the field of an object and `undefined` for a missing field or a non-object. |
| JsValue.Or | static/js/map.js:287 | `a \|\| b` is `a` when `a` is truthy, `b` otherwise. |
| JsValue.Coalesce | static/js/map.js:298 | `a ?? b` is `a` unless `a` is `null` or `undefined`. |
| JsValue.FirstTruthy | static/js/map.js:286-294 | A chain of `\|\|` is the first truthy candidate, or the default when every candidate is falsy. |
| JsValue.FirstTruthyIgnoresDefault | static/js/map.js:290-294 | Once some candidate is truthy, the default of an `\|\|` chain is never reached, and the result is truthy. |
| JsValue.FirstPresent | static/js/map.js:306-308 | A chain of `??` is the first candidate that is neither `null` nor `undefined`, or the default. |
| JsValue.ToStr | static/js/map.js:291-293 | `String(v)` of a string is the string itself, and of a number its decimal text. |
| JsValue.ToNumber | static/js/map.js:231-232 | `Number(v)` is no number for `undefined`, 0 for `null`, the number itself for a number, and the parsed decimal text for a string. |
| JsValue.SafeNumAsWritten | static/js/map.js:231-234 | As written, `safeNum` agrees with the corrected one on every value except `null`, which it reads as 0. |
| JsValue.SafeNum | static/js/map.js:231-234 | Corrected `safeNum`: no number for `null` and `undefined`, the number for a number, the parsed value for a string. |
| JsValue.SafeNumOfScore | static/js/map.js:231-234 | The corrected `safeNum` returns a score unchanged, and a missing score stays missing. As written, a missing (`null`) score becomes 0. |
| JsValue.NumberOfStringOfNumber | static/js/map.js:231-234 | `Number(String(n))` is `n`, so a numeric string is a finite number with the same value. |
| JsString.TrimSpec | static/js/map.js:179-180 | `trim()` yields a slice of the input that neither starts nor ends with white space, and removes only white space. |
| JsString.Trim | static/js/map.js:180 | `trim()` never lengthens the string; `TrimSpec` states which characters it removes. |
| JsString.ToLower | static/js/map.js:181 | `toLowerCase()` keeps the length and leaves no upper-case ASCII letter. |
| JsString.ToLowerInPlace | static/js/map.js:181 | `toLowerCase()` works in place: each upper-case ASCII letter becomes its lower-case letter at the same index, and every other character is kept. |
| JsString.IncludesAt | static/js/map.js:455 | `s.includes(q)` holds exactly when `q` occurs at some offset of `s`. |
| JsString.IntToStringRoundTrip | static/js/map.js:290-294 | The decimal text of an integer parses back to the integer; so `String` of a numeric id is a faithful key. |
| JsString.IntToStringInjective | static/js/map.js:350 | Different numeric ids give different `String(id)` keys. |
| Metrics.GetMetricValue | static/js/map.js:46-64 | `getMetricValue` returns null for falsy properties. A chosen sector's nested value wins. Otherwise a present flat value wins, even over the suffixed one. With no sector (or `"__all__"`), only the flat field is consulted. The suffixed field is used only when both earlier ones are absent. The result is never `undefined`. |
| Metrics.MetricValueIsFirstPresent | static/js/map.js:46-64 | The resolver returns the first present value of the strategies in priority order (nested, flat, suffixed; flat alone without a sector), else null. |
| Colors.GetColor | static/js/map.js:24-32 | Each canonical label, after trimming, gets its own colour ("Very High", "High", "Medium", "Low"). Every other input gets `#1a9850`. The ensures are iff, for each colour. |
| Colors.HexInjective | static/js/map.js:24-32 | The five colours are five different hex strings. |
| Colors.MissingLabelColor | static/js/map.js:24-32 | A `null` or `undefined` label is drawn `#1a9850`, like the legend's "Very Low / Unknown". |
| Colors.LegendColors | static/js/map.js:143-155 | The legend's five grades get the five colours of the ramp, in order. |
| Colors.ColorOfScore | static/js/map.js:66-75 | The numeric ramp is at least the k-th colour exactly when the number is at least 20·k, with inclusive lower bounds at 20/40/60/80. |
| Colors.ColorOfScoreMonotone | static/js/map.js:66-75 | The numeric ramp is monotone in the number. |
| Colors.GetColorNumeric | static/js/map.js:66-75 | Non-finite input gets `#1a9850`; a finite number gets the ramp's colour. |
| Colors.FillColor | static/js/map.js:77-82 | The `risk_level` metric uses the label ramp on the resolved label. Any other metric uses the numeric ramp on the resolved value. |
| Colors.FillColorOfMissingMetric | static/js/map.js:77-82 | A country without a value for a numeric metric is drawn in the least severe colour. |
| Slug.ReplaceAmp | static/js/map.js:182 | After `&` to `and` no `&` is left, and a string without `&` is unchanged. |
| Slug.ReplaceAmpConcat | static/js/map.js:182 | The replacement works piece by piece: replacing in `a + b` is replacing in `a`, then in `b`. |
| Slug.ReplaceAmpAt | static/js/map.js:182 | Each `&` becomes `and` and every other character is kept, in order, whatever surrounds it. |
| Slug.CollapseRuns | static/js/map.js:183 | Replacing runs outside `[a-z0-9]` by `_` leaves only `[a-z0-9_]` and never two `_` in a row. |
| Slug.CollapseRunsKeepsSlugChars | static/js/map.js:183 | The characters of the result other than `_` are exactly the `[a-z0-9]` characters of the input, in order. |
| Slug.CollapseRunsOfSlugChar | static/js/map.js:183 | A leading `[a-z0-9]` character is kept, and the rest is collapsed on its own. |
| Slug.CollapseRunsOfRun | static/js/map.js:183 | A maximal leading run of one or more characters outside `[a-z0-9]` becomes a single `_`. |
| Slug.DropLeadingUnderscores | static/js/map.js:184 | Removing `^_+` leaves a suffix of the input that does not start with `_`; only `_` is removed, an input not starting with `_` is unchanged, and the slug alphabet and the absence of `__` are kept. |
| Slug.DropTrailingUnderscores | static/js/map.js:184 | Removing `_+$` leaves a prefix of the input that does not end with `_`; only `_` is removed, an input not ending with `_` is unchanged, and the slug alphabet and the absence of `__` are kept. |
| Slug.Slugify | static/js/map.js:178-185 | A slug contains only `[a-z0-9_]`, never two `_` in a row, and no `_` at either end. |
| Slug.SlugifyKeepsSlugChars | static/js/map.js:178-185 | The slug keeps the letters and digits of the trimmed, lower-cased name (with `&` spelled `and`), in order: its characters other than `_` are exactly those. |
| Slug.SlugifyKeepsSlug | static/js/map.js:178-185 | Every string with those three properties is its own slug. |
| Slug.SlugifyIdempotent | static/js/map.js:178-185 | Slugifying a slug gives the same slug. |
| Slug.DistrictsUrl | static/js/map.js:188-192 | The district URL starts with `/data/`, ends with `_districts.geojson`, and its length leaves exactly the slug's length between them. |
| Slug.DistrictsUrlShape | static/js/map.js:188-192 | The district URL is `/data/` + slug + `_districts.geojson`, and the slug can be read back from it. |
| Slug.DistrictsUrlSameFile | static/js/map.js:188-192 | Two countries get the same district URL exactly when they have the same slug. |
| Risk.KeyRankAsWrittenNeverFive | static/js/map.js:241-249 | As written, the rank is never 5. It is 0 exactly when none of "low", "medium", "high" occurs in the key. |
| Risk.RiskOrderAsWritten | static/js/map.js:241-249 | As written, `riskOrder` is a rank from 0 to 5, and it is 0 exactly when the trimmed, lower-cased label contains none of "low", "medium" and "high". |
| Risk.RiskOrder | static/js/map.js:241-249 | (corrected) The rank is from 0 to 5, 0 exactly when no severity word occurs, and equal to the as-written rank on every label not containing "very high". |
| Risk.RiskOrderAsWrittenNeverFive | static/js/map.js:241-249 | As written, `riskOrder` never returns 5 for any value. |
| Risk.KeyRankAgreesBelowVeryHigh | static/js/map.js:241-249 | The corrected rank is 0 exactly when no severity word occurs. It agrees with the as-written rank on every key that does not contain "very high". |
| Risk.RiskOrderOfLowerLabels | static/js/map.js:241-244 | "Very Low", "Low" and "Medium" rank 1, 2 and 3. |
| Risk.RiskOrderOfHighLabel | static/js/map.js:241-246 | "High" ranks 4, corrected or as written. |
| Risk.RiskOrderOfVeryHighLabel | static/js/map.js:241-247 | "Very High" (also "VERY HIGH") ranks 5 when corrected. As written it ranks 4, tied with "High". |
| Districts.Features | static/js/map.js:445 | `features \|\| []`: the features, or none when missing. |
| Districts.Props | static/js/map.js:446 | `properties \|\| {}` is always truthy, and is the properties when they are truthy. |
| Districts.DistrictName | static/js/map.js:286-288 | The name is the first truthy of district, district_name, name, ADM2_EN and ADM2_NAME, else "Unknown". It is never falsy. |
| Districts.DistrictId | static/js/map.js:290-294 | `String` of the first truthy of id, district_id, ADM2_PCODE, ADM2_CODE and the fallback name. When all are falsy it is the random text. |
| Districts.IdOf | static/js/map.js:290-294 | With the district's own name as fallback, the id does not depend on the random value. |
| Districts.IdOfExplicit | static/js/map.js:290-294 | A truthy `id` property is the district's id. |
| Districts.DirectScore | static/js/map.js:298 | The direct score is scaled_score, else score, else scaledScore, passing over `null` and `undefined`. |
| Districts.DistrictScore | static/js/map.js:296-304 | (corrected) A finite direct score wins. Otherwise the current metric's value is used if it is a finite number. A district with neither has no score. |
| Districts.MissingScoreAsWritten | static/js/map.js:296-304 | As written, a district with empty properties scores 0; corrected, it has no score. |
| Districts.DistrictScoreAsWritten | static/js/map.js:296-304 | As written, the score agrees with the corrected one whenever neither the direct score nor the metric value is `null`. A `null` metric value always gives a score. |
| Districts.DistrictRawValue | static/js/map.js:306-308 | The raw value is the first present of raw_value, rawValue and value, else null. |
| Districts.RiskOfScore | static/js/map.js:317-322 | A derived label is one of the five canonical labels. It has the numeric ramp's colour for the same score, and its rank is one above that colour's position on the ramp. |
| Districts.DistrictRisk | static/js/map.js:310-323 | (corrected) A truthy explicit risk_level or riskLevel wins. Otherwise "Unknown" appears exactly when there is no score, and a scored district gets the label its score's thresholds derive, which has its score's colour and rank. The result is never falsy. |
| Districts.UnknownUnreachableAsWritten | static/js/map.js:310-323 | As written, "Unknown" is never derived, and a district without a score is labelled "Very Low". |
| Districts.DistrictRiskAsWritten | static/js/map.js:310-323 | As written, the label agrees with the corrected one whenever a score is present. |
| Districts.StyleDistrictPolygon | static/js/map.js:325-339 | Selected: outline `#2563eb`, weight 3, opacity 0.85; otherwise `#6b7280`, 1.1, 0.65. A numeric metric fills by the score's colour, or `#1a9850` when there is no score. (corrected) Under `risk_level`, a truthy explicit label fills by `getColor` of that label; without one, a scored district fills by its score's colour and a district without a score by `#1a9850`. |
| Seqs.Filter | static/js/map.js:455 | `filter` keeps, in order, the elements that pass the test, each as often as before. |
| Sorting.ISortOrderedPermutation | static/js/map.js:457-467 | The stable sort by keys is sorted and a permutation of its input. |
| Sorting.SortInPlace | static/js/map.js:457 | The in-place sort leaves the array holding the stable sort of its old contents. |
| Sorting.ISortStable | static/js/map.js:457-467 | The sort is stable: the elements sharing any one key come out in their input order. |
| Sorting.CompareStringsOrder | static/js/map.js:458 | String comparison is at most 0 exactly when the code points are in lexicographic order. It is 0 only on equal strings, and it is antisymmetric. |
| Panel.BuildRow | static/js/map.js:445-453 | A row holds the feature, its properties, and the district's id, name, score, raw value and risk label. |
| Panel.AllRows | static/js/map.js:445-453 | One row per loaded feature, in file order. |
| Panel.SortMode | static/js/map.js:443 | An empty dropdown value means `name_asc`; each of the five values selects its mode. |
| Panel.SubSign | static/js/map.js:460-461 | The sign of a difference: for two scores it is negative exactly when the first is smaller and positive exactly when it is larger. `-Infinity` against anything else is negative, `Infinity` positive, and the reverse when they are subtracted. Equal arguments give 0 (the difference of two equal infinities, NaN, counts as 0). |
| Panel.ComparatorOfMode | static/js/map.js:457-466 | Each sort mode selects the comparator of its own branch, and any other value selects the comparator that returns 0 for every pair. |
| Panel.Compare | static/js/map.js:457-467 | (corrected) The comparator ties a row with itself under every mode, and ties every pair under an unrecognised mode. |
| Panel.CompareAntisymmetric | static/js/map.js:457-467 | (corrected) Swapping the two rows negates the comparator's result, in every mode. |
| Panel.CompareAsWritten | static/js/map.js:457-467 | As written, the comparator agrees with the corrected one in `name_asc` and unrecognised modes, and in the score modes when both rows have a score. |
| Panel.ScoreExtAsWrittenIsFinite | static/js/map.js:460-461 | As written, `safeNum(score)` is never `null`, so the `-Infinity`/`Infinity` sentinels are never used: a missing score sorts as 0. |
| Panel.MissingScoreOrderAsWritten | static/js/map.js:460-461 | Take a district with no score against one scoring 50. As written it sorts before it in `score_asc` and after it in `score_desc`, so it is not last in ascending order. Corrected, it comes last in both. |
| Panel.CompareIsKeyOrder | static/js/map.js:457-467 | For every mode, the comparator is at most 0 exactly when the first row's sort key is at most the second's. |
| Panel.CompareAsWrittenIsKeyOrder | static/js/map.js:457-467 | As written, for every mode, the comparator is at most 0 exactly when the first row's as-written key is at most the second's. A missing score has key 0, and the risk key is the as-written rank. |
| Panel.VeryHighTiesHighAsWritten | static/js/map.js:463-464 | As written, a "Very High" row and a "High" row both rank 4, have the same key and compare 0 under `risk_desc` and `risk_asc`. |
| Panel.FilterSort | static/js/map.js:455-467 | (corrected) The result holds exactly the rows whose lower-cased name contains the query, each as often as in the input, in comparator order. |
| Panel.FilteredDistricts | static/js/map.js:441-470 | (corrected) The panel's rows are exactly the loaded rows matching the trimmed, lower-cased search, in the order of the chosen mode. |
| Panel.GetFilteredDistrictFeatures | static/js/map.js:441-470 | (corrected) The method (build, filter, sort in place) returns exactly the rows `FilteredDistricts` describes. |
| Panel.SortRows | static/js/map.js:457-467 | Sorting the filtered rows in place yields their stable sort by the mode's key. |
| Panel.BlankSearchIsEmptyQuery | static/js/map.js:442 | A search box holding only white space gives the empty query. |
| Panel.EmptyQueryKeepsAll | static/js/map.js:455 | The empty query keeps every row; the result is a permutation of all rows. |
| Panel.ScoreDescOrder | static/js/map.js:460 | (corrected) In `score_desc` order, present scores do not increase and missing scores come last. |
| Panel.ScoreAscOrder | static/js/map.js:461 | (corrected) In `score_asc` order, present scores do not decrease and missing scores come last. |
| Panel.RiskDescOrder | static/js/map.js:463 | (corrected) In `risk_desc` order, risk ranks do not increase. |
| Panel.RiskAscOrder | static/js/map.js:464 | (corrected) In `risk_asc` order, risk ranks do not decrease. |
| Panel.NameAscOrder | static/js/map.js:458 | In `name_asc` order, names are in code-point order. |
| Panel.FilterSortStable | static/js/map.js:457-467 | Matching rows that the comparator ties (equal sort keys) stay in file order, as `Array.prototype.sort` is stable. |
| Panel.FilterSortAsWritten | static/js/map.js:455-467 | As written, the result holds exactly the rows whose lower-cased name contains the query, each as often as in the input, in the order of the as-written comparator. |
| Panel.FilterSortAsWrittenStable | static/js/map.js:457-467 | As written, matching rows that the as-written comparator ties stay in file order, so "Very High" and "High" rows stay interleaved as in the file. |
| Panel.UnknownModeKeepsOrder | static/js/map.js:466 | An unrecognised sort value keeps the matching rows in file order. |
| Catalog.CountryFilter | static/js/map.js:611-614 | `"__all__"` keeps every feature. Any other country keeps, in order, exactly the features whose `String(name)` is the country, each as often as before. |
| Catalog.AddToSet | static/js/map.js:215 | `set.add(x)` keeps the values distinct and adds `x` to them. |
| Catalog.SortedFromSet | static/js/map.js:217 | `Array.from(set).sort()` gives the same values in strictly increasing code-point order. |
| Catalog.GetUniqueCountries | static/js/map.js:211-218 | The countries come out sorted and duplicate-free; they are exactly the collected names. |
| Catalog.CountryNamesMembers | static/js/map.js:211-218 | A name is collected exactly when it is `String` of some feature's truthy name. |
| Catalog.AddTruthy | static/js/map.js:225 | A `sectors` array adds exactly its truthy entries, as strings. |
| Catalog.AddKeys | static/js/map.js:226 | A `metrics` object adds its keys, and an array its indices. |
| Catalog.AddFeatureSectors | static/js/map.js:222-226 | One feature adds its truthy `sector`, the truthy entries of `sectors`, and the keys of `metrics`. |
| Catalog.GetUniqueSectors | static/js/map.js:220-229 | The sectors come out sorted and duplicate-free, and are exactly the collected ones. |
| Catalog.SectorNamesMembers | static/js/map.js:220-229 | A sector is collected exactly when some feature contributes it. |
| MapApp.BuildIndex | static/js/map.js:341-350 | Indexing features in order files each feature under its id: one entry per id, holding a feature with that id. |
| MapApp.BuildIndexLastWins | static/js/map.js:350 | When two features share an id, the later one replaces the earlier in the index. |
| MapApp.SelectingHighlights | static/js/map.js:331 | Selecting a district's id highlights it unless the id is empty; no selection highlights nothing. |
| MapApp.DistrictFile | static/js/map.js:386-395 | No file is loaded for an empty or `"__all__"` country, or when the URL has no file; otherwise the file at the country's URL is loaded. |
| MapApp.SameSlugSameDistricts | static/js/map.js:188-192 | Two countries with the same slug load the same districts. |
| MapApp.MapPage.constructor | static/js/map.js:34-39 | The page starts with country and sector `"__all__"`, metric `risk_level`, nothing loaded, no selection and an empty index. |
| MapApp.MapPage.SetCountry | static/js/map.js:640 | The country dropdown sets `state.country` and nothing else. |
| MapApp.MapPage.SetSector | static/js/map.js:641 | The sector dropdown sets `state.sector` and nothing else. |
| MapApp.MapPage.SetMetric | static/js/map.js:642 | The metric dropdown sets `state.metric` and nothing else. |
| MapApp.MapPage.ClearDistricts | static/js/map.js:365-384 | Clearing forgets the districts, the layer and the selection, empties the index and hides the panel. |
| MapApp.MapPage.OnEachDistrictFeature | static/js/map.js:341-350 | Indexing a feature files it under its id and keeps every entry under its own feature's id. |
| MapApp.MapPage.LoadDistrictsForCountry | static/js/map.js:386-413 | With no country or no file, it clears. Otherwise it stores the file and draws and indexes its features, with no selection and the panel shown. Either way, no district is selected and the index is consistent. |
| MapApp.MapPage.ShowDistricts | static/js/map.js:395-408 | The success path stores the file, builds a fresh index over its features, clears the selection and shows the panel. |
| MapApp.MapPage.IndexDistricts | static/js/map.js:400-406 | Running the index update on every feature over a cleared index yields `BuildIndex` of the features. |
| MapApp.MapPage.SelectDistrict | static/js/map.js:415-434 | The selection becomes `id`, and exactly the districts with that id are highlighted. The zoom target is the indexed layer when zooming and indexed, and it carries the id. |
| MapApp.MapPage.DistrictStyle | static/js/map.js:325-339 | A district is drawn with the selected outline exactly when it is selected. |
| MapApp.MapPage.DistrictPanelRows | static/js/map.js:472-482 | With districts loaded, the panel shows `FilteredDistricts` under the current state. |
| MapApp.MapPage.ApplyFilters | static/js/map.js:605-622 | Nothing happens before the countries file is loaded. Afterwards the country layer shows the filtered countries and the districts are as `loadDistrictsForCountry` leaves them: with no file for the country they are cleared; otherwise the country's file is stored, drawn and indexed, with no selection and the panel shown. |
| MapApp.MapPage.InitialLoad | static/js/map.js:661-669 | On success the countries file is stored, the dropdowns hold the sorted unique countries and sectors, the country layer shows the filtered countries, and the districts are as `loadDistrictsForCountry` leaves them for the current country. On failure nothing changes. |

## Left out

**The map library and the page.**
- Leaflet and GoogleMutant calls are foreign library code that the model cannot see: map
  creation, tiles, `L.geoJSON` drawing, `fitBounds`, popups, layer add and remove, and
  `fitToLayerOrAfrica`'s bounds logic. A district layer is represented by its feature.
  Leaflet's skipping of features without geometry is not modelled.
- The DOM and the HTML are not modelled. This covers popup markup and the expand toggle,
  the district cards of `renderDistrictPanel`, `buildSelectOptions` markup, the score
  modal, the legend's HTML, CSS injection and `scrollToDistrictCard`.
- Network fetches and the promise flow are replaced by a parameter: `loadGeoJSON` becomes
  a map from URL to file. Only the state effects of success and failure are modelled. The
  race between two overlapping `loadDistrictsForCountry` calls is not modelled.
- `app.py` is not part of this model. It is server routing and static file serving.

**Numbers and strings.**
- Numbers are unbounded integers. Fractions, IEEE rounding, NaN and the infinities of
  `Number()` are not modelled. A non-finite result of `Number()` is "no number". Numeric
  strings are decimal integers with an optional sign; other numeric syntax parses as
  non-finite.
- `toFixed`, `toLocaleString` and `fmtInt` are display formatting only.
- `JsString.ToLower`: the contract covers ASCII letters only. Other characters are left
  unchanged, so the Unicode case mapping of `toLowerCase` is not modelled.
- `Sorting.CompareStrings` stands in for `localeCompare` as code-point order. Locale
  collation is not modelled.
- `Sorting.Codes`: strings are compared by Unicode code point, whereas `<` and the default
  `Array.prototype.sort` (map.js lines 217 and 228) compare UTF-16 code units. The two
  orders differ only between characters above U+FFFF and characters in U+E000-U+FFFF.

**Property values.**
- `JsValue.Field`: reading a property of a non-object gives `undefined`. So string
  `length` and array indices, as in `metrics[sector]` on an array, are not modelled.
- `Panel.Matches`: the source calls `name.toLowerCase()`, which throws when a district's
  name is not a string. The model searches `String(name)` instead. In the source that
  throw happens inside `renderDistrictPanel`, called within `loadDistrictsForCountry`'s
  `try` (line 408), so its `catch` clears the districts; the model shows them.
- `Districts.DistrictId`: the random fallback is a parameter holding the text of
  `Math.random()`. `IdOf` proves it is unreachable when the district's own name is the
  fallback.

**The corrected helpers.**
- `Districts.DistrictScore`: states the corrected `getDistrictScore`. As written (lines
  231-234 and 296-304), `safeNum(null)` is 0, so a district with no score and no metric
  value scores 0 instead of having no score; `Districts.DistrictScoreAsWritten` models that.
- `Districts.DistrictRisk`: states the corrected `getDistrictRisk`. As written, the score it
  receives is never missing, so "Unknown" is never derived and a district without a score is
  "Very Low"; `Districts.DistrictRiskAsWritten` models that. The polygon fill and the panel
  rows, sort and search (`Districts.StyleDistrictPolygon`, `Panel.FilterSort` and the rows
  marked "(corrected)") build on these corrected helpers.
- `Panel.Compare`: the panel sort and the derived risk labels use the corrected `safeNum`
  and `riskOrder` (see "## Findings"). The as-written sort, `Panel.FilterSortAsWritten`, is
  proved ordered, a permutation and stable for the as-written comparator. It still sorts
  rows built by the corrected `Districts.DistrictScore` and `Districts.DistrictRisk`, so a
  row built entirely as written is not modelled.

## Findings

| source | as written | input that shows it | evidently intended | confidence | as-written member | corrected member |
|---|---|---|---|---|---|---|
| static/js/map.js:231-234 | `safeNum(null)` is `Number(null)`, which is 0, so a missing metric value becomes score 0. Follow-on effects: "Unknown" (line 316) is unreachable, a score-less district is labelled "Very Low", and the ±Infinity sentinels (lines 460-461) are unused. | `getDistrictScore({})` under any metric with no value returns 0. Against a district scoring 50, that row sorts first under `score_asc`. | A missing value (`null` or `undefined`) gives no score, so the district is "Unknown" and sorts last in both score orders. | high; not executed | `Districts.MissingScoreAsWritten`, `Districts.UnknownUnreachableAsWritten`, `Panel.MissingScoreOrderAsWritten` | `JsValue.SafeNum`, with `Districts.DistrictRisk`, `Panel.ScoreAscOrder` and `Panel.ScoreDescOrder` |
| static/js/map.js:246-247 | `riskOrder` tests `includes("high")` before `includes("very high")`, so the rank-5 branch is unreachable. | `riskOrder("Very High")` returns 4, the same as `riskOrder("High")`, so the two tie under `risk_desc`. | Test "very high" before "high", so that "Very High" ranks 5, above "High". | high; not executed | `Risk.RiskOrderAsWrittenNeverFive`, `Risk.RiskOrderOfVeryHighLabel`, `Panel.VeryHighTiesHighAsWritten` | `Risk.RiskOrder`, with `Risk.RiskOrderOfVeryHighLabel` and `Risk.KeyRankAgreesBelowVeryHigh` |
