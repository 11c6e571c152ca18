# Flood-risk map: the data join, in Dafny

This project models the logic behind a web page that colours the
municipalities of Metro Manila by flood risk. The page is `js/map.js`. It
loads a boundary file with one polygon per municipality and a CSV table with
one record per city and one `<year>_risk` column per year. It then joins the
two on a normalised city name. The model covers:

- **Colour policy** (`RiskStyle`). `getColor` maps `Low`, `Moderate`, `High`
  and `Very High` to green, yellow, red and dark violet; everything else
  becomes light grey. `style` wraps that colour with a fixed stroke and
  opacity.
- **Name normaliser** (`CityName`, over the string built-ins in `JsText`).
  An absent or empty name gives the empty key. Otherwise carriage returns are
  deleted, no-break spaces become spaces, the ends are trimmed, the name is
  lower-cased and one leading `city of ` is dropped.
- **CSV reader** (`CsvTable`). The text is split on line feeds and blank lines
  are dropped. The first line gives the trimmed headers. Every later line
  becomes a record that pairs its trimmed comma-separated fields with the
  headers by position. There is no quoting.
- **Lookup builder** (`RiskLookup`). For the column `year + "_risk"`, every
  record with a non-empty `city` and a non-empty value files the trimmed
  value under the normalised city. Any casing of `very high` becomes
  `Very High`, and later records overwrite earlier ones.
- **Page state** (`MapBinding`). The class `MapView` holds the drawn layer
  (an array of polygons, each a feature and the style it was last given) and
  the parsed table. Both are absent until the data has loaded. `Load`
  stores the table, tags every feature `Unknown` and draws it. `ShowBaseMap`
  greys every polygon in place. `UpdateMap` builds the year's lookup and
  recolours every polygon in place. Both do nothing until the data they need
  is there.

Each loop the source writes out with a body of its own is a method. Each
method is proved against a function that specifies it:

- `BuildRow` is the `forEach` that fills a record.
- `BuildRows` is the `map` over the data lines.
- `BuildLookup` is the `forEach` that fills the lookup.
- `TagUnknown` is the initial tagging.
- `UpdateEach` is Leaflet's `eachLayer` with a callback that rewrites each
  polygon.

The `filter` of blank lines and the `map(... trim())` calls compute values
and nothing else, so they stay functions. They are `KeepNonBlank`, an instance
of the generic `JsArray.Filter`, and `TrimAll`.

The properties of those functions are then proved as lemmas:

- the colour policy is total;
- keys have a fixed shape;
- the spellings the two data sets use join;
- the table has one record per data line, holding the headers as keys;
- the lookup holds exactly the usable records, and the last one wins;
- the level stored is the canonical one;
- a feature is coloured from its own name only;
- reset undoes any colouring, and one year's colouring forgets the previous one.

Edge cases, as the code handles them:

- The reader reads `rows[0]` unguarded, so a text with no non-blank line
  makes it throw, and the load handler ends in its `catch` before anything
  is stored. The model returns
  `Failed(NoHeaderLine)`, and `Load` then leaves the page as it was.
- When a header appears twice, the assignment for its last position wins.
- `riskLookup[city] || 'Unknown'` treats an empty stored level as missing.
  The model keeps that test. `TrimmedRowsStoreLevels` shows that a table the
  reader produced never stores an empty level.
- An empty table still counts as loaded, because an empty array is truthy in
  JavaScript.

## Model

| member | source | states |
|---|---|---|
| RiskStyle.GetColor | js/map.js:15-23 | the colour is one of the five palette colours; it is light grey exactly when the level is none of the four rated ones; the four levels give green, yellow, red and dark violet |
| RiskStyle.LevelOfInvertsColor | js/map.js:15-23 | the colour of a rated level gives that level back; an unrated level's colour gives no level |
| RiskStyle.RatedColorsDistinct | js/map.js:15-23 | two rated levels share a colour only when they are the same level |
| RiskStyle.Style | js/map.js:25-32 | the fill colour is the colour of the feature's `risk_level`; weight 1, black stroke, fill opacity 0.6 |
| RiskStyle.StyleDependsOnLevelOnly | js/map.js:25-32 | two features get the same style exactly when their levels have the same colour |
| JsText.TrimStart | js/map.js:42 | what is left is a suffix of the input and does not start with whitespace |
| JsText.IsJsSpace | js/map.js:42 | the characters `trim` removes, ECMAScript WhiteSpace and LineTerminator; what `Trim`, `TrimDropsSpaces` and `TrimEmpty` say about whitespace is said about this set |
| JsText.TrimStartDropsSpaces | js/map.js:42 | everything dropped at the front is whitespace |
| JsText.TrimEnd | js/map.js:42 | what is left is a prefix of the input and does not end with whitespace |
| JsText.TrimEndDropsSpaces | js/map.js:42 | everything dropped at the end is whitespace |
| JsText.Trim | js/map.js:42 | the result has no whitespace at either end and is a contiguous slice of the input |
| JsText.TrimDropsSpaces | js/map.js:42 | everything before and after the slice that `trim` keeps is whitespace |
| JsText.TrimKeepsChars | js/map.js:42 | every character of the trimmed text occurs in the input |
| JsText.TrimFixed | js/map.js:42 | a string without surrounding whitespace is its own trim |
| JsText.TrimIdempotent | js/map.js:42 | trimming twice is trimming once |
| JsText.TrimEmpty | js/map.js:64 | a line trims to the empty string exactly when all its characters are whitespace |
| JsText.LowerChar | js/map.js:43 | an ASCII capital becomes its small letter; every other character is kept; the result is never a capital |
| JsText.ToLower | js/map.js:43 | same length; each position is the lower-cased character |
| JsText.LowerConcat | js/map.js:43 | lower-casing distributes over concatenation |
| JsText.LowerFixed | js/map.js:43 | a string without capitals is its own lower-case form |
| JsText.RemoveChar | js/map.js:40 | the deleted character no longer occurs |
| JsText.RemoveCharCounts | js/map.js:40 | every other character is kept, as often as it occurred |
| JsText.RemoveCharConcat | js/map.js:40 | deleting works piece by piece, so the kept characters stay in their order |
| JsText.RemoveAbsent | js/map.js:40 | deleting a character that does not occur changes nothing |
| JsText.ReplaceChar | js/map.js:41 | same length; each occurrence becomes the replacement, every other position is kept |
| JsText.ReplaceAbsent | js/map.js:41 | replacing a character that does not occur changes nothing |
| JsText.Split | js/map.js:64-65 | a split always has at least one piece |
| JsText.SplitPiecesFree | js/map.js:64-65 | no piece holds the separator |
| JsText.JoinSplit | js/map.js:64-65 | joining the pieces with the separator gives back the text |
| JsText.SplitPrefix | js/map.js:64-65 | text free of the separator put in front is glued onto the first piece |
| JsText.SplitJoin | js/map.js:64-65 | pieces free of the separator, joined and split again, are the same pieces |
| JsArray.MapSeq | js/map.js:67-72 | `map` keeps the length |
| JsArray.MapSeqAt | js/map.js:67-72 | element `i` of a `map` is the callback applied to element `i` |
| JsArray.MapSeqPointwise | js/map.js:67-72 | a sequence that agrees with the callback at every index is the `map` |
| JsArray.Filter | js/map.js:64 | `filter` never adds elements |
| JsArray.FilterAccepted | js/map.js:64 | every element kept is accepted by the test |
| JsArray.FilterMembers | js/map.js:64 | an element is kept exactly when it occurs and the test accepts it |
| JsArray.FilterWhole | js/map.js:64 | when the test accepts every element, all are kept in order |
| JsArray.FilterConcat | js/map.js:64 | filtering a concatenation is concatenating the filtered pieces, so order and repetitions are kept |
| JsArray.UpdateEach | js/map.js:95-98 | after the in-place iteration the array holds the callback applied to each old element, in order |
| CityName.StripCityOf | js/map.js:44 | one leading `city of ` is dropped when present, and nothing else changes; otherwise the text is kept |
| CityName.NormalizeCity | js/map.js:37-38 | an absent or empty name gives the empty key |
| CityName.Cleaned | js/map.js:39-43 | the carriage returns deleted, no-break spaces made spaces, the ends trimmed and the letters lower-cased, in that order; `CleanedNotEmpty` and `CleanedIgnoresCase` state what it keeps |
| CityName.NormalizeCityShape | js/map.js:37-45 | no key holds a carriage return, a no-break space or a capital, or ends in whitespace |
| CityName.CleanedNotEmpty | js/map.js:39-43 | the cleaning steps leave a non-empty, already trimmed name non-empty |
| CityName.TrimmedNameHasKey | js/map.js:37-45 | a non-empty name without surrounding whitespace never gives the empty key |
| CityName.LowerTrimCommute | js/map.js:42-43 | trimming and lower-casing commute |
| CityName.LowerIdempotent | js/map.js:43 | lower-casing twice is lower-casing once |
| CityName.CleanedIgnoresCase | js/map.js:39-43 | the cleaning steps give the same result for a name and its lower-cased form |
| CityName.NormalizeIgnoresCase | js/map.js:37-45 | a name and its lower-cased form give the same key |
| CityName.NormalizeWithoutCr | js/map.js:37-45 | for a name without carriage returns or no-break spaces, only trim, lower-case and prefix removal act |
| CityName.CleanNameIsKey | js/map.js:37-45 | a clean name is its own key |
| CityName.StripPrefixed | js/map.js:44 | exactly one leading `city of ` is removed |
| CityName.CityOfPrefixDropped | js/map.js:37-45 | `City of <name>` has the clean name as key |
| CityName.TrimPadding | js/map.js:42 | a clean name padded with one space on each side trims to the name |
| CityName.PaddingDropped | js/map.js:37-45 | a padded clean name has the clean name as key |
| CityName.SpellingsShareKey | js/map.js:37-45 | a name whose lower-cased form is clean gives that form as key, written as is, after `City of ` or padded with spaces |
| CityName.ManilaExample | js/map.js:37-45 | `City of Manila` and ` manila ` both give the key `manila` |
| CsvTable.FieldAt | js/map.js:70 | field `i` is present exactly when the line has more than `i` fields, and is then that field |
| CsvTable.Get | js/map.js:113-115 | `row[h]`: undefined both when `h` is not a key and when the key holds undefined; `Usable` and `EntryOf` read fields through it |
| CsvTable.Truthy | js/map.js:113 | JavaScript truthiness of a field: present and not the empty string, the test `row.city && row[column]` applies to each field |
| CsvTable.ZipRowKeys | js/map.js:69-70 | the record's keys are exactly the headers |
| CsvTable.ZipRow | js/map.js:69-70 | the record the `forEach` assignments leave: its keys are exactly the headers (`ZipRowKeys`), and the field under a header is the one at its last position, or undefined past the line's end (`ZipRowField`) |
| CsvTable.ZipRowField | js/map.js:69-70 | at the last position of a header, the record holds the field at that position, or undefined past the end |
| CsvTable.BuildRow | js/map.js:68-71 | the record built by assigning header by header has exactly the headers as keys and, for each header, the field at its last position |
| CsvTable.TrimAll | js/map.js:65 | same length; each element trimmed |
| CsvTable.HeadersOf | js/map.js:65 | the header line cut at every comma, each piece trimmed: one header per piece, in order (`TrimAll`, `Split`, `JoinSplit`) |
| CsvTable.RowOfLine | js/map.js:68-70 | a data line cut at every comma, each field trimmed and zipped with the headers; `TableShape` gives its keys and the field under each header |
| CsvTable.KeepNonBlank | js/map.js:64 | filtering never adds lines |
| CsvTable.IsBlank | js/map.js:64 | a line is blank when it trims to `""`; `TrimEmpty` shows that this holds exactly for all-whitespace lines |
| CsvTable.NonBlank | js/map.js:64 | the filter's test `r.trim() !== ''`; `KeepNonBlankNoBlank` and `KeepNonBlankKeeps` state what keeping its lines means |
| CsvTable.KeepNonBlankNoBlank | js/map.js:64 | no kept line is blank |
| CsvTable.KeepNonBlankKeeps | js/map.js:64 | a line is kept exactly when it is in the input and not blank |
| CsvTable.KeepNonBlankConcat | js/map.js:64 | the blank-line filter works piece by piece, so the kept lines keep their order and repetitions |
| CsvTable.KeepNonBlankWhole | js/map.js:64 | when no line is blank, filtering keeps all of them in order |
| CsvTable.NonBlankLines | js/map.js:64 | the text cut at every newline with the blank lines dropped, in order (`KeepNonBlankKeeps`, `KeepNonBlankConcat`, `JoinSplit`) |
| CsvTable.DataRows | js/map.js:67-72 | one record per data line |
| CsvTable.DataRowsAt | js/map.js:67-72 | record `i` comes from data line `i` |
| CsvTable.BuildRows | js/map.js:67-72 | the records built one by one are the records of the data lines |
| CsvTable.ParseLines | js/map.js:65-72 | no line gives the header failure; otherwise the first line gives the headers and the rest the records |
| CsvTable.TableOf | js/map.js:65-72 | no line is the `rows[0]` failure; otherwise the first line gives the headers and each later line one record, in order (`TableShape`, `DataRowsAt`) |
| CsvTable.TableOfText | js/map.js:64-72 | the table of the text's non-blank lines; `ParseCsv` computes it and `ParsedRowsTrimmed` shows every stored field trimmed |
| CsvTable.ParseCsv | js/map.js:64-72 | the reader's result is the table of the text's non-blank lines |
| CsvTable.TableShape | js/map.js:64-72 | one record per non-blank line after the header; each record's keys are the headers; the value of a header is the trimmed field at its position, or absent when the line is too short |
| CsvTable.ZipRowTrimmed | js/map.js:68-70 | a record zipped from trimmed fields holds only trimmed values |
| CsvTable.DataRowsTrimmed | js/map.js:67-72 | every record of the data lines holds only trimmed values |
| CsvTable.ParsedRowsTrimmed | js/map.js:64-72 | every record the reader produces holds only trimmed values |
| RiskLookup.VeryHighLowered | js/map.js:117 | `Very High` lower-cased is `very high` |
| RiskLookup.RiskValue | js/map.js:115-119 | the stored level has no surrounding whitespace; it is empty exactly when the field is all whitespace |
| RiskLookup.RiskValueSpelling | js/map.js:115-119 | the level differs from the trimmed field at most in case; any casing of `very high` gives `Very High`, and every other field is only trimmed |
| RiskLookup.RiskValueIdempotent | js/map.js:115-119 | a stored level read again gives the same level |
| RiskLookup.VeryHighInAnyCase | js/map.js:115-119 | any casing of `very high` is coloured dark violet |
| RiskLookup.EntryOf | js/map.js:113-121 | a record contributes an entry exactly when its city and its value are both non-empty |
| RiskLookup.Usable | js/map.js:113 | `row.city && row[column]`: both fields present and non-empty; `EntryOf` contributes exactly for these records |
| RiskLookup.CityKey | js/map.js:114 | the normalised `city` field a record is filed under; `TrimmedRowsHaveKeys` shows it is never `""` for the reader's records |
| RiskLookup.EntriesAt | js/map.js:112-123 | entry `i` comes from record `i` |
| RiskLookup.EntriesOf | js/map.js:112-122 | one possible assignment per record, in order (`EntriesAt`) |
| RiskLookup.FillKeys | js/map.js:121 | a key is filled exactly when some entry has it |
| RiskLookup.FillLastWins | js/map.js:121 | the last entry for a key determines its value |
| RiskLookup.FillValues | js/map.js:121 | every filled value is the level of some entry with that key |
| RiskLookup.Fill | js/map.js:111-121 | assignments into an empty object in order: a key is present exactly when some assignment names it (`FillKeys`), the last one decides its value (`FillLastWins`), and every value comes from an assignment (`FillValues`) |
| RiskLookup.LookupKeys | js/map.js:112-123 | a key is in the lookup exactly when some usable record normalises to it |
| RiskLookup.LookupOf | js/map.js:111-123 | the lookup the loop leaves: `LookupKeys` and `LookupLastWins` give its keys and values, `BuildLookup` computes it |
| RiskLookup.LookupLastWins | js/map.js:112-123 | the value under a key is the level of the last usable record with that key |
| RiskLookup.MissingColumnEmpty | js/map.js:107-123 | a year whose column no record has gives the empty lookup |
| RiskLookup.LookupStep | js/map.js:112-123 | one more record adds its entry to the lookup of the records before it, or changes nothing if it is not usable |
| RiskLookup.BuildLookup | js/map.js:107-123 | the lookup built record by record for `year + "_risk"` is the lookup of that column |
| RiskLookup.RiskFor | js/map.js:130 | a key holding a non-empty level reads as that level; a missing key or an empty level reads as `Unknown`; the result is never empty |
| RiskLookup.TrimmedRowsStoreLevels | js/map.js:113-121 | over records holding trimmed values, no lookup value is empty |
| RiskLookup.TrimmedRowsHaveKeys | js/map.js:113-121 | over records holding trimmed values, nothing is filed under the empty key |
| MapBinding.BaseMap | js/map.js:77-79 | tagging keeps the number of features |
| MapBinding.WithRisk | js/map.js:78 | `properties.risk_level` set, name and every other property kept; `BaseMapGrey`, `JoinedFeature` and `RetagKeepsJoin` state this for its uses at :78, :96 and :134 |
| MapBinding.Draw | js/map.js:97 | a polygon in the style of its own feature, as at :97 and :135; `RenderRoundTrip` gives the feature back |
| MapBinding.Joined | js/map.js:128-136 | recolouring keeps the number of features |
| MapBinding.JoinedAt | js/map.js:128-136 | feature `k` of the recoloured map is feature `k` tagged with the level its own name reads |
| MapBinding.JoinedRisk | js/map.js:129-130 | the level the lookup gives the feature's normalised name, or `Unknown`; `JoinedFeature`, `MatchedFeatureColor` and `UnmatchedFeatureGrey` state which |
| MapBinding.RenderRoundTrip | js/map.js:81 | drawing, as at :81 and again at :97 and :135, keeps the features and styles each one from its own level; layers that carry their own style are the drawing of their features |
| MapBinding.Drawn | js/map.js:81 | every polygon carries `style(feature)` of its own feature, as :81 draws it and :97 and :135 restyle it; `RenderRoundTrip` shows drawn layers are exactly the drawing of their features |
| MapBinding.Render | js/map.js:81 | every feature drawn in its own style, in order; `RenderRoundTrip` gives the features back and `GreyedIsRender`/`RecoloredIsRender` tie it to the in-place redraws |
| MapBinding.BaseMapGrey | js/map.js:77-79 | the base map keeps each name and other property, tags each feature `Unknown` and draws it light grey |
| MapBinding.BaseMapIdempotent | js/map.js:90-99 | resetting twice is resetting once |
| MapBinding.ResetUndoesUpdate | js/map.js:90-99 | a reset after any year's colouring gives the base map |
| MapBinding.UpdateForgetsPrevious | js/map.js:128-136 | a year's colouring is the same whatever colouring or reset came before |
| MapBinding.JoinedAfterReset | js/map.js:128-136 | colouring after a reset is colouring the features directly |
| MapBinding.RejoinedAt | js/map.js:128-136 | feature `i` coloured for one year and then another equals feature `i` coloured for the second year alone |
| MapBinding.JoinedBaseAt | js/map.js:128-136 | feature `i` of the base map, coloured for a year, equals feature `i` coloured for that year |
| MapBinding.RetagKeepsJoin | js/map.js:129-134 | changing a feature's level does not change the level its name reads |
| MapBinding.JoinedFeature | js/map.js:128-136 | after a year's colouring each feature keeps its name and other properties; its level is the non-empty level under its key, else `Unknown`; it is drawn in that level's colour |
| MapBinding.MatchedFeatureColor | js/map.js:107-136 | when the last usable record for a feature's key has a given level, the feature is drawn in that level's colour |
| MapBinding.UnmatchedFeatureGrey | js/map.js:112-136 | a feature whose key no usable record has, or with no name, is tagged `Unknown` and drawn light grey |
| MapBinding.PrefixedNameJoins | js/map.js:107-136 | for any name whose lower-cased form is clean, a polygon named `City of <name>` and one record with that name and a plain level for the year: the year's colouring tags the polygon with that level and draws it in its colour, and a reset makes it `Unknown` and grey again |
| MapBinding.PasigScenario | js/map.js:90-136 | `City of Pasig` and the record `Pasig,Low` for 2025: the polygon becomes `Low` and green, then `Unknown` and light grey after a reset |
| MapBinding.GreyedIsRender | js/map.js:95-98 | the reset callback run over every polygon draws the base map of their features |
| MapBinding.Greyed | js/map.js:95-98 | the reset callback keeps the polygon's name and other properties, tags it `Unknown` and draws it light grey in its own style |
| MapBinding.RecoloredIsRender | js/map.js:128-136 | the year callback run over every polygon draws the recoloured map of their features |
| MapBinding.Recolored | js/map.js:128-136 | the year callback: a polygon re-tagged from its own name and redrawn; `RecoloredIsRender` shows it draws the recoloured map |
| MapBinding.TagUnknown | js/map.js:77-79 | the features tagged one by one are the base map |
| MapBinding.MapView.constructor | js/map.js:50-51 | before any data has arrived there is no layer and no table, and the page is not ready |
| MapBinding.MapView.Valid | js/map.js:81 | the class invariant: when the layer exists, every polygon is `Drawn`; the constructor, `Load`, `Bind`, `ShowBaseMap` and `UpdateMap` keep it |
| MapBinding.MapView.Ready | js/map.js:102 | `geojsonLayer && csvData`: both present, an empty table counting as loaded; `UpdateMap` recolours exactly when it holds |
| MapBinding.MapView.Load | js/map.js:59-85 | the load succeeds exactly when the text has a non-blank line; on failure the page is unchanged; on success the table is stored and a new layer draws the base map of the features |
| MapBinding.MapView.Bind | js/map.js:67-81 | the table is stored and a new layer draws the base map of the features, each polygon in its own style |
| MapBinding.MapView.ShowBaseMap | js/map.js:90-99 | with no layer nothing can change; otherwise the layer, in place, becomes the drawing of the base map of its features |
| MapBinding.MapView.UpdateMap | js/map.js:101-137 | without the layer or the table the polygons are unchanged; otherwise the layer, in place, becomes the drawing of its features recoloured from the year's lookup of the stored table |
| MapBinding.MapView.Recolor | js/map.js:128-136 | the layer, in place, becomes the drawing of its features recoloured from the lookup, each polygon in its own style |

## Left out

- Map creation, the tile layer and the initial view (js/map.js:6-10) are calls into Leaflet with floating-point coordinates.
- The `fetch` calls and `Promise.all` (js/map.js:56-58) are asynchronous I/O. `Load` takes the decoded features and the CSV text as parameters. A failed download or JSON decode reaches the same `catch` as the reader's throw, and is not modelled separately.
- `console.log`, `console.warn` and `console.error` output is not modelled.
- `L.geoJSON` and `layer.setStyle` rendering: a polygon is modelled only as its feature and the style object it was last given. Geometry is not modelled. Leaflet makes no polygon for a feature whose `geometry` is null, so `eachLayer` never visits one; `Load` and `Bind` still give such a feature a polygon.
- JsText.ToLower: lower-cases the ASCII capitals only, while `toLowerCase` (js/map.js:43) lowers every script. So keys differ from the page's for names with capitals outside ASCII. For example, `LAS PIÑAS` keys to `las piÑas` in the model but to `las piñas` on the page. It therefore joins `Las Piñas` on the page but not in the model. `CityName.NormalizeIgnoresCase` states case-insensitivity over ASCII only.
- The regular expressions are modelled by what they do here: deleting one character, replacing one character, and stripping a fixed prefix. No regular-expression engine is modelled.
- The lookup and the records are plain JavaScript objects, so a key such as `constructor` or `__proto__` reads an inherited value. The model uses `map`, which has no inherited keys.
- A throw after the table is stored (js/map.js:67) leaves `csvData` set and `geojsonLayer` null. Examples are a feature without `properties` at js/map.js:78, or a geometry that `L.geoJSON` rejects at js/map.js:81. `Load` takes every feature as well-formed, so it never reaches that state. Neither button behaves differently there, because both return early without the layer (js/map.js:93, js/map.js:102).
- Feature properties other than `adm3_en` and `risk_level` are kept as one opaque map. A feature whose `adm3_en` is not a string is not modelled.
- CsvTable.TableShape: the table's shape is stated over the non-blank lines, not over the raw text. `ParseCsv` ties the text to those lines through `TableOfText`.
- JsText.Split: the pieces are stated through their round trip with `Join`, not by an index formula.
