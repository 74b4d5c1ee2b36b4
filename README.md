# CEPS: postal-code range membership and drawn-region export

This project models the two membership engines of the CEPS scripts.

- **The CEP validator** (`validador_ceps_streamlit.py`). It converts the `CEP inicial` and
  `CEP final` columns of two spreadsheets to integers. It then decides, for each row of the
  "Logradouros" sheet, whether that row's postal-code range overlaps some range of the base
  sheet, and stores the answer in a new boolean column `Pertence_F_TGT_DF`.
- **The map page of the map generator** (`ceps.py`). The Python side finds the state and
  city columns by alias, creates them when absent, renames them to `estado_filtro` and
  `cidade_filtro`, and lists their distinct values in sorted order. The JavaScript side
  (embedded in a Python f-string; doubled braces are single braces in the page) does three
  things. It shows the points whose state and city are both ticked. When the export button
  is clicked, it walks the drawn layers in order and collects a copy of every point each
  layer contains, tagged with the layer's colour under `COR_POLIGONO`. Finally it writes
  those rows as a `;`-separated CSV with a byte-order mark.

Modules:

- `Wrappers` holds `Option`.
- `Seqs` holds generic sequence helpers: `Filter`, `Map`, `FlatMap` and their lemmas.
- `Frames` models a pandas DataFrame as a class. Its labels, columns and height are updated
  in place by column assignment and renaming.
- `CepOverlap` models the validator.
- `JsRecords` models JavaScript objects as ordered key/value lists.
  A key that is absent reads as `undefined`.
- `FilterColumns` models alias resolution, the standardisation of the filter columns and
  the sorted option lists.
- `MapFilter` models the filter of `updateMap`.
- `CsvExport` models `exportToCsv` and `processRow`. It also holds a reader for the file
  they write, used to state the round trip.
- `RegionExport` models the export click handler.

Foreign routines are passed in as parameters:

- the geometry (Leaflet's `map.distance`, turf's `booleanPointInPolygon`) as a `Geometry`
  value;
- `Number.prototype.toString` as `show`;
- Python's `str.lower` as `lower`.

## Model

| member | source | states |
|---|---|---|
| CepOverlap.PertenceFTgt | validador_ceps_streamlit.py:30-34 | the answer is true exactly when some base row has `ini <= cep_fim` and `fin >= cep_ini` |
| CepOverlap.Overlaps | validador_ceps_streamlit.py:32-33 | the closed-interval test of one base row against the candidate bounds; what it means is stated by `OverlapMeansSharedCep` |
| CepOverlap.OverlapMeansSharedCep | validador_ceps_streamlit.py:32-33 | for ranges with `ini <= fin`, the closed-interval test holds exactly when some postal code lies in both ranges |
| CepOverlap.OverlapSymmetric | validador_ceps_streamlit.py:32-33 | swapping the base range and the candidate range gives the same answer |
| CepOverlap.OverlapReflexive | validador_ceps_streamlit.py:32-33 | a range with `ini <= fin` overlaps itself |
| CepOverlap.TouchingEndpoints | validador_ceps_streamlit.py:32-33 | base `[1,10]` matches candidate `[10,20]` and does not match `[11,20]` |
| CepOverlap.EmptyBase | validador_ceps_streamlit.py:34 | `.any()` over an empty base is false for every candidate |
| CepOverlap.MonotoneInBase | validador_ceps_streamlit.py:30-34 | appending rows to the base never turns a true answer into false |
| CepOverlap.InvertedCandidate | validador_ceps_streamlit.py:30-34 | an inverted candidate `[hi, lo]` is evaluated literally, without error: it matches exactly when some base range covers all of `[lo, hi]` |
| CepOverlap.Trunc | validador_ceps_streamlit.py:27-28 | float-to-integer conversion truncates toward zero: the result lies within 1 of the input, on the zero side |
| CepOverlap.AsInt | validador_ceps_streamlit.py:27-28 | a cell converts unless it is text or missing. An integer stays, a boolean gives 0 or 1, and a float is truncated toward zero (within 1 of the value, on the zero side) |
| CepOverlap.CastColumn | validador_ceps_streamlit.py:27-28 | `astype(int)` on a column succeeds exactly when every cell converts; it then keeps the length and converts cell by cell |
| CepOverlap.CastIdempotent | validador_ceps_streamlit.py:27-28 | casting a column that already holds integers changes nothing, and the stored integers read back unchanged |
| CepOverlap.CastBounds | validador_ceps_streamlit.py:26-28 | rewrites `CEP inicial` and then `CEP final` in place. It succeeds exactly when both columns exist and convert; it then stores the converted integers, and every other column is unchanged |
| CepOverlap.BelongsColumn | validador_ceps_streamlit.py:37-44 | one answer per candidate row, in row order; answer `i` is `pertence_f_tgt` of row `i` against the base |
| CepOverlap.Scenario | validador_ceps_streamlit.py:30-44 | base `[1000,1999],[5000,5999]` against candidates `[1500,1600],[2000,2100],[5999,6000]` gives `[true,false,true]` |
| CepOverlap.ProcessSheets | validador_ceps_streamlit.py:21-44 | casts both sheets, then adds `Pertence_F_TGT_DF`. It fails exactly when a cast fails. On success, each sheet's ranges are the converted `CEP inicial`/`CEP final` cells of the uploaded sheet, and the new column holds, row by row, the overlap answer of each Logradouros range against the base ranges. The base keeps its labels and every other column. In Logradouros, columns other than the bounds and the result are unchanged, and the result column is the only label added |
| Frames.Frame.Column | validador_ceps_streamlit.py:27 | `df[name]` yields a column exactly when the label exists, and that column is as long as the frame |
| Frames.Frame.SetColumn | validador_ceps_streamlit.py:37 | `df[name] = values` replaces the labelled column in place, or appends a new rightmost column; every other column reads as before |
| Frames.Frame.Rename | ceps.py:45 | `rename(columns=m)` relabels through the map and keeps every column's cells |
| FilterColumns.ResolveAlias | ceps.py:39-40 | the first label whose lower-cased form is an alias; the default label when there is none |
| FilterColumns.ResolvedLabelsDiffer | ceps.py:39-40 | the state and city labels never resolve to the same column |
| FilterColumns.AddIfMissing | ceps.py:42-43 | a missing label becomes a new rightmost column filled with `Não Informado`; otherwise the frame is unchanged |
| FilterColumns.AddBoth | ceps.py:42-43 | both resolved labels get a column if missing, in order. Every earlier column keeps its cells and place, and each added column holds `Não Informado` |
| FilterColumns.StandardizeFilterColumns | ceps.py:39-45 | afterwards `estado_filtro` and `cidade_filtro` both exist. The labels are the resolved ones, added if missing, then renamed. Every earlier column keeps its cells and place, and added columns hold `Não Informado` |
| FilterColumns.SortedUnique | ceps.py:68-69 | the option list is strictly ascending (hence duplicate-free) and holds exactly the values present in the column |
| FilterColumns.SortedListIsUnique | ceps.py:68-69 | only one strictly sorted list has a given set of elements, so this is the list Python's `sorted(unique)` returns |
| FilterColumns.BelowTransitive | ceps.py:68-69 | Python's string order is transitive |
| FilterColumns.BelowTotal | ceps.py:68-69 | any two different strings are ordered one way or the other |
| MapFilter.VisiblePoints | ceps.py:193 | every shown point comes from the data and is on the selection; every point on the selection is shown |
| MapFilter.OnSelection | ceps.py:193 | the test of one point: its `estado_filtro` is among the ticked states and its `cidade_filtro` among the ticked cities; `VisiblePoints` states its use |
| MapFilter.VisiblePointsExact | ceps.py:193 | the filter preserves order: filtering a concatenation is concatenating the filtered parts. Each selected point is kept as often as it occurs, and no other point is kept |
| MapFilter.NonTextStateHidden | ceps.py:193 | a point whose state is not a string is never shown, since `includes` compares strictly |
| JsRecords.Get | ceps.py:285 | `r[key]` is the value stored under the key, or `undefined` when the object lacks it |
| JsRecords.Set | ceps.py:258 | `r[key] = v`: the key then reads `v` and every other key reads as before. An existing key keeps its place; a new key goes last |
| RegionExport.LayerColor | ceps.py:237 | the colour is never empty: it is `color_name` when set and non-empty, otherwise `#3388ff` |
| RegionExport.Contains | ceps.py:242-253 | a circle contains a point when the distance to its centre is at most the radius; any other shape asks the polygon test. `CircleRimIncluded` states the inclusive rim |
| RegionExport.Tag | ceps.py:257-258 | the copy reads the layer colour under `COR_POLIGONO`, and every other key reads as in the source point. The key order is the point's, plus `COR_POLIGONO` at the end if it was new |
| RegionExport.CircleRimIncluded | ceps.py:245-248 | a point at distance exactly the radius is inside the circle |
| RegionExport.PushTagged | ceps.py:256-260 | the export list grows by a tagged copy of each point in the area, in order |
| RegionExport.Aggregate | ceps.py:236-261 | every layer's contained points, tagged with its colour, one layer after another; `AggregateConcat`, `OnePointExport` and `ExportSplitsOverPoints` state what this means |
| RegionExport.ExportClick | ceps.py:228-269 | no layers: the "draw something" alert. Empty aggregate: the "nothing found" alert. Otherwise the download of the CSV text of the aggregate (every layer's contained points in drawing order, tagged) or the writer's TypeError |
| RegionExport.AggregateConcat | ceps.py:236-261 | the export of several layers is the export of the earlier layers followed by that of the later ones |
| RegionExport.OnePointExport | ceps.py:236-261 | a point contained in k layers appears exactly k times, tagged with each containing layer's colour in drawing order; there is no de-duplication |
| RegionExport.ExportSplitsOverPoints | ceps.py:236-261 | the rows exported for two batches of points together are, as a multiset, the rows exported for each batch |
| RegionExport.NoPointsNoExport | ceps.py:263-266 | with no point data the aggregate is empty, whatever is drawn |
| CsvExport.Texts | ceps.py:273-274 | the texts exist exactly when no value is `undefined` (whose `toString` throws); `null` becomes the empty text |
| CsvExport.FieldText | ceps.py:274 | the text of a value fails exactly for `undefined`; `null` gives the empty text and a string is itself |
| CsvExport.Escape | ceps.py:275 | every `"` doubled; `QuotedRoundTrip` states that unescaping gives the text back |
| CsvExport.Quote | ceps.py:275 | the escaped text between two quotes; `FieldRoundTrip` states that it reads back as the text |
| CsvExport.ProcessRow | ceps.py:272-277 | a row's line exists exactly when none of its values is `undefined`; `LineRoundTrip` states that the line reads back as the texts |
| CsvExport.Headers | ceps.py:280 | the headers are duplicate-free |
| CsvExport.HeadersExact | ceps.py:280 | the headers are the first row's keys in order, minus exactly `estado_filtro` and `cidade_filtro` |
| CsvExport.Project | ceps.py:284-285 | `cleanRow` has exactly the headers as keys, in order, and under each the row's value (`undefined` when the row lacks it) |
| CsvExport.CleanRow | ceps.py:284-285 | filling `cleanRow` key by key yields that projection |
| CsvExport.AllTexts | ceps.py:283-287 | texts for every row exist exactly when every row's fields can be stringified; row `i`'s texts are those of its projection |
| CsvExport.ExportToCsv | ceps.py:271-294 | the loop that grows `csvFile` yields exactly the BOM, the header line and one rendered line per row; it fails on an empty list or an undefined field |
| CsvExport.CsvText | ceps.py:279-287 | the file starts with the byte-order mark; `CsvLayout` and `CsvFailsExactly` state its layout and its failure cases |
| CsvExport.QuotedRoundTrip | ceps.py:275 | reading back a quoted field (closing quote found, `""` read as `"`) gives the original text and leaves the rest untouched |
| CsvExport.FieldRoundTrip | ceps.py:275 | a field quoted with doubled quotes reads back as the original text |
| CsvExport.FieldsRoundTrip | ceps.py:272-277 | a line of one or more quoted `;`-joined fields reads back as exactly those texts |
| CsvExport.LineRoundTrip | ceps.py:272-277 | any data line, including an empty one, reads back as its texts, and reading stops after its line break |
| CsvExport.BodyRoundTrip | ceps.py:283-287 | the data lines read back as the per-row texts, one list per row |
| CsvExport.CsvFailsExactly | ceps.py:279-287 | the writer throws exactly when there is no row, or some row lacks one of the headers |
| CsvExport.CsvLayout | ceps.py:279-287 | the file starts with the BOM, the `;`-joined headers and a line break. The rest reads back as one line per row; line `i` holds the text of row `i`'s value under each header, in header order |

## Left out

- Reading the spreadsheets is not modelled: folder discovery, `os.listdir`, `pd.read_excel` and the Streamlit uploads are file I/O. A `Frame` is built by its constructor instead.
- The Streamlit messages, preview and Excel download are not modelled; nor are the folium map, the Draw plugin, the HTML/CSS, marker clusters and popups. These are presentation only.
- Browser plumbing is not modelled: `initMap` polling, the checkbox handlers, the colour picker, `layer.options.color_name` being set on creation, and the Blob/anchor download. `ExportClick` ends in a `Download` outcome carrying the file name and text.
- Geometry internals are not modelled. Leaflet's haversine `distance` and turf's `booleanPointInPolygon` are floating-point library code, so they are the fields of a `Geometry` parameter; only the inclusive `distance <= radius` shape is kept.
- `Number.prototype.toString` (parameter `show`) and Python's `str.lower` (parameter `lower`) are library routines without a model here. `StandardizeFilterColumns` only requires that `lower` leaves `estado` and `cidade` unchanged.
- CastColumn: text cells holding digits, which `astype(int)` would parse, are treated as a conversion error. Conversion of values outside the 64-bit range is not modelled, since integers here are unbounded.
- ResolveAlias: labels are strings here. A spreadsheet whose header holds a number (say `2023`) gives pandas a non-string label, and `c.lower()` then raises AttributeError and stops the map generation. That exception path is not modelled.
- The `for df in [base_df, logradouros_df]` loop is written as two `CastBounds` calls, and a raised exception is the `false` result. Exception messages are not modelled.
- `dropna` and `astype(float)` on the coordinates, and `df.to_json(orient='records')`, are not modelled. Points enter the JavaScript side directly as `Record` values, so the model does not capture how pandas values become JSON values (NaN to `null`, timestamps, and so on).
- SortedUnique: models `sorted(unique)` over string values only. A column mixing strings with numbers or NaN, where Python's `sorted` raises or orders differently, is not modelled.
- JavaScript's rule that integer-like keys are enumerated before other keys is not modelled. `Object.keys`/`Object.values` here follow insertion order, which is correct when no column name is an integer-like key.
- Duplicate column labels are not modelled beyond `Column` and `SetColumn` acting on the first column with the label.
- Only the `Pertence_F_TGT_DF` column of the validator is modelled; showing the first twenty rows is presentation.
- Only primitive JSON values (`null`, booleans, numbers, strings, and `undefined` for a missing key) are modelled; the points produced by `to_json` hold nothing else.
