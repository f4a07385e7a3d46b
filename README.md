# EDIGEO processing: face assembly and the HTML report renderer

This project models the two parts of the QGIS EDIGEO processing plugin that
hold logic of their own. It proves properties of both.

**Ring-to-polygon assembly.** This is the `validate` callback of the EDIGEO
export. It receives the rings of one face of a feature and does four things:

1. It builds one polygon per ring. A ring that does not build is reported
   and skipped.
2. It sorts the polygons by area, largest first, with a stable sort.
3. It seeds the roots with the largest polygon. Every later polygon goes to
   the first root it intersects, as an interior ring. When the engine
   refuses that ring, the polygon is dropped and reported. A polygon that
   intersects no root becomes a root itself.
4. It flattens the roots into (ring, is-outer) pairs.

The geometry engine is a parameter, `Geometry.Engine`. It holds the results
of the five engine calls the callback makes: build, exterior ring, area,
intersection test, add ring. The model fixes nothing about those results.
Reports sent to the processing feedback are returned as an ordered list of
`Report` values. Each value carries the feature, the face and the error code
where the message names them.

- `RingAssembly` holds one specification function per stage, the whole-face
  function `Assemble`, and the lemmas.
- `RingAssemblyImpl` holds the loops. Each loop is proved to compute its
  stage. `Validate` is the callback.

**JSON-to-HTML renderer.** This renders the inspection report.

- A string becomes escaped text, or verbatim text when escaping is off.
- A mapping becomes a key/value table.
- A non-empty list becomes a "clubbed" table with shared column headers when
  clubbing is on and every item is a mapping with the first item's keys.
  With clubbing on, the header search raises when the first item, or an item
  met before the first mismatching mapping, is not a mapping: it asks that
  item for `.keys()` (json2html.py:53, 55). In every other case the list
  becomes a bullet list.
- Any other value becomes the text Python's `str` gives it.

The pieces are:

- `HtmlEscape` models `html.escape` with quoting on. It replaces `&`, `<`,
  `>`, `"` and `'` in turn.
- `Json2Html` holds the converter as functions, plus the lemmas.
- `Json2HtmlImpl` holds the two loops, the column-header search and the list
  conversion.

Conversion returns `Failure(AttributeError)` where the Python code raises.

## Model

| member | source | states |
|---|---|---|
| RingAssembly.Construct | qgis_edigeo_processing/provider/export.py:118-132 | one survivor or one report per input ring; every survivor is the engine's exterior ring of a ring that built; every report is a construction failure for this feature and face |
| RingAssembly.ConstructAppend | qgis_edigeo_processing/provider/export.py:119-132 | rings are built one at a time: survivors and reports of a concatenation are the concatenations, so survivors keep input order |
| RingAssembly.ConstructIgnoresHints | qgis_edigeo_processing/provider/export.py:119 | the outer/inner hint of the input is never read |
| RingAssembly.ConstructEmptyIff | qgis_edigeo_processing/provider/export.py:118-132 | nothing survives exactly when no ring builds |
| RingAssembly.InsertByArea | qgis_edigeo_processing/provider/export.py:139 | one insertion step of the sort adds exactly that polygon (multiset) |
| RingAssembly.SortByArea | qgis_edigeo_processing/provider/export.py:139 | the sort is a permutation of its input |
| RingAssembly.InsertByAreaSorted | qgis_edigeo_processing/provider/export.py:139 | inserting into an area-ordered list keeps it ordered |
| RingAssembly.InsertByAreaWithArea | qgis_edigeo_processing/provider/export.py:139 | an inserted polygon lands after every polygon of the same area |
| RingAssembly.SortByAreaSorted | qgis_edigeo_processing/provider/export.py:138-139 | sorted polygons have non-increasing area |
| RingAssembly.SortByAreaStable | qgis_edigeo_processing/provider/export.py:139 | polygons of equal area keep their construction order (stable sort with `reverse=True`) |
| RingAssembly.FirstIntersecting | qgis_edigeo_processing/provider/export.py:146-147 | the index is that of the first root the polygon intersects, or the number of roots when it intersects none |
| RingAssembly.Place | qgis_edigeo_processing/provider/export.py:146-155 | the handling of one polygon; its contract is stated by `PlaceFirstMatch` (first intersecting root only, append or one report, new root when none intersects), `PlaceOrdered` and `AssignConserves` |
| RingAssembly.PlaceFirstMatch | qgis_edigeo_processing/provider/export.py:146-155 | only the first intersecting root is tried. On success the polygon is appended to that root's rings; on failure it is dropped with exactly one report and not retried. A polygon that intersects no root becomes a new last root |
| RingAssembly.Assign | qgis_edigeo_processing/provider/export.py:141-155 | the outer loop over the smaller polygons; its contract is stated by `AssignGrows`, `AssignConserves` and `AssignOrdered` |
| RingAssembly.AssignGrows | qgis_edigeo_processing/provider/export.py:145-155 | roots are never removed and only gain rings; earlier reports stay; every new report is an add-ring failure |
| RingAssembly.AssignConserves | qgis_edigeo_processing/provider/export.py:141-155 | every polygon handed over ends up as exactly one of: a root, a ring of a root, or a report |
| RingAssembly.PlaceOrdered | qgis_edigeo_processing/provider/export.py:146-155 | placing a polygon no larger than all placed rings keeps roots in non-increasing exterior area, with no interior ring larger than its exterior |
| RingAssembly.AssignOrdered | qgis_edigeo_processing/provider/export.py:139-155 | handing polygons over largest first keeps that order |
| RingAssembly.Flatten | qgis_edigeo_processing/provider/export.py:157-164 | the (ring, is-outer) list; its contract is stated by `RegroupFlatten` (regrouping inverts it) and `FlattenShape` |
| RingAssembly.RegroupFlatten | qgis_edigeo_processing/provider/export.py:157-164 | flattening loses nothing: cutting the list at each outer ring gives back the roots |
| RingAssembly.FlattenShape | qgis_edigeo_processing/provider/export.py:157-164 | the number of outer flags equals the number of roots; the rings appear root by root, in order; the list starts with an outer ring |
| RingAssembly.Assemble | qgis_edigeo_processing/provider/export.py:104-167 | the whole callback as a function; its contract is stated by `AssembleRaisesIff`, `AssembleReturned` and `NoOverlapGivesOnePolygonEach` |
| RingAssembly.AssembleRaisesIff | qgis_edigeo_processing/provider/export.py:141 | the face raises (`geoms[0]` on an empty list, re-raised at lines 165-167) exactly when no ring builds, the empty face included; every ring is then reported |
| RingAssembly.AssembleReturned | qgis_edigeo_processing/provider/export.py:104-167 | on return: the output is non-empty and starts with an outer ring; its regrouped roots are area-ordered; every returned ring was built; returned rings plus reports number the input rings |
| RingAssembly.NoOverlapGivesOnePolygonEach | qgis_edigeo_processing/provider/export.py:141-164 | when no polygon meets an earlier one, each built polygon is returned as an outer ring of its own, largest first |
| RingAssembly.OuterWithTwoEqualHoles | qgis_edigeo_processing/provider/export.py:118-164 | an outer ring with two equal-area holes gives one polygon whose holes are in input order |
| RingAssemblyImpl.ConstructGeometries | qgis_edigeo_processing/provider/export.py:118-132 | the construction loop computes `Construct` |
| RingAssemblyImpl.PlaceInRoots | qgis_edigeo_processing/provider/export.py:146-155 | the inner for/else loop, with `break`, computes `Place` |
| RingAssemblyImpl.AssignRoots | qgis_edigeo_processing/provider/export.py:141-155 | seeding with the largest polygon, then the outer loop, computes `Assign` |
| RingAssemblyImpl.FlattenRoots | qgis_edigeo_processing/provider/export.py:157-164 | the loop with its carried `outer` flag computes `Flatten` |
| RingAssemblyImpl.Validate | qgis_edigeo_processing/provider/export.py:104-167 | the callback computes `Assemble`. It raises exactly when no ring builds. Otherwise the output starts with an outer ring, has one outer flag per polygon, and returned rings plus reports number the input rings |
| HtmlEscape.Escape | qgis_edigeo_processing/provider/json2html.py:67-68 | the five successive replacements; its contract is stated by `EscapeIsCharwise`, `EscapeLeavesNoMarkup` and `UnescapeEscape` |
| HtmlEscape.EscapeIsCharwise | qgis_edigeo_processing/provider/json2html.py:67-68 | the five successive replacements escape each character on its own, as a one-pass character map would |
| HtmlEscape.EscapeLeavesNoMarkup | qgis_edigeo_processing/provider/json2html.py:67-68 | escaped text holds no raw `<`, `>`, `"` or `'` |
| HtmlEscape.UnescapeEscape | qgis_edigeo_processing/provider/json2html.py:67-68 | escaping is lossless: reading the five entities back gives the original text |
| Json2Html.MakeOptions | qgis_edigeo_processing/provider/json2html.py:30-40 | the opening tag is `<table ` + attributes + `>`, and the attributes can be read back from it; the flags are stored unchanged |
| Json2Html.IntToStringRoundTrip | qgis_edigeo_processing/provider/json2html.py:75 | `str` of an integer reads back as that integer |
| Json2Html.ScalarText | qgis_edigeo_processing/provider/json2html.py:75 | an integer's text reads back as the integer; a boolean's text is `True` exactly when it is true |
| Json2Html.CheckEntries | qgis_edigeo_processing/provider/json2html.py:54-59 | when headers are returned, every item is a mapping with exactly those keys |
| Json2Html.ColumnHeaders | qgis_edigeo_processing/provider/json2html.py:50-59 | empty input gives empty headers; returned headers are the first item's keys, and every item matches them |
| Json2Html.CheckEntriesAllMatch | qgis_edigeo_processing/provider/json2html.py:54-59 | when every item matches, the headers are returned |
| Json2Html.CheckEntriesFirstMismatch | qgis_edigeo_processing/provider/json2html.py:54-58 | the search stops at the first item that does not match: it raises if that item is not a mapping, and gives no headers otherwise |
| Json2Html.ColumnHeadersFound | qgis_edigeo_processing/provider/json2html.py:50-59 | for a non-empty list, headers are found exactly when the first item is a mapping and every item matches its keys |
| Json2Html.ColumnHeadersFirstMismatch | qgis_edigeo_processing/provider/json2html.py:50-58 | a first item that is not a mapping raises; otherwise the first mismatching item decides between raising and giving no headers |
| Json2Html.KeyIndex | qgis_edigeo_processing/provider/json2html.py:117 | a header is found in an item's keys at a position that holds that key |
| Json2Html.Convert | qgis_edigeo_processing/provider/json2html.py:61-75 | an empty list or tuple renders as `""` (lines 102-103), and so does an empty mapping (lines 136-137) |
| Json2Html.ToHtml | qgis_edigeo_processing/provider/json2html.py:149-158 | without clubbing nothing raises; a string renders escaped exactly when escaping is on, and an escaped string reads back as the original |
| Json2Html.NoClubbingNeverRaises | qgis_edigeo_processing/provider/json2html.py:102-146 | with clubbing off no conversion raises, at any depth |
| Json2Html.ObjectHtml | qgis_edigeo_processing/provider/json2html.py:131-146 | a mapping's table; `Convert` states that an empty mapping gives `""`, `EntryCellsEach` gives one key/value cell per entry in order, and `ObjectKeyEscaped` the exact text |
| Json2Html.EntryCellsEach | qgis_edigeo_processing/provider/json2html.py:138-144 | a mapping converts when every value converts. It then gives one `<th>key</th><td>value</td>` cell per entry, in insertion order, with the key converted as a string |
| Json2Html.ItemsEach | qgis_edigeo_processing/provider/json2html.py:126-128 | a bullet list converts when every element converts, and then has one item per element, in order |
| Json2Html.RowCellsEach | qgis_edigeo_processing/provider/json2html.py:115-118 | a clubbed row has one cell per header, in header order, holding the item's value under that header |
| Json2Html.RowsHtml | qgis_edigeo_processing/provider/json2html.py:114-121 | the rows of a clubbed table; its contract is stated by `RowCellsEach`, `RowsFailurePersists` and `Json2HtmlImpl.AppendRows` |
| Json2Html.RowsFailurePersists | qgis_edigeo_processing/provider/json2html.py:114-119 | a row that raises makes the whole table raise |
| Json2Html.ConvertListify | qgis_edigeo_processing/provider/json2html.py:73-74 | tuples render exactly as lists: turning every tuple into a list, at any depth, changes neither the output nor whether it raises |
| Json2Html.ClubbedHeaderVerbatim | qgis_edigeo_processing/provider/json2html.py:108-122 | a clubbed table's exact text: the header names are inserted unescaped |
| Json2Html.ObjectKeyEscaped | qgis_edigeo_processing/provider/json2html.py:136-146 | a mapping table's exact text: the key is escaped |
| Json2Html.ListOfStringsRaises | qgis_edigeo_processing/provider/json2html.py:50-53 | with the default clubbing, a list whose first item is a string raises |
| Json2Html.ListOfStringsBulleted | qgis_edigeo_processing/provider/json2html.py:124-128 | without clubbing the same list is a bullet list of the escaped strings |
| Json2HtmlImpl.ColumnHeadersFromListOfDicts | qgis_edigeo_processing/provider/json2html.py:42-59 | the loop with early returns computes `ColumnHeaders` |
| Json2Html.ListHtml | qgis_edigeo_processing/provider/json2html.py:77-129 | a list's HTML; its contract is stated by `Convert` (empty list), `ColumnHeadersFound`, `ItemsEach`, `ListOfStringsRaises`, `ListOfStringsBulleted` and `Json2HtmlImpl.ConvertList` |
| Json2HtmlImpl.ConvertList | qgis_edigeo_processing/provider/json2html.py:77-129 | the accumulating loop computes `ListHtml`: a clubbed table row by row, or a bullet list |
| Json2HtmlImpl.AppendRows | qgis_edigeo_processing/provider/json2html.py:114-119 | the row loop appends each item's row to the table head and raises at the first item whose cells raise, computing `RowsHtml` |

## Left out

- **QGIS glue**:
  - the processing-algorithm plumbing of the export and inspect algorithms;
  - reading the archive, writing FlatGeobuf and WKB, building the report;
  - adding layers to the project.

  All of this is I/O or host integration.
- **The geometry engine.** `addPointsXYV2`, `convertToSingleType`, `area`,
  `intersects`, `addRing` and `asPolygon` are an uninterpreted parameter.
  - Areas are integers here, where the engine uses floating point.
  - A successful `addRing` appends the ring to the root's rings.
- **Root mutation.** The callback mutates root geometries in place
  (`root.addRing`). The model holds roots as values in a sequence. No
  aliasing is observable: a polygon that becomes a root is never read
  through `geoms` again.
- **The sort.** `list.sort` with `key=area, reverse=True` is modelled as a
  function: a stable insertion sort, largest area first. It is not a loop
  of the model. The `@cache` on `area` has no observable effect and is left
  out.
- **Exceptions.** `traceback.print_exc` is console output and is left out.
  Only the exception that is re-raised is modelled (`RaisedIndexError`).
- **Faces where no ring builds.** For an empty face, or one where no ring
  builds, the code raises at `geoms[0]` (export.py:141) and re-raises
  (export.py:165-167). Such a face raises; it does not give an empty result.
- **Report messages.** Their text is left out. A report keeps the fields the
  message prints.
- **Lists whose first item is not a mapping.** With clubbing on,
  `column_headers_from_list_of_dicts` asks the first item, and then every
  item up to the first mismatch, for `.keys()`. It does so without checking
  the item's type, so a list of strings or numbers raises `AttributeError`
  (json2html.py:53, 55). The docstring of `convert_list` promises "either an
  HTML table or a HTML list, depending on what's inside" (json2html.py:78-79);
  the model follows the code, which raises (`ListOfStringsRaises`).
- **Mappings** are entry sequences with string keys, in insertion order.
  Python dictionaries have distinct keys. The model does not require that,
  and matches Python on mappings whose keys are distinct.
- **Floats.** `str` of a float is carried in the value (`Float(repr)`) rather
  than computed; float formatting is left out.
- **Mapping keys** go through `convert_json_node`. Keys are strings, so the
  model applies the string case directly.
- **The keys view.** Python's `dict.keys()` returns a view; the model uses
  the key sequence in insertion order.
