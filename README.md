# Nearest-segment matching for traffic counts, in Dafny

This project models the core of `data_generation/ATR_util.py` from the crash-model data pipeline, which has three parts:

- **Filename helpers.** ATR (automatic traffic recorder) count files are named by `_`-separated fields. `is_readable_ATR` decides from the name whether the file is a 24-hour XXX count stored as XLSX. `clean_ATR_fname` turns the name into a street address for geocoding.
- **Data loaders.** `csv_to_projected_records` reads CSV rows into point records. It skips rows whose x coordinate is blank, and `read_record` reprojects each point. `read_segments` concatenates the intersection and non-intersection road segments and builds an R-tree index over their bounding boxes, keyed by position.
- **Matcher.** `find_nearest` annotates every record in place with the `id` of the nearest road segment among those the index returns for the record's tolerance-buffered box, writing `""` when there is none.

## Modelling choices

Python exceptions are results. A failed list index is `IndexError(i)`, using Python's negative indexing. A missing dict key is `KeyError(key)`, and a `float()` that fails is `ValueError(text)`. An operation that raises yields `Err`, and a loop that raises stops there.

Foreign computations are function parameters:
- point-to-geometry distance (shapely);
- reprojection (pyproj);
- `float()` on text.

The one geometric fact the matcher's guarantees need is stated as a hypothesis, `Geometry.RespectsBounds`: a geometry is never nearer to a point than its bounding box is along either axis.

The spatial index is a class holding its `(key, box)` entries in insertion order. A query returns the keys of the entries whose box meets the query box (closed intervals). Only the multiset of keys is promised, not the order, so every matcher property is stated for any answer the index may give.

Records are objects whose point is fixed and whose `properties` dict the matcher updates in place. Rows and segment attribute tables are `map<string, string>`.

## Model

| member | source | states |
|---|---|---|
| Errors.At | data_generation/ATR_util.py:29 | Python list indexing: succeeds exactly for `-len <= i < len` and counts negative indices from the end; otherwise raises `IndexError(i)` |
| Errors.Slice | data_generation/ATR_util.py:48 | Python slice `xs[lo:hi]`: its length is clipped to the list, and element `k` is `xs[lo + k]` |
| Text.Split | data_generation/ATR_util.py:28-29 | `str.split(sep)` gives at least one piece, and no piece contains the separator |
| Text.SplitMany | data_generation/ATR_util.py:29 | a split has a second piece exactly when the separator occurs in the text |
| Text.Join | data_generation/ATR_util.py:48 | `' '.join` of two pieces is the first piece, one separator, then the second |
| Text.JoinSplit | data_generation/ATR_util.py:47-48 | joining the pieces of a split with the same separator gives back the text |
| Text.SplitJoin | data_generation/ATR_util.py:47-48 | splitting a join of separator-free pieces gives back the pieces |
| Text.Dehyphen | data_generation/ATR_util.py:49 | `re.sub('-', ' ', s)` keeps the length, turns every `-` into a space, keeps every other character, and leaves no `-` |
| AtrNames.IsReadableAtr | data_generation/ATR_util.py:17-35 | succeeds exactly when the name has at least nine `_`-fields and field 8 contains a `.`. Otherwise it raises `IndexError(8)` for too few fields or `IndexError(1)` for a dot-less field 8. On success it is true exactly when field 7 is `XXX`, field 6 is `24-HOURS` and the second `.`-piece of field 8 is `XLSX` |
| AtrNames.IsReadableAtrOfFields | data_generation/ATR_util.py:28-35 | for a name built from nine or more `_`-free fields whose field 8 is `stem.ext`, readability is decided by fields 7 and 6 and by `ext` alone |
| AtrNames.CleanAtrFname | data_generation/ATR_util.py:38-51 | never raises; the address ends in ` Boston, MA`, and no `-` comes before that suffix |
| AtrNames.CleanAtrFnameFields | data_generation/ATR_util.py:47-51 | the address is fields 3 and 4 (as many as exist) with hyphens as spaces, joined by a space, then ` Boston, MA` |
| AtrNames.CleanAtrFnameOfFields | data_generation/ATR_util.py:47-51 | for a name built from five or more `_`-free fields, the address is field 3 and field 4 with hyphens as spaces, then the city |
| AtrNames.DehyphenJoin | data_generation/ATR_util.py:48-49 | replacing hyphens after joining two fields with a space equals replacing them in each field |
| AtrNames.DocExampleAddress | data_generation/ATR_util.py:42-45 | the documented example `7362_NA_NA_147_TRAIN-ST_DORCHESTER_24-HOURS_XXX_03-19-2014.XLSX` cleans to `147 TRAIN ST Boston, MA` |
| AtrNames.DocExampleReadable | data_generation/ATR_util.py:28-35 | the documented example name is a readable ATR (XXX, 24-HOURS, XLSX) |
| Geometry.BufferBounds | data_generation/ATR_util.py:228 | the bounds of a point buffered by a positive tolerance form a valid box, containing exactly the points within the tolerance on both axes |
| Geometry.WithinToleranceIntersects | data_generation/ATR_util.py:228-229 | a geometry within the tolerance of the point has bounds that meet the buffered box |
| RTree.MatchingMembers | data_generation/ATR_util.py:229 | a key is among the intersecting keys exactly when some entry with that key has a box meeting the query box |
| RTree.Index.constructor | data_generation/ATR_util.py:213 | a new index is empty |
| RTree.Index.Insert | data_generation/ATR_util.py:215 | inserting appends exactly one `(key, box)` entry and changes nothing else |
| RTree.Index.Intersection | data_generation/ATR_util.py:229 | the answer holds each entry meeting the query box once, and nothing else, in some order |
| Segments.ReadSegments | data_generation/ATR_util.py:210-215 | the combined list is the intersection segments followed by the non-intersection ones; the index is new and holds exactly one entry per segment, entry `i` being key `i` with segment `i`'s bounds |
| Segments.BuiltIndexQuery | data_generation/ATR_util.py:210-215 | a query on such an index returns position `k` exactly once when segment `k` exists and its bounds meet the query box, and never otherwise |
| Records.ReadRecord | data_generation/ATR_util.py:164-175 | succeeds exactly when both coordinate texts are numbers, raising `ValueError` on the first that is not. The properties are the row itself, and the point is the parsed coordinates, reprojected when a source system is given |
| Records.PointRecord.constructor | data_generation/ATR_util.py:171-174 | a record holds the given point and properties |
| Records.CsvToProjectedRecords | data_generation/ATR_util.py:178-199 | returns the error of the first bad row, or fresh and distinct records, one per projected row in order, with the projected point and properties |
| Records.ProjectRowsKeepsRows | data_generation/ATR_util.py:189-199 | on success, one record per row with a non-blank x field, in input order, so never more records than rows. Each record's properties are its row unchanged, and its point is read from that row |
| Records.ProjectRowsStep | data_generation/ATR_util.py:189-199 | in a successful read the first row contributes its projected record when its x field is non-blank and nothing otherwise, and the remaining rows read successfully |
| Records.ProjectRowsSucceeds | data_generation/ATR_util.py:192-197 | reading succeeds exactly when every row has the x field, and every row with a non-blank x also has the y field and two numeric coordinates |
| Matcher.CandidatesSpec | data_generation/ATR_util.py:230-237 | the candidate list succeeds exactly when every returned position exists and its segment has an `id`; it then holds each position's `id` and distance, in query order. Otherwise the exception is the one the first bad position raises |
| Matcher.FirstMin | data_generation/ATR_util.py:240 | `min` by distance picks a position of smallest distance with no earlier position as near |
| Matcher.NearId | data_generation/ATR_util.py:239-246 | the value written is `""` for no candidates, otherwise the `id` of the first candidate of smallest distance |
| Matcher.Annotated | data_generation/ATR_util.py:243-246 | after a successful match `near_id` is set to the match; a raised match changes nothing |
| Matcher.AnnotatedKeepsOtherKeys | data_generation/ATR_util.py:243-246 | annotating adds, removes and changes no key other than `near_id` |
| Matcher.MatchRecordChoice | data_generation/ATR_util.py:229-246 | a successful match writes `""` for an empty query answer; otherwise it writes the `id` of a returned segment with the smallest distance, and no earlier one is as near |
| Matcher.MatchFailsIndependently | data_generation/ATR_util.py:229-237 | whether matching raises does not depend on the order of the query answer |
| Matcher.BuiltIndexNeverFails | data_generation/ATR_util.py:210-237 | with an index built by `ReadSegments` over segments that all have an `id`, every returned position is a segment whose bounds meet the buffered box, and matching never raises |
| Matcher.NothingWithinToleranceIsMissed | data_generation/ATR_util.py:226-241 | a segment within the tolerance is always returned, and the segment chosen is at most as far from the point as it is |
| Matcher.EmptyNearIdIffNoCandidates | data_generation/ATR_util.py:239-246 | when no segment has an empty `id`, `near_id` is `""` exactly when the query returned nothing |
| Matcher.EmptyNearIdMeansNoneWithinTolerance | data_generation/ATR_util.py:226-246 | an empty `near_id` over a built index means every segment is farther than the tolerance from the point |
| Matcher.NoBoundsMetMatchesNothing | data_generation/ATR_util.py:229-246 | over a built index, a query box meeting no segment's bounds gets an empty answer and the record gets `""` |
| Matcher.NothingNearbyMatchesNothing | data_generation/ATR_util.py:226-246 | a record whose buffered box meets no segment's bounds gets `near_id == ""` |
| Matcher.EmptyStoreMatchesNothing | data_generation/ATR_util.py:229-246 | with no segments every record gets `""` |
| Matcher.ToleranceOnlyShapesQuery | data_generation/ATR_util.py:228-241 | when it is the only segment of the store, a segment whose bounds meet the buffered box is chosen whatever its distance, even one beyond the tolerance: there is no exact-radius recheck (with several segments a nearer one wins) |
| Matcher.MatchOrderIndependent | data_generation/ATR_util.py:229-241 | without distance ties, two query answers with the same positions give the same match |
| Matcher.RepeatedMatchAgrees | data_generation/ATR_util.py:226-246 | without ties, running the matcher again over the same index writes the same `near_id`, and writing it twice changes nothing |
| Matcher.TiesFollowQueryOrder | data_generation/ATR_util.py:239-241 | with two segments at equal distance, the one the index answers first wins, so the two answer orders give different `id`s |
| Matcher.MatchOne | data_generation/ATR_util.py:226-246 | one loop pass: the query answer is a valid index answer for the buffered box, the match is computed from it, and the record's properties are annotated with it |
| Matcher.AnnotateRecords | data_generation/ATR_util.py:226-246 | the loop pass: the records are annotated in order and the index is unchanged; for every record reached, the recorded query answer is a valid answer for its buffered box and the recorded result is the match of that answer. The first match that raises stops the pass: records before it are annotated, and it and those after are untouched |
| Matcher.FindNearest | data_generation/ATR_util.py:219-246 | record `k` reached by the pass got the valid index answer `queries[k]` for its buffered box and the result `results[k]` of matching it, and its properties are annotated with that result; the index is unchanged. The first match that raises stops the pass: records before it are annotated, and it and those after are untouched. Without an exception every record is reached and ends with `near_id` set |

## Left out

- `geocode_address`, `plot_hourly_rates`, `read_ATR`, `read_shp` and `write_shp`: network, spreadsheet, plotting and shapefile I/O. Segments and CSV rows enter the model as given sequences.
- File opening in `read_segments` and `csv_to_projected_records`, and the `print` calls: I/O and logging.
- Shapely's `distance` and `buffer`, pyproj's `transform` and Python's `float()`: foreign floating-point computations, modelled as function parameters. Coordinates are exact reals.
- Records.ReadRecord: the source hands the coordinate texts to `pyproj.transform` before calling `float()`; the model parses first and reprojects numbers, so the error a non-numeric text raises inside pyproj is modelled as `ValueError`.
- Records.CsvToProjectedRecords: the default field names `x='X'` and `y='Y'` are not modelled; the caller always passes both names.
- Records.CsvToProjectedRecords: a short CSV row gives `None` for missing fields in `csv.DictReader`; the model treats a missing field as an absent key (`KeyError`).
- Geometry.BufferBounds: requires a positive tolerance. A zero or negative buffer of a point is empty in shapely and its bounds are not a box.
- Matcher.AnnotateRecords: requires the records to be distinct objects, as FindNearest does.
- Matcher.FindNearest: requires the records to be distinct objects. Records that alias one another, or that share one properties dict, are not modelled. Only `properties` of the records can change, which the `modifies` clause states.
- RTree.Index.Insert: requires a box whose minimums are at most its maximums. The R-tree's behaviour on inverted boxes and its internal tree structure are not modelled.
- Segments.ReadSegments: requires every segment's bounds to be a valid box. A segment with an empty geometry, whose shapely bounds are `()` and on which `segments_index.insert` raises, is not modelled.
- Matcher.RepeatedMatchAgrees: stated only without distance ties, because the model does not fix the order in which the index answers. The real R-tree answers a repeated query in the same order, so in practice the source is idempotent with ties as well.
- The order of keys in Python dicts is not modelled; properties are maps.
- `src/showcase/static/config.js` is static configuration and is not part of this model.
