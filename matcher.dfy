/** The nearest-segment matcher (`find_nearest`): for every record, ask the
    spatial index for the segments whose bounds meet the record's
    tolerance-buffered box, take the one at the smallest distance (the
    first of equals in query order), and write its `id`, or `""` when the
    query returned nothing, into the record's properties under `near_id`.
    Tolerance shapes the query box only: a candidate is never rejected for
    lying farther away than the tolerance. */
module Matcher {
  import opened Errors
  import opened Geometry
  import opened RTree
  import opened Segments
  import opened Records

  const NearIdKey: string := "near_id"
  const IdKey: string := "id"

  /** Exact point-to-geometry distance, a foreign computation. */
  type Distance = (Geometry, Point) -> real

  /** One element of the candidate list: a segment's `id` and its distance
      to the record's point. */
  datatype Candidate = Candidate(id: string, dist: real)

  /** Whether `segs[key]` exists (Python indexing) and carries an `id`. */
  predicate HasId(segs: seq<Segment>, key: int)
  {
    At(segs, key).Ok? && IdKey in At(segs, key).value.properties
  }

  /** The candidate that position `key` contributes. */
  function CandidateOf(segs: seq<Segment>, key: int, p: Point, distance: Distance): Candidate
    requires HasId(segs, key)
  {
    var seg := At(segs, key).value;
    Candidate(seg.properties[IdKey], distance(seg.geometry, p))
  }

  /** The exception that looking up position `key` raises. */
  function LookupError(segs: seq<Segment>, key: int): Error
  {
    if At(segs, key).Err? then IndexError(key) else KeyError(IdKey)
  }

  /** The candidate list comprehension: for each position in query order,
      the segment's `id` and its distance. The first position that is out
      of range, or whose segment has no `id`, raises. */
  function Candidates(segs: seq<Segment>, keys: seq<int>, p: Point, distance: Distance): (r: Result<seq<Candidate>>)
  {
    if |keys| == 0 then Ok([])
    else match At(segs, keys[0])
      case Err(e) => Err(e)
      case Ok(seg) =>
        if IdKey !in seg.properties then Err(KeyError(IdKey))
        else match Candidates(segs, keys[1..], p, distance)
          case Err(e) => Err(e)
          case Ok(cs) => Ok([Candidate(seg.properties[IdKey], distance(seg.geometry, p))] + cs)
  }

  /** The comprehension succeeds exactly when every position exists and
      carries an `id`; it then holds one candidate per position, in query
      order. On failure, the exception is the one the first bad position
      raises. */
  lemma {:induction false} CandidatesSpec(segs: seq<Segment>, keys: seq<int>, p: Point, distance: Distance)
    ensures var r := Candidates(segs, keys, p, distance);
            && (r.Ok? <==> forall i :: 0 <= i < |keys| ==> HasId(segs, keys[i]))
            && (r.Ok? ==> |r.value| == |keys|
                          && forall i :: 0 <= i < |keys| ==> r.value[i] == CandidateOf(segs, keys[i], p, distance))
            && (r.Err? ==> exists i :: && 0 <= i < |keys| && !HasId(segs, keys[i])
                                       && (forall j :: 0 <= j < i ==> HasId(segs, keys[j]))
                                       && r.error == LookupError(segs, keys[i]))
  {
    if |keys| > 0 {
      CandidatesSpec(segs, keys[1..], p, distance);
      assert forall i :: 1 <= i < |keys| ==> keys[1..][i - 1] == keys[i];
      var r := Candidates(segs, keys, p, distance);
      if r.Err? && HasId(segs, keys[0]) {
        var i :| && 0 <= i < |keys[1..]| && !HasId(segs, keys[1..][i])
                 && (forall j :: 0 <= j < i ==> HasId(segs, keys[1..][j]))
                 && r.error == LookupError(segs, keys[1..][i]);
        assert !HasId(segs, keys[i + 1]) && r.error == LookupError(segs, keys[i + 1]);
      }
    }
  }

  /** Position `i` holds a smallest distance of the list. */
  predicate IsMinimum(cs: seq<Candidate>, i: int)
  {
    0 <= i < |cs| && forall j :: 0 <= j < |cs| ==> cs[i].dist <= cs[j].dist
  }

  /** Position `i` holds a smallest distance and no earlier position does. */
  predicate IsFirstMinimum(cs: seq<Candidate>, i: int)
  {
    IsMinimum(cs, i) && forall j :: 0 <= j < i ==> cs[j].dist > cs[i].dist
  }

  /** `min(cs, key=lambda tup: tup[1])`: Python scans left to right and
      replaces its current pick only on a strictly smaller key, so it
      returns the first element of smallest distance. */
  function FirstMin(cs: seq<Candidate>): (i: nat)
    requires |cs| > 0
    ensures IsFirstMinimum(cs, i)
  {
    if |cs| == 1 then 0
    else
      var k := FirstMin(cs[..|cs| - 1]);
      if cs[|cs| - 1].dist < cs[k].dist then |cs| - 1 else k
  }

  /** The value written to `near_id`: the `id` of the first nearest
      candidate, or the empty string when there is no candidate. */
  function NearId(cs: seq<Candidate>): (id: string)
    ensures |cs| == 0 ==> id == ""
    ensures |cs| > 0 ==> exists i :: IsFirstMinimum(cs, i) && id == cs[i].id
  {
    if |cs| == 0 then "" else cs[FirstMin(cs)].id
  }

  /** What the matcher computes for one record, given what the index
      returned for its buffered box. */
  function MatchRecord(segs: seq<Segment>, keys: seq<int>, p: Point, distance: Distance): Result<string>
  {
    match Candidates(segs, keys, p, distance)
    case Ok(cs) => Ok(NearId(cs))
    case Err(e) => Err(e)
  }

  /** The properties a record ends up with once its match result is known:
      `near_id` set on success, nothing changed on an exception. */
  function Annotated(properties: Row, result: Result<string>): (r: Row)
    ensures result.Ok? ==> NearIdKey in r && r[NearIdKey] == result.value
    ensures result.Err? ==> r == properties
  {
    if result.Ok? then properties[NearIdKey := result.value] else properties
  }

  /** Annotating touches `near_id` only: every other key is kept with its
      value, and none is added. */
  lemma AnnotatedKeepsOtherKeys(properties: Row, result: Result<string>)
    ensures forall k :: k != NearIdKey ==> (k in Annotated(properties, result) <==> k in properties)
    ensures forall k :: k != NearIdKey && k in properties ==> Annotated(properties, result)[k] == properties[k]
  {
  }

  /** One pass of the loop body of `find_nearest`: query the index with the
      record's buffered box, match, and write `near_id` unless the match
      raised. `keys` is what the index returned. */
  method MatchOne(record: PointRecord, segs: seq<Segment>, index: Index, tolerance: real, distance: Distance)
    returns (nearest: Result<string>, keys: seq<int>)
    requires tolerance > 0.0
    modifies record
    ensures IsAnswer(index.entries, BufferBounds(record.point, tolerance), keys)
    ensures nearest == MatchRecord(segs, keys, record.point, distance)
    ensures record.properties == Annotated(old(record.properties), nearest)
  {
    keys := index.Intersection(BufferBounds(record.point, tolerance));
    nearest := MatchRecord(segs, keys, record.point, distance);
    if nearest.Ok? {
      record.properties := record.properties[NearIdKey := nearest.value];
    }
  }

  /** The record points, in order. */
  function Points(records: seq<PointRecord>): (ps: seq<Point>)
    ensures |ps| == |records| && forall k :: 0 <= k < |records| ==> ps[k] == records[k].point
  {
    seq(|records|, k requires 0 <= k < |records| => records[k].point)
  }

  /** Record `k` of `points` was queried with its buffered box, the index
      answered `queries[k]`, and matching that answer gave `results[k]`,
      for every record reached so far. Stated record by record from the
      last one back. */
  ghost predicate Answered(entries: seq<Entry>, segs: seq<Segment>, points: seq<Point>, tolerance: real,
                           distance: Distance, queries: seq<seq<int>>, results: seq<Result<string>>)
    requires tolerance > 0.0
    requires |queries| == |results| <= |points|
    decreases |queries|
  {
    if |queries| == 0 then true
    else
      var n := |queries| - 1;
      && Answered(entries, segs, points, tolerance, distance, queries[..n], results[..n])
      && IsAnswer(entries, BufferBounds(points[n], tolerance), queries[n])
      && results[n] == MatchRecord(segs, queries[n], points[n], distance)
  }

  /** Answering the next record extends `Answered` by one. */
  lemma AnsweredSnoc(entries: seq<Entry>, segs: seq<Segment>, points: seq<Point>, tolerance: real,
                     distance: Distance, queries: seq<seq<int>>, results: seq<Result<string>>,
                     keys: seq<int>, nearest: Result<string>)
    requires tolerance > 0.0
    requires |queries| == |results| < |points|
    requires Answered(entries, segs, points, tolerance, distance, queries, results)
    requires IsAnswer(entries, BufferBounds(points[|queries|], tolerance), keys)
    requires nearest == MatchRecord(segs, keys, points[|queries|], distance)
    ensures Answered(entries, segs, points, tolerance, distance, queries + [keys], results + [nearest])
  {
    assert (queries + [keys])[..|queries|] == queries;
    assert (results + [nearest])[..|queries|] == results;
  }

  /** What `Answered` says about each record reached. */
  lemma {:induction false} AnsweredEach(entries: seq<Entry>, segs: seq<Segment>, points: seq<Point>, tolerance: real,
                                        distance: Distance, queries: seq<seq<int>>, results: seq<Result<string>>)
    requires tolerance > 0.0
    requires |queries| == |results| <= |points|
    requires Answered(entries, segs, points, tolerance, distance, queries, results)
    ensures forall k :: 0 <= k < |queries| ==>
              && IsAnswer(entries, BufferBounds(points[k], tolerance), queries[k])
              && results[k] == MatchRecord(segs, queries[k], points[k], distance)
  {
    if |queries| > 0 {
      var n := |queries| - 1;
      AnsweredEach(entries, segs, points, tolerance, distance, queries[..n], results[..n]);
    }
  }

  /** The loop of `find_nearest`: annotates the records one after the
      other, in place. `queries` records what the index returned for each
      record reached and `results` what matching it gave. An exception
      stops the pass: the records before it are annotated, the failing one
      and those after it are untouched. */
  method AnnotateRecords(records: seq<PointRecord>, segs: seq<Segment>, index: Index, tolerance: real, distance: Distance)
    returns (failure: Option<Error>, ghost queries: seq<seq<int>>, ghost results: seq<Result<string>>)
    requires tolerance > 0.0
    requires forall j, k :: 0 <= j < k < |records| ==> records[j] != records[k]
    modifies set r | r in records
    ensures index.entries == old(index.entries)
    ensures |queries| == |results| <= |records|
    ensures Answered(index.entries, segs, Points(records), tolerance, distance, queries, results)
    ensures failure.None? ==> |queries| == |records|
    ensures failure.Some? ==> |queries| >= 1 && results[|queries| - 1] == Err(failure.value)
    ensures forall k :: 0 <= k < |queries| ==> (results[k].Ok? <==> failure.None? || k < |queries| - 1)
    ensures forall k :: 0 <= k < |queries| ==> records[k].properties == Annotated(old(records[k].properties), results[k])
    ensures forall k :: |queries| <= k < |records| ==> records[k].properties == old(records[k].properties)
  {
    queries, results, failure := [], [], None;
    ghost var entries, points := index.entries, Points(records);
    var i := 0;
    while i < |records| && failure.None?
      invariant 0 <= i <= |records|
      invariant |queries| == |results| == i
      invariant index.entries == entries
      invariant Answered(entries, segs, points, tolerance, distance, queries, results)
      invariant failure.Some? ==> i >= 1 && results[i - 1] == Err(failure.value)
      invariant forall k :: 0 <= k < i ==> (results[k].Ok? <==> failure.None? || k < i - 1)
      invariant forall k :: 0 <= k < i ==> records[k].properties == Annotated(old(records[k].properties), results[k])
      invariant forall k :: i <= k < |records| ==> records[k].properties == old(records[k].properties)
    {
      var nearest, keys := MatchOne(records[i], segs, index, tolerance, distance);
      AnsweredSnoc(entries, segs, points, tolerance, distance, queries, results, keys, nearest);
      queries, results := queries + [keys], results + [nearest];
      if nearest.Err? {
        failure := Some(nearest.error);
      }
      i := i + 1;
    }
  }

  /** `find_nearest`: the loop above, stated record by record, with what
      it means for a pass that raises nothing: every record ends with
      `near_id` set. */
  method FindNearest(records: seq<PointRecord>, segs: seq<Segment>, index: Index, tolerance: real, distance: Distance)
    returns (failure: Option<Error>, ghost queries: seq<seq<int>>, ghost results: seq<Result<string>>)
    requires tolerance > 0.0
    requires forall j, k :: 0 <= j < k < |records| ==> records[j] != records[k]
    modifies set r | r in records
    ensures index.entries == old(index.entries)
    ensures |queries| == |results| <= |records|
    ensures failure.None? ==> |queries| == |records|
    ensures failure.Some? ==> |queries| >= 1 && results[|queries| - 1] == Err(failure.value)
    ensures forall k :: 0 <= k < |queries| ==>
              IsAnswer(index.entries, BufferBounds(records[k].point, tolerance), queries[k])
    ensures forall k :: 0 <= k < |queries| ==> results[k] == MatchRecord(segs, queries[k], records[k].point, distance)
    ensures forall k :: 0 <= k < |queries| ==> (results[k].Ok? <==> failure.None? || k < |queries| - 1)
    ensures forall k :: 0 <= k < |queries| ==> records[k].properties == Annotated(old(records[k].properties), results[k])
    ensures forall k :: |queries| <= k < |records| ==> records[k].properties == old(records[k].properties)
    ensures failure.None? ==> forall k :: 0 <= k < |records| ==> NearIdKey in records[k].properties
  {
    failure, queries, results := AnnotateRecords(records, segs, index, tolerance, distance);
    AnsweredEach(index.entries, segs, Points(records), tolerance, distance, queries, results);
  }

  /** The distance of the segment at a valid position `key`. */
  function DistanceAt(segs: seq<Segment>, key: int, p: Point, distance: Distance): real
    requires HasId(segs, key)
  {
    CandidateOf(segs, key, p, distance).dist
  }

  /** The segment `id` at a valid position `key`. */
  function IdAt(segs: seq<Segment>, key: int): string
    requires HasId(segs, key)
  {
    At(segs, key).value.properties[IdKey]
  }

  /** Position `i` of the query answer holds a segment at the smallest
      distance, and no earlier position holds one as near: the candidate
      Python's `min` picks. */
  predicate FirstNearestAt(segs: seq<Segment>, keys: seq<int>, p: Point, distance: Distance, i: int)
  {
    && 0 <= i < |keys|
    && (forall j :: 0 <= j < |keys| ==> HasId(segs, keys[j]))
    && (forall j :: 0 <= j < |keys| ==> DistanceAt(segs, keys[i], p, distance) <= DistanceAt(segs, keys[j], p, distance))
    && (forall j :: 0 <= j < i ==> DistanceAt(segs, keys[j], p, distance) > DistanceAt(segs, keys[i], p, distance))
  }

  /** A successful match writes `""` for an empty query answer, and
      otherwise the `id` of a queried segment at the smallest distance, the
      first such one in query order. */
  lemma MatchRecordChoice(segs: seq<Segment>, keys: seq<int>, p: Point, distance: Distance)
    requires MatchRecord(segs, keys, p, distance).Ok?
    ensures |keys| == 0 ==> MatchRecord(segs, keys, p, distance).value == ""
    ensures |keys| > 0 ==> exists i :: FirstNearestAt(segs, keys, p, distance, i)
                                       && MatchRecord(segs, keys, p, distance).value == IdAt(segs, keys[i])
  {
    CandidatesSpec(segs, keys, p, distance);
    if |keys| > 0 {
      var cs := Candidates(segs, keys, p, distance).value;
      var i :| IsFirstMinimum(cs, i) && NearId(cs) == cs[i].id;
      assert forall j :: 0 <= j < |keys| ==> cs[j] == CandidateOf(segs, keys[j], p, distance);
      assert FirstNearestAt(segs, keys, p, distance, i);
    }
  }

  /** Matching raises for one answer exactly when it raises for any other
      answer with the same positions. */
  lemma MatchFailsIndependently(segs: seq<Segment>, keys1: seq<int>, keys2: seq<int>, p: Point, distance: Distance)
    requires multiset(keys1) == multiset(keys2)
    ensures MatchRecord(segs, keys1, p, distance).Ok? <==> MatchRecord(segs, keys2, p, distance).Ok?
  {
    CandidatesSpec(segs, keys1, p, distance);
    CandidatesSpec(segs, keys2, p, distance);
    forall i | 0 <= i < |keys1| ensures keys1[i] in keys2 {
      assert keys1[i] in multiset(keys2);
    }
    forall j | 0 <= j < |keys2| ensures keys2[j] in keys1 {
      assert keys2[j] in multiset(keys1);
    }
  }

  /** Against an index built by `ReadSegments` over segments that all carry
      an `id`, every answer to a query names segments whose bounds meet the
      query box, and matching never raises. */
  lemma BuiltIndexNeverFails(entries: seq<Entry>, segs: seq<Segment>, q: Box, keys: seq<int>, p: Point, distance: Distance)
    requires IndexesSegments(entries, segs)
    requires forall i :: 0 <= i < |segs| ==> IdKey in segs[i].properties
    requires IsAnswer(entries, q, keys)
    ensures forall i :: 0 <= i < |keys| ==> 0 <= keys[i] < |segs| && Intersects(segs[keys[i]].geometry.bounds, q)
    ensures MatchRecord(segs, keys, p, distance).Ok?
  {
    forall i | 0 <= i < |keys|
      ensures 0 <= keys[i] < |segs| && Intersects(segs[keys[i]].geometry.bounds, q)
    {
      assert multiset(keys)[keys[i]] > 0;
      BuiltIndexQuery(entries, segs, q, keys[i]);
    }
    CandidatesSpec(segs, keys, p, distance);
  }

  /** No segment within the tolerance is overlooked: if segment `j` lies
      within `t` of the point, the query over the buffered box returns it,
      and the segment chosen is at most as far as `j`. */
  lemma NothingWithinToleranceIsMissed(entries: seq<Entry>, segs: seq<Segment>, p: Point, t: real,
                                       keys: seq<int>, distance: Distance, j: int)
    requires t > 0.0
    requires IndexesSegments(entries, segs)
    requires forall i :: 0 <= i < |segs| ==> IdKey in segs[i].properties
    requires IsAnswer(entries, BufferBounds(p, t), keys)
    requires 0 <= j < |segs| && segs[j].geometry.bounds.Valid()
    requires RespectsBounds(distance, segs[j].geometry, p)
    requires distance(segs[j].geometry, p) <= t
    ensures j in keys
    ensures MatchRecord(segs, keys, p, distance).Ok?
    ensures exists i :: && 0 <= i < |keys| && 0 <= keys[i] < |segs|
                        && MatchRecord(segs, keys, p, distance).value == segs[keys[i]].properties[IdKey]
                        && distance(segs[keys[i]].geometry, p) <= distance(segs[j].geometry, p)
  {
    WithinToleranceIntersects(distance, segs[j].geometry, p, t);
    BuiltIndexQuery(entries, segs, BufferBounds(p, t), j);
    assert j in multiset(keys);
    var m :| 0 <= m < |keys| && keys[m] == j;
    BuiltIndexNeverFails(entries, segs, BufferBounds(p, t), keys, p, distance);
    MatchRecordChoice(segs, keys, p, distance);
    var i :| FirstNearestAt(segs, keys, p, distance, i) && MatchRecord(segs, keys, p, distance).value == IdAt(segs, keys[i]);
    assert DistanceAt(segs, keys[i], p, distance) <= DistanceAt(segs, keys[m], p, distance);
  }

  /** When no segment has an empty `id`, `near_id` is empty exactly when
      the query returned nothing. */
  lemma EmptyNearIdIffNoCandidates(segs: seq<Segment>, keys: seq<int>, p: Point, distance: Distance)
    requires forall i :: 0 <= i < |segs| ==> IdKey in segs[i].properties && segs[i].properties[IdKey] != ""
    requires MatchRecord(segs, keys, p, distance).Ok?
    ensures MatchRecord(segs, keys, p, distance).value == "" <==> |keys| == 0
  {
    MatchRecordChoice(segs, keys, p, distance);
  }

  /** With an index built over the segments and no empty `id`, an empty
      `near_id` means every segment is farther from the point than the
      tolerance. */
  lemma EmptyNearIdMeansNoneWithinTolerance(entries: seq<Entry>, segs: seq<Segment>, p: Point, t: real,
                                            keys: seq<int>, distance: Distance)
    requires t > 0.0
    requires IndexesSegments(entries, segs)
    requires forall i :: 0 <= i < |segs| ==> IdKey in segs[i].properties && segs[i].properties[IdKey] != ""
    requires forall i :: 0 <= i < |segs| ==> segs[i].geometry.bounds.Valid() && RespectsBounds(distance, segs[i].geometry, p)
    requires IsAnswer(entries, BufferBounds(p, t), keys)
    requires MatchRecord(segs, keys, p, distance) == Ok("")
    ensures forall i :: 0 <= i < |segs| ==> distance(segs[i].geometry, p) > t
  {
    EmptyNearIdIffNoCandidates(segs, keys, p, distance);
    forall i | 0 <= i < |segs| ensures distance(segs[i].geometry, p) > t {
      if distance(segs[i].geometry, p) <= t {
        NothingWithinToleranceIsMissed(entries, segs, p, t, keys, distance, i);
      }
    }
  }

  /** A query box that meets no segment's bounds gets no answer from an
      index built over the segments, so the record gets `""`. */
  lemma NoBoundsMetMatchesNothing(entries: seq<Entry>, segs: seq<Segment>, q: Box, keys: seq<int>, p: Point, distance: Distance)
    requires IndexesSegments(entries, segs)
    requires forall i :: 0 <= i < |segs| ==> !Intersects(segs[i].geometry.bounds, q)
    requires IsAnswer(entries, q, keys)
    ensures keys == []
    ensures MatchRecord(segs, keys, p, distance) == Ok("")
  {
    if |keys| > 0 {
      assert keys[0] in multiset(keys);
      BuiltIndexQuery(entries, segs, q, keys[0]);
    }
  }

  /** A record whose buffered box meets no segment's bounds gets `""`,
      the no-match case of the matcher. */
  lemma NothingNearbyMatchesNothing(entries: seq<Entry>, segs: seq<Segment>, p: Point, t: real, keys: seq<int>, distance: Distance)
    requires t > 0.0
    requires IndexesSegments(entries, segs)
    requires forall i :: 0 <= i < |segs| ==> !Intersects(segs[i].geometry.bounds, BufferBounds(p, t))
    requires IsAnswer(entries, BufferBounds(p, t), keys)
    ensures MatchRecord(segs, keys, p, distance) == Ok("")
  {
    NoBoundsMetMatchesNothing(entries, segs, BufferBounds(p, t), keys, p, distance);
  }

  /** With no segments, the index is empty and every record gets `""`. */
  lemma EmptyStoreMatchesNothing(q: Box, keys: seq<int>, p: Point, distance: Distance)
    requires IsAnswer([], q, keys)
    ensures MatchRecord([], keys, p, distance) == Ok("")
  {
    assert |multiset(keys)| == 0;
  }

  /** Tolerance shapes the query box only: a single segment whose bounds
      meet the buffered box is chosen, whatever its distance to the point,
      even one farther away than the tolerance. */
  lemma ToleranceOnlyShapesQuery(g: Geometry, id: string, p: Point, t: real, keys: seq<int>, distance: Distance)
    requires t > 0.0
    requires Intersects(g.bounds, BufferBounds(p, t))
    requires IsAnswer([Entry(0, g.bounds)], BufferBounds(p, t), keys)
    ensures MatchRecord([Segment(g, map[IdKey := id])], keys, p, distance) == Ok(id)
  {
    var segs := [Segment(g, map[IdKey := id])];
    assert IndexesSegments([Entry(0, g.bounds)], segs);
    BuiltIndexNeverFails([Entry(0, g.bounds)], segs, BufferBounds(p, t), keys, p, distance);
    BuiltIndexQuery([Entry(0, g.bounds)], segs, BufferBounds(p, t), 0);
    assert |keys| > 0 by { assert 0 in multiset(keys); }
    MatchRecordChoice(segs, keys, p, distance);
  }

  /** No two queried segments with different `id`s lie at the same
      distance from the point. */
  predicate NoTies(segs: seq<Segment>, keys: seq<int>, p: Point, distance: Distance)
  {
    forall i, j :: 0 <= i < |keys| && 0 <= j < |keys| && HasId(segs, keys[i]) && HasId(segs, keys[j])
                   && DistanceAt(segs, keys[i], p, distance) == DistanceAt(segs, keys[j], p, distance)
                   ==> IdAt(segs, keys[i]) == IdAt(segs, keys[j])
  }

  /** The match does not depend on the order the index answers in when
      there are no ties: two answers with the same positions agree on
      whether they raise and, on success, on the `id` chosen. */
  lemma MatchOrderIndependent(segs: seq<Segment>, keys1: seq<int>, keys2: seq<int>, p: Point, distance: Distance)
    requires multiset(keys1) == multiset(keys2)
    requires NoTies(segs, keys1, p, distance)
    ensures MatchRecord(segs, keys1, p, distance).Ok? <==> MatchRecord(segs, keys2, p, distance).Ok?
    ensures MatchRecord(segs, keys1, p, distance).Ok? ==>
              MatchRecord(segs, keys1, p, distance) == MatchRecord(segs, keys2, p, distance)
  {
    MatchFailsIndependently(segs, keys1, keys2, p, distance);
    if MatchRecord(segs, keys1, p, distance).Ok? {
      MatchRecordChoice(segs, keys1, p, distance);
      MatchRecordChoice(segs, keys2, p, distance);
      if |keys1| == 0 {
        assert |multiset(keys2)| == 0;
      } else {
        assert |keys2| > 0 by { assert keys1[0] in multiset(keys2); }
        var a :| FirstNearestAt(segs, keys1, p, distance, a) && MatchRecord(segs, keys1, p, distance).value == IdAt(segs, keys1[a]);
        var b :| FirstNearestAt(segs, keys2, p, distance, b) && MatchRecord(segs, keys2, p, distance).value == IdAt(segs, keys2[b]);
        assert keys1[a] in multiset(keys2) && keys2[b] in multiset(keys1);
        var a2 :| 0 <= a2 < |keys2| && keys2[a2] == keys1[a];
        var b1 :| 0 <= b1 < |keys1| && keys1[b1] == keys2[b];
        assert DistanceAt(segs, keys2[b], p, distance) <= DistanceAt(segs, keys2[a2], p, distance);
        assert DistanceAt(segs, keys1[a], p, distance) <= DistanceAt(segs, keys1[b1], p, distance);
      }
    }
  }

  /** Running the matcher again over the same index without ties writes the
      same `near_id`, and writing it a second time changes nothing. */
  lemma RepeatedMatchAgrees(entries: seq<Entry>, segs: seq<Segment>, p: Point, t: real,
                            keys1: seq<int>, keys2: seq<int>, distance: Distance, properties: Row)
    requires t > 0.0
    requires IsAnswer(entries, BufferBounds(p, t), keys1)
    requires IsAnswer(entries, BufferBounds(p, t), keys2)
    requires NoTies(segs, keys1, p, distance)
    requires MatchRecord(segs, keys1, p, distance).Ok?
    ensures MatchRecord(segs, keys2, p, distance) == MatchRecord(segs, keys1, p, distance)
    ensures var once := Annotated(properties, MatchRecord(segs, keys1, p, distance));
            Annotated(once, MatchRecord(segs, keys2, p, distance)) == once
  {
    MatchOrderIndependent(segs, keys1, keys2, p, distance);
  }

  /** Ties go to whichever equal candidate the index answers first: with two
      segments at the same distance, the two answer orders pick different
      `id`s. */
  lemma TiesFollowQueryOrder(g0: Geometry, g1: Geometry, p: Point, distance: Distance)
    requires distance(g0, p) == distance(g1, p)
    ensures MatchRecord([Segment(g0, map[IdKey := "A"]), Segment(g1, map[IdKey := "B"])], [0, 1], p, distance) == Ok("A")
    ensures MatchRecord([Segment(g0, map[IdKey := "A"]), Segment(g1, map[IdKey := "B"])], [1, 0], p, distance) == Ok("B")
  {
    var segs := [Segment(g0, map[IdKey := "A"]), Segment(g1, map[IdKey := "B"])];
    CandidatesSpec(segs, [0, 1], p, distance);
    CandidatesSpec(segs, [1, 0], p, distance);
  }
}
