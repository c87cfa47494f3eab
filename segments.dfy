/** The segment store and its spatial index: intersection segments
    followed by non-intersection segments, each inserted into the index
    under its position in that combined list. */
module Segments {
  import opened Geometry
  import opened RTree

  /** A road segment: its geometry and its attribute table (which carries
      the segment's `id`). */
  datatype Segment = Segment(geometry: Geometry, properties: map<string, string>)

  /** Entry `i` of the index is key `i` with the bounds of segment `i`, and
      there is one entry per segment. */
  predicate IndexesSegments(entries: seq<Entry>, segs: seq<Segment>)
  {
    && |entries| == |segs|
    && forall i :: 0 <= i < |segs| ==> entries[i] == Entry(i, segs[i].geometry.bounds)
  }

  /** `read_segments` once the two shapefiles are read: concatenate and
      index every segment under its position. */
  method ReadSegments(inter: seq<Segment>, nonInter: seq<Segment>) returns (combined: seq<Segment>, index: Index)
    requires forall i :: 0 <= i < |inter| ==> inter[i].geometry.bounds.Valid()
    requires forall i :: 0 <= i < |nonInter| ==> nonInter[i].geometry.bounds.Valid()
    ensures combined == inter + nonInter
    ensures fresh(index)
    ensures IndexesSegments(index.entries, combined)
  {
    combined := inter + nonInter;
    index := new Index();
    for idx := 0 to |combined|
      invariant IndexesSegments(index.entries, combined[..idx])
    {
      assert combined[idx].geometry.bounds.Valid() by {
        if idx >= |inter| { assert combined[idx] == nonInter[idx - |inter|]; }
      }
      index.Insert(idx, combined[idx].geometry.bounds);
    }
    assert combined[..|combined|] == combined;
  }

  /** Querying an index built by `ReadSegments` returns every position whose
      segment bounds meet the query box exactly once, and nothing else. */
  lemma {:induction false} BuiltIndexQuery(entries: seq<Entry>, segs: seq<Segment>, q: Box, k: int)
    requires IndexesSegments(entries, segs)
    ensures multiset(Matching(entries, q))[k]
         == if 0 <= k < |segs| && Intersects(segs[k].geometry.bounds, q) then 1 else 0
  {
    if |segs| > 0 {
      var n := |segs| - 1;
      assert IndexesSegments(entries[..n], segs[..n]);
      BuiltIndexQuery(entries[..n], segs[..n], q, k);
      assert entries[n] == Entry(n, segs[n].geometry.bounds);
    }
  }
}
