/** The spatial index the core builds over segment bounds (an `rtree`
    index in the source). Only what the core relies on is modelled: the
    index holds `(key, box)` entries in insertion order, `Insert` adds one,
    and `Intersection` returns the keys of the entries whose box meets the
    query box, once per entry, in an order the index does not promise. */
module RTree {
  import opened Geometry

  datatype Entry = Entry(key: int, box: Box)

  /** The keys of the entries meeting `q`, in insertion order. */
  function Matching(entries: seq<Entry>, q: Box): (keys: seq<int>)
    ensures |keys| <= |entries|
  {
    if |entries| == 0 then []
    else
      var last := entries[|entries| - 1];
      Matching(entries[..|entries| - 1], q) + (if Intersects(last.box, q) then [last.key] else [])
  }

  /** A key is returned exactly when some entry with that key meets the query box. */
  lemma {:induction false} MatchingMembers(entries: seq<Entry>, q: Box, k: int)
    ensures k in Matching(entries, q)
        <==> exists j :: 0 <= j < |entries| && entries[j].key == k && Intersects(entries[j].box, q)
  {
    if |entries| > 0 {
      var init := entries[..|entries| - 1];
      MatchingMembers(init, q, k);
      if k in Matching(entries, q) && k !in Matching(init, q) {
        var j := |entries| - 1;
        assert entries[j].key == k && Intersects(entries[j].box, q);
      }
      if exists j :: 0 <= j < |entries| && entries[j].key == k && Intersects(entries[j].box, q) {
        var j :| 0 <= j < |entries| && entries[j].key == k && Intersects(entries[j].box, q);
        if j < |entries| - 1 {
          assert init[j] == entries[j];
        }
      }
    }
  }

  /** `keys` is a possible answer of an intersection query with box `q`:
      the keys of the entries meeting `q`, in any order. */
  predicate IsAnswer(entries: seq<Entry>, q: Box, keys: seq<int>)
  {
    multiset(keys) == multiset(Matching(entries, q))
  }

  class Index {
    /** The inserted entries, oldest first. */
    var entries: seq<Entry>

    /** `rtree.index.Index()`: an empty index. */
    constructor ()
      ensures entries == []
    {
      entries := [];
    }

    /** `index.insert(key, box)`. The box must have its minimums at most its
        maximums, as every geometry's bounds do. */
    method Insert(key: int, box: Box)
      requires box.Valid()
      modifies this
      ensures entries == old(entries) + [Entry(key, box)]
    {
      entries := entries + [Entry(key, box)];
    }

    /** `index.intersection(q)`: the keys of all entries whose box meets
        `q`, each entry counted once. Only the multiset is promised; callers
        cannot rely on the order. */
    method Intersection(q: Box) returns (keys: seq<int>)
      ensures IsAnswer(entries, q, keys)
    {
      keys := [];
      var i := 0;
      while i < |entries|
        invariant 0 <= i <= |entries|
        invariant keys == Matching(entries[..i], q)
      {
        assert entries[..i + 1][..i] == entries[..i];
        if Intersects(entries[i].box, q) {
          keys := keys + [entries[i].key];
        }
        i := i + 1;
      }
      assert entries[..i] == entries;
    }
  }
}
