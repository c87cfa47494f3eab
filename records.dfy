/** The record projector: CSV rows become point records (a point plus the
    row itself as the record's properties). Rows whose x field is blank are
    skipped; any other problem with a row raises and aborts the whole read. */
module Records {
  import opened Errors
  import opened Geometry

  /** A CSV row as `csv.DictReader` gives it: field name to text. */
  type Row = map<string, string>

  /** Python's `float(text)`, abstracted: `None` where it raises ValueError. */
  type ParseFloat = string -> Option<real>

  /** `pyproj.transform(orig, new, x, y)` between two fixed reference
      systems, abstracted as a total function on coordinates. */
  type Reprojection = (real, real) -> (real, real)

  /** The value of a record dict `{'point': ..., 'properties': ...}`. */
  datatype Projected = Projected(point: Point, properties: Row)

  /** A record as the matcher sees it: its point never changes, its
      properties are a dict the matcher writes to in place. */
  class PointRecord {
    const point: Point
    var properties: Row

    constructor (point: Point, properties: Row)
      ensures this.point == point && this.properties == properties
    {
      this.point := point;
      this.properties := properties;
    }
  }

  /** `read_record`: the record's point from its two coordinate texts,
      reprojected when a source system is given, with the record itself as
      its properties. Fails when either text is not a number. */
  function ReadRecord(record: Row, x: string, y: string, orig: Option<Reprojection>, parse: ParseFloat): (r: Result<Projected>)
    ensures r.Ok? <==> parse(x).Some? && parse(y).Some?
    ensures parse(x).None? ==> r == Err(ValueError(x))
    ensures parse(x).Some? && parse(y).None? ==> r == Err(ValueError(y))
    ensures r.Ok? ==> r.value.properties == record
    ensures r.Ok? && orig.None? ==> r.value.point == Point(parse(x).value, parse(y).value)
    ensures r.Ok? && orig.Some?
            ==> (r.value.point.x, r.value.point.y) == orig.value(parse(x).value, parse(y).value)
  {
    match (parse(x), parse(y))
    case (None, _) => Err(ValueError(x))
    case (Some(_), None) => Err(ValueError(y))
    case (Some(px), Some(py)) =>
      var (wx, wy) := if orig.Some? then orig.value(px, py) else (px, py);
      Ok(Projected(Point(wx, wy), record))
  }

  /** A row the projector keeps: its x field is present and not blank. */
  predicate HasCoordinate(row: Row, x: string)
  {
    x in row && row[x] != ""
  }

  /** The rows the projector keeps, in input order. */
  function Kept(rows: seq<Row>, x: string): seq<Row>
  {
    if |rows| == 0 then []
    else (if HasCoordinate(rows[0], x) then [rows[0]] else []) + Kept(rows[1..], x)
  }

  /** What `csv_to_projected_records` computes for the given rows: one
      record per row with a non-blank x field, reprojected from geographic
      coordinates; the first row that lacks a field or holds a non-number
      coordinate raises. */
  function ProjectRows(rows: seq<Row>, x: string, y: string, toWorking: Reprojection, parse: ParseFloat): Result<seq<Projected>>
  {
    if |rows| == 0 then Ok([])
    else
      var row := rows[0];
      if x !in row then Err(KeyError(x))
      else if row[x] == "" then ProjectRows(rows[1..], x, y, toWorking, parse)
      else if y !in row then Err(KeyError(y))
      else match ReadRecord(row, row[x], row[y], Some(toWorking), parse)
        case Err(e) => Err(e)
        case Ok(p) =>
          match ProjectRows(rows[1..], x, y, toWorking, parse)
          case Err(e) => Err(e)
          case Ok(ps) => Ok([p] + ps)
  }

  /** `vs` in front of a successful result; an error stays as it is. */
  function Prepend(vs: seq<Projected>, r: Result<seq<Projected>>): Result<seq<Projected>>
  {
    match r
    case Ok(ps) => Ok(vs + ps)
    case Err(e) => Err(e)
  }

  /** Prepending one value and then several is prepending them all. */
  lemma PrependTwice(vs: seq<Projected>, p: Projected, r: Result<seq<Projected>>)
    ensures Prepend(vs, Prepend([p], r)) == Prepend(vs + [p], r)
  {
    if r.Ok? {
      assert vs + ([p] + r.value) == (vs + [p]) + r.value;
    }
  }

  /** `csv_to_projected_records` once the file is open: reads the rows in
      order and builds a fresh record for each kept one. */
  method CsvToProjectedRecords(rows: seq<Row>, x: string, y: string, toWorking: Reprojection, parse: ParseFloat)
    returns (result: Result<seq<PointRecord>>)
    ensures ProjectRows(rows, x, y, toWorking, parse).Err? ==> result == Err(ProjectRows(rows, x, y, toWorking, parse).error)
    ensures ProjectRows(rows, x, y, toWorking, parse).Ok? ==> result.Ok?
    ensures result.Ok? ==>
              var expected := ProjectRows(rows, x, y, toWorking, parse).value;
              && |result.value| == |expected|
              && forall k :: 0 <= k < |expected| ==>
                   && fresh(result.value[k])
                   && result.value[k].point == expected[k].point
                   && result.value[k].properties == expected[k].properties
    ensures result.Ok? ==> forall j, k :: 0 <= j < k < |result.value| ==> result.value[j] != result.value[k]
  {
    var records: seq<PointRecord> := [];
    ghost var values: seq<Projected> := [];
    var i := 0;
    assert rows[0..] == rows;
    match ProjectRows(rows, x, y, toWorking, parse) {
      case Ok(ps) => assert [] + ps == ps;
      case Err(_) =>
    }
    while i < |rows|
      invariant 0 <= i <= |rows|
      invariant |records| == |values|
      invariant ProjectRows(rows, x, y, toWorking, parse) == Prepend(values, ProjectRows(rows[i..], x, y, toWorking, parse))
      invariant forall k :: 0 <= k < |records| ==>
                  && fresh(records[k])
                  && records[k].point == values[k].point
                  && records[k].properties == values[k].properties
      invariant forall j, k :: 0 <= j < k < |records| ==> records[j] != records[k]
    {
      var row := rows[i];
      assert rows[i..][0] == row && rows[i..][1..] == rows[i + 1..];
      if x !in row {
        return Err(KeyError(x));
      }
      if row[x] != "" {
        if y !in row {
          return Err(KeyError(y));
        }
        match ReadRecord(row, row[x], row[y], Some(toWorking), parse)
        case Err(e) =>
          return Err(e);
        case Ok(p) =>
          assert ProjectRows(rows[i..], x, y, toWorking, parse) == Prepend([p], ProjectRows(rows[i + 1..], x, y, toWorking, parse));
          PrependTwice(values, p, ProjectRows(rows[i + 1..], x, y, toWorking, parse));
          var record := new PointRecord(p.point, p.properties);
          assert forall k :: 0 <= k < |records| ==> records[k] != record;
          records := records + [record];
          values := values + [p];
      }
      i := i + 1;
    }
    assert rows[i..] == [];
    assert values + [] == values;
    return Ok(records);
  }

  /** The projected value of one kept row, when it has one. */
  function ReadProjected(row: Row, x: string, y: string, toWorking: Reprojection, parse: ParseFloat): Option<Projected>
  {
    if x in row && y in row then
      match ReadRecord(row, row[x], row[y], Some(toWorking), parse)
      case Ok(p) => Some(p)
      case Err(_) => None
    else None
  }

  /** One step of a successful projection: the first row contributes its
      record when it is kept and nothing otherwise. */
  lemma ProjectRowsStep(rows: seq<Row>, x: string, y: string, toWorking: Reprojection, parse: ParseFloat)
    requires |rows| > 0 && ProjectRows(rows, x, y, toWorking, parse).Ok?
    ensures ProjectRows(rows[1..], x, y, toWorking, parse).Ok?
    ensures HasCoordinate(rows[0], x) ==>
              && y in rows[0] && ReadProjected(rows[0], x, y, toWorking, parse).Some?
              && ProjectRows(rows, x, y, toWorking, parse).value
                 == [ReadProjected(rows[0], x, y, toWorking, parse).value] + ProjectRows(rows[1..], x, y, toWorking, parse).value
    ensures !HasCoordinate(rows[0], x) ==>
              ProjectRows(rows, x, y, toWorking, parse).value == ProjectRows(rows[1..], x, y, toWorking, parse).value
  {
  }

  /** A successful projection keeps exactly the rows with a non-blank x
      field, in input order and unchanged, each with the point read from
      its coordinate fields. */
  lemma {:induction false} ProjectRowsKeepsRows(rows: seq<Row>, x: string, y: string, toWorking: Reprojection, parse: ParseFloat)
    requires ProjectRows(rows, x, y, toWorking, parse).Ok?
    ensures var ps := ProjectRows(rows, x, y, toWorking, parse).value;
            var kept := Kept(rows, x);
            && |ps| == |kept| <= |rows|
            && forall k :: 0 <= k < |ps| ==>
                 && ps[k].properties == kept[k]
                 && y in kept[k]
                 && Some(ps[k]) == ReadProjected(kept[k], x, y, toWorking, parse)
  {
    if |rows| > 0 {
      ProjectRowsStep(rows, x, y, toWorking, parse);
      ProjectRowsKeepsRows(rows[1..], x, y, toWorking, parse);
      var row, ps, kept := rows[0], ProjectRows(rows, x, y, toWorking, parse).value, Kept(rows, x);
      var rest, keptRest := ProjectRows(rows[1..], x, y, toWorking, parse).value, Kept(rows[1..], x);
      if HasCoordinate(row, x) {
        assert kept == [row] + keptRest;
        forall k | 1 <= k < |ps|
          ensures ps[k] == rest[k - 1] && kept[k] == keptRest[k - 1]
        {
        }
      } else {
        assert kept == keptRest;
      }
    }
  }

  /** The projection succeeds exactly when every row has the x field and
      every kept row has the y field and two numeric coordinates. */
  lemma {:induction false} ProjectRowsSucceeds(rows: seq<Row>, x: string, y: string, toWorking: Reprojection, parse: ParseFloat)
    ensures ProjectRows(rows, x, y, toWorking, parse).Ok?
        <==> && (forall k :: 0 <= k < |rows| ==> x in rows[k])
             && (forall k :: 0 <= k < |rows| && HasCoordinate(rows[k], x) ==>
                   y in rows[k] && parse(rows[k][x]).Some? && parse(rows[k][y]).Some?)
  {
    if |rows| > 0 {
      ProjectRowsSucceeds(rows[1..], x, y, toWorking, parse);
      assert forall k :: 1 <= k < |rows| ==> rows[k] == rows[1..][k - 1];
    }
  }
}
