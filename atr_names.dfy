/** The ATR (automatic traffic recorder) filename helpers. A count file is
    named by `_`-separated fields, for example
    `7362_NA_NA_147_TRAIN-ST_DORCHESTER_24-HOURS_XXX_03-19-2014.XLSX`:
    fields 3 and 4 hold the street address, field 6 the count duration,
    field 7 the count type and field 8 the date and the file extension. */
module AtrNames {
  import opened Errors
  import opened Text

  /** `7362_NA_NA_147_TRAIN-ST_DORCHESTER_24-HOURS_XXX_03-19-2014.XLSX`, the
      example of the helpers' documentation, written piece by piece. */
  const DocExampleName: string :=
    "7362" + "_" + "NA" + "_" + "NA" + "_" + "147" + "_" + "TRAIN-ST" + "_" + "DORCHESTER"
    + "_" + "24-HOURS" + "_" + "XXX" + "_" + ("03-19-2014" + "." + "XLSX")

  /** Whether the file is one the pipeline reads: a 24-hour count of type
      XXX (speed, volume and classification) stored as XLSX. The extension
      is the second `.`-piece of field 8. A name with fewer than nine
      fields, or whose field 8 has no `.`, raises IndexError. */
  function IsReadableAtr(fname: string): (r: Result<bool>)
    ensures r.Ok? <==> |Split(fname, '_')| >= 9 && '.' in Split(fname, '_')[8]
    ensures |Split(fname, '_')| < 9 ==> r == Err(IndexError(8))
    ensures r.Err? && |Split(fname, '_')| >= 9 ==> r == Err(IndexError(1))
    ensures r.Ok? ==> |Split(Split(fname, '_')[8], '.')| >= 2
    ensures r.Ok? ==> (r.value <==> && Split(fname, '_')[7] == "XXX"
                                    && Split(fname, '_')[6] == "24-HOURS"
                                    && Split(Split(fname, '_')[8], '.')[1] == "XLSX")
  {
    var meta := Split(fname, '_');
    match At(meta, 8)
    case Err(e) => Err(e)
    case Ok(field8) =>
      var pieces := Split(field8, '.');
      SplitMany(field8, '.');
      match At(pieces, 1)
      case Err(e) => Err(e)
      case Ok(fileType) => Ok(meta[7] == "XXX" && meta[6] == "24-HOURS" && fileType == "XLSX")
  }

  /** The street address in the filename, ready for geocoding: fields 3 and 4
      joined by a space, hyphens turned into spaces, and the city appended.
      Never fails: a short name yields fewer (or no) address fields. */
  function CleanAtrFname(fname: string): (address: string)
    ensures |address| >= |" Boston, MA"|
    ensures address[|address| - |" Boston, MA"|..] == " Boston, MA"
    ensures '-' !in address[..|address| - |" Boston, MA"|]
  {
    var street := Dehyphen(Join(Slice(Split(fname, '_'), 3, 5), ' '));
    assert (street + " Boston, MA")[..|street|] == street;
    street + " Boston, MA"
  }

  /** For a filename assembled from `_`-free fields whose field 8 is
      `stem.ext` (neither containing `.`), readability is decided by
      fields 6 and 7 and the extension alone. */
  lemma IsReadableAtrOfFields(fields: seq<string>, stem: string, ext: string)
    requires |fields| >= 9
    requires forall k :: 0 <= k < |fields| ==> '_' !in fields[k]
    requires '.' !in stem && '.' !in ext
    requires fields[8] == stem + "." + ext
    ensures IsReadableAtr(Join(fields, '_'))
         == Ok(fields[7] == "XXX" && fields[6] == "24-HOURS" && ext == "XLSX")
  {
    SplitJoin(fields, '_');
    SplitJoin([stem, ext], '.');
    assert Join([stem, ext], '.') == stem + "." + ext;
  }

  /** Hyphen replacement works field by field across a space. */
  lemma DehyphenJoin(a: string, b: string)
    ensures Dehyphen(a + " " + b) == Dehyphen(a) + " " + Dehyphen(b)
  {
    var l, r := Dehyphen(a + " " + b), Dehyphen(a) + " " + Dehyphen(b);
    assert |l| == |r|;
    forall k | 0 <= k < |l| ensures l[k] == r[k] {
      if k < |a| {
        assert (a + " " + b)[k] == a[k];
      } else if k > |a| {
        assert (a + " " + b)[k] == b[k - |a| - 1];
      }
    }
  }

  /** The address is made of field 3 and field 4 of the name, as many of
      them as there are, with hyphens as spaces, then the city. */
  lemma CleanAtrFnameFields(fname: string)
    ensures var f := Split(fname, '_');
            && (|f| >= 5 ==> CleanAtrFname(fname) == Dehyphen(f[3]) + " " + Dehyphen(f[4]) + " Boston, MA")
            && (|f| == 4 ==> CleanAtrFname(fname) == Dehyphen(f[3]) + " Boston, MA")
            && (|f| <= 3 ==> CleanAtrFname(fname) == " Boston, MA")
  {
    var f := Split(fname, '_');
    if |f| >= 5 {
      assert Slice(f, 3, 5) == [f[3], f[4]];
      DehyphenJoin(f[3], f[4]);
    } else if |f| == 4 {
      assert Slice(f, 3, 5) == [f[3]];
    } else {
      assert Slice(f, 3, 5) == [];
    }
  }

  /** For a filename assembled from at least five `_`-free fields, the
      address is field 3 and field 4 with hyphens as spaces, then the city. */
  lemma CleanAtrFnameOfFields(fields: seq<string>)
    requires |fields| >= 5
    requires forall k :: 0 <= k < |fields| ==> '_' !in fields[k]
    ensures CleanAtrFname(Join(fields, '_'))
         == Dehyphen(fields[3]) + " " + Dehyphen(fields[4]) + " Boston, MA"
  {
    SplitJoin(fields, '_');
    CleanAtrFnameFields(Join(fields, '_'));
  }

  /** Joining one more trailing piece. */
  lemma {:induction false} JoinSnoc(parts: seq<string>, x: string, sep: char)
    requires |parts| >= 1
    ensures Join(parts + [x], sep) == Join(parts, sep) + [sep] + x
  {
    if |parts| > 1 {
      JoinSnoc(parts[1..], x, sep);
      assert (parts + [x])[1..] == parts[1..] + [x];
    }
  }

  const DocExampleFields: seq<string> :=
    ["7362", "NA", "NA", "147", "TRAIN-ST", "DORCHESTER", "24-HOURS", "XXX", "03-19-2014" + "." + "XLSX"]

  /** Joining nine pieces, written out. */
  lemma JoinNine(f: seq<string>, sep: char)
    requires |f| == 9
    ensures Join(f, sep) == f[0] + [sep] + f[1] + [sep] + f[2] + [sep] + f[3] + [sep] + f[4]
                            + [sep] + f[5] + [sep] + f[6] + [sep] + f[7] + [sep] + f[8]
  {
    assert f[..2] == [f[0], f[1]];
    JoinSnoc(f[..2], f[2], sep);  assert f[..3] == f[..2] + [f[2]];
    JoinSnoc(f[..3], f[3], sep);  assert f[..4] == f[..3] + [f[3]];
    JoinSnoc(f[..4], f[4], sep);  assert f[..5] == f[..4] + [f[4]];
    JoinSnoc(f[..5], f[5], sep);  assert f[..6] == f[..5] + [f[5]];
    JoinSnoc(f[..6], f[6], sep);  assert f[..7] == f[..6] + [f[6]];
    JoinSnoc(f[..7], f[7], sep);  assert f[..8] == f[..7] + [f[7]];
    JoinSnoc(f[..8], f[8], sep);  assert f == f[..8] + [f[8]];
  }

  /** The example name is its nine fields joined by `_`. */
  lemma DocExampleJoin()
    ensures Join(DocExampleFields, '_') == DocExampleName
  {
    JoinNine(DocExampleFields, '_');
  }

  /** No field of the example contains `_`. */
  lemma DocExampleFieldsClean()
    ensures forall k :: 0 <= k < |DocExampleFields| ==> '_' !in DocExampleFields[k]
  {
    var f := DocExampleFields;
    assert '_' !in f[0] && '_' !in f[1] && '_' !in f[2] && '_' !in f[3] && '_' !in f[4];
    assert '_' !in f[5] && '_' !in f[6] && '_' !in f[7] && '_' !in f[8];
  }

  /** Hyphen replacement on the two address fields of the example. */
  lemma DehyphenExample()
    ensures Dehyphen("147") == "147"
    ensures Dehyphen("TRAIN-ST") == "TRAIN ST"
  {
    var street := Dehyphen("TRAIN-ST");
    assert forall k :: 0 <= k < 8 ==> street[k] == "TRAIN ST"[k];
    var number := Dehyphen("147");
    assert forall k :: 0 <= k < 3 ==> number[k] == "147"[k];
  }

  /** The example's street number and street, hyphens already replaced,
      make the expected address. */
  lemma DocExampleStreet(number: string, street: string)
    requires number == "147" && street == "TRAIN ST"
    ensures number + " " + street + " Boston, MA" == "147 TRAIN ST Boston, MA"
  {
  }

  /** The example of the filename helpers' documentation is a readable ATR. */
  lemma DocExampleReadable()
    ensures IsReadableAtr(DocExampleName) == Ok(true)
  {
    DocExampleJoin();
    DocExampleFieldsClean();
    IsReadableAtrOfFields(DocExampleFields, "03-19-2014", "XLSX");
  }

  /** The example of the filename helpers' documentation cleans to
      `147 TRAIN ST Boston, MA`. */
  lemma DocExampleAddress()
    ensures CleanAtrFname(DocExampleName) == "147 TRAIN ST Boston, MA"
  {
    DocExampleJoin();
    DocExampleFieldsClean();
    AddressOfExampleFields(DocExampleName, DocExampleFields);
  }

  /** Any `_`-free fields with the example's street number and street make
      the example's address. */
  lemma AddressOfExampleFields(name: string, fields: seq<string>)
    requires |fields| >= 5 && fields[3] == "147" && fields[4] == "TRAIN-ST"
    requires forall k :: 0 <= k < |fields| ==> '_' !in fields[k]
    requires name == Join(fields, '_')
    ensures CleanAtrFname(name) == "147 TRAIN ST Boston, MA"
  {
    CleanAtrFnameOfFields(fields);
    DehyphenExample();
    DocExampleStreet(Dehyphen(fields[3]), Dehyphen(fields[4]));
  }
}
