/** The string operations the ATR filename helpers use: Python's
    `str.split(sep)` and `sep.join(parts)` for a one-character separator,
    and `re.sub('-', ' ', s)`. */
module Text {

  /** `s.split(sep)`: the pieces of `s` between occurrences of `sep`,
      kept even when empty; the empty string splits into `[""]`. */
  function Split(s: string, sep: char): (parts: seq<string>)
    ensures |parts| >= 1
    ensures forall k :: 0 <= k < |parts| ==> sep !in parts[k]
    decreases |s|
  {
    if |s| == 0 then [""]
    else
      var rest := Split(s[1..], sep);
      if s[0] == sep then [""] + rest
      else [[s[0]] + rest[0]] + rest[1..]
  }

  /** `sep.join(parts)`: the pieces in order with one separator between
      each two neighbours. */
  function Join(parts: seq<string>, sep: char): (s: string)
    ensures |parts| == 2 ==> s == parts[0] + [sep] + parts[1]
  {
    if |parts| == 0 then ""
    else if |parts| == 1 then parts[0]
    else parts[0] + [sep] + Join(parts[1..], sep)
  }

  /** `re.sub('-', ' ', s)`: every hyphen becomes a space, nothing else changes. */
  function Dehyphen(s: string): (r: string)
    ensures |r| == |s|
    ensures forall k :: 0 <= k < |s| ==> r[k] == if s[k] == '-' then ' ' else s[k]
    ensures '-' !in r
  {
    if |s| == 0 then ""
    else [if s[0] == '-' then ' ' else s[0]] + Dehyphen(s[1..])
  }

  /** Splitting yields more than one piece exactly when the separator occurs. */
  lemma {:induction false} SplitMany(s: string, sep: char)
    ensures |Split(s, sep)| >= 2 <==> sep in s
    decreases |s|
  {
    if |s| > 0 {
      SplitMany(s[1..], sep);
      assert s == [s[0]] + s[1..];
    }
  }

  /** Joining the pieces of a split with the same separator gives back the text. */
  lemma {:induction false} JoinSplit(s: string, sep: char)
    ensures Join(Split(s, sep), sep) == s
    decreases |s|
  {
    if |s| > 0 {
      var rest := Split(s[1..], sep);
      JoinSplit(s[1..], sep);
      if s[0] == sep {
        assert ([""] + rest)[1..] == rest;
      } else {
        JoinConsHead([s[0]], rest, sep);
      }
      assert s == [s[0]] + s[1..];
    }
  }

  /** Prepending text to the first piece prepends it to the join. */
  lemma JoinConsHead(x: string, parts: seq<string>, sep: char)
    requires |parts| >= 1
    ensures Join([x + parts[0]] + parts[1..], sep) == x + Join(parts, sep)
  {
    var ps := [x + parts[0]] + parts[1..];
    if |parts| > 1 {
      assert ps[1..] == parts[1..];
    }
  }

  /** Splitting a text that starts with a separator-free piece: that piece is
      the start of the first field and the rest is split as before. */
  lemma {:induction false} SplitPrefix(a: string, rest: string, sep: char)
    requires sep !in a
    ensures Split(a + rest, sep) == [a + Split(rest, sep)[0]] + Split(rest, sep)[1..]
    decreases |a|
  {
    if |a| == 0 {
      var tailParts := Split(rest, sep);
      assert a + rest == rest;
      assert a + tailParts[0] == tailParts[0];
      assert [tailParts[0]] + tailParts[1..] == tailParts;
    } else {
      var tailParts := Split(rest, sep);
      SplitPrefix(a[1..], rest, sep);
      var inner := Split(a[1..] + rest, sep);
      assert inner[0] == a[1..] + tailParts[0] && inner[1..] == tailParts[1..];
      assert (a + rest)[0] == a[0] && (a + rest)[1..] == a[1..] + rest;
      assert Split(a + rest, sep) == [[a[0]] + inner[0]] + inner[1..];
      assert [a[0]] + (a[1..] + tailParts[0]) == a + tailParts[0];
    }
  }

  /** Splitting the join of separator-free pieces gives back the pieces. */
  lemma {:induction false} SplitJoin(parts: seq<string>, sep: char)
    requires |parts| >= 1
    requires forall k :: 0 <= k < |parts| ==> sep !in parts[k]
    ensures Split(Join(parts, sep), sep) == parts
    decreases |parts|
  {
    if |parts| == 1 {
      SplitPrefix(parts[0], "", sep);
      assert parts[0] + "" == parts[0];
    } else {
      var tail := Join(parts[1..], sep);
      SplitJoin(parts[1..], sep);
      SplitPrefix(parts[0], [sep] + tail, sep);
      assert parts[0] + [sep] + tail == parts[0] + ([sep] + tail);
      assert ([sep] + tail)[1..] == tail;
      var t := Split([sep] + tail, sep);
      assert t == [""] + parts[1..];
      assert t[0] == "" && t[1..] == parts[1..];
      assert parts[0] + t[0] == parts[0];
      assert Join(parts, sep) == parts[0] + ([sep] + tail);
      assert parts == [parts[0]] + parts[1..];
    }
  }
}
