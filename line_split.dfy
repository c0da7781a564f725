/**
 * Reading one line of the points resource (`asPoint`): Kotlin's `split(", ")` and the
 * destructuring of its first two parts into latitude and longitude text.
 */
module LineSplit {
  import opened Results
  import opened Geo

  /** The separator between latitude and longitude on a line. */
  const Separator: string := ", "

  /** `sep` occurs in `s` starting at index `j`. */
  predicate OccursAt(s: string, sep: string, j: nat) {
    j + |sep| <= |s| && s[j..j + |sep|] == sep
  }

  /** `sep` occurs somewhere in `s`. */
  ghost predicate Contains(s: string, sep: string) {
    exists j: nat :: OccursAt(s, sep, j)
  }

  /** The index of the first occurrence of `sep` in `s` (Kotlin's `indexOf`), if any. */
  function IndexOf(s: string, sep: string): (r: Option<nat>)
    requires sep != []
    ensures r.Some? ==> OccursAt(s, sep, r.value)
    ensures r.Some? ==> forall j: nat | j < r.value :: !OccursAt(s, sep, j)
    ensures r.None? ==> !Contains(s, sep)
    decreases |s|
  {
    if |s| < |sep| then None
    else if s[..|sep|] == sep then Some(0)
    else
      match IndexOf(s[1..], sep)
      case None =>
        assert forall j: nat :: OccursAt(s, sep, j) ==> j > 0 && OccursAt(s[1..], sep, j - 1);
        None
      case Some(i) =>
        assert OccursAt(s[1..], sep, i) ==> OccursAt(s, sep, i + 1) by {
          if OccursAt(s[1..], sep, i) {
            assert s[1..][i..i + |sep|] == s[i + 1..i + 1 + |sep|];
          }
        }
        assert forall j: nat | 0 < j < i + 1 :: OccursAt(s, sep, j) ==> OccursAt(s[1..], sep, j - 1);
        Some(i + 1)
  }

  /** The parts joined back together, with `sep` between each two neighbours. */
  function Join(parts: seq<string>, sep: string): string
    requires parts != []
  {
    if |parts| == 1 then parts[0] else parts[0] + sep + Join(parts[1..], sep)
  }

  /** Joining a part in front of further parts puts the separator between them. */
  lemma JoinCons(part: string, rest: seq<string>, sep: string)
    requires rest != []
    ensures Join([part] + rest, sep) == part + sep + Join(rest, sep)
  {
    assert ([part] + rest)[1..] == rest;
  }

  /**
   * Kotlin's `split(sep)` with no limit: the text between consecutive leftmost occurrences of
   * `sep`, trailing empty parts included. It always yields at least one part, joining the
   * parts restores the line, and no part holds the separator.
   */
  function Split(s: string, sep: string): (parts: seq<string>)
    requires sep != []
    ensures parts != []
    ensures Join(parts, sep) == s
    decreases |s|
  {
    match IndexOf(s, sep)
    case None => [s]
    case Some(i) =>
      var rest := Split(s[i + |sep|..], sep);
      JoinCons(s[..i], rest, sep);
      AroundOccurrence(s, sep, i);
      [s[..i]] + rest
  }

  /** A text is what comes before an occurrence of `sep`, then `sep`, then what follows it. */
  lemma AroundOccurrence(s: string, sep: string, i: nat)
    requires OccursAt(s, sep, i)
    ensures s == s[..i] + sep + s[i + |sep|..]
  {
  }

  /** The pieces of a text made of `a`, the separator and `rest` are found again by slicing. */
  lemma Pieces(a: string, sep: string, rest: string)
    ensures (a + sep + rest)[..|a|] == a
    ensures (a + sep + rest)[|a| + |sep|..] == rest
  {
  }

  /** A line splits into a single part exactly when the separator does not occur in it. */
  lemma SplitSingle(s: string, sep: string)
    requires sep != []
    ensures |Split(s, sep)| == 1 <==> !Contains(s, sep)
  {
    match IndexOf(s, sep)
    case None =>
    case Some(i) =>
      assert OccursAt(s, sep, i);
  }

  /** No part of a split holds the separator. */
  lemma {:induction false} SplitPartsFree(s: string, sep: string)
    requires sep != []
    ensures forall i | 0 <= i < |Split(s, sep)| :: !Contains(Split(s, sep)[i], sep)
    decreases |s|
  {
    match IndexOf(s, sep)
    case None =>
    case Some(i) =>
      SplitPartsFree(s[i + |sep|..], sep);
      assert !Contains(s[..i], sep) by {
        forall j: nat | j + |sep| <= i ensures !OccursAt(s[..i], sep, j) {
          assert !OccursAt(s, sep, j);
          assert s[..i][j..j + |sep|] == s[j..j + |sep|];
        }
      }
      var rest := Split(s[i + |sep|..], sep);
      assert forall k | 1 <= k < |Split(s, sep)| :: Split(s, sep)[k] == rest[k - 1];
  }

  /**
   * In a line that starts with separator-free text followed by the separator, the first
   * occurrence of the separator is right after that text. (The separator ", " cannot begin
   * on the last character of the text, since its second character is not a comma.)
   */
  lemma {:induction false} IndexOfAfterFreeText(a: string, rest: string)
    requires !Contains(a, Separator)
    ensures IndexOf(a + Separator + rest, Separator) == Some(|a|)
    decreases |a|
  {
    if a != [] {
      FreeTextHead(a, rest);
      FreeTextTail(a);
      IndexOfAfterFreeText(a[1..], rest);
      assert (a + Separator + rest)[1..] == a[1..] + Separator + rest;
    }
  }

  /** Text that starts with a non-empty separator-free text does not start with the separator. */
  lemma FreeTextHead(a: string, rest: string)
    requires a != [] && !Contains(a, Separator)
    ensures !OccursAt(a + Separator + rest, Separator, 0)
  {
    var s := a + Separator + rest;
    if |a| >= 2 {
      assert s[..2] == a[..2];
      assert !OccursAt(a, Separator, 0);
    } else {
      assert s[1] == ',';
    }
  }

  /** Dropping the first character of a separator-free text leaves it separator-free. */
  lemma FreeTextTail(a: string)
    requires a != [] && !Contains(a, Separator)
    ensures !Contains(a[1..], Separator)
  {
    forall j: nat | j + 2 <= |a[1..]| ensures !OccursAt(a[1..], Separator, j) {
      assert !OccursAt(a, Separator, j + 1);
      assert a[1..][j..j + 2] == a[j + 1..j + 3];
    }
  }

  /** Separator-free text followed by the separator is split off as the first part. */
  lemma SplitAfterFreeText(a: string, rest: string)
    requires !Contains(a, Separator)
    ensures Split(a + Separator + rest, Separator) == [a] + Split(rest, Separator)
  {
    IndexOfAfterFreeText(a, rest);
    Pieces(a, Separator, rest);
  }

  /** Splitting separator-free parts joined by the separator gives those parts back. */
  lemma {:induction false} SplitJoin(parts: seq<string>)
    requires parts != []
    requires forall i | 0 <= i < |parts| :: !Contains(parts[i], Separator)
    ensures Split(Join(parts, Separator), Separator) == parts
  {
    if |parts| == 1 {
      SplitSingle(parts[0], Separator);
    } else {
      var tail := parts[1..];
      assert forall i | 0 <= i < |tail| :: tail[i] == parts[i + 1];
      SplitJoin(tail);
      assert parts == [parts[0]] + tail;
      JoinCons(parts[0], tail, Separator);
      SplitAfterFreeText(parts[0], Join(tail, Separator));
    }
  }

  /**
   * Why reading a line fails: the destructuring `val (lat, lon)` asks for the second part of
   * a split that has only one (an index out of bounds), or the text of a coordinate is not
   * a number (`toFloat`).
   */
  datatype LineError = IndexOutOfBounds(index: nat, size: nat) | NumberFormat(text: string)

  /** The point whose latitude and longitude are the numbers written in the two texts. */
  function PointOf(latText: string, lonText: string, parse: string -> Option<Float32>): Result<Point, LineError> {
    match parse(latText)
    case None => Err(NumberFormat(latText))
    case Some(lat) =>
      match parse(lonText)
      case None => Err(NumberFormat(lonText))
      case Some(lon) => Ok(Point(lat, lon))
  }

  /**
   * `lat` and `lon` are the first two fields of `line`: separator-free texts that make up the
   * whole line with the separator between them, or begin it followed by another separator.
   */
  ghost predicate LeadingFields(line: string, lat: string, lon: string) {
    && !Contains(lat, Separator)
    && !Contains(lon, Separator)
    && (line == lat + Separator + lon || OccursAt(line, lat + Separator + lon + Separator, 0))
  }

  /**
   * One line of the points resource read as a point (`asPoint`): the first two
   * separator-delimited fields are the latitude and longitude texts, converted by `parse`
   * (Kotlin's `toFloat`, left abstract); further fields are ignored. A line without the
   * separator fails on the missing second part.
   */
  function AsPoint(line: string, parse: string -> Option<Float32>): (r: Result<Point, LineError>)
    ensures r == Err(IndexOutOfBounds(1, 1)) <==> !Contains(line, Separator)
    ensures Contains(line, Separator) ==>
              exists lat, lon :: LeadingFields(line, lat, lon) && r == PointOf(lat, lon, parse)
  {
    var parts := Split(line, Separator);
    SplitSingle(line, Separator);
    if |parts| < 2 then
      Err(IndexOutOfBounds(1, |parts|))
    else
      SplitPartsFree(line, Separator);
      JoinShape(parts);
      assert LeadingFields(line, parts[0], parts[1]);
      PointOf(parts[0], parts[1], parse)
  }

  /**
   * The join of two or more parts is the first two parts with the separator between them,
   * either alone or followed by another separator.
   */
  lemma JoinShape(parts: seq<string>)
    requires |parts| >= 2
    ensures var line, pair := Join(parts, Separator), parts[0] + Separator + parts[1];
            line == pair || OccursAt(line, pair + Separator, 0)
  {
    if |parts| == 2 {
      JoinPair(parts);
    } else {
      JoinMore(parts);
    }
  }

  /** Two parts joined: the first, the separator, the second. */
  lemma JoinPair(parts: seq<string>)
    requires |parts| == 2
    ensures Join(parts, Separator) == parts[0] + Separator + parts[1]
  {
    assert parts[1..] == [parts[1]];
  }

  /** More than two parts joined begin with the first two, each followed by the separator. */
  lemma JoinMore(parts: seq<string>)
    requires |parts| > 2
    ensures OccursAt(Join(parts, Separator), parts[0] + Separator + parts[1] + Separator, 0)
  {
    var tail, rest := parts[1..], parts[2..];
    assert tail[1..] == rest;
    var prefix := parts[0] + Separator + parts[1] + Separator;
    calc {
      Join(parts, Separator);
      parts[0] + Separator + Join(tail, Separator);
      parts[0] + Separator + (parts[1] + Separator + Join(rest, Separator));
      prefix + Join(rest, Separator);
    }
    PrefixOfConcat(prefix, Join(rest, Separator));
  }

  /** A text begins any concatenation that starts with it. */
  lemma PrefixOfConcat(p: string, q: string)
    ensures OccursAt(p + q, p, 0)
  {
    assert (p + q)[..|p|] == p;
  }

  /** Two separator-free texts that each begin a line followed by the separator are the same text. */
  lemma FreePrefixUnique(line: string, a: string, c: string)
    requires !Contains(a, Separator) && !Contains(c, Separator)
    requires OccursAt(line, a + Separator, 0) && OccursAt(line, c + Separator, 0)
    ensures a == c
  {
    assert line == a + Separator + line[|a| + 2..];
    IndexOfAfterFreeText(a, line[|a| + 2..]);
    assert line == c + Separator + line[|c| + 2..];
    IndexOfAfterFreeText(c, line[|c| + 2..]);
    assert a == line[..|a|] && c == line[..|c|];
  }

  /** What follows the first field is the second field alone exactly when it holds no separator. */
  lemma SecondFieldAlone(t: string, b: string)
    requires !Contains(b, Separator)
    requires t == b || OccursAt(t, b + Separator, 0)
    ensures t == b <==> !Contains(t, Separator)
  {
    if OccursAt(t, b + Separator, 0) {
      assert t[|b|..|b| + 2] == (b + Separator)[|b|..];
      assert OccursAt(t, Separator, |b|);
    }
  }

  /** The leading fields of a line are unique, so `AsPoint`'s contract determines its result. */
  lemma LeadingFieldsUnique(line: string, lat: string, lon: string, lat': string, lon': string)
    requires LeadingFields(line, lat, lon) && LeadingFields(line, lat', lon')
    ensures lat == lat' && lon == lon'
  {
    FieldsAtFront(line, lat, lon);
    FieldsAtFront(line, lat', lon');
    FreePrefixUnique(line, lat, lat');
    var t := line[|lat| + 2..];
    SecondFieldAlone(t, lon);
    SecondFieldAlone(t, lon');
    if Contains(t, Separator) {
      FreePrefixUnique(t, lon, lon');
    }
  }

  /**
   * A line made of two fields, alone or followed by the separator, begins with the first
   * field and the separator; what follows them is the second field, alone or followed by
   * the separator.
   */
  lemma FieldsAtFront(line: string, lat: string, lon: string)
    requires line == lat + Separator + lon || OccursAt(line, lat + Separator + lon + Separator, 0)
    ensures OccursAt(line, lat + Separator, 0)
    ensures var t := line[|lat| + 2..]; t == lon || OccursAt(t, lon + Separator, 0)
  {
    if line != lat + Separator + lon {
      assert line[..|lat| + 2] == (lat + Separator + lon + Separator)[..|lat| + 2];
      var t := line[|lat| + 2..];
      assert t[..|lon| + 2] == line[|lat| + 2..|lat| + |lon| + 4];
    }
  }

  /** A line "<lat>, <lon>" reads as the point of those two texts. */
  lemma FormattedLine(latText: string, lonText: string, parse: string -> Option<Float32>)
    requires !Contains(latText, Separator) && !Contains(lonText, Separator)
    ensures AsPoint(latText + Separator + lonText, parse) == PointOf(latText, lonText, parse)
  {
    SplitJoin([latText, lonText]);
    assert Join([latText, lonText], Separator) == latText + Separator + lonText;
  }

  /** Whatever follows the second part of a line is ignored. */
  lemma ExtraPartsIgnored(latText: string, lonText: string, extra: string, parse: string -> Option<Float32>)
    requires !Contains(latText, Separator) && !Contains(lonText, Separator)
    ensures AsPoint(latText + Separator + lonText + Separator + extra, parse) == PointOf(latText, lonText, parse)
  {
    var line := latText + Separator + lonText + Separator + extra;
    IndexOfAfterFreeText(latText, lonText + Separator + extra);
    assert line == latText + Separator + (lonText + Separator + extra);
    var tail := lonText + Separator + extra;
    assert line[|latText| + 2..] == tail;
    assert line[..|latText|] == latText;
    IndexOfAfterFreeText(lonText, extra);
    assert tail[|lonText| + 2..] == extra;
    assert tail[..|lonText|] == lonText;
    assert Split(tail, Separator) == [lonText] + Split(extra, Separator);
    assert Split(line, Separator) == [latText] + Split(tail, Separator);
  }

  /**
   * A point printed the way the program prints it, "<lat>, <lon>", reads back as the same
   * point, given a number format whose output `parse` reads back and that never writes the
   * separator.
   */
  lemma PrintedPointReadsBack(p: Point, format: Float32 -> string, parse: string -> Option<Float32>)
    requires forall x :: parse(format(x)) == Some(x)
    requires forall x :: !Contains(format(x), Separator)
    ensures AsPoint(format(p.latitude) + Separator + format(p.longitude), parse) == Ok(p)
  {
    FormattedLine(format(p.latitude), format(p.longitude), parse);
  }
}
