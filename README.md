# Driver suggestions: a Dafny model

The program pairs passengers with candidate drivers by proximity. It reads a list of
coordinate points, one `"<latitude>, <longitude>"` line per point. It shuffles them and
takes the first ten as passengers and the next ten as drivers, each with a fresh UUID.
For every passenger it lists all drivers, nearest finish point first.

This project models the sequence handling around the numerics, from `src/main/java/Main.kt`:

- `suggestDrivers`: the drivers sorted by their distance from the passenger's finish
  point. Kotlin's `sortedWith` is stable. The model is `Ranking.SuggestDrivers`, built on
  a stable sort by key, `StableSort.SortBy`.
- `readPoints`: every line read as a point, then the slicing and wrapping into
  `Participants`. The model is `ReadPoints.ParsePoints`, `ReadPoints.Partition` and
  `ReadPoints.ReadPoints`.
- `asPoint`: `split(", ")` and the destructuring of its first two parts. The model is
  `LineSplit.Split` and `LineSplit.AsPoint`.
- The data classes `Point`, `Person` and `Participants` are datatypes in module `Geo`.

Modelling choices:

- A Kotlin `Float` is kept as its 32-bit pattern (`Geo.Float32 = bv32`). Its numeric value
  is never interpreted. Converting text to a float (`toFloat`) is a parameter
  `parse: string -> Option<Float32>`; `None` stands for `NumberFormatException`.
- The distance is a parameter `distance: (Point, Point) -> int`. It gives the position of
  the computed `Float` in the total order of `Float.compareTo`, which is the order
  `compareBy` uses. Only comparisons of distances matter, so nothing else is lost.
- `sortedWith` sorts with a stable merge sort; the model uses a stable insertion sort.
  `StableSort.SortByUnique` proves that only one sequence is a permutation of the input,
  sorted by key, and in input order among equal keys. So both algorithms give the same result.
- The shuffle is an input `order`, a permutation of positions. The UUID generator is an
  input `ids: nat -> Uuid`, where `ids(n)` is the n-th identifier it hands out.
- Exceptions become `Err` values: `ReadPoints.SliceError` for `subList` past the end,
  `LineSplit.LineError` for a missing second part or a bad number.
- Sequences are values, so `SuggestDrivers` cannot change its input. It returns a new sequence.

What the code does at its edges:

- The code does not check the number of points. With fewer than 20 points, `slice` raises
  `IndexOutOfBoundsException` from `subList` (`ReadPoints.SliceError`).
- Every line is read before anything is sliced. A bad line therefore fails the load even
  when there are too few lines.
- A line with more than two `", "`-separated fields is accepted; the extra fields are ignored.

## Model

| member | source | states |
|---|---|---|
| `StableSort.SortBy` | src/main/java/Main.kt:38 | the result has the input's length and multiset of elements; it is sorted by key; for every key, the elements with that key appear in input order |
| `StableSort.SortByUnique` | src/main/java/Main.kt:38 | any permutation of the input that is sorted by key and keeps input order among equal keys equals `SortBy`'s result, so stability and order determine the sort |
| `StableSort.StableOrder` | src/main/java/Main.kt:38 | when two sequences have the same elements per key in the same order, two equal-key elements at positions i < j of one stand at positions p < q of the other |
| `Ranking.SuggestDrivers` | src/main/java/Main.kt:37-39 | the suggestions are a permutation of the drivers, of the same length, so no drivers give no suggestions; the distance from the passenger's finish point never decreases from one position to the next; drivers at equal distance keep their input order; the helper `Ranking.DistanceFrom` is the `compareBy` selector |
| `Ranking.EqualDistanceKeepsOrder` | src/main/java/Main.kt:38 | two suggested drivers at equal distance at positions i < j stood at positions p < q of the input |
| `Ranking.SuggestionIsUnique` | src/main/java/Main.kt:37-39 | every permutation of the drivers that is ordered by distance and stable is exactly the suggestion |
| `LineSplit.IndexOf` | src/main/java/Main.kt:50 | the index found is an occurrence of the separator with no occurrence before it; no index means the separator does not occur |
| `LineSplit.Split` | src/main/java/Main.kt:50 | `split(", ")` gives at least one part, and joining the parts with the separator restores the line |
| `LineSplit.SplitSingle` | src/main/java/Main.kt:50 | the split has exactly one part iff the line holds no separator |
| `LineSplit.SplitPartsFree` | src/main/java/Main.kt:50 | no part of a split holds the separator |
| `LineSplit.SplitJoin` | src/main/java/Main.kt:50 | splitting separator-free parts joined by `", "` gives back those parts |
| `LineSplit.AsPoint` | src/main/java/Main.kt:49-52 | a line fails with index 1 out of bounds for size 1 iff it holds no separator; otherwise the result is the point of its first two fields, read latitude first; later fields are ignored; the helper `LineSplit.PointOf` is `Point(lat.toFloat(), lon.toFloat())` |
| `LineSplit.LeadingFieldsUnique` | src/main/java/Main.kt:50 | a line's first two fields are unique, so `AsPoint`'s contract determines its result |
| `LineSplit.FormattedLine` | src/main/java/Main.kt:50-51 | a line `"<lat>, <lon>"` with separator-free texts reads as the point of those two texts |
| `LineSplit.ExtraPartsIgnored` | src/main/java/Main.kt:50 | appending `", "` and any text to such a line does not change what it reads as |
| `LineSplit.PrintedPointReadsBack` | src/main/java/Main.kt:49-52 | a point written in the program's output format, with a float format that `parse` inverts, reads back as the same point |
| `ReadPoints.ParsePoints` | src/main/java/Main.kt:43 | the load succeeds iff every line reads as a point, and then gives the points in line order; otherwise it fails with the error of the first failing line |
| `ReadPoints.MapOrFail` | src/main/java/Main.kt:43 | `map` with a transform that may throw succeeds iff the transform succeeds on every item, and then gives the results in item order; otherwise it fails with the error of the first item whose transform fails |
| `ReadPoints.Wrap` | src/main/java/Main.kt:44-45 | each point becomes a person in list order, and the i-th receives the generator's identifier number `firstId + i` |
| `ReadPoints.Partition` | src/main/java/Main.kt:44-46 | success iff there are at least 20 points; fewer than 10 fail with end index 10, fewer than 20 with end index 20; passenger i is point i with identifier i, driver i is point 10 + i with identifier 10 + i; the helper `ReadPoints.Slice` is Kotlin's `slice` |
| `ReadPoints.PartitionCoversFirstTwenty` | src/main/java/Main.kt:44-45 | the passengers' finish points followed by the drivers' are exactly the first 20 shuffled points, in order |
| `ReadPoints.PartitionDisjoint` | src/main/java/Main.kt:44-45 | when the first 20 points are pairwise different, no point is both a passenger's and a driver's finish point |
| `ReadPoints.PartitionIdsDistinct` | src/main/java/Main.kt:44-45 | with a generator that never repeats an identifier, the 20 participants' identifiers are pairwise different |
| `ReadPoints.ReadPoints` | src/main/java/Main.kt:41-47 | success iff every line reads as a point and there are at least 20 lines; a line failure is the error of the first line that fails, even with fewer than 20 lines; a slicing failure means every line read and there are fewer than 20, with end index 10 below 10 lines and 20 otherwise, and the number of lines as size; on success passenger i has identifier i and driver i identifier 10 + i, and the 20 participants read their points from 20 different lines, the ones the shuffle puts first |

## Left out

- The haversine distance, `toRadians` and the radius constant (`Main.kt:8-21`): these are
  floating-point trigonometry. The distance is a parameter that ranks results.
- `toFloat` (`Main.kt:51`): a foreign numeric conversion. It is the parameter `parse`.
- Locating and reading the `latlons` resource (`Main.kt:42-43`): I/O. The lines are an input.
- `shuffled()` (`Main.kt:43`): randomness. The shuffle is an input permutation `order`.
- `UUID.randomUUID()` (`Main.kt:44-45`): an external identity source. The identifiers are an
  input stream `ids`.
- The printing loop of `main` (`Main.kt:26-35`): output formatting only. Its line format is
  used only to state `LineSplit.PrintedPointReadsBack`.
- Float equality: `Point` equality compares bit patterns. Kotlin's `Float.equals` treats
  all NaN patterns as equal; this only matters for NaN coordinates.
- `split` with an empty delimiter, or with a limit: the program uses neither. The model's
  `Split` requires a non-empty separator.
