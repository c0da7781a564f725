/**
 * Loading and partitioning (`readPoints`): every line of the resource read as a point, the
 * points shuffled, the first ten wrapped as passengers and the next ten as drivers, each
 * with a freshly generated identifier. The resource's lines, the shuffle (a permutation of
 * positions) and the identifier generator (the n-th identifier it hands out) are inputs.
 */
module ReadPoints {
  import opened Results
  import opened Geo
  import LineSplit

  /** `slice(0..9)`: the passengers' positions in the shuffled list, both ends included. */
  const PassengersFirst: nat := 0
  const PassengersLast: nat := 9
  /** `slice(10..19)`: the drivers' positions. */
  const DriversFirst: nat := 10
  const DriversLast: nat := 19

  /** `subList` refuses an end index past the list's size. */
  datatype SliceError = ToIndexOutOfBounds(toIndex: nat, size: nat)

  /** Why `readPoints` fails: a line that does not read as a point, or too few points to slice. */
  datatype ReadError = LineFailed(lineError: LineSplit.LineError) | SliceFailed(sliceError: SliceError)

  /**
   * Every line read as a point, in order (`map { asPoint(it) }`); the first line that fails
   * makes the whole load fail with that line's error.
   */
  function ParsePoints(lines: seq<string>, parse: string -> Option<Float32>): (r: Result<seq<Point>, LineSplit.LineError>)
    ensures r.Ok? <==> forall i | 0 <= i < |lines| :: LineSplit.AsPoint(lines[i], parse).Ok?
    ensures r.Ok? ==> |r.value| == |lines|
                      && forall i | 0 <= i < |lines| :: LineSplit.AsPoint(lines[i], parse) == Ok(r.value[i])
    ensures r.Err? ==> exists i | 0 <= i < |lines| ::
                         && LineSplit.AsPoint(lines[i], parse) == Err(r.error)
                         && forall j | 0 <= j < i :: LineSplit.AsPoint(lines[j], parse).Ok?
  {
    MapOrFail(lines, line => LineSplit.AsPoint(line, parse))
  }

  /**
   * Kotlin's `map` with a transform that may throw: every item transformed in order, the
   * first failing item's error ending the whole map. `ParsePoints` is this map over `AsPoint`;
   * keeping the recursion generic means its proof never unfolds `AsPoint`'s contract.
   */
  function MapOrFail<A, B, E>(items: seq<A>, f: A -> Result<B, E>): (r: Result<seq<B>, E>)
    ensures r.Ok? <==> forall i | 0 <= i < |items| :: f(items[i]).Ok?
    ensures r.Ok? ==> |r.value| == |items| && forall i | 0 <= i < |items| :: f(items[i]) == Ok(r.value[i])
    ensures r.Err? ==> exists i | 0 <= i < |items| ::
                         && f(items[i]) == Err(r.error)
                         && forall j | 0 <= j < i :: f(items[j]).Ok?
  {
    if items == [] then Ok([])
    else
      match f(items[0])
      case Err(e) => Err(e)
      case Ok(y) =>
        var tail := items[1..];
        assert forall j | 1 <= j < |items| :: tail[j - 1] == items[j];
        match MapOrFail(tail, f)
        case Err(e) => Err(e)
        case Ok(ys) => Ok([y] + ys)
  }

  /**
   * Kotlin's `slice(first..last)` on a list: empty for an empty range, else `subList(first, last + 1)`.
   * It is used only by `Partition`, with the constant ranges 0..9 and 10..19, whose contract
   * states the outcome; the empty-range branch is Kotlin's and never arises there.
   */
  function Slice<T>(s: seq<T>, first: nat, last: nat): Result<seq<T>, SliceError> {
    if last < first then Ok([])
    else if last + 1 > |s| then Err(ToIndexOutOfBounds(last + 1, |s|))
    else Ok(s[first..last + 1])
  }

  /**
   * `map { Person(UUID.randomUUID(), it) }`: each point wrapped as a person, the generator's
   * identifiers handed out in list order starting with identifier number `firstId`.
   */
  function Wrap(points: seq<Point>, ids: nat -> Uuid, firstId: nat): (people: seq<Person>)
    ensures |people| == |points|
    ensures forall i | 0 <= i < |points| :: people[i] == Person(ids(firstId + i), points[i])
  {
    if points == [] then []
    else [Person(ids(firstId), points[0])] + Wrap(points[1..], ids, firstId + 1)
  }

  /**
   * The slicing and wrapping of `readPoints`, on the already shuffled points. Passengers are
   * positions 0..9 and receive identifiers 0..9; drivers are positions 10..19 and receive
   * identifiers 10..19. Fewer than 20 points fail on the first slice that runs past the end.
   */
  function Partition(allPoints: seq<Point>, ids: nat -> Uuid): (r: Result<Participants, SliceError>)
    ensures r.Ok? <==> |allPoints| >= 20
    ensures r.Err? ==> r.error == ToIndexOutOfBounds(if |allPoints| < 10 then 10 else 20, |allPoints|)
    ensures r.Ok? ==> |r.value.passengers| == 10 && |r.value.drivers| == 10
    ensures r.Ok? ==> forall i | 0 <= i < 10 ::
                        && r.value.passengers[i] == Person(ids(i), allPoints[i])
                        && r.value.drivers[i] == Person(ids(10 + i), allPoints[10 + i])
  {
    match Slice(allPoints, PassengersFirst, PassengersLast)
    case Err(e) => Err(e)
    case Ok(passengerPoints) =>
      var passengers := Wrap(passengerPoints, ids, 0);
      match Slice(allPoints, DriversFirst, DriversLast)
      case Err(e) => Err(e)
      case Ok(driverPoints) =>
        var drivers := Wrap(driverPoints, ids, |passengers|);
        Ok(Participants(passengers, drivers))
  }

  /**
   * The passengers' and then the drivers' finish points are the first twenty points, in order:
   * the two groups cover positions 0..19 once each.
   */
  lemma PartitionCoversFirstTwenty(allPoints: seq<Point>, ids: nat -> Uuid)
    requires |allPoints| >= 20
    ensures Partition(allPoints, ids).Ok?
    ensures FinishPoints(Partition(allPoints, ids).value.passengers) + FinishPoints(Partition(allPoints, ids).value.drivers)
            == allPoints[..20]
  {
    var ps := Partition(allPoints, ids).value;
    var both := FinishPoints(ps.passengers) + FinishPoints(ps.drivers);
    forall i | 0 <= i < 20 ensures both[i] == allPoints[i] {
      if i >= 10 {
        assert both[i] == FinishPoints(ps.drivers)[i - 10];
      }
    }
  }

  /**
   * With pairwise different shuffled points, no point is both a passenger's and a driver's
   * finish point.
   */
  lemma PartitionDisjoint(allPoints: seq<Point>, ids: nat -> Uuid)
    requires |allPoints| >= 20
    requires forall i, j | 0 <= i < j < 20 :: allPoints[i] != allPoints[j]
    ensures Partition(allPoints, ids).Ok?
    ensures var ps := Partition(allPoints, ids).value;
            (set p | p in ps.passengers :: p.finishPoint) !! (set d | d in ps.drivers :: d.finishPoint)
  {
    var ps := Partition(allPoints, ids).value;
    forall p, d | p in ps.passengers && d in ps.drivers ensures p.finishPoint != d.finishPoint {
      var i :| 0 <= i < 10 && ps.passengers[i] == p;
      var j :| 0 <= j < 10 && ps.drivers[j] == d;
      assert p.finishPoint == allPoints[i] && d.finishPoint == allPoints[10 + j];
    }
  }

  /** With a generator that never repeats an identifier, all twenty participants' identifiers differ. */
  lemma PartitionIdsDistinct(allPoints: seq<Point>, ids: nat -> Uuid)
    requires |allPoints| >= 20
    requires forall m, n | m != n :: ids(m) != ids(n)
    ensures Partition(allPoints, ids).Ok?
    ensures var ps := Partition(allPoints, ids).value;
            forall i, j | 0 <= i < j < 20 :: Ids(ps.passengers + ps.drivers)[i] != Ids(ps.passengers + ps.drivers)[j]
  {
    var ps := Partition(allPoints, ids).value;
    var all := ps.passengers + ps.drivers;
    forall i | 0 <= i < 20 ensures Ids(all)[i] == ids(i) {
      if i >= 10 {
        assert all[i] == ps.drivers[i - 10];
      }
    }
  }

  /** `order` lists each position below `n` exactly once: a shuffle of `n` items. */
  ghost predicate IsPermutation(order: seq<nat>, n: nat) {
    && |order| == n
    && (forall i | 0 <= i < n :: order[i] < n)
    && (forall i, j | 0 <= i < j < n :: order[i] != order[j])
  }

  /** The points rearranged by the shuffle: position `i` holds the point from position `order[i]`. */
  function Shuffle(points: seq<Point>, order: seq<nat>): seq<Point>
    requires forall i | 0 <= i < |order| :: order[i] < |points|
  {
    seq(|order|, i requires 0 <= i < |order| => points[order[i]])
  }

  /**
   * `readPoints` without its I/O: the resource's lines, the shuffle and the identifier
   * generator are given. Succeeds exactly when every line reads as a point and there are at
   * least twenty; then the ten passengers and ten drivers stand for the twenty different lines
   * that the shuffle puts first. Every line is read before anything is sliced, so a bad line
   * fails the load (with the first bad line's error) even when there are too few lines.
   */
  function ReadPoints(lines: seq<string>, parse: string -> Option<Float32>, order: seq<nat>, ids: nat -> Uuid)
    : (r: Result<Participants, ReadError>)
    requires IsPermutation(order, |lines|)
    ensures r.Ok? <==> |lines| >= 20 && forall i | 0 <= i < |lines| :: LineSplit.AsPoint(lines[i], parse).Ok?
    ensures r.Err? && r.error.LineFailed? ==> ParsePoints(lines, parse) == Err(r.error.lineError)
    ensures r.Err? && r.error.SliceFailed? ==>
              && |lines| < 20
              && forall i | 0 <= i < |lines| :: LineSplit.AsPoint(lines[i], parse).Ok?
    ensures r.Err? && r.error.SliceFailed? ==>
              r.error.sliceError == ToIndexOutOfBounds(if |lines| < 10 then 10 else 20, |lines|)
    ensures r.Ok? ==> StandFor(r.value, lines, parse, ids, order[..20])
  {
    match ParsePoints(lines, parse)
    case Err(e) => Err(LineFailed(e))
    case Ok(points) =>
      match Partition(Shuffle(points, order), ids)
      case Err(e) => Err(SliceFailed(e))
      case Ok(ps) =>
        SourcesOfParticipants(lines, parse, order, ids, points);
        Ok(ps)
  }

  /**
   * The ten passengers and ten drivers stand for twenty different lines, listed in `source`:
   * passenger `i` has identifier `i` and the point of line `source[i]`, driver `i` has
   * identifier `10 + i` and the point of line `source[10 + i]`.
   */
  ghost predicate StandFor(ps: Participants, lines: seq<string>, parse: string -> Option<Float32>, ids: nat -> Uuid,
                           source: seq<nat>) {
    && |ps.passengers| == 10 && |ps.drivers| == 10
    && |source| == 20
    && (forall i, j | 0 <= i < j < 20 :: source[i] != source[j])
    && (forall i | 0 <= i < 20 :: source[i] < |lines|)
    && (forall i | 0 <= i < 10 ::
          && ps.passengers[i].id == ids(i)
          && LineSplit.AsPoint(lines[source[i]], parse) == Ok(ps.passengers[i].finishPoint)
          && ps.drivers[i].id == ids(10 + i)
          && LineSplit.AsPoint(lines[source[10 + i]], parse) == Ok(ps.drivers[i].finishPoint))
  }

  /** The participants of a successful partition of the shuffled points stand for the lines `order[..20]`. */
  lemma SourcesOfParticipants(lines: seq<string>, parse: string -> Option<Float32>, order: seq<nat>, ids: nat -> Uuid,
                              points: seq<Point>)
    requires IsPermutation(order, |lines|)
    requires |points| == |lines| >= 20
    requires forall i | 0 <= i < |lines| :: LineSplit.AsPoint(lines[i], parse) == Ok(points[i])
    ensures StandFor(Partition(Shuffle(points, order), ids).value, lines, parse, ids, order[..20])
  {
    PartitionOfShuffle(points, order, ids);
    var source := order[..20];
    assert forall i | 0 <= i < 20 :: source[i] == order[i];
  }

  /** Passenger `i` of the shuffled points has point `order[i]`, driver `i` point `order[10 + i]`. */
  lemma PartitionOfShuffle(points: seq<Point>, order: seq<nat>, ids: nat -> Uuid)
    requires |order| >= 20
    requires forall i | 0 <= i < |order| :: order[i] < |points|
    ensures Partition(Shuffle(points, order), ids).Ok?
    ensures var ps := Partition(Shuffle(points, order), ids).value;
            forall i | 0 <= i < 10 ::
              && ps.passengers[i] == Person(ids(i), points[order[i]])
              && ps.drivers[i] == Person(ids(10 + i), points[order[10 + i]])
  {
    var shuffled := Shuffle(points, order);
    assert forall i | 0 <= i < |order| :: shuffled[i] == points[order[i]];
  }
}
