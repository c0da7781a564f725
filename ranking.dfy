/**
 * Ranking of drivers for one passenger (`suggestDrivers`): the drivers ordered by the
 * distance from the passenger's finish point to each driver's finish point, nearest first.
 */
module Ranking {
  import opened Geo
  import StableSort

  /** The sort key that `compareBy` builds: the distance from the passenger's finish point. */
  function DistanceFrom(passenger: Person, distance: DistanceKey): Person -> int {
    (d: Person) => distance(passenger.finishPoint, d.finishPoint)
  }

  /**
   * A new sequence holding the drivers, nearest to the passenger's finish point first, with
   * drivers at equal distance in their input order. The input sequence is a value and is
   * left as it was.
   */
  function SuggestDrivers(passenger: Person, drivers: seq<Person>, distance: DistanceKey): (r: seq<Person>)
    ensures |r| == |drivers|
    ensures multiset(r) == multiset(drivers)
    ensures forall i | 0 <= i < |r| - 1 ::
              distance(passenger.finishPoint, r[i].finishPoint) <= distance(passenger.finishPoint, r[i + 1].finishPoint)
    ensures forall k :: StableSort.WithKey(r, DistanceFrom(passenger, distance), k)
                        == StableSort.WithKey(drivers, DistanceFrom(passenger, distance), k)
  {
    var r := StableSort.SortBy(drivers, DistanceFrom(passenger, distance));
    assert forall i | 0 <= i < |r| - 1 :: DistanceFrom(passenger, distance)(r[i]) <= DistanceFrom(passenger, distance)(r[i + 1]);
    r
  }

  /**
   * Two drivers at the same distance keep their relative order: if they stand at positions
   * `i < j` of the suggestions, they stood at positions `p < q` of the input.
   */
  lemma EqualDistanceKeepsOrder(passenger: Person, drivers: seq<Person>, distance: DistanceKey, i: nat, j: nat)
    requires i < j < |drivers|
    requires distance(passenger.finishPoint, SuggestDrivers(passenger, drivers, distance)[i].finishPoint)
             == distance(passenger.finishPoint, SuggestDrivers(passenger, drivers, distance)[j].finishPoint)
    ensures exists p, q :: 0 <= p < q < |drivers|
              && drivers[p] == SuggestDrivers(passenger, drivers, distance)[i]
              && drivers[q] == SuggestDrivers(passenger, drivers, distance)[j]
  {
    var r := SuggestDrivers(passenger, drivers, distance);
    var key := DistanceFrom(passenger, distance);
    assert key(r[i]) == key(r[j]);
    StableSort.StableOrder(drivers, r, key, i, j);
  }

  /**
   * The ranking is the only one possible: any permutation of the drivers that is ordered by
   * distance and keeps the input order among equal distances is exactly the suggestion.
   */
  lemma SuggestionIsUnique(passenger: Person, drivers: seq<Person>, distance: DistanceKey, ranked: seq<Person>)
    requires multiset(ranked) == multiset(drivers)
    requires forall i | 0 <= i < |ranked| - 1 ::
               distance(passenger.finishPoint, ranked[i].finishPoint) <= distance(passenger.finishPoint, ranked[i + 1].finishPoint)
    requires forall k :: StableSort.WithKey(ranked, DistanceFrom(passenger, distance), k)
                         == StableSort.WithKey(drivers, DistanceFrom(passenger, distance), k)
    ensures ranked == SuggestDrivers(passenger, drivers, distance)
  {
    var key := DistanceFrom(passenger, distance);
    AdjacentSorted(ranked, key);
    StableSort.SortByUnique(drivers, ranked, key);
  }

  /** A sequence ordered from each position to the next is ordered between any two positions. */
  lemma {:induction false} AdjacentSorted(s: seq<Person>, key: Person -> int)
    requires forall i | 0 <= i < |s| - 1 :: key(s[i]) <= key(s[i + 1])
    ensures StableSort.SortedBy(s, key)
    decreases |s|
  {
    if |s| > 1 {
      AdjacentSorted(s[1..], key);
      assert forall j | 1 <= j < |s| :: key(s[0]) <= key(s[j]) by {
        forall j | 1 <= j < |s| ensures key(s[0]) <= key(s[j]) {
          assert s[1..][j - 1] == s[j];
          assert StableSort.SortedBy(s[1..], key);
          if j > 1 {
            assert key(s[1..][0]) <= key(s[1..][j - 1]);
          }
        }
      }
    }
  }
}
