/**
 * The value types of the program: a coordinate point and a participant bound to it,
 * and the two groups of participants of one run.
 */
module Geo {

  /** A Kotlin `Float`, represented by its 32-bit IEEE 754 pattern; its numeric value stays opaque. */
  type Float32 = bv32

  /** A `java.util.UUID`: two 64-bit halves, compared by value. */
  datatype Uuid = Uuid(mostSigBits: bv64, leastSigBits: bv64)

  /**
   * A geographic point. Structural equality, as for a Kotlin data class (the private
   * radius constant is not a constructor parameter and takes no part in equality).
   */
  datatype Point = Point(latitude: Float32, longitude: Float32)

  /** A participant: a unique identifier and the point where the participant's trip ends. */
  datatype Person = Person(id: Uuid, finishPoint: Point)

  /** The passengers and the drivers of one run, each in its own order. */
  datatype Participants = Participants(passengers: seq<Person>, drivers: seq<Person>)

  /**
   * The distance between two points, as the position of the computed `Float` in the total
   * order that `Float.compareTo` imposes. The program only ever compares distances, so the
   * rank is all that matters; the great-circle formula itself stays a parameter.
   */
  type DistanceKey = (Point, Point) -> int

  /** The finish points of a group of people, in the group's order. */
  function FinishPoints(people: seq<Person>): seq<Point> {
    seq(|people|, i requires 0 <= i < |people| => people[i].finishPoint)
  }

  /** The identifiers of a group of people, in the group's order. */
  function Ids(people: seq<Person>): seq<Uuid> {
    seq(|people|, i requires 0 <= i < |people| => people[i].id)
  }
}
