/**
 The ladder of time units used by the time-based rolling-file policy, from the
 finest (millisecond) to the coarsest (year), and the fixed number of instances
 of each unit that make up one instance of the next-coarser unit.
 */
module TimeUnits {

  datatype Unit = Millisecond | Second | Minute | Hour | Day | Week | Month | Year

  /** Position of a unit on the ladder: 0 for millisecond up to 7 for year. */
  function Rank(u: Unit): nat
  {
    match u
    case Millisecond => 0
    case Second => 1
    case Minute => 2
    case Hour => 3
    case Day => 4
    case Week => 5
    case Month => 6
    case Year => 7
  }

  /** The name under which getHighestTimeUnit reports the unit. */
  function Name(u: Unit): string
  {
    match u
    case Millisecond => "millisecond"
    case Second => "second"
    case Minute => "minute"
    case Hour => "hour"
    case Day => "day"
    case Week => "week"
    case Month => "month"
    case Year => "year"
  }

  /** The next-coarser unit; year is terminal and has none. */
  function Next(u: Unit): (n: Unit)
    requires u != Year
    ensures Rank(n) == Rank(u) + 1
  {
    match u
    case Millisecond => Second
    case Second => Minute
    case Minute => Hour
    case Hour => Day
    case Day => Week
    case Week => Month
    case Month => Year
  }

  /** How many instances of `u` make one instance of `Next(u)`. */
  function Threshold(u: Unit): (t: nat)
    requires u != Year
    ensures t >= 2
    ensures MsPer(Next(u)) == t * MsPer(u)
  {
    match u
    case Millisecond => 1000
    case Second => 60
    case Minute => 60
    case Hour => 24
    case Day => 7
    case Week => 4
    case Month => 12
  }

  /** The unit one step finer than `u`; millisecond has none. */
  function Prev(u: Unit): (p: Unit)
    requires u != Millisecond
    ensures p != Year && Next(p) == u
  {
    match u
    case Second => Millisecond
    case Minute => Second
    case Hour => Minute
    case Day => Hour
    case Week => Day
    case Month => Week
    case Year => Month
  }

  /** Two units on the same rung of the ladder are the same unit. */
  lemma RankInjective(a: Unit, b: Unit)
    ensures Rank(a) == Rank(b) <==> a == b
  {
  }

  /** The length of one instance of `u` in milliseconds. */
  function MsPer(u: Unit): (m: nat)
    ensures m >= 1
  {
    match u
    case Millisecond => 1
    case Second => 1000
    case Minute => 60_000
    case Hour => 3_600_000
    case Day => 86_400_000
    case Week => 604_800_000
    case Month => 2_419_200_000
    case Year => 29_030_400_000
  }

  /**
   The length table agrees with the threshold table: one instance of the
   next unit is exactly `Threshold(u)` instances of `u`.
   */
  lemma MsPerStep(u: Unit)
    requires u != Year
    ensures MsPer(Next(u)) == MsPer(u) * Threshold(u)
    ensures MsPer(Next(u)) as real == MsPer(u) as real * Threshold(u) as real
  {
  }

  /** A coarser unit is strictly longer: the ladder is ordered by length. */
  lemma MsPerIncreasing(a: Unit, b: Unit)
    requires Rank(a) < Rank(b)
    ensures MsPer(a) < MsPer(b)
  {
  }

  /** A unit at or above another is at least as long. */
  lemma MsPerMonotone(a: Unit, b: Unit)
    requires Rank(a) <= Rank(b)
    ensures MsPer(a) <= MsPer(b)
  {
    if Rank(a) < Rank(b) {
      MsPerIncreasing(a, b);
    } else {
      RankInjective(a, b);
    }
  }
}
