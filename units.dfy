/** The unit table: five time units, largest first, each with its factor in
    milliseconds, a one-letter short name and a capitalised long name. */
module Units {

  datatype TimeUnit = YEAR | DAY | HOUR | MINUTE | SECOND

  const FACTOR_SECONDS: nat := 1000
  const FACTOR_MINUTES: nat := FACTOR_SECONDS * 60
  const FACTOR_HOURS: nat := FACTOR_MINUTES * 60
  const FACTOR_DAYS: nat := FACTOR_HOURS * 24
  /** (FACTOR_DAYS * 365.25).toLong(): the Double product is exact. */
  const FACTOR_YEARS: nat := 31_557_600_000

  /** The enumeration in declaration order, as `TimeUnit.values()` yields it. */
  const AllUnits: seq<TimeUnit> := [YEAR, DAY, HOUR, MINUTE, SECOND]

  function Ordinal(u: TimeUnit): (o: nat)
    ensures o < |AllUnits| && AllUnits[o] == u
  {
    match u
    case YEAR => 0
    case DAY => 1
    case HOUR => 2
    case MINUTE => 3
    case SECOND => 4
  }

  lemma OrdinalOfIndex(i: nat)
    requires i < |AllUnits|
    ensures Ordinal(AllUnits[i]) == i
  {
  }

  function Factor(u: TimeUnit): (f: nat)
    ensures FACTOR_SECONDS <= f <= FACTOR_YEARS && f % FACTOR_SECONDS == 0
  {
    match u
    case YEAR => FACTOR_YEARS
    case DAY => FACTOR_DAYS
    case HOUR => FACTOR_HOURS
    case MINUTE => FACTOR_MINUTES
    case SECOND => FACTOR_SECONDS
  }

  /** The number of the next smaller unit that fits in one `u`, rounded up
      (365.25 days make a year, so a year holds at most 366 started days). */
  function Capacity(u: TimeUnit): (c: nat)
    requires u != SECOND
    ensures c * Factor(NextSmaller(u)) >= Factor(u)
    ensures (c - 1) * Factor(NextSmaller(u)) < Factor(u)
  {
    match u
    case YEAR => 366
    case DAY => 24
    case HOUR => 60
    case MINUTE => 60
  }

  function NextSmaller(u: TimeUnit): (v: TimeUnit)
    requires u != SECOND
    ensures Ordinal(v) == Ordinal(u) + 1
  {
    AllUnits[Ordinal(u) + 1]
  }

  function ShortName(u: TimeUnit): string
  {
    match u
    case YEAR => "y"
    case DAY => "d"
    case HOUR => "h"
    case MINUTE => "m"
    case SECOND => "s"
  }

  function LongName(u: TimeUnit): string
  {
    match u
    case YEAR => "Year"
    case DAY => "Day"
    case HOUR => "Hour"
    case MINUTE => "Minute"
    case SECOND => "Second"
  }

  /** The table is ordered: factors strictly decrease from YEAR to SECOND. */
  lemma FactorsDecrease(i: nat, j: nat)
    requires i < j < |AllUnits|
    ensures Factor(AllUnits[i]) > Factor(AllUnits[j])
  {
  }

  /** Every short name is the lower-cased first letter of the long name. */
  lemma ShortNameIsInitial(u: TimeUnit)
    ensures |LongName(u)| > 0 && ShortName(u) == [(LongName(u)[0] as int + 32) as char]
  {
  }
}
