/**
  The two tables every view reads: `players`, one row per injury episode, and
  `matches`, the fixture calendar. Rows arrive as already-fetched snapshots.
 */
module Records {
  import opened Calendar

  datatype Option<+T> = None | Some(value: T)

  /**
    One row of `players`. A player may have several rows over time; rows of
    the same player are recognised only by an equal `name` (`name_hebrew`).
    `injuryType` is `injury_type_hebrew`, "" when the row has none.
   */
  datatype Episode = Episode(
    id: int,
    name: string,
    injuryType: string,
    injuryDate: Option<Date>,
    recoveryDate: Option<Date>,
    status: string)

  /** One row of `matches`. */
  datatype Match = Match(id: int, matchDate: Date)

  const InjuredStatus: string := "injured"
  const RecoveredStatus: string := "recovered"

  /** Whole days between two dates, in either order: `ceil(|b - a| / 86400000)` on date-only values. */
  function DayDiff(a: Date, b: Date): (n: nat)
    ensures a + n == b || b + n == a
  {
    if a <= b then b - a else a - b
  }

  /** The day difference is a distance: symmetric, and zero only for the same day. */
  lemma DayDiffIsDistance(a: Date, b: Date)
    ensures DayDiff(a, b) == DayDiff(b, a)
    ensures DayDiff(a, b) == 0 <==> a == b
  {
  }

  predicate HasBothDates(e: Episode)
  {
    e.injuryDate.Some? && e.recoveryDate.Some?
  }

  /**
    The length of a closed episode: the day difference between its injury and
    recovery dates, and 0 unless both are present.
   */
  function ClosedDuration(e: Episode): (n: int)
    ensures n >= 0
    ensures !HasBothDates(e) ==> n == 0
  {
    if HasBothDates(e) then DayDiff(e.injuryDate.value, e.recoveryDate.value) else 0
  }

  /** The rows whose status is `'injured'`, in table order. */
  function InjuredRecords(ps: seq<Episode>): (r: seq<Episode>)
    ensures |r| <= |ps|
    ensures forall e :: e in r <==> e in ps && e.status == InjuredStatus
  {
    if ps == [] then []
    else
      var e := ps[|ps| - 1];
      InjuredRecords(ps[..|ps| - 1]) + (if e.status == InjuredStatus then [e] else [])
  }
}
