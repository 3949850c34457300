/**
  The statistics page: `getStats` over every row of `players`, for the
  current calendar year `year`.
 */
module Statistics {
  import opened Calendar
  import opened Records
  import opened Folds

  /** A row whose injury date falls in `year`. */
  predicate InjuredInYear(e: Episode, year: int)
  {
    e.injuryDate.Some? && YearOf(e.injuryDate.value) == year
  }

  /** A recovered row whose recovery date falls in `year`. */
  predicate RecoveredInYear(e: Episode, year: int)
  {
    e.recoveryDate.Some? && YearOf(e.recoveryDate.value) == year && e.status == RecoveredStatus
  }

  /** `playersThisYear`: the rows injured in `year`, in table order. */
  function InjuredThisYear(ps: seq<Episode>, year: int): (r: seq<Episode>)
    ensures |r| <= |ps|
    ensures forall e :: e in r <==> e in ps && InjuredInYear(e, year)
  {
    if ps == [] then []
    else
      var e := ps[|ps| - 1];
      InjuredThisYear(ps[..|ps| - 1], year) + (if InjuredInYear(e, year) then [e] else [])
  }

  /** `recoveredPlayersThisYear`: the rows recovered in `year`, in table order. */
  function RecoveredThisYear(ps: seq<Episode>, year: int): (r: seq<Episode>)
    ensures |r| <= |ps|
    ensures forall e :: e in r <==> e in ps && RecoveredInYear(e, year)
  {
    if ps == [] then []
    else
      var e := ps[|ps| - 1];
      RecoveredThisYear(ps[..|ps| - 1], year) + (if RecoveredInYear(e, year) then [e] else [])
  }

  /** `playersThisYear` keeps each row injured in the year as often as the table holds it, and no other row: its length is `totalInjuriesThisYear`. */
  lemma {:induction false} InjuredThisYearMultiplicity(ps: seq<Episode>, year: int, x: Episode)
    ensures multiset(InjuredThisYear(ps, year))[x] == if InjuredInYear(x, year) then multiset(ps)[x] else 0
  {
    if ps != [] {
      var init := ps[..|ps| - 1];
      var e := ps[|ps| - 1];
      InjuredThisYearMultiplicity(init, year, x);
      assert ps == init + [e];
      if InjuredInYear(e, year) {
        assert InjuredThisYear(ps, year) == InjuredThisYear(init, year) + [e];
      } else {
        assert InjuredThisYear(ps, year) == InjuredThisYear(init, year) + [];
        assert InjuredThisYear(ps, year) == InjuredThisYear(init, year);
      }
      assert multiset(ps) == multiset(init) + multiset{e};
    }
  }

  /** `recoveredPlayersThisYear` keeps each row recovered in the year as often as the table holds it, and no other row. */
  lemma {:induction false} RecoveredThisYearMultiplicity(ps: seq<Episode>, year: int, x: Episode)
    ensures multiset(RecoveredThisYear(ps, year))[x] == if RecoveredInYear(x, year) then multiset(ps)[x] else 0
  {
    if ps != [] {
      var init := ps[..|ps| - 1];
      var e := ps[|ps| - 1];
      RecoveredThisYearMultiplicity(init, year, x);
      assert ps == init + [e];
      if RecoveredInYear(e, year) {
        assert RecoveredThisYear(ps, year) == RecoveredThisYear(init, year) + [e];
      } else {
        assert RecoveredThisYear(ps, year) == RecoveredThisYear(init, year) + [];
        assert RecoveredThisYear(ps, year) == RecoveredThisYear(init, year);
      }
      assert multiset(ps) == multiset(init) + multiset{e};
    }
  }

  /** The distinct player names among some rows. */
  function Names(ps: seq<Episode>): set<string>
  {
    set e | e in ps :: e.name
  }

  /** There are never more distinct names than rows. */
  lemma {:induction false} NamesAtMostRows(ps: seq<Episode>)
    ensures |Names(ps)| <= |ps|
  {
    if ps != [] {
      var init := ps[..|ps| - 1];
      var e := ps[|ps| - 1];
      NamesAtMostRows(init);
      assert ps == init + [e];
      assert Names(ps) == Names(init) + {e.name};
    }
  }

  /** `totalInjuredDays`: the closed-episode durations of all rows, of any year. */
  function TotalInjuredDays(ps: seq<Episode>): int
  {
    SumOf(ps, ClosedDuration)
  }

  predicate HasType(e: Episode)
  {
    e.injuryType != ""
  }

  /** A row that takes part in the average recovery time: typed and closed. */
  predicate Timed(e: Episode)
  {
    HasType(e) && HasBothDates(e)
  }

  predicate IsDated(e: Episode)
  {
    e.injuryDate.Some?
  }

  function TypeKey(e: Episode): string
  {
    e.injuryType
  }

  function NameKey(e: Episode): string
  {
    e.name
  }

  function MonthKey(e: Episode): int
  {
    if e.injuryDate.Some? then MonthOf(e.injuryDate.value) else 0
  }

  function One(e: Episode): int
  {
    1
  }

  /** `injuryTypes`: how many of the year's rows carry each injury type. */
  function InjuryTypeCounts(thisYear: seq<Episode>): map<string, int>
  {
    Tally(thisYear, HasType, TypeKey, One)
  }

  /** `playerInjuryDays`: closed-episode days per player name, over the year's rows. */
  function PlayerInjuryDays(thisYear: seq<Episode>): map<string, int>
  {
    Tally(thisYear, HasBothDates, NameKey, ClosedDuration)
  }

  /** The `sum` halves of `injuryRecoveryTimes`, over rows of any year. */
  function RecoverySums(ps: seq<Episode>): map<string, int>
  {
    Tally(ps, Timed, TypeKey, ClosedDuration)
  }

  /** The `count` halves of `injuryRecoveryTimes`, over rows of any year. */
  function RecoveryCounts(ps: seq<Episode>): map<string, int>
  {
    Tally(ps, Timed, TypeKey, One)
  }

  /** Every injury type in the recovery table was counted at least once: its mean never divides by 0. */
  lemma RecoveryCountsPositive(ps: seq<Episode>)
    ensures forall t :: t in RecoveryCounts(ps) ==> RecoveryCounts(ps)[t] >= 1
  {
    forall t | t in RecoveryCounts(ps) ensures RecoveryCounts(ps)[t] >= 1 {
      TallyPositive(ps, Timed, TypeKey, One, t);
    }
  }

  /** `Math.round(sum / count)`: the mean rounded to the nearest integer, halves upwards. */
  function RoundedMean(sum: int, count: int): int
    requires count >= 1
  {
    (2 * sum + count) / (2 * count)
  }

  /** The rounded mean `r` is within one half of `sum / count`: `r - 1/2 <= sum/count < r + 1/2`. */
  lemma RoundedMeanIsNearest(sum: int, count: int)
    requires count >= 1
    ensures 2 * count * RoundedMean(sum, count) <= 2 * sum + count
    ensures 2 * sum + count < 2 * count * (RoundedMean(sum, count) + 1)
  {
    var q := RoundedMean(sum, count);
    var n := 2 * sum + count;
    var d := 2 * count;
    assert n == d * q + n % d && 0 <= n % d < d;
    assert d * (q + 1) == d * q + d;
  }

  /** `avgRecoveryDays` keyed by injury type: the rounded mean of that type's closed durations. */
  function AverageRecovery(ps: seq<Episode>): map<string, int>
  {
    RecoveryCountsPositive(ps);
    var counts := RecoveryCounts(ps);
    map t | t in counts :: RoundedMean(Get(RecoverySums(ps), t), counts[t])
  }

  function Zeros(n: nat): (r: seq<int>)
    ensures |r| == n && forall i :: 0 <= i < n ==> r[i] == 0
  {
    seq(n, i => 0)
  }

  /** `monthlyInjuries`: twelve buckets, January first, counting dated rows by injury month. */
  function MonthlyInjuries(ps: seq<Episode>): (r: seq<int>)
    ensures |r| == 12
  {
    if ps == [] then Zeros(12)
    else
      var r := MonthlyInjuries(ps[..|ps| - 1]);
      var e := ps[|ps| - 1];
      if e.injuryDate.Some? then r[MonthOf(e.injuryDate.value) := r[MonthOf(e.injuryDate.value)] + 1] else r
  }

  /** The figures `getStats` returns; the label/value array pairs are the keys and values of the maps. */
  datatype Stats = Stats(
    totalInjuriesThisYear: int,
    totalUniqueInjuredPlayersThisYear: int,
    totalInjuredDays: int,
    injuryTypes: map<string, int>,
    playerInjuryDays: map<string, int>,
    totalRecoveredPlayersThisYear: int,
    avgRecoveryDays: map<string, int>,
    monthlyInjuries: seq<int>)

  /** Every figure of the statistics page, as a function of the rows and the year. */
  function StatsOf(ps: seq<Episode>, year: int): Stats
  {
    var thisYear := InjuredThisYear(ps, year);
    Stats(
      |thisYear|,
      |Names(thisYear)|,
      TotalInjuredDays(ps),
      InjuryTypeCounts(thisYear),
      PlayerInjuryDays(thisYear),
      |RecoveredThisYear(ps, year)|,
      AverageRecovery(ps),
      MonthlyInjuries(thisYear))
  }

  /** The `totalInjuredDays` accumulator loop. */
  method SumInjuredDays(ps: seq<Episode>) returns (total: int)
    ensures total == TotalInjuredDays(ps)
  {
    total := 0;
    var i := 0;
    while i < |ps|
      invariant 0 <= i <= |ps|
      invariant total == SumOf(ps[..i], ClosedDuration)
    {
      var e := ps[i];
      assert ps[..i + 1][..i] == ps[..i];
      assert SumOf(ps[..i + 1], ClosedDuration) == SumOf(ps[..i], ClosedDuration) + ClosedDuration(e);
      if e.injuryDate.Some? && e.recoveryDate.Some? {
        total := total + DayDiff(e.injuryDate.value, e.recoveryDate.value);
      }
      i := i + 1;
    }
    assert ps[..i] == ps;
  }

  /** A dictionary-filling `forEach` loop: `d[key(x)] = (d[key(x)] || 0) + weight(x)` for each counted `x`. */
  method TallyLoop<T, K>(s: seq<T>, counted: T -> bool, key: T -> K, weight: T -> int) returns (d: map<K, int>)
    ensures d == Tally(s, counted, key, weight)
  {
    d := map[];
    var i := 0;
    while i < |s|
      invariant 0 <= i <= |s|
      invariant d == Tally(s[..i], counted, key, weight)
    {
      var x := s[i];
      if counted(x) {
        d := d[key(x) := (if key(x) in d then d[key(x)] else 0) + weight(x)];
      }
      assert s[..i + 1][..i] == s[..i];
      i := i + 1;
    }
    assert s[..i] == s;
  }

  /** The `injuryRecoveryTimes` loop, keeping each type's `sum` and `count` side by side. */
  method RecoveryTimes(ps: seq<Episode>) returns (sums: map<string, int>, counts: map<string, int>)
    ensures sums == RecoverySums(ps) && counts == RecoveryCounts(ps)
  {
    sums, counts := map[], map[];
    var i := 0;
    while i < |ps|
      invariant 0 <= i <= |ps|
      invariant sums == RecoverySums(ps[..i]) && counts == RecoveryCounts(ps[..i])
      invariant sums.Keys == counts.Keys
    {
      var e := ps[i];
      if e.injuryType != "" && e.injuryDate.Some? && e.recoveryDate.Some? {
        var days := DayDiff(e.injuryDate.value, e.recoveryDate.value);
        var t := e.injuryType;
        if t !in counts {
          sums, counts := sums[t := 0], counts[t := 0];
        }
        sums := sums[t := sums[t] + days];
        counts := counts[t := counts[t] + 1];
      }
      assert ps[..i + 1][..i] == ps[..i];
      i := i + 1;
    }
    assert ps[..i] == ps;
  }

  /** The `monthlyInjuries` loop over a twelve-cell array filled with 0. */
  method MonthlyLoop(thisYear: seq<Episode>) returns (buckets: seq<int>)
    ensures buckets == MonthlyInjuries(thisYear)
  {
    var a := new int[12](i => 0);
    var i := 0;
    while i < |thisYear|
      invariant 0 <= i <= |thisYear|
      invariant a[..] == MonthlyInjuries(thisYear[..i])
    {
      var e := thisYear[i];
      if e.injuryDate.Some? {
        var month := MonthOf(e.injuryDate.value);
        a[month] := a[month] + 1;
      }
      assert thisYear[..i + 1][..i] == thisYear[..i];
      i := i + 1;
    }
    assert thisYear[..i] == thisYear;
    buckets := a[..];
  }

  /** `getStats` as the page runs it. */
  method GetStats(ps: seq<Episode>, year: int) returns (s: Stats)
    ensures s == StatsOf(ps, year)
  {
    var thisYear := InjuredThisYear(ps, year);
    var days := SumInjuredDays(ps);
    var types := TallyLoop(thisYear, HasType, TypeKey, One);
    var perPlayer := TallyLoop(thisYear, HasBothDates, NameKey, ClosedDuration);
    var sums, counts := RecoveryTimes(ps);
    RecoveryCountsPositive(ps);
    var averages := map t | t in counts :: RoundedMean(if t in sums then sums[t] else 0, counts[t]);
    var monthly := MonthlyLoop(thisYear);
    s := Stats(|thisYear|, |Names(thisYear)|, days, types, perPlayer,
               |RecoveredThisYear(ps, year)|, averages, monthly);
  }

  /** With no rows every figure is 0, every map empty and all twelve months 0. */
  lemma StatsOfEmpty(year: int)
    ensures StatsOf([], year) == Stats(0, 0, 0, map[], map[], 0, map[], [0, 0, 0, 0, 0, 0, 0, 0, 0, 0, 0, 0])
  {
    assert Names([]) == {};
    assert AverageRecovery([]) == map[];
  }

  /** The year's distinct injured players never outnumber its injuries. */
  lemma UniquePlayersAtMostInjuries(ps: seq<Episode>, year: int)
    ensures StatsOf(ps, year).totalUniqueInjuredPlayersThisYear <= StatsOf(ps, year).totalInjuriesThisYear
  {
    NamesAtMostRows(InjuredThisYear(ps, year));
  }

  /** Only recovered rows whose recovery date falls in the year are counted as recovered this year. */
  lemma RecoveredThisYearMeaning(ps: seq<Episode>, year: int, e: Episode)
    ensures e in RecoveredThisYear(ps, year) <==>
            e in ps && e.status == RecoveredStatus && e.recoveryDate.Some? && YearOf(e.recoveryDate.value) == year
    ensures StatsOf(ps, year).totalRecoveredPlayersThisYear <= |ps|
  {
  }

  /** The total of injured days is never negative and does not depend on the order of the rows. */
  lemma {:induction false} TotalInjuredDaysOrderFree(a: seq<Episode>, b: seq<Episode>)
    requires multiset(a) == multiset(b)
    ensures TotalInjuredDays(a) == TotalInjuredDays(b) >= 0
  {
    SumPermutation(a, b, ClosedDuration);
    forall i | 0 <= i < |b| ensures ClosedDuration(b[i]) >= 0 {
    }
    SumNonNegative(b, ClosedDuration);
  }

  /**
    The injury-type histogram has a key for each non-empty type among the
    year's rows, counts each type's rows, and its counts add up to the year's
    typed rows, never more than the year's injuries.
   */
  lemma InjuryTypeCountsMeaning(ps: seq<Episode>, year: int, t: string)
    ensures var thisYear := InjuredThisYear(ps, year);
            var d := StatsOf(ps, year).injuryTypes;
            && (t in d <==> exists i :: 0 <= i < |thisYear| && thisYear[i].injuryType == t != "")
            && Get(d, t) == KeySum(thisYear, HasType, TypeKey, One, t)
            && MapSum(d) == IncludedSum(thisYear, HasType, One) <= StatsOf(ps, year).totalInjuriesThisYear
  {
    var thisYear := InjuredThisYear(ps, year);
    TallyKeys(thisYear, HasType, TypeKey, One, t);
    TallyValue(thisYear, HasType, TypeKey, One, t);
    TallyTotal(thisYear, HasType, TypeKey, One);
    IncludedSumAtMostLength(thisYear, HasType, One);
  }

  /** The year's closed-episode days are part of the all-time total. */
  lemma {:induction false} YearDaysWithinTotal(ps: seq<Episode>, year: int)
    ensures IncludedSum(InjuredThisYear(ps, year), HasBothDates, ClosedDuration) <= TotalInjuredDays(ps)
  {
    if ps != [] {
      var init := ps[..|ps| - 1];
      var e := ps[|ps| - 1];
      YearDaysWithinTotal(init, year);
      var ty := InjuredThisYear(ps, year);
      assert SumOf(ps, ClosedDuration) == SumOf(init, ClosedDuration) + ClosedDuration(e);
      if InjuredInYear(e, year) {
        assert ty == InjuredThisYear(init, year) + [e];
        assert ty[..|ty| - 1] == InjuredThisYear(init, year) && ty[|ty| - 1] == e;
        assert IncludedSum(ty, HasBothDates, ClosedDuration)
            == IncludedSum(InjuredThisYear(init, year), HasBothDates, ClosedDuration)
               + (if HasBothDates(e) then ClosedDuration(e) else 0);
      } else {
        assert ty == InjuredThisYear(init, year) + [];
        assert ty == InjuredThisYear(init, year);
      }
    }
  }

  /**
    Per-player days count only the year's closed rows, each player's entry is
    the sum of that player's closed durations, and all entries together never
    exceed the all-time `totalInjuredDays`.
   */
  lemma PlayerInjuryDaysMeaning(ps: seq<Episode>, year: int, name: string)
    ensures var thisYear := InjuredThisYear(ps, year);
            var d := StatsOf(ps, year).playerInjuryDays;
            && (name in d <==> exists i :: 0 <= i < |thisYear| && HasBothDates(thisYear[i]) && thisYear[i].name == name)
            && Get(d, name) == KeySum(thisYear, HasBothDates, NameKey, ClosedDuration, name)
            && MapSum(d) <= StatsOf(ps, year).totalInjuredDays
  {
    var thisYear := InjuredThisYear(ps, year);
    TallyKeys(thisYear, HasBothDates, NameKey, ClosedDuration, name);
    TallyValue(thisYear, HasBothDates, NameKey, ClosedDuration, name);
    TallyTotal(thisYear, HasBothDates, NameKey, ClosedDuration);
    YearDaysWithinTotal(ps, year);
  }

  /**
    The average table has a key for each type with a closed, typed row of any
    year, and its value is the rounded mean of that type's durations over a
    count of at least 1.
   */
  lemma AverageRecoveryMeaning(ps: seq<Episode>, t: string)
    ensures var avg := AverageRecovery(ps);
            && (t in avg <==> exists i :: 0 <= i < |ps| && Timed(ps[i]) && ps[i].injuryType == t)
            && (t in avg ==>
                  && KeySum(ps, Timed, TypeKey, One, t) >= 1
                  && avg[t] == RoundedMean(KeySum(ps, Timed, TypeKey, ClosedDuration, t), KeySum(ps, Timed, TypeKey, One, t)))
  {
    TallyKeys(ps, Timed, TypeKey, One, t);
    TallyValue(ps, Timed, TypeKey, One, t);
    TallyValue(ps, Timed, TypeKey, ClosedDuration, t);
    RecoveryCountsPositive(ps);
  }

  /** The average table covers rows of every year: it does not depend on the year asked about. */
  lemma AverageRecoveryIgnoresYear(ps: seq<Episode>, year1: int, year2: int)
    ensures StatsOf(ps, year1).avgRecoveryDays == StatsOf(ps, year2).avgRecoveryDays == AverageRecovery(ps)
  {
  }

  lemma {:induction false} ZerosSum(n: nat)
    ensures SeqSum(Zeros(n)) == 0
  {
    if n > 0 {
      assert Zeros(n)[..n - 1] == Zeros(n - 1);
      ZerosSum(n - 1);
    }
  }

  /** Each month's bucket counts the dated rows injured in that month. */
  lemma {:induction false} MonthlyBucket(ps: seq<Episode>, m: int)
    requires 0 <= m < 12
    ensures MonthlyInjuries(ps)[m] == KeySum(ps, IsDated, MonthKey, One, m)
  {
    if ps != [] {
      MonthlyBucket(ps[..|ps| - 1], m);
    }
  }

  /** The buckets add up to the dated rows. */
  lemma {:induction false} MonthlyBucketsTotal(ps: seq<Episode>)
    ensures SeqSum(MonthlyInjuries(ps)) == IncludedSum(ps, IsDated, One)
  {
    if ps == [] {
      ZerosSum(12);
    } else {
      var init := ps[..|ps| - 1];
      var e := ps[|ps| - 1];
      MonthlyBucketsTotal(init);
      if e.injuryDate.Some? {
        SeqSumBump(MonthlyInjuries(init), MonthOf(e.injuryDate.value));
      }
    }
  }

  /** Rows all injured in the year are all dated, so the dated-row count is their number. */
  lemma {:induction false} ThisYearAllDated(ps: seq<Episode>, year: int)
    ensures IncludedSum(InjuredThisYear(ps, year), IsDated, One) == |InjuredThisYear(ps, year)|
  {
    if ps != [] {
      var init := ps[..|ps| - 1];
      ThisYearAllDated(init, year);
      var e := ps[|ps| - 1];
      var ty := InjuredThisYear(ps, year);
      if InjuredInYear(e, year) {
        assert ty == InjuredThisYear(init, year) + [e];
        assert ty[..|ty| - 1] == InjuredThisYear(init, year) && ty[|ty| - 1] == e;
        assert IsDated(e);
      } else {
        assert ty == InjuredThisYear(init, year) + [];
        assert ty == InjuredThisYear(init, year);
      }
    }
  }

  /** `monthlyInjuries` has twelve buckets that add up to `totalInjuriesThisYear`. */
  lemma MonthlyInjuriesTotal(ps: seq<Episode>, year: int)
    ensures |StatsOf(ps, year).monthlyInjuries| == 12
    ensures SeqSum(StatsOf(ps, year).monthlyInjuries) == StatsOf(ps, year).totalInjuriesThisYear
  {
    MonthlyBucketsTotal(InjuredThisYear(ps, year));
    ThisYearAllDated(ps, year);
  }

  /** A worked case: one strain lasting from day `d` to day `d + 9` averages 9 days. */
  lemma SingleStrainAveragesNineDays(d: Date)
    ensures AverageRecovery([Episode(1, "A", "strain", Some(d), Some(d + 9), RecoveredStatus)]) == map["strain" := 9]
  {
    var e := Episode(1, "A", "strain", Some(d), Some(d + 9), RecoveredStatus);
    assert [e][..0] == [];
    assert Timed(e) && ClosedDuration(e) == 9 && One(e) == 1 && TypeKey(e) == "strain";
    assert Tally([e][..0], Timed, TypeKey, ClosedDuration) == map[];
    assert Tally([e][..0], Timed, TypeKey, One) == map[];
    assert RecoverySums([e]) == map["strain" := 9];
    assert RecoveryCounts([e]) == map["strain" := 1];
  }
}
