/**
  The recovered-players view: the rows recovered this year, the length of
  each closed episode, and a missed-matches count per listed player taken
  from that player's latest recovered record.
 */
module RecoveredPlayers {
  import opened Calendar
  import opened Records
  import opened Folds
  import opened MatchesUtils
  import opened Statistics
  import opened App
  import opened Pagination

  /** The listing query: status `'recovered'` and a recovery date from January 1 to December 31 of `year`. */
  predicate ListedAsRecovered(e: Episode, year: int)
  {
    e.status == RecoveredStatus && e.recoveryDate.Some?
    && JanFirst(year) <= e.recoveryDate.value <= DecThirtyFirst(year)
  }

  /** The rows the listing query returns, in table order. */
  function RecoveredList(store: seq<Episode>, year: int): (r: seq<Episode>)
    ensures |r| <= |store|
    ensures forall e :: e in r <==> e in store && ListedAsRecovered(e, year)
  {
    if store == [] then []
    else
      var e := store[|store| - 1];
      RecoveredList(store[..|store| - 1], year) + (if ListedAsRecovered(e, year) then [e] else [])
  }

  /**
    The date-range query and the statistics page's year test agree: this view
    lists exactly the rows the statistics page counts as recovered this year.
   */
  lemma {:induction false} RecoveredListMatchesStatistics(store: seq<Episode>, year: int)
    ensures RecoveredList(store, year) == RecoveredThisYear(store, year)
  {
    if store != [] {
      var e := store[|store| - 1];
      RecoveredListMatchesStatistics(store[..|store| - 1], year);
      if e.recoveryDate.Some? {
        YearOfIff(e.recoveryDate.value, year);
      }
      assert ListedAsRecovered(e, year) == RecoveredInYear(e, year);
    }
  }

  /**
    This view's `calculateInjuryDuration` is the closed-episode length: 0
    unless both dates are present, otherwise the distance between them, the
    same with the dates swapped and 0 only for equal dates.
   */
  lemma ClosedDurationIsDistance(e: Episode)
    ensures !HasBothDates(e) ==> ClosedDuration(e) == 0
    ensures HasBothDates(e) ==>
              && ClosedDuration(e) == ClosedDuration(e.(injuryDate := e.recoveryDate, recoveryDate := e.injuryDate))
              && (ClosedDuration(e) == 0 <==> e.injuryDate == e.recoveryDate)
  {
    if HasBothDates(e) {
      DayDiffIsDistance(e.injuryDate.value, e.recoveryDate.value);
    }
  }

  /**
    The closed length against the visitor view's reading of an episode
    recovered on or after its injury day: equal at the midnight the recovery
    day starts, one less at any later moment `ms` of that day.
   */
  lemma ClosedDurationAgainstVisitorView(e: Episode, ms: int)
    requires HasBothDates(e) && e.injuryDate.value <= e.recoveryDate.value
    requires 0 < ms < MsPerDay
    ensures ClosedDuration(e) == InjuryDuration(e, e.recoveryDate.value * MsPerDay)
    ensures ClosedDuration(e) + 1 == InjuryDuration(e, e.recoveryDate.value * MsPerDay + ms)
  {
    var rec := e.recoveryDate.value;
    InjuryDurationIsDistance(e, rec * MsPerDay);
    InjuryDurationIsDistance(e, rec * MsPerDay + ms);
    assert (rec * MsPerDay) / MsPerDay == rec && (rec * MsPerDay) % MsPerDay == 0;
    assert (rec * MsPerDay + ms) / MsPerDay == rec && (rec * MsPerDay + ms) % MsPerDay == ms;
  }

  /** A row the lookup may return for `name`: same name, status `'recovered'`. */
  predicate IsCandidate(e: Episode, name: string)
  {
    e.name == name && e.status == RecoveredStatus
  }

  /**
    `x` comes strictly before `y` under `order('injury_date', { ascending: false })`:
    a descending order puts rows without a date first, then later dates first.
   */
  predicate SortsBefore(x: Episode, y: Episode)
  {
    (x.injuryDate.None? && y.injuryDate.Some?)
    || (x.injuryDate.Some? && y.injuryDate.Some? && x.injuryDate.value > y.injuryDate.value)
  }

  /**
    The `limit(1).single()` lookup: the candidate that sorts first, none when
    there is no candidate. Among rows that tie, the first in table order.
   */
  function LatestRecovered(store: seq<Episode>, name: string): (r: Option<Episode>)
    ensures r.None? <==> forall e :: e in store ==> !IsCandidate(e, name)
    ensures r.Some? ==> r.value in store && IsCandidate(r.value, name)
    ensures r.Some? ==> forall e :: e in store && IsCandidate(e, name) ==> !SortsBefore(e, r.value)
  {
    if store == [] then None
    else
      var best := LatestRecovered(store[..|store| - 1], name);
      var e := store[|store| - 1];
      assert store == store[..|store| - 1] + [e];
      if IsCandidate(e, name) && (best.None? || SortsBefore(e, best.value)) then Some(e) else best
  }

  /** With every candidate dated, the lookup returns one with the greatest injury date. */
  lemma LatestRecoveredHasGreatestDate(store: seq<Episode>, name: string)
    requires forall e :: e in store && IsCandidate(e, name) ==> e.injuryDate.Some?
    ensures var r := LatestRecovered(store, name);
            r.Some? ==>
              && r.value.injuryDate.Some?
              && forall e :: e in store && IsCandidate(e, name) ==> e.injuryDate.value <= r.value.injuryDate.value
  {
  }

  /** The value stored for a listed player: the latest record's count, or 0 when the lookup finds nothing. */
  function RecoveredEntry(matches: Option<seq<Match>>, players: Option<seq<Episode>>, now: Date): Episode -> int
  {
    (p: Episode) => if players.None? then 0
         else match LatestRecovered(players.value, p.name)
              case None => 0
              case Some(r) => MissedMatches(r, matches, players, now)
  }

  /**
    The `missedMatchesData` fill loop of this view, with its per-player
    branch. The lookup and `calculateMissedMatches` read the same snapshot
    `players` of the table.
   */
  method FillRecoveredMissed(data: seq<Episode>, matches: Option<seq<Match>>, players: Option<seq<Episode>>, now: Date)
    returns (missedMatchesData: map<int, int>)
    ensures missedMatchesData == Fill(data, IdOf, RecoveredEntry(matches, players, now))
  {
    missedMatchesData := map[];
    var i := 0;
    while i < |data|
      invariant 0 <= i <= |data|
      invariant missedMatchesData == Fill(data[..i], IdOf, RecoveredEntry(matches, players, now))
    {
      var player := data[i];
      var recoveredInjury := if players.Some? then LatestRecovered(players.value, player.name) else None;
      if recoveredInjury.Some? {
        var missed := CalculateMissedMatches(recoveredInjury.value, matches, players, now);
        missedMatchesData := missedMatchesData[player.id := missed];
      } else {
        missedMatchesData := missedMatchesData[player.id := 0];
      }
      assert data[..i + 1][..i] == data[..i];
      i := i + 1;
    }
    assert data[..i] == data;
  }

  /**
    A recovered row of the same name without an injury date sorts first, so
    the lookup returns an undated record and the player's entry is 0.
   */
  lemma UndatedCandidateZeroesEntry(p: Episode, matches: Option<seq<Match>>, players: seq<Episode>, now: Date, u: Episode)
    requires u in players && IsCandidate(u, p.name) && u.injuryDate.None?
    ensures RecoveredEntry(matches, Some(players), now)(p) == 0
  {
  }

  /**
    With every candidate dated, the entry is the missed-matches count of the
    player's name, the same whichever dated record of that name is used.
   */
  lemma DatedCandidatesGiveNameCount(p: Episode, matches: Option<seq<Match>>, players: seq<Episode>, now: Date)
    requires p.injuryDate.Some? && p in players && IsCandidate(p, p.name)
    requires forall e :: e in players && IsCandidate(e, p.name) ==> e.injuryDate.Some?
    ensures RecoveredEntry(matches, Some(players), now)(p) == MissedMatches(p, matches, Some(players), now)
  {
    var r := LatestRecovered(players, p.name);
    MissedMatchesDependsOnNameOnly(r.value, p, matches, Some(players), now);
  }

  /** Every listed player's id gets an entry, and the map has no other keys. */
  lemma RecoveredMapCoversListed(store: seq<Episode>, year: int, matches: Option<seq<Match>>, now: Date)
    ensures var data := RecoveredList(store, year);
            var m := Fill(data, IdOf, RecoveredEntry(matches, Some(store), now));
            forall k :: k in m <==> exists i :: 0 <= i < |data| && data[i].id == k
  {
    var data := RecoveredList(store, year);
    var f := RecoveredEntry(matches, Some(store), now);
    forall k ensures k in Fill(data, IdOf, f) <==> exists i :: 0 <= i < |data| && data[i].id == k {
      FillKeys(data, IdOf, f, k);
    }
  }

  /** A listed player is a candidate of its own name, so the lookup always finds a record. */
  lemma ListedPlayerHasRecord(store: seq<Episode>, year: int, p: Episode)
    requires p in RecoveredList(store, year)
    ensures LatestRecovered(store, p.name).Some?
  {
    assert IsCandidate(p, p.name);
  }

  /** Every row on any page of this view is a row recovered within the year. */
  lemma RecoveredPagesShowListed(store: seq<Episode>, year: int, currentPage: int)
    ensures forall e :: e in CurrentPlayers(RecoveredList(store, year), currentPage) ==> e in store && ListedAsRecovered(e, year)
  {
    PageRowsFromList(RecoveredList(store, year), currentPage);
  }
}
