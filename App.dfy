/**
  The visitor view: the list of currently injured players, their injury
  durations so far, and the missed-matches count shown for each of them.
 */
module App {
  import opened Calendar
  import opened Records
  import opened Folds
  import opened MatchesUtils
  import opened Pagination

  /** Milliseconds in a day, the divisor `1000 * 60 * 60 * 24` of the source. */
  const MsPerDay: int := 1000 * 60 * 60 * 24

  function Abs(x: int): int
  {
    if x < 0 then -x else x
  }

  /**
    `calculateInjuryDuration`: `Math.ceil(|now - injury| / MsPerDay)`, where
    the injury date is the midnight (UTC) that starts its day and `nowMs` is
    `new Date()` in milliseconds since 1970, time of day included; 0 without
    an injury date.
   */
  function InjuryDuration(e: Episode, nowMs: int): (n: int)
    ensures n >= 0
  {
    if e.injuryDate.Some? then
      var diffTime := Abs(nowMs - e.injuryDate.value * MsPerDay);
      (diffTime + MsPerDay - 1) / MsPerDay
    else 0
  }

  /** Rounding `k` whole days and `r` more milliseconds up to whole days. */
  lemma CeilDays(k: int, r: int)
    requires k >= 0 && 0 <= r < MsPerDay
    ensures (k * MsPerDay + r + MsPerDay - 1) / MsPerDay == k + (if r == 0 then 0 else 1)
  {
    var x := k * MsPerDay + r + MsPerDay - 1;
    if r == 0 {
      assert x == k * MsPerDay + (MsPerDay - 1);
    } else {
      assert x == (k + 1) * MsPerDay + (r - 1);
    }
  }

  /**
    Without an injury date the duration is 0. With one, on day `today` at
    `ms` milliseconds past midnight: a past or same-day injury reads the whole
    days since it plus one for the part of today that has gone by (1 on the
    injury day itself after midnight), a future one the whole days until it;
    0 only at the very midnight the injury day starts.
   */
  lemma InjuryDurationIsDistance(e: Episode, nowMs: int)
    ensures e.injuryDate.None? ==> InjuryDuration(e, nowMs) == 0
    ensures e.injuryDate.Some? ==>
              var d, today, ms := e.injuryDate.value, nowMs / MsPerDay, nowMs % MsPerDay;
              && (d <= today ==> InjuryDuration(e, nowMs) == today - d + (if ms == 0 then 0 else 1))
              && (today < d ==> InjuryDuration(e, nowMs) == d - today)
              && (InjuryDuration(e, nowMs) == 0 <==> nowMs == d * MsPerDay)
  {
    if e.injuryDate.Some? {
      var d, today, ms := e.injuryDate.value, nowMs / MsPerDay, nowMs % MsPerDay;
      assert nowMs == today * MsPerDay + ms;
      if d <= today {
        assert nowMs - d * MsPerDay == (today - d) * MsPerDay + ms;
        CeilDays(today - d, ms);
      } else if ms == 0 {
        assert d * MsPerDay - nowMs == (d - today) * MsPerDay;
        CeilDays(d - today, 0);
      } else {
        assert d * MsPerDay - nowMs == (d - today - 1) * MsPerDay + (MsPerDay - ms);
        CeilDays(d - today - 1, MsPerDay - ms);
      }
    }
  }

  /** For an injury in the past, each passing day adds one day to the duration. */
  lemma InjuryDurationGrowsDaily(e: Episode, nowMs: int)
    requires e.injuryDate.Some? && e.injuryDate.value * MsPerDay <= nowMs
    ensures InjuryDuration(e, nowMs + MsPerDay) == InjuryDuration(e, nowMs) + 1
  {
    InjuryDurationIsDistance(e, nowMs);
    InjuryDurationIsDistance(e, nowMs + MsPerDay);
    assert (nowMs + MsPerDay) / MsPerDay == nowMs / MsPerDay + 1;
    assert (nowMs + MsPerDay) % MsPerDay == nowMs % MsPerDay;
  }

  function IdOf(e: Episode): int
  {
    e.id
  }

  /** The value stored for each injured player: `await calculateMissedMatches(player)`. */
  function MissedValue(matches: Option<seq<Match>>, players: Option<seq<Episode>>, now: Date): Episode -> int
  {
    p => MissedMatches(p, matches, players, now)
  }

  /**
    The `missedMatchesData` fill loop over the injured rows. Every call of
    `calculateMissedMatches` reads the same snapshots `matches` and `players`.
   */
  method FillMissedMatches(injuredData: seq<Episode>, matches: Option<seq<Match>>, players: Option<seq<Episode>>, now: Date)
    returns (missedMatchesData: map<int, int>)
    ensures missedMatchesData == Fill(injuredData, IdOf, MissedValue(matches, players, now))
  {
    missedMatchesData := map[];
    var i := 0;
    while i < |injuredData|
      invariant 0 <= i <= |injuredData|
      invariant missedMatchesData == Fill(injuredData[..i], IdOf, MissedValue(matches, players, now))
    {
      var player := injuredData[i];
      var missed := CalculateMissedMatches(player, matches, players, now);
      missedMatchesData := missedMatchesData[player.id := missed];
      assert injuredData[..i + 1][..i] == injuredData[..i];
      i := i + 1;
    }
    assert injuredData[..i] == injuredData;
  }

  /**
    After the loop every injured player's id has an entry and no other key
    does; a player whose id is not repeated later in the list gets its own
    count; and no entry is negative.
   */
  lemma MissedMapCoversInjured(injuredData: seq<Episode>, matches: Option<seq<Match>>, players: Option<seq<Episode>>, now: Date)
    ensures var m := Fill(injuredData, IdOf, MissedValue(matches, players, now));
            && (forall k :: k in m <==> exists i :: 0 <= i < |injuredData| && injuredData[i].id == k)
            && (forall i :: 0 <= i < |injuredData| && (forall j :: i < j < |injuredData| ==> injuredData[j].id != injuredData[i].id)
                  ==> m[injuredData[i].id] == MissedMatches(injuredData[i], matches, players, now))
            && (forall k :: k in m ==> m[k] >= 0)
  {
    var f := MissedValue(matches, players, now);
    var m := Fill(injuredData, IdOf, f);
    forall k ensures k in m <==> exists i :: 0 <= i < |injuredData| && injuredData[i].id == k {
      FillKeys(injuredData, IdOf, f, k);
    }
    forall i | 0 <= i < |injuredData| && (forall j :: i < j < |injuredData| ==> injuredData[j].id != injuredData[i].id)
      ensures m[injuredData[i].id] == MissedMatches(injuredData[i], matches, players, now)
    {
      FillLastWriter(injuredData, IdOf, f, i);
    }
    forall k | k in m ensures m[k] >= 0 {
      FillValueFrom(injuredData, IdOf, f, k);
      var i :| 0 <= i < |injuredData| && IdOf(injuredData[i]) == k && m[k] == f(injuredData[i]);
      if matches.Some? && players.Some? {
        MissedMatchesBounds(injuredData[i], matches.value, players.value, now);
      }
    }
  }

  /** The visitor list is the `status = 'injured'` query, so every row on any page is injured. */
  lemma VisitorPagesShowInjured(store: seq<Episode>, currentPage: int)
    ensures forall e :: e in CurrentPlayers(InjuredRecords(store), currentPage) ==> e in store && e.status == InjuredStatus
  {
    PageRowsFromList(InjuredRecords(store), currentPage);
  }
}
