/**
  `calculateMissedMatches`: how many fixtures a player missed, summed over
  every dated injury episode recorded under the player's name.

  The two table reads become inputs: `matches` is the `matches` table and
  `players` the `players` table as the queries saw them, `None` when the
  query failed; `now` is the current day.
 */
module MatchesUtils {
  import opened Calendar
  import opened Records
  import opened Folds

  /** Where an episode's window closes: its recovery date, or today while it is still open. */
  function WindowEnd(e: Episode, now: Date): Date
  {
    if e.recoveryDate.Some? then e.recoveryDate.value else now
  }

  /** A fixture after the injury day and up to and including `end`. */
  predicate InWindow(m: Match, injury: Date, end: Date)
  {
    injury < m.matchDate <= end
  }

  /** The fixtures after the injury day and up to and including `end`, in table order. */
  function MatchesInWindow(matches: seq<Match>, injury: Date, end: Date): (r: seq<Match>)
    ensures |r| <= |matches|
    ensures forall m :: m in r <==> m in matches && injury < m.matchDate <= end
  {
    if matches == [] then []
    else
      var m := matches[|matches| - 1];
      MatchesInWindow(matches[..|matches| - 1], injury, end)
        + (if InWindow(m, injury, end) then [m] else [])
  }

  /** Each fixture inside the window is kept as often as the fixture list holds it, and no other: the length is the `matches.filter(...).length` of one episode. */
  lemma {:induction false} MatchesInWindowMultiplicity(matches: seq<Match>, injury: Date, end: Date, x: Match)
    ensures multiset(MatchesInWindow(matches, injury, end))[x] == if injury < x.matchDate <= end then multiset(matches)[x] else 0
  {
    if matches != [] {
      var init := matches[..|matches| - 1];
      var e := matches[|matches| - 1];
      MatchesInWindowMultiplicity(init, injury, end, x);
      assert matches == init + [e];
      if InWindow(e, injury, end) {
        assert MatchesInWindow(matches, injury, end) == MatchesInWindow(init, injury, end) + [e];
      } else {
        assert MatchesInWindow(matches, injury, end) == MatchesInWindow(init, injury, end) + [];
        assert MatchesInWindow(matches, injury, end) == MatchesInWindow(init, injury, end);
      }
      assert multiset(matches) == multiset(init) + multiset{e};
    }
  }

  /** The fixtures one episode misses; an episode without an injury date misses none. */
  function EpisodeMissed(e: Episode, matches: seq<Match>, now: Date): nat
  {
    if e.injuryDate.None? then 0
    else |MatchesInWindow(matches, e.injuryDate.value, WindowEnd(e, now))|
  }

  /** `EpisodeMissed` for a fixed fixture list and day, as the summand of a total. */
  function MissedBy(matches: seq<Match>, now: Date): Episode -> int
  {
    e => EpisodeMissed(e, matches, now)
  }

  /** A row under `name` that carries an injury date. */
  predicate DatedUnder(e: Episode, name: string)
  {
    e.name == name && e.injuryDate.Some?
  }

  /** The rows under `name` that carry an injury date, in table order. */
  function DatedEpisodes(players: seq<Episode>, name: string): (r: seq<Episode>)
    ensures |r| <= |players|
    ensures forall e :: e in r <==> e in players && e.name == name && e.injuryDate.Some?
  {
    if players == [] then []
    else
      var e := players[|players| - 1];
      DatedEpisodes(players[..|players| - 1], name)
        + (if DatedUnder(e, name) then [e] else [])
  }

  /** Each dated row of the name is kept as often as the table holds it, and no other row. */
  lemma {:induction false} DatedEpisodesMultiplicity(players: seq<Episode>, name: string, x: Episode)
    ensures multiset(DatedEpisodes(players, name))[x] == if x.name == name && x.injuryDate.Some? then multiset(players)[x] else 0
  {
    if players != [] {
      var init := players[..|players| - 1];
      var e := players[|players| - 1];
      DatedEpisodesMultiplicity(init, name, x);
      assert players == init + [e];
      if DatedUnder(e, name) {
        assert DatedEpisodes(players, name) == DatedEpisodes(init, name) + [e];
      } else {
        assert DatedEpisodes(players, name) == DatedEpisodes(init, name) + [];
        assert DatedEpisodes(players, name) == DatedEpisodes(init, name);
      }
      assert multiset(players) == multiset(init) + multiset{e};
    }
  }

  /** The figure `calculateMissedMatches(player)` resolves to. */
  function MissedMatches(player: Episode, matches: Option<seq<Match>>, players: Option<seq<Episode>>, now: Date): int
  {
    if player.injuryDate.None? || matches.None? || players.None? then 0
    else SumOf(DatedEpisodes(players.value, player.name), MissedBy(matches.value, now))
  }

  /**
    The calculation as the source runs it: give up with 0 on a missing injury
    date or a failed read, then add up each episode's missed fixtures. The
    source first sorts the episodes by injury date; the sum does not depend on
    the order (MissedMatchesOrderFree), so the model keeps table order.
   */
  method CalculateMissedMatches(player: Episode, matches: Option<seq<Match>>, players: Option<seq<Episode>>, now: Date)
    returns (total: int)
    ensures total == MissedMatches(player, matches, players, now)
  {
    if player.injuryDate.None? {
      return 0;
    }
    if matches.None? {
      return 0;
    }
    if players.None? {
      return 0;
    }
    var injuries := DatedEpisodes(players.value, player.name);
    total := 0;
    var i := 0;
    while i < |injuries|
      invariant 0 <= i <= |injuries|
      invariant total == SumOf(injuries[..i], MissedBy(matches.value, now))
    {
      var e := injuries[i];
      assert e in injuries;
      var missed := MatchesInWindow(matches.value, e.injuryDate.value, WindowEnd(e, now));
      assert injuries[..i + 1][..i] == injuries[..i];
      total := total + |missed|;
      i := i + 1;
    }
    assert injuries[..i] == injuries;
  }

  /** Without an injury date, or when either read fails, the count is 0. */
  lemma MissedMatchesGuards(player: Episode, matches: Option<seq<Match>>, players: Option<seq<Episode>>, now: Date)
    ensures player.injuryDate.None? ==> MissedMatches(player, matches, players, now) == 0
    ensures matches.None? || players.None? ==> MissedMatches(player, matches, players, now) == 0
  {
  }

  /**
    The window is half-open: a fixture on the injury day is never missed, one
    on the recovery day is.
   */
  lemma WindowBoundaries(e: Episode, m: Match, matches: seq<Match>, now: Date)
    requires e.injuryDate.Some? && m in matches
    ensures m.matchDate == e.injuryDate.value ==> m !in MatchesInWindow(matches, e.injuryDate.value, WindowEnd(e, now))
    ensures e.recoveryDate == Some(m.matchDate) && e.injuryDate.value < m.matchDate
            ==> m in MatchesInWindow(matches, e.injuryDate.value, WindowEnd(e, now))
  {
  }

  /** An episode that recovers on or before its injury day misses nothing. */
  lemma InvertedWindowMissesNothing(e: Episode, matches: seq<Match>, now: Date)
    requires HasBothDates(e) && e.recoveryDate.value <= e.injuryDate.value
    ensures EpisodeMissed(e, matches, now) == 0
  {
    EmptyWindow(matches, e.injuryDate.value, e.recoveryDate.value);
  }

  lemma {:induction false} EmptyWindow(matches: seq<Match>, injury: Date, end: Date)
    requires end <= injury
    ensures MatchesInWindow(matches, injury, end) == []
  {
    if matches != [] {
      EmptyWindow(matches[..|matches| - 1], injury, end);
    }
  }

  /** A later window end never loses a fixture. */
  lemma {:induction false} WindowGrows(matches: seq<Match>, injury: Date, end1: Date, end2: Date)
    requires end1 <= end2
    ensures |MatchesInWindow(matches, injury, end1)| <= |MatchesInWindow(matches, injury, end2)|
  {
    if matches != [] {
      WindowGrows(matches[..|matches| - 1], injury, end1, end2);
    }
  }

  /**
    Rows of another name and rows without an injury date change nothing:
    appending one to the table leaves the count as it was.
   */
  lemma IgnoredRowsContributeNothing(player: Episode, matches: Option<seq<Match>>, players: seq<Episode>, e: Episode, now: Date)
    requires e.name != player.name || e.injuryDate.None?
    ensures MissedMatches(player, matches, Some(players + [e]), now) == MissedMatches(player, matches, Some(players), now)
  {
    assert (players + [e])[..|players + [e]| - 1] == players;
    assert DatedEpisodes(players + [e], player.name) == DatedEpisodes(players, player.name);
  }

  /**
    Every dated episode under the name adds its own count, so a fixture inside
    two overlapping windows is counted twice.
   */
  lemma EpisodesAdd(player: Episode, matches: seq<Match>, players: seq<Episode>, e: Episode, now: Date)
    requires player.injuryDate.Some? && e.name == player.name && e.injuryDate.Some?
    ensures MissedMatches(player, Some(matches), Some(players + [e]), now)
         == MissedMatches(player, Some(matches), Some(players), now) + EpisodeMissed(e, matches, now)
  {
    var all := players + [e];
    assert all[..|all| - 1] == players;
    var dated := DatedEpisodes(all, player.name);
    assert dated == DatedEpisodes(players, player.name) + [e];
    assert dated[..|dated| - 1] == DatedEpisodes(players, player.name);
  }

  /** The count is between 0 and (dated episodes under the name) x (fixtures). */
  lemma MissedMatchesBounds(player: Episode, matches: seq<Match>, players: seq<Episode>, now: Date)
    ensures 0 <= MissedMatches(player, Some(matches), Some(players), now)
                <= |DatedEpisodes(players, player.name)| * |matches|
  {
    var dated := DatedEpisodes(players, player.name);
    var f := MissedBy(matches, now);
    forall i | 0 <= i < |dated| ensures 0 <= f(dated[i]) <= |matches| {
      assert dated[i] in dated;
    }
    SumNonNegative(dated, f);
    SumBound(dated, f, |matches|);
  }

  /** A row's own share of the total for `name`: its missed fixtures if it is a dated row of that name, else 0. */
  function ShareOf(name: string, matches: seq<Match>, now: Date): Episode -> int
  {
    (e: Episode) => if e.name == name && e.injuryDate.Some? then EpisodeMissed(e, matches, now) else 0
  }

  /** Summing over the dated rows of a name is summing every row's share. */
  lemma {:induction false} SumOverDatedIsSumOfShares(players: seq<Episode>, name: string, matches: seq<Match>, now: Date)
    ensures SumOf(DatedEpisodes(players, name), MissedBy(matches, now)) == SumOf(players, ShareOf(name, matches, now))
  {
    if players != [] {
      var init := players[..|players| - 1];
      var e := players[|players| - 1];
      SumOverDatedIsSumOfShares(init, name, matches, now);
      var d := DatedEpisodes(init, name);
      if e.name == name && e.injuryDate.Some? {
        assert DatedEpisodes(players, name) == d + [e];
        assert (d + [e])[..|d + [e]| - 1] == d;
      } else {
        assert DatedEpisodes(players, name) == d + [];
        assert DatedEpisodes(players, name) == d;
      }
    }
  }

  /** The order of the rows (the source sorts them by injury date) does not change the count. */
  lemma MissedMatchesOrderFree(player: Episode, matches: Option<seq<Match>>, a: seq<Episode>, b: seq<Episode>, now: Date)
    requires multiset(a) == multiset(b)
    ensures MissedMatches(player, matches, Some(a), now) == MissedMatches(player, matches, Some(b), now)
  {
    if player.injuryDate.Some? && matches.Some? {
      SumOverDatedIsSumOfShares(a, player.name, matches.value, now);
      SumOverDatedIsSumOfShares(b, player.name, matches.value, now);
      SumPermutation(a, b, ShareOf(player.name, matches.value, now));
    }
  }

  /** As the days pass the count can only grow: open windows widen, closed ones stay put. */
  lemma MissedMatchesMonotoneInNow(player: Episode, matches: Option<seq<Match>>, players: Option<seq<Episode>>, now1: Date, now2: Date)
    requires now1 <= now2
    ensures MissedMatches(player, matches, players, now1) <= MissedMatches(player, matches, players, now2)
  {
    if player.injuryDate.Some? && matches.Some? && players.Some? {
      var dated := DatedEpisodes(players.value, player.name);
      forall i | 0 <= i < |dated|
        ensures MissedBy(matches.value, now1)(dated[i]) <= MissedBy(matches.value, now2)(dated[i])
      {
        var e := dated[i];
        assert e in dated;
        WindowGrows(matches.value, e.injuryDate.value, WindowEnd(e, now1), WindowEnd(e, now2));
      }
      SumMonotone(dated, MissedBy(matches.value, now1), MissedBy(matches.value, now2));
    }
  }

  /**
    The given record matters only through its name and whether it is dated:
    two dated records of the same player give the same count.
   */
  lemma MissedMatchesDependsOnNameOnly(p: Episode, q: Episode, matches: Option<seq<Match>>, players: Option<seq<Episode>>, now: Date)
    requires p.name == q.name && p.injuryDate.Some? && q.injuryDate.Some?
    ensures MissedMatches(p, matches, players, now) == MissedMatches(q, matches, players, now)
  {
  }

  /**
    A worked case: injured on day `d`, back on day `d + 9`, fixtures on days
    `d + 4`, `d + 9` and `d + 10`: the first two are missed, the third is not.
   */
  lemma TwoOfThreeFixturesMissed(d: Date, now: Date)
    ensures var e := Episode(1, "A", "strain", Some(d), Some(d + 9), RecoveredStatus);
            var ms := [Match(1, d + 4), Match(2, d + 9), Match(3, d + 10)];
            MissedMatches(e, Some(ms), Some([e]), now) == 2
  {
    var e := Episode(1, "A", "strain", Some(d), Some(d + 9), RecoveredStatus);
    var ms := [Match(1, d + 4), Match(2, d + 9), Match(3, d + 10)];
    assert ms[..2] == [Match(1, d + 4), Match(2, d + 9)];
    assert ms[..2][..1] == [Match(1, d + 4)];
    assert MatchesInWindow(ms, d, d + 9) == [Match(1, d + 4), Match(2, d + 9)];
    assert DatedEpisodes([e], "A") == [e];
    assert EpisodeMissed(e, ms, now) == 2;
    assert [e][..0] == [];
    assert SumOf([e], MissedBy(ms, now)) == MissedBy(ms, now)(e);
  }
}
