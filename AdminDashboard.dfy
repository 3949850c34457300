/**
  The admin dashboard: the add/edit form, the record normalisation applied
  before every insert and update, the patches it sends to the `players`
  table, and the counts it shows.

  A form record is a dictionary from column name to value, as the component
  holds it; every table read or write is a parameter carrying its outcome.
 */
module AdminDashboard {
  import opened Calendar
  import opened Records
  import opened Statistics

  /** A form or row cell: SQL null, a string, or a number (`id`). */
  datatype Value = Null | Text(s: string) | Num(n: int)

  /** The columns of `players` that the form edits, plus `id`; each form input is named after one of them. */
  datatype Column =
    | Id | NameHebrew | PhotoUrl | InjuryTypeHebrew | InjuryDate | RecoveryDate
    | Status | ArticleLink | ClubEstimationHebrew

  type Row = map<Column, Value>

  /** The columns whose empty string is stored as null. */
  const NullableFields: set<Column> := {InjuryDate, RecoveryDate, ArticleLink, ClubEstimationHebrew}

  /** The value one cell is saved as, read column by column. */
  function SavedValue(field: Column, v: Value): Value
  {
    if field in NullableFields && v == Text("") then Null
    else if field == Status && v == Text("") then Text(InjuredStatus)
    else v
  }

  /** One `if (r.c === '') r.c = null` patch. */
  function BlankToNull(r: Row, c: Column): Row
  {
    if c in r && r[c] == Text("") then r[c := Null] else r
  }

  /** The `if (r.status === '') r.status = 'injured'` patch. */
  function DefaultStatus(r: Row): Row
  {
    if Status in r && r[Status] == Text("") then r[Status := Text(InjuredStatus)] else r
  }

  /** The record `addPlayer` and `updatePlayer` send: the five patches applied in source order. */
  function Normalized(r: Row): Row
  {
    DefaultStatus(BlankToNull(BlankToNull(BlankToNull(BlankToNull(r, InjuryDate), RecoveryDate), ArticleLink), ClubEstimationHebrew))
  }

  /** The copy-and-patch sequence both handlers run on a form record. */
  method NormalizeForSave(r: Row) returns (n: Row)
    ensures n == Normalized(r)
  {
    n := r;
    if InjuryDate in n && n[InjuryDate] == Text("") {
      n := n[InjuryDate := Null];
    }
    if RecoveryDate in n && n[RecoveryDate] == Text("") {
      n := n[RecoveryDate := Null];
    }
    if ArticleLink in n && n[ArticleLink] == Text("") {
      n := n[ArticleLink := Null];
    }
    if ClubEstimationHebrew in n && n[ClubEstimationHebrew] == Text("") {
      n := n[ClubEstimationHebrew := Null];
    }
    if Status in n && n[Status] == Text("") {
      n := n[Status := Text(InjuredStatus)];
    }
  }

  /**
    Normalisation keeps the columns, keeps every non-empty value, turns an
    empty nullable cell into null and an empty status into `'injured'`, and
    changes nothing else: an empty name, photo or type stays empty.
   */
  lemma NormalizedCells(r: Row, f: Column)
    ensures f in Normalized(r) <==> f in r
    ensures f in r ==> Normalized(r)[f] == SavedValue(f, r[f])
    ensures f in r && r[f] != Text("") ==> Normalized(r)[f] == r[f]
    ensures f in r && r[f] == Text("") && f in NullableFields ==> Normalized(r)[f] == Null
    ensures f in r && r[f] == Text("") && f == Status ==> Normalized(r)[f] == Text(InjuredStatus)
    ensures f in r && f !in NullableFields && f != Status ==> Normalized(r)[f] == r[f]
  {
  }

  /** A saved record never stores an empty nullable cell or an empty status. */
  lemma NormalizedHasNoEmptyCells(r: Row)
    ensures forall f :: f in Normalized(r) && f in NullableFields ==> Normalized(r)[f] != Text("")
    ensures Status in Normalized(r) ==> Normalized(r)[Status] != Text("")
  {
    forall f | f in Normalized(r) ensures f in r && Normalized(r)[f] == SavedValue(f, r[f]) {
      NormalizedCells(r, f);
    }
  }

  /** Normalising a normalised record changes nothing. */
  lemma NormalizedIdempotent(r: Row)
    ensures Normalized(Normalized(r)) == Normalized(r)
  {
    var n := Normalized(r);
    forall f | f in r ensures f in n && Normalized(n)[f] == n[f] {
      NormalizedCells(r, f);
      NormalizedCells(n, f);
    }
    forall f ensures f in Normalized(n) <==> f in n {
      NormalizedCells(n, f);
      NormalizedCells(r, f);
    }
  }

  /** The form as first shown (status `''`) and as reset after an add (status `'injured'`). */
  function BlankForm(status: string): (r: Row)
    ensures r.Keys == {NameHebrew, PhotoUrl, InjuryTypeHebrew, InjuryDate, RecoveryDate, Status, ArticleLink, ClubEstimationHebrew}
    ensures forall f :: f in r && f != Status ==> r[f] == Text("")
    ensures r[Status] == Text(status)
  {
    map[NameHebrew := Text(""), PhotoUrl := Text(""), InjuryTypeHebrew := Text(""),
        InjuryDate := Text(""), RecoveryDate := Text(""), Status := Text(status),
        ArticleLink := Text(""), ClubEstimationHebrew := Text("")]
  }

  /** A blank form, once normalised, saves an injured player with null dates, link and estimation. */
  lemma BlankFormSaves(status: string)
    requires status == "" || status == InjuredStatus
    ensures Normalized(BlankForm(status))[Status] == Text(InjuredStatus)
    ensures forall f :: f in NullableFields ==> Normalized(BlankForm(status))[f] == Null
  {
    var b := BlankForm(status);
    NormalizedCells(b, Status);
    NormalizedCells(b, InjuryDate);
    NormalizedCells(b, RecoveryDate);
    NormalizedCells(b, ArticleLink);
    NormalizedCells(b, ClubEstimationHebrew);
  }

  /** The row `markAsRecovered` leaves in the table: status `'recovered'`, recovered today. */
  function MarkedRecovered(e: Episode, today: Date): Episode
  {
    e.(status := RecoveredStatus, recoveryDate := Some(today))
  }

  /** The patch sets exactly the status and the recovery date; every other column is kept. */
  lemma MarkedRecoveredTouchesTwoColumns(e: Episode, today: Date)
    ensures MarkedRecovered(e, today).status == RecoveredStatus
    ensures MarkedRecovered(e, today).recoveryDate == Some(today)
    ensures var r := MarkedRecovered(e, today);
            r.id == e.id && r.name == e.name && r.injuryType == e.injuryType && r.injuryDate == e.injuryDate
    ensures MarkedRecovered(MarkedRecovered(e, today), today) == MarkedRecovered(e, today)
  {
  }

  /** The table after `update(...).eq('id', id)` with that patch. */
  function MarkRecoveredIn(store: seq<Episode>, id: int, today: Date): (r: seq<Episode>)
    ensures |r| == |store|
    ensures forall i :: 0 <= i < |store| ==>
              r[i] == if store[i].id == id then MarkedRecovered(store[i], today) else store[i]
  {
    if store == [] then []
    else
      var e := store[|store| - 1];
      MarkRecoveredIn(store[..|store| - 1], id, today) + [if e.id == id then MarkedRecovered(e, today) else e]
  }

  predicate OtherId(e: Episode, id: int)
  {
    e.id != id
  }

  /** The table after `delete().eq('id', id)`. */
  function DeleteFrom(store: seq<Episode>, id: int): (r: seq<Episode>)
    ensures |r| <= |store|
    ensures forall e :: e in r <==> e in store && OtherId(e, id)
  {
    if store == [] then []
    else
      var e := store[|store| - 1];
      DeleteFrom(store[..|store| - 1], id) + (if OtherId(e, id) then [e] else [])
  }

  /** The delete keeps every row of another id as often as the table holds it, and removes every row of the id. */
  lemma {:induction false} DeleteFromMultiplicity(ps: seq<Episode>, id: int, x: Episode)
    ensures multiset(DeleteFrom(ps, id))[x] == if x.id != id then multiset(ps)[x] else 0
  {
    if ps != [] {
      var init := ps[..|ps| - 1];
      var e := ps[|ps| - 1];
      DeleteFromMultiplicity(init, id, x);
      assert ps == init + [e];
      assert multiset(ps) == multiset(init) + multiset{e};
      if OtherId(e, id) {
        assert DeleteFrom(ps, id) == DeleteFrom(init, id) + [e];
      } else {
        assert DeleteFrom(ps, id) == DeleteFrom(init, id) + [];
      }
    }
  }

  /** Injured rows carrying a given id. */
  function InjuredWithId(store: seq<Episode>, id: int): nat
  {
    if store == [] then 0
    else
      var e := store[|store| - 1];
      InjuredWithId(store[..|store| - 1], id) + (if e.id == id && e.status == InjuredStatus then 1 else 0)
  }

  /** Marking an id as recovered lowers the injured count by exactly its injured rows. */
  lemma {:induction false} MarkRecoveredLowersInjuredCount(store: seq<Episode>, id: int, today: Date)
    ensures |InjuredRecords(MarkRecoveredIn(store, id, today))| + InjuredWithId(store, id) == |InjuredRecords(store)|
  {
    if store != [] {
      var init := store[..|store| - 1];
      var r := MarkRecoveredIn(store, id, today);
      MarkRecoveredLowersInjuredCount(init, id, today);
      assert r[..|r| - 1] == MarkRecoveredIn(init, id, today);
    }
  }

  /** `currentInjuredCount` counts each injured row once, with its multiplicity, and nothing else. */
  lemma {:induction false} InjuredRecordsMultiplicity(ps: seq<Episode>, x: Episode)
    ensures multiset(InjuredRecords(ps))[x] == if x.status == InjuredStatus then multiset(ps)[x] else 0
  {
    if ps != [] {
      var init := ps[..|ps| - 1];
      var e := ps[|ps| - 1];
      InjuredRecordsMultiplicity(init, x);
      assert ps == init + [e];
      if e.status == InjuredStatus {
        assert InjuredRecords(ps) == InjuredRecords(init) + [e];
      } else {
        assert InjuredRecords(ps) == InjuredRecords(init) + [];
        assert InjuredRecords(ps) == InjuredRecords(init);
      }
      assert multiset(ps) == multiset(init) + multiset{e};
    }
  }

  /** The component state of the dashboard and its handlers. */
  class Dashboard {
    var players: seq<Episode>
    var currentInjuredCount: int
    var newPlayer: Row
    var editingPlayer: Option<Row>

    constructor ()
      ensures players == [] && currentInjuredCount == 0
      ensures newPlayer == BlankForm("") && editingPlayer == None
    {
      players := [];
      currentInjuredCount := 0;
      newPlayer := BlankForm("");
      editingPlayer := None;
    }

    /** `fetchPlayers`: on success take the rows and count the injured ones; on error keep everything. */
    method FetchPlayers(fetched: Option<seq<Episode>>)
      modifies this
      ensures fetched.Some? ==> players == fetched.value && currentInjuredCount == |InjuredRecords(fetched.value)|
      ensures fetched.None? ==> players == old(players) && currentInjuredCount == old(currentInjuredCount)
      ensures newPlayer == old(newPlayer) && editingPlayer == old(editingPlayer)
    {
      if fetched.Some? {
        var data := fetched.value;
        players := data;
        var injured := InjuredRecords(data);
        currentInjuredCount := |injured|;
      }
    }

    /** `handleInputChange`: one cell of the record being edited, or else of the new-player form. */
    method HandleInputChange(name: Column, value: Value)
      modifies this
      ensures old(editingPlayer).Some? ==>
                editingPlayer == Some(old(editingPlayer).value[name := value]) && newPlayer == old(newPlayer)
      ensures old(editingPlayer).None? ==>
                newPlayer == old(newPlayer)[name := value] && editingPlayer == None
      ensures players == old(players) && currentInjuredCount == old(currentInjuredCount)
    {
      if editingPlayer.Some? {
        editingPlayer := Some(editingPlayer.value[name := value]);
      } else {
        newPlayer := newPlayer[name := value];
      }
    }

    /** The "edit" button of a table row. */
    method StartEditing(row: Row)
      modifies this
      ensures editingPlayer == Some(row)
      ensures players == old(players) && currentInjuredCount == old(currentInjuredCount) && newPlayer == old(newPlayer)
    {
      editingPlayer := Some(row);
    }

    /** The "cancel" button of the edit form. */
    method CancelEditing()
      modifies this
      ensures editingPlayer == None
      ensures players == old(players) && currentInjuredCount == old(currentInjuredCount) && newPlayer == old(newPlayer)
    {
      editingPlayer := None;
    }

    /** The "clear recovery date" button: null in the edited record, `''` in the new-player form. */
    method ClearRecoveryDate()
      modifies this
      ensures old(editingPlayer).Some? ==>
                editingPlayer == Some(old(editingPlayer).value[RecoveryDate := Null]) && newPlayer == old(newPlayer)
      ensures old(editingPlayer).None? ==>
                newPlayer == old(newPlayer)[RecoveryDate := Text("")] && editingPlayer == None
      ensures players == old(players) && currentInjuredCount == old(currentInjuredCount)
    {
      if editingPlayer.Some? {
        editingPlayer := Some(editingPlayer.value[RecoveryDate := Null]);
      } else {
        newPlayer := newPlayer[RecoveryDate := Text("")];
      }
    }

    /**
      `addPlayer`: sends the normalised form. `inserted` is the insert's
      outcome (`None` on error, else the returned rows) and `refetched` the
      re-read that follows a successful insert. Only a non-empty result
      appends its first row and resets the form, with status `'injured'`.
     */
    method AddPlayer(inserted: Option<seq<Episode>>, refetched: Option<seq<Episode>>) returns (sent: Row)
      modifies this
      ensures sent == Normalized(old(newPlayer))
      ensures inserted.None? || inserted.value == [] ==>
                players == old(players) && currentInjuredCount == old(currentInjuredCount) && newPlayer == old(newPlayer)
      ensures inserted.Some? && inserted.value != [] ==>
                && newPlayer == BlankForm(InjuredStatus)
                && players == (if refetched.Some? then refetched.value else old(players) + [inserted.value[0]])
                && currentInjuredCount == (if refetched.Some? then |InjuredRecords(refetched.value)| else old(currentInjuredCount))
      ensures editingPlayer == old(editingPlayer)
    {
      sent := NormalizeForSave(newPlayer);
      if inserted.Some? && |inserted.value| > 0 {
        players := players + [inserted.value[0]];
        newPlayer := BlankForm(InjuredStatus);
        FetchPlayers(refetched);
      }
    }

    /**
      `updatePlayer`: nothing at all without a record under edit; otherwise
      sends the normalised record and, when the update succeeds, leaves edit
      mode and re-reads the table.
     */
    method UpdatePlayer(updated: bool, refetched: Option<seq<Episode>>) returns (sent: Option<Row>)
      modifies this
      ensures old(editingPlayer).None? ==>
                sent == None && editingPlayer == None && players == old(players)
                && currentInjuredCount == old(currentInjuredCount)
      ensures old(editingPlayer).Some? ==> sent == Some(Normalized(old(editingPlayer).value))
      ensures old(editingPlayer).Some? && !updated ==>
                editingPlayer == old(editingPlayer) && players == old(players)
                && currentInjuredCount == old(currentInjuredCount)
      ensures old(editingPlayer).Some? && updated ==>
                && editingPlayer == None
                && players == (if refetched.Some? then refetched.value else old(players))
                && currentInjuredCount == (if refetched.Some? then |InjuredRecords(refetched.value)| else old(currentInjuredCount))
      ensures newPlayer == old(newPlayer)
    {
      if editingPlayer.None? {
        return None;
      }
      var n := NormalizeForSave(editingPlayer.value);
      sent := Some(n);
      if updated {
        editingPlayer := None;
        FetchPlayers(refetched);
      }
    }

    /** `deletePlayer`: the table loses the id's rows; a success re-reads it. */
    method DeletePlayer(id: int, store: seq<Episode>, deleted: bool, refetched: Option<seq<Episode>>)
      returns (after: seq<Episode>)
      modifies this
      ensures after == (if deleted then DeleteFrom(store, id) else store)
      ensures deleted ==> FetchedOrKept(refetched, old(players), old(currentInjuredCount))
      ensures !deleted ==> players == old(players) && currentInjuredCount == old(currentInjuredCount)
      ensures newPlayer == old(newPlayer) && editingPlayer == old(editingPlayer)
    {
      after := store;
      if deleted {
        after := DeleteFrom(store, id);
        FetchPlayers(refetched);
      }
    }

    /**
      `markAsRecovered`: the table's rows with the player's id get the
      recovered patch; a success re-reads the table. No form state changes.
     */
    method MarkAsRecovered(player: Episode, today: Date, store: seq<Episode>, updated: bool, refetched: Option<seq<Episode>>)
      returns (after: seq<Episode>)
      modifies this
      ensures after == (if updated then MarkRecoveredIn(store, player.id, today) else store)
      ensures updated ==> FetchedOrKept(refetched, old(players), old(currentInjuredCount))
      ensures !updated ==> players == old(players) && currentInjuredCount == old(currentInjuredCount)
      ensures newPlayer == old(newPlayer) && editingPlayer == old(editingPlayer)
    {
      after := store;
      if updated {
        after := MarkRecoveredIn(store, player.id, today);
        FetchPlayers(refetched);
      }
    }

    /** The state after `fetchPlayers` with the given outcome, from the given previous rows and count. */
    predicate FetchedOrKept(fetched: Option<seq<Episode>>, before: seq<Episode>, countBefore: int)
      reads this
    {
      if fetched.Some? then players == fetched.value && currentInjuredCount == |InjuredRecords(fetched.value)|
      else players == before && currentInjuredCount == countBefore
    }

    /**
      The dashboard's `getStats`: the rows injured in `currentYear` and the
      closed-episode days of all rows.
     */
    method GetStats(currentYear: int) returns (totalInjuredPlayersThisYear: int, totalInjuredDays: int)
      ensures totalInjuredPlayersThisYear == |InjuredThisYear(players, currentYear)|
      ensures totalInjuredDays == TotalInjuredDays(players)
    {
      var playersThisYear := InjuredThisYear(players, currentYear);
      totalInjuredPlayersThisYear := |playersThisYear|;
      totalInjuredDays := SumInjuredDays(players);
    }
  }
}
