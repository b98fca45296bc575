/** The library handlers: `getUserLibrary`, `getGameDetails`,
    `updateGameStatus` and `updatePlaytime`. The caller is the
    authenticated user; route ids and query values arrive as text. */
module LibraryController {
  import opened Common
  import opened JsText
  import opened GameRepository
  import opened LibraryRepository

  /** The query string of `getUserLibrary`; `None` is an absent key. */
  datatype LibraryQuery = LibraryQuery(page: Option<string>, limit: Option<string>, estado: Option<string>,
                                       sort: Option<string>, order: Option<string>)

  /** The filters `getUserLibrary` hands to the repository: page 1, 20 per
      page, newest acquisitions first unless the query says otherwise. */
  function Filters(q: LibraryQuery): (r: LibraryFilters)
    ensures r.page == QueryInt(q.page, 1) && r.limit == QueryInt(q.limit, 20) && r.estado == q.estado
    ensures r.sort == (if q.sort.None? then "fecha_adquirido" else q.sort.value)
    ensures r.order == (if q.order.None? then "DESC" else q.order.value)
  {
    LibraryFilters(QueryInt(q.page, 1), QueryInt(q.limit, 20), q.estado,
                   if q.sort.None? then "fecha_adquirido" else q.sort.value,
                   if q.order.None? then "DESC" else q.order.value)
  }

  /** `getUserLibrary`: 200 with the page, or 500 when the database
      refuses the statement (a NaN or negative `LIMIT`/`OFFSET`). */
  function GetUserLibrary(lib: LibraryTable, user: int, q: LibraryQuery): (r: (Status, Option<LibraryPage>))
    reads lib
    ensures r.0 == Ok <==> r.1.Some?
    ensures r.0 != Ok ==> r.0 == ServerError
    ensures r.1.Some? ==> var f := Filters(q);
      Some(r.1.value.page) == f.page && Some(r.1.value.limit) == f.limit
      && r.1.value.sortColumn == LibrarySortColumn(f.sort) && r.1.value.sortOrder == NormalizeOrder(f.order)
      && r.1.value.total == |Listing(lib.entries, user, q.estado)|
    ensures r.1.Some? ==> forall e :: e in r.1.value.entries ==>
      e in lib.entries && e.user == user && (Filled(q.estado) ==> e.status == q.estado.value)
  {
    var page := LibraryRepository.GetUserLibrary(lib.entries, user, Filters(q));
    (if page.Some? then Ok else ServerError, page)
  }

  /** Sorted by acquisition date (the default column), the page holds the
      caller's entries from the offset on, newest first for DESC and oldest
      first for ASC. */
  lemma LibraryPageByDate(lib: LibraryTable, user: int, q: LibraryQuery)
    requires GetUserLibrary(lib, user, q).1.Some? && LibrarySortColumn(Filters(q).sort) == "fecha_adquirido"
    ensures var f := Filters(q);
      var p := GetUserLibrary(lib, user, q).1.value;
      p.sortOrder == NormalizeOrder(f.order)
      && DatePage(p.entries, Listing(lib.entries, user, f.estado), p.sortOrder, Offset(f.page.value, f.limit.value), f.limit.value)
  {
    LibraryByDate(lib.entries, user, Filters(q));
  }

  /** With an empty query the answer is the first page: the user's 20 most
      recently acquired games, newest first, or all of them when there are
      fewer. */
  lemma DefaultLibraryQuery(lib: LibraryTable, user: int)
    ensures var r := GetUserLibrary(lib, user, LibraryQuery(None, None, None, None, None));
      r.0 == Ok && r.1.value.page == 1 && r.1.value.limit == 20
      && r.1.value.sortColumn == "fecha_adquirido" && r.1.value.sortOrder == Desc
      && r.1.value.total == |Listing(lib.entries, user, None)|
      && DatePage(r.1.value.entries, Listing(lib.entries, user, None), Desc, 0, 20)
  {
    var f := Filters(LibraryQuery(None, None, None, None, None));
    assert f.sort == "fecha_adquirido" && f.order == "DESC";
    DescIsDescending();
    assert LibrarySortColumn(f.sort) == "fecha_adquirido";
    assert Offset(1, 20) == 0;
    LibraryByDate(lib.entries, user, f);
  }

  /** `getGameDetails`: 400 on a non-numeric id, 404 unless the user owns
      the game (and it is in the catalogue), else the joined row. */
  function GetGameDetails(lib: LibraryTable, games: GameTable, user: int, gameId: string): (r: Result<OwnedGame, Status>)
    reads lib, games
    ensures r == Failure(BadRequest) <==> ParseInt(gameId).None?
    ensures ParseInt(gameId).Some? ==>
      var g := ParseInt(gameId).value;
      (r == Failure(NotFound) <==> !lib.UserOwnsGame(user, g) || !(1 <= g <= |games.rows|))
      && (r.Success? ==> Of(r.value.entry, user, g) && r.value.entry in lib.entries && r.value.game == games.rows[g - 1])
  {
    match ParseInt(gameId)
    case None => Failure(BadRequest)
    case Some(g) =>
      match lib.GetGameDetails(user, g, games)
      case None => Failure(NotFound)
      case Some(owned) => Success(owned)
  }

  /** The install states a client may set. */
  const ValidStatuses: seq<string> := ["instalando", "instalado", "no_iniciado", "actualizando"]

  /** Why `updateGameStatus` or `updatePlaytime` refused, in the order the
      handlers check. */
  datatype LibraryRefusal = BadId | BadValue | NotOwned
  {
    function Status(): Status
    {
      match this
      case BadId => BadRequest
      case BadValue => BadRequest
      case NotOwned => NotFound
    }
  }

  /** The guard chain of `updateGameStatus`: the id, then the state (an
      absent or empty one included), then ownership. */
  function UpdateStatusCheck(entries: seq<Entry>, user: int, gameId: string, estado: Option<string>): (r: Option<LibraryRefusal>)
    ensures r == Some(BadId) <==> ParseInt(gameId).None?
    ensures r == Some(BadValue) <==> ParseInt(gameId).Some? && !(estado.Some? && estado.value in ValidStatuses)
    ensures r == Some(NotOwned) <==>
      ParseInt(gameId).Some? && estado.Some? && estado.value in ValidStatuses && !Owns(entries, user, ParseInt(gameId).value)
    ensures r.None? ==> ParseInt(gameId).Some? && estado.Some? && estado.value in ValidStatuses
  {
    match ParseInt(gameId)
    case None => Some(BadId)
    case Some(g) =>
      if !Filled(estado) || estado.value !in ValidStatuses then Some(BadValue)
      else if !Owns(entries, user, g) then Some(NotOwned)
      else None
  }

  /** An unknown state is refused before ownership is looked at. */
  lemma StatusCheckedBeforeOwnership(entries: seq<Entry>, user: int, gameId: string, estado: string)
    requires ParseInt(gameId).Some? && estado !in ValidStatuses
    ensures UpdateStatusCheck(entries, user, gameId, Some(estado)) == Some(BadValue)
  {
  }

  /** After `SetStatus` every entry of the pair carries the new state. */
  lemma SetStatusSets(entries: seq<Entry>, user: int, game: int, status: string)
    ensures forall e :: e in SetStatus(entries, user, game, status) && Of(e, user, game) ==> e.status == status
  {
    var s := SetStatus(entries, user, game, status);
    forall e | e in s && Of(e, user, game)
      ensures e.status == status
    {
      var i :| 0 <= i < |s| && s[i] == e;
      assert Of(entries[i], user, game);
    }
  }

  /** `updateGameStatus`. A refusal changes nothing. Otherwise only the
      pair's entry changes, it now carries the requested state, and the
      500 for a failed update cannot happen since ownership was checked. */
  method UpdateGameStatus(lib: LibraryTable, games: GameTable, user: int, gameId: string, estado: Option<string>)
    returns (status: Status, game: Option<OwnedGame>)
    requires lib.Valid()
    modifies lib
    ensures lib.Valid()
    ensures var check := UpdateStatusCheck(old(lib.entries), user, gameId, estado);
      check.Some? ==> status == check.value.Status() && game.None? && lib.entries == old(lib.entries)
    ensures var check := UpdateStatusCheck(old(lib.entries), user, gameId, estado);
      check.None? ==>
        var g := ParseInt(gameId).value;
        status == Ok
        && lib.entries == SetStatus(old(lib.entries), user, g, estado.value)
        && game == lib.GetGameDetails(user, g, games)
        && (game.Some? ==> game.value.entry.status == estado.value)
        && (game.None? <==> !(1 <= g <= |games.rows|))
  {
    var check := UpdateStatusCheck(lib.entries, user, gameId, estado);
    if check.Some? {
      return check.value.Status(), None;
    }
    var g := ParseInt(gameId).value;
    var updated := lib.UpdateGameStatus(user, g, estado.value);
    if !updated {
      assert false;
      return ServerError, None;
    }
    SetStatusSets(old(lib.entries), user, g, estado.value);
    status, game := Ok, lib.GetGameDetails(user, g, games);
  }

  /** The guard chain of `updatePlaytime`: the id, then the minutes, a
      JSON number (absent, zero and negative are all refused; a fraction
      above zero passes), then ownership. */
  function UpdatePlaytimeCheck(entries: seq<Entry>, user: int, gameId: string, minutos: Option<DecimalValue>): (r: Option<LibraryRefusal>)
    ensures r == Some(BadId) <==> ParseInt(gameId).None?
    ensures r == Some(BadValue) <==> ParseInt(gameId).Some? && !(minutos.Some? && minutos.value.units > 0)
    ensures r == Some(NotOwned) <==>
      ParseInt(gameId).Some? && minutos.Some? && minutos.value.units > 0 && !Owns(entries, user, ParseInt(gameId).value)
    ensures r.None? ==> ParseInt(gameId).Some? && minutos.Some? && minutos.value.units > 0
  {
    match ParseInt(gameId)
    case None => Some(BadId)
    case Some(g) =>
      if minutos.None? || minutos.value.units == 0 || minutos.value.units < 0 then Some(BadValue)
      else if !Owns(entries, user, g) then Some(NotOwned)
      else None
  }

  /** `parseInt(minutos)`: the whole minutes of an amount that passed the
      guard, its fraction dropped, so `0.5` adds nothing and `30.9` adds
      30. */
  lemma WholeMinutes(x: DecimalValue)
    requires x.units > 0
    ensures IntegerPart(x) >= 0
    ensures IntegerPart(x) * Pow10(x.scale) <= x.units < (IntegerPart(x) + 1) * Pow10(x.scale)
    ensures IntegerPart(x) == 0 <==> x.units < Pow10(x.scale)
  {
    var p := Pow10(x.scale);
    var r := IntegerPart(x);
    if r >= 1 {
      MulMonotone(r, 1, p);
    }
  }

  /** `updatePlaytime`. A refusal changes nothing. Otherwise the whole
      minutes sent are added to the pair's entry only: no entry loses
      playtime, the pair's entry gains exactly `parseInt(minutos)`,
      everything else is kept. */
  method UpdatePlaytime(lib: LibraryTable, games: GameTable, user: int, gameId: string, minutos: Option<DecimalValue>)
    returns (status: Status, game: Option<OwnedGame>)
    requires lib.Valid()
    modifies lib
    ensures lib.Valid()
    ensures var check := UpdatePlaytimeCheck(old(lib.entries), user, gameId, minutos);
      check.Some? ==> status == check.value.Status() && game.None? && lib.entries == old(lib.entries)
    ensures var check := UpdatePlaytimeCheck(old(lib.entries), user, gameId, minutos);
      check.None? ==>
        var g := ParseInt(gameId).value;
        var added := IntegerPart(minutos.value);
        status == Ok && added >= 0
        && lib.entries == AddMinutes(old(lib.entries), user, g, added)
        && |lib.entries| == |old(lib.entries)|
        && (forall i :: 0 <= i < |lib.entries| ==>
              lib.entries[i].(minutes := old(lib.entries)[i].minutes) == old(lib.entries)[i]
              && lib.entries[i].minutes == old(lib.entries)[i].minutes + (if Of(old(lib.entries)[i], user, g) then added else 0))
        && game == lib.GetGameDetails(user, g, games)
  {
    var check := UpdatePlaytimeCheck(lib.entries, user, gameId, minutos);
    if check.Some? {
      return check.value.Status(), None;
    }
    var g := ParseInt(gameId).value;
    var added := IntegerPart(minutos.value);
    var updated := lib.AddPlaytime(user, g, added);
    if !updated {
      assert false;
      return ServerError, None;
    }
    forall i | 0 <= i < |lib.entries|
      ensures lib.entries[i].(minutes := old(lib.entries)[i].minutes) == old(lib.entries)[i]
    {
    }
    status, game := Ok, lib.GetGameDetails(user, g, games);
  }
}
