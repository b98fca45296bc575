/** The `biblioteca_usuario` table: the games each user owns, with the
    purchase that granted them, the install status and the minutes played. */
module LibraryRepository {
  import opened Common
  import opened JsText
  import opened GameRepository

  /** One owned game. */
  datatype Entry = Entry(user: int, game: int, purchase: Option<int>, status: string, minutes: int)

  /** The status a new entry is assumed to hold. The insert of `addGame`
      names no status, so a new entry takes the column's default, which
      lives in the schema and is not part of this model; the not-yet-started
      value that `updateStatus` admits is assumed here. */
  const InitialStatus: string := "no_iniciado"

  /** The entry belongs to the (user, game) pair. */
  predicate Of(e: Entry, user: int, game: int)
  {
    e.user == user && e.game == game
  }

  /** The table holds at most one entry per (user, game) pair, as its unique
      key demands. */
  predicate UniquePairs(entries: seq<Entry>)
  {
    forall i, j :: 0 <= i < j < |entries| ==> !Of(entries[j], entries[i].user, entries[i].game)
  }

  /** `userOwnsGame`: some entry belongs to the pair. */
  predicate Owns(entries: seq<Entry>, user: int, game: int)
  {
    exists i :: 0 <= i < |entries| && Of(entries[i], user, game)
  }

  /** `UPDATE ... SET estado_actual = ? WHERE id_usuario = ? AND id_juego = ?`. */
  function SetStatus(entries: seq<Entry>, user: int, game: int, status: string): (r: seq<Entry>)
    ensures |r| == |entries|
    ensures forall i :: 0 <= i < |r| ==>
      r[i] == if Of(entries[i], user, game) then entries[i].(status := status) else entries[i]
  {
    if entries == [] then []
    else
      var e := entries[0];
      [if Of(e, user, game) then e.(status := status) else e] + SetStatus(entries[1..], user, game, status)
  }

  /** `UPDATE ... SET tiempo_jugado = tiempo_jugado + ? WHERE ...`. */
  function AddMinutes(entries: seq<Entry>, user: int, game: int, minutes: int): (r: seq<Entry>)
    ensures |r| == |entries|
    ensures forall i :: 0 <= i < |r| ==>
      r[i] == if Of(entries[i], user, game) then entries[i].(minutes := entries[i].minutes + minutes) else entries[i]
  {
    if entries == [] then []
    else
      var e := entries[0];
      [if Of(e, user, game) then e.(minutes := e.minutes + minutes) else e] + AddMinutes(entries[1..], user, game, minutes)
  }

  /** Adding a non-negative number of minutes never lowers anyone's
      playtime, and only the pair's entry changes. */
  lemma AddMinutesMonotone(entries: seq<Entry>, user: int, game: int, minutes: int)
    requires minutes >= 0
    ensures forall i :: 0 <= i < |entries| ==>
      AddMinutes(entries, user, game, minutes)[i].minutes >= entries[i].minutes
      && AddMinutes(entries, user, game, minutes)[i].(minutes := entries[i].minutes) == entries[i]
  {
  }

  /** Updating the status or the minutes keeps the pairs, so the table
      stays free of duplicates and ownership is unchanged. */
  lemma UpdatesKeepPairs(entries: seq<Entry>, user: int, game: int, status: string, minutes: int)
    requires UniquePairs(entries)
    ensures UniquePairs(SetStatus(entries, user, game, status))
    ensures UniquePairs(AddMinutes(entries, user, game, minutes))
    ensures forall u, g :: Owns(SetStatus(entries, user, game, status), u, g) <==> Owns(entries, u, g)
    ensures forall u, g :: Owns(AddMinutes(entries, user, game, minutes), u, g) <==> Owns(entries, u, g)
  {
    SamePairs(entries, SetStatus(entries, user, game, status));
    SamePairs(entries, AddMinutes(entries, user, game, minutes));
  }

  /** Two tables whose entries name the same pairs, position by position,
      are alike in uniqueness and in ownership. */
  lemma SamePairs(a: seq<Entry>, b: seq<Entry>)
    requires |a| == |b|
    requires forall i :: 0 <= i < |a| ==> b[i].user == a[i].user && b[i].game == a[i].game
    ensures UniquePairs(a) ==> UniquePairs(b)
    ensures forall u, g :: Owns(b, u, g) <==> Owns(a, u, g)
  {
    forall u, g
      ensures Owns(b, u, g) <==> Owns(a, u, g)
    {
      if Owns(a, u, g) {
        var i :| 0 <= i < |a| && Of(a[i], u, g);
        assert Of(b[i], u, g);
      }
      if Owns(b, u, g) {
        var i :| 0 <= i < |b| && Of(b[i], u, g);
        assert Of(a[i], u, g);
      }
    }
  }

  /** Entries with more playtime come first. */
  predicate ByMinutesDesc(s: seq<Entry>)
  {
    forall i, j :: 0 <= i < j < |s| ==> s[i].minutes >= s[j].minutes
  }

  /** Insert `e` into a list ordered by decreasing minutes. */
  function InsertByMinutes(e: Entry, s: seq<Entry>): (r: seq<Entry>)
    requires ByMinutesDesc(s)
    ensures ByMinutesDesc(r)
    ensures multiset(r) == multiset(s) + multiset{e}
    ensures forall x :: x in r ==> x == e || x in s
  {
    if s == [] then [e]
    else if e.minutes >= s[0].minutes then [e] + s
    else
      var rest := InsertByMinutes(e, s[1..]);
      assert s == [s[0]] + s[1..];
      var r := [s[0]] + rest;
      forall i, j | 0 <= i < j < |r|
        ensures r[i].minutes >= r[j].minutes
      {
        if i == 0 {
          assert r[j] in rest;
          assert r[j] == e || r[j] in s[1..];
        }
      }
      r
  }

  /** `ORDER BY tiempo_jugado DESC`: the same entries, most played first. */
  function SortByMinutes(s: seq<Entry>): (r: seq<Entry>)
    ensures ByMinutesDesc(r)
    ensures multiset(r) == multiset(s)
  {
    if s == [] then []
    else
      assert s == [s[0]] + s[1..];
      InsertByMinutes(s[0], SortByMinutes(s[1..]))
  }

  /** The user's entries that have been played at all, in table order. */
  function Played(entries: seq<Entry>, user: int): (r: seq<Entry>)
    ensures forall e :: e in r <==> e in entries && e.user == user && e.minutes > 0
    ensures |r| <= |entries|
  {
    if entries == [] then []
    else
      assert entries == [entries[0]] + entries[1..];
      (if entries[0].user == user && entries[0].minutes > 0 then [entries[0]] else []) + Played(entries[1..], user)
  }

  /** No entry of `rest` has more minutes than an entry of `top`. */
  predicate NoneAbove(top: seq<Entry>, rest: multiset<Entry>)
  {
    forall x, e :: x in top && e in rest ==> e.minutes <= x.minutes
  }

  /** `getMostPlayed`: at most `limit` of the user's played entries, most
      played first, none of them twice; fewer than `limit` only when every
      played entry is listed, and no played entry left out has more minutes
      than one that was listed. */
  function MostPlayed(entries: seq<Entry>, user: int, limit: nat): (r: seq<Entry>)
    ensures |r| <= limit
    ensures ByMinutesDesc(r)
    ensures forall e :: e in r ==> e in entries && e.user == user && e.minutes > 0
    ensures multiset(r) <= multiset(Played(entries, user))
    ensures |r| == limit || multiset(r) == multiset(Played(entries, user))
    ensures NoneAbove(r, multiset(Played(entries, user)) - multiset(r))
  {
    var played := Played(entries, user);
    var sorted := SortByMinutes(played);
    var k := if |sorted| <= limit then |sorted| else limit;
    var r := sorted[..k];
    TopOfSorted(sorted, k);
    assert k == |sorted| ==> r == sorted;
    assert forall e :: e in r ==> e in multiset(played);
    r
  }

  /** The first `k` entries of a list ordered by decreasing minutes are a
      part of it, and none of the rest has more minutes than they. */
  lemma TopOfSorted(sorted: seq<Entry>, k: nat)
    requires ByMinutesDesc(sorted) && k <= |sorted|
    ensures ByMinutesDesc(sorted[..k])
    ensures multiset(sorted[..k]) <= multiset(sorted)
    ensures NoneAbove(sorted[..k], multiset(sorted) - multiset(sorted[..k]))
  {
    assert sorted == sorted[..k] + sorted[k..];
    assert multiset(sorted) == multiset(sorted[..k]) + multiset(sorted[k..]);
    forall x, e | x in sorted[..k] && e in multiset(sorted) - multiset(sorted[..k])
      ensures e.minutes <= x.minutes
    {
      var tail := sorted[k..];
      assert e in multiset(tail);
      assert e in tail;
      var j :| 0 <= j < |tail| && tail[j] == e;
      var i :| 0 <= i < k && sorted[..k][i] == x;
      assert sorted[i] == x && sorted[k + j] == e;
    }
  }

  /** The `getUserLibrary` filters after the controller parsed them; `None`
      for `page`/`limit` is NaN. */
  datatype LibraryFilters = LibraryFilters(page: Option<int>, limit: Option<int>, estado: Option<string>,
                                           sort: string, order: string)

  const LibrarySortColumns: seq<string> := ["fecha_adquirido", "tiempo_jugado", "titulo"]

  /** The `ORDER BY` column of the library listing. */
  function LibrarySortColumn(sort: string): (r: string)
    ensures r in LibrarySortColumns
    ensures r == sort <==> sort in LibrarySortColumns
    ensures r != sort ==> r == "fecha_adquirido"
  {
    AllowListed(sort, LibrarySortColumns, "fecha_adquirido")
  }

  /** One page of the library; `totalPages` is `None` when it is not a
      finite number (a limit of 0). */
  datatype LibraryPage = LibraryPage(entries: seq<Entry>, sortColumn: string, sortOrder: SortOrder,
                                     page: int, limit: int, total: nat, totalPages: Option<int>)

  /** The user's entries that pass the status filter (applied only when the
      filter is a non-empty string). */
  function Listing(entries: seq<Entry>, user: int, estado: Option<string>): (r: seq<Entry>)
    ensures forall e :: e in r <==> e in entries && e.user == user && (Filled(estado) ==> e.status == estado.value)
  {
    if entries == [] then []
    else
      assert entries == [entries[0]] + entries[1..];
      var e := entries[0];
      (if e.user == user && (Filled(estado) ==> e.status == estado.value) then [e] else [])
        + Listing(entries[1..], user, estado)
  }

  /** `getUserLibrary`. `LIMIT` and `OFFSET` are written into the statement
      text, so a NaN or negative value makes MySQL reject it (`None`). */
  function GetUserLibrary(entries: seq<Entry>, user: int, f: LibraryFilters): (r: Option<LibraryPage>)
    ensures r.Some? <==> f.page.Some? && f.limit.Some? && f.limit.value >= 0 && Offset(f.page.value, f.limit.value) >= 0
    ensures r.Some? ==> r.value.page == f.page.value && r.value.limit == f.limit.value
    ensures r.Some? ==> r.value.sortColumn == LibrarySortColumn(f.sort) && r.value.sortOrder == NormalizeOrder(f.order)
    ensures r.Some? ==> r.value.total == |Listing(entries, user, f.estado)|
    ensures r.Some? ==> |r.value.entries| <= r.value.limit
    ensures r.Some? ==> var offset := Offset(f.page.value, f.limit.value);
      |r.value.entries| == if offset >= r.value.total then 0
                           else if r.value.total - offset < r.value.limit then r.value.total - offset
                           else r.value.limit
    ensures r.Some? ==> forall e :: e in r.value.entries ==>
      e in entries && e.user == user && (Filled(f.estado) ==> e.status == f.estado.value)
    ensures r.Some? ==> (r.value.totalPages.None? <==> r.value.limit == 0)
    ensures r.Some? && r.value.limit > 0 ==> r.value.totalPages == Some(CeilDiv(r.value.total, r.value.limit))
  {
    if f.page.None? || f.limit.None? || f.limit.value < 0 || Offset(f.page.value, f.limit.value) < 0 then None
    else
      var all := Listing(entries, user, f.estado);
      var order := NormalizeOrder(f.order);
      var page := Page(ByDate(all, order), Offset(f.page.value, f.limit.value), f.limit.value);
      PageByDateWithin(all, order, Offset(f.page.value, f.limit.value), f.limit.value);
      Some(LibraryPage(page, LibrarySortColumn(f.sort), order,
                       f.page.value, f.limit.value, |all|, JsTotalPages(|all|, f.limit)))
  }

  /** Sorted by acquisition date, a page of the library holds the user's
      entries in that order: newest first under DESC, the default. */
  lemma LibraryByDate(entries: seq<Entry>, user: int, f: LibraryFilters)
    requires GetUserLibrary(entries, user, f).Some? && LibrarySortColumn(f.sort) == "fecha_adquirido"
    ensures GetUserLibrary(entries, user, f).value.sortOrder == NormalizeOrder(f.order)
    ensures DatePage(GetUserLibrary(entries, user, f).value.entries, Listing(entries, user, f.estado),
                     NormalizeOrder(f.order), Offset(f.page.value, f.limit.value), f.limit.value)
  {
    var all := Listing(entries, user, f.estado);
    var offset := Offset(f.page.value, f.limit.value);
    assert GetUserLibrary(entries, user, f).value.entries == Page(ByDate(all, NormalizeOrder(f.order)), offset, f.limit.value);
    PageByDate(all, NormalizeOrder(f.order), offset, f.limit.value);
  }

  /** The joined row `getGameDetails` returns. */
  datatype OwnedGame = OwnedGame(entry: Entry, game: Game)

  class LibraryTable {
    var entries: seq<Entry>

    constructor ()
      ensures entries == []
    {
      entries := [];
    }

    predicate Valid()
      reads this
    {
      UniquePairs(entries)
    }

    /** `userOwnsGame`. */
    predicate UserOwnsGame(user: int, game: int)
      reads this
    {
      Owns(entries, user, game)
    }

    /** `getGameDetails`: the pair's entry joined with its game, or null. */
    function GetGameDetails(user: int, game: int, games: GameTable): (r: Option<OwnedGame>)
      reads this, games
      ensures r.Some? ==> r.value.entry in entries && Of(r.value.entry, user, game)
      ensures r.Some? ==> 1 <= game <= |games.rows| && r.value.game == games.rows[game - 1]
      ensures r.None? <==> !UserOwnsGame(user, game) || !(1 <= game <= |games.rows|)
    {
      if 1 <= game <= |games.rows| then
        match First(entries, user, game)
        case Some(e) => Some(OwnedGame(e, games.rows[game - 1]))
        case None => None
      else None
    }

    /** `addGame`: insert a new entry linked to the purchase. The unique key
        on (user, game) makes the insert fail when the pair is already
        there. */
    method AddGame(user: int, game: int, purchase: Option<int>) returns (ok: bool)
      requires Valid()
      modifies this
      ensures Valid()
      ensures ok <==> !old(UserOwnsGame(user, game))
      ensures entries == if ok then old(entries) + [Entry(user, game, purchase, InitialStatus, 0)] else old(entries)
      ensures UserOwnsGame(user, game)
    {
      ok := !UserOwnsGame(user, game);
      if ok {
        entries := entries + [Entry(user, game, purchase, InitialStatus, 0)];
        assert Of(entries[|entries| - 1], user, game);
      }
    }

    /** `updateGameStatus`: true iff the pair has an entry. */
    method UpdateGameStatus(user: int, game: int, status: string) returns (updated: bool)
      requires Valid()
      modifies this
      ensures Valid()
      ensures updated <==> old(UserOwnsGame(user, game))
      ensures entries == SetStatus(old(entries), user, game, status)
    {
      updated := UserOwnsGame(user, game);
      UpdatesKeepPairs(entries, user, game, status, 0);
      entries := SetStatus(entries, user, game, status);
    }

    /** `addPlaytime`: true iff the pair has an entry. */
    method AddPlaytime(user: int, game: int, minutes: int) returns (updated: bool)
      requires Valid()
      modifies this
      ensures Valid()
      ensures updated <==> old(UserOwnsGame(user, game))
      ensures entries == AddMinutes(old(entries), user, game, minutes)
    {
      updated := UserOwnsGame(user, game);
      UpdatesKeepPairs(entries, user, game, "", minutes);
      entries := AddMinutes(entries, user, game, minutes);
    }
  }

  /** The first entry of the pair. */
  function First(entries: seq<Entry>, user: int, game: int): (r: Option<Entry>)
    ensures r.Some? ==> r.value in entries && Of(r.value, user, game)
    ensures r.None? <==> !Owns(entries, user, game)
  {
    if entries == [] then None
    else if Of(entries[0], user, game) then Some(entries[0])
    else
      var rest := First(entries[1..], user, game);
      assert Owns(entries, user, game) ==> Owns(entries[1..], user, game) by {
        if Owns(entries, user, game) {
          var i :| 0 <= i < |entries| && Of(entries[i], user, game);
          assert entries[1..][i - 1] == entries[i];
        }
      }
      rest
  }
}
