/** The catalogue handlers: `getAllGames`, `getGameById`, `createGame`,
    `updateGame`, `deleteGame` and the guard of `searchGames`. Query and
    route values arrive as text; request bodies arrive typed. */
module GamesController {
  import opened Common
  import opened JsText
  import opened GameRepository

  /** The query string of `getAllGames`; `None` is an absent key. */
  datatype GamesQuery = GamesQuery(page: Option<string>, limit: Option<string>, plataforma: Option<string>,
                                   precio_min: Option<string>, precio_max: Option<string>,
                                   id_genero: Option<string>, activo: Option<string>,
                                   sort: Option<string>, order: Option<string>)

  /** `id_genero ? parseInt(id_genero) : undefined`: a number parsed only
      from a truthy query value. */
  function TruthyInt(s: Option<string>): (r: Option<int>)
    ensures !Filled(s) ==> r.None?
    ensures Filled(s) ==> r == ParseInt(s.value)
  {
    if Filled(s) then ParseInt(s.value) else None
  }

  /** `precio_min ? parseFloat(precio_min) : undefined`, with the bound in
      euros turned into the least whole number of cents a price must reach. */
  function MinCents(s: Option<string>): (r: Option<int>)
    ensures !Filled(s) ==> r.None?
    ensures Filled(s) ==> (r.Some? <==> ParseFloat(s.value).Some?)
  {
    if Filled(s) && ParseFloat(s.value).Some? then
      var x := ParseFloat(s.value).value;
      Some(RoundUp(x.units * 100, Pow10(x.scale)))
    else None
  }

  /** `precio_max ? parseFloat(precio_max) : undefined`, with the bound in
      euros turned into the greatest whole number of cents a price may
      reach. */
  function MaxCents(s: Option<string>): (r: Option<int>)
    ensures !Filled(s) ==> r.None?
    ensures Filled(s) ==> (r.Some? <==> ParseFloat(s.value).Some?)
  {
    if Filled(s) && ParseFloat(s.value).Some? then
      var x := ParseFloat(s.value).value;
      Some((x.units * 100) / Pow10(x.scale))
    else None
  }

  /** A price in cents reaches the lower bound exactly when, in euros, it
      is at least the amount the query gives (`v.precio >= ?`). */
  lemma MinCentsIsEuros(s: Option<string>, precio: int)
    requires MinCents(s).Some?
    ensures var x := ParseFloat(s.value).value;
      precio >= MinCents(s).value <==> precio * Pow10(x.scale) >= x.units * 100
  {
    var x := ParseFloat(s.value).value;
    AtLeastQuotient(x.units * 100, Pow10(x.scale), precio);
  }

  /** A price in cents stays within the upper bound exactly when, in
      euros, it is at most the amount the query gives (`v.precio <= ?`). */
  lemma MaxCentsIsEuros(s: Option<string>, precio: int)
    requires MaxCents(s).Some?
    ensures var x := ParseFloat(s.value).value;
      precio <= MaxCents(s).value <==> precio * Pow10(x.scale) <= x.units * 100
  {
    var x := ParseFloat(s.value).value;
    AtMostQuotient(x.units * 100, Pow10(x.scale), precio);
  }

  /** A bound of a whole number of euros is a hundred times as many cents,
      at either end. */
  lemma WholeEurosBound(n: int)
    ensures MinCents(Some(IntString(n))) == Some(100 * n)
    ensures MaxCents(Some(IntString(n))) == Some(100 * n)
  {
    var s := IntString(n);
    ParseFloatString(n);
    assert s != "" by {
      if n < 0 { assert s[0] == '-'; } else { assert Decimal(n) != []; }
    }
    assert Filled(Some(s)) && Pow10(0) == 1;
    assert (n * 100) / 1 == 100 * n;
    assert RoundUp(n * 100, 1) == 100 * n;
  }

  /** `activo === 'true' ? true : activo === 'false' ? false : undefined`,
      with `'true'` standing in for an absent key. */
  function ActivoParam(s: Option<string>): (r: Option<bool>)
    ensures r == Some(true) <==> s.None? || s == Some("true")
    ensures r == Some(false) <==> s == Some("false")
    ensures (if r.Some? then r.value else true) == (s != Some("false"))
  {
    var a := if s.None? then "true" else s.value;
    if a == "true" then Some(true) else if a == "false" then Some(false) else None
  }

  /** The filters `getAllGames` hands to the repository. */
  function Filters(q: GamesQuery): (r: GameFilters)
    ensures r.page == QueryInt(q.page, 1) && r.limit == QueryInt(q.limit, 12)
    ensures r.plataforma == q.plataforma
    ensures r.precioMin == MinCents(q.precio_min) && r.precioMax == MaxCents(q.precio_max)
    ensures r.idGenero == TruthyInt(q.id_genero) && r.activo == ActivoParam(q.activo)
    ensures r.sort == (if q.sort.None? then "fecha_agregado" else q.sort.value)
    ensures r.order == (if q.order.None? then "DESC" else q.order.value)
  {
    GameFilters(QueryInt(q.page, 1), QueryInt(q.limit, 12), q.plataforma,
                MinCents(q.precio_min), MaxCents(q.precio_max), TruthyInt(q.id_genero),
                ActivoParam(q.activo),
                if q.sort.None? then "fecha_agregado" else q.sort.value,
                if q.order.None? then "DESC" else q.order.value)
  }

  /** `getAllGames`: the page `findAll` builds, or 500 for a statement the
      database refuses. */
  function GetAllGames(games: GameTable, q: GamesQuery): (r: (Status, Option<GamePage>))
    reads games
    ensures r.0 == Ok <==> r.1.Some?
    ensures r.0 != Ok ==> r.0 == ServerError
    ensures r.1 == FindAll(games.rows, Filters(q))
  {
    var page := FindAll(games.rows, Filters(q));
    (if page.Some? then Ok else ServerError, page)
  }

  /** A game that passes the filters of `q` has the active flag `q` asks
      for: inactive only under `activo=false`. */
  lemma MatchedActivity(g: Game, q: GamesQuery)
    requires Satisfies(g, Conditions(Filters(q)))
    ensures g.activo == (q.activo != Some("false"))
  {
    SatisfiesConditions(g, Filters(q));
  }

  /** Only `activo=false` lists inactive games; anything else, and an
      absent key, lists active ones. */
  lemma ListingShowsActiveUnlessAsked(games: GameTable, q: GamesQuery)
    requires GetAllGames(games, q).1.Some?
    ensures forall id :: id in GetAllGames(games, q).1.value.ids ==>
      1 <= id <= |games.rows| && games.rows[id - 1].activo == (q.activo != Some("false"))
  {
    FindAllActivity(games.rows, Filters(q));
  }

  /** Without `sort` and `order` keys the listing is by the date games were
      added, newest first: page `p` holds the matches from the
      ((p - 1) * limit + 1)-th newest on. */
  lemma DefaultListingNewestFirst(games: GameTable, q: GamesQuery)
    requires q.sort.None? && q.order.None?
    requires GetAllGames(games, q).1.Some?
    ensures var f := Filters(q);
      DatePage(GetAllGames(games, q).1.value.ids, MatchingIds(games.rows, Conditions(f)), Desc,
               Offset(PageInt(f), LimitInt(f)), LimitInt(f))
  {
    var f := Filters(q);
    assert f.sort == "fecha_agregado" && f.order == "DESC";
    assert GameSortColumn(f.sort) == "fecha_agregado";
    DescIsDescending();
    FindAllByDate(games.rows, f);
  }

  /** A genre filter never narrows the listing: `id_genero` is parsed but
      the repository applies no condition for it. */
  lemma GenreFilterIgnored(games: GameTable, q: GamesQuery, genre: Option<string>)
    ensures GetAllGames(games, q.(id_genero := genre)).1.Some? == GetAllGames(games, q).1.Some?
    ensures GetAllGames(games, q.(id_genero := genre)).1.Some? ==>
      GetAllGames(games, q.(id_genero := genre)).1.value.ids == GetAllGames(games, q).1.value.ids
  {
    assert Conditions(Filters(q.(id_genero := genre))) == Conditions(Filters(q));
  }

  /** `getGameById`: a parameter that `parseInt` reads is an id, anything
      else a slug; 404 when the lookup finds nothing. */
  function GetGameById(games: GameTable, id: string): (r: Result<GameView, Status>)
    reads games
    ensures r.Failure? ==> r.error == NotFound
    ensures ParseInt(id).Some? ==> (r.Success? <==> 1 <= ParseInt(id).value <= |games.rows|)
    ensures ParseInt(id).Some? && r.Success? ==> r.value.id == ParseInt(id).value
    ensures ParseInt(id).None? ==> (r.Success? <==> exists i :: 0 <= i < |games.rows| && games.rows[i].slug == id)
    ensures ParseInt(id).None? && r.Success? ==> r.value.game.slug == id
    ensures r.Success? ==> 1 <= r.value.id <= |games.rows| && r.value.game == games.rows[r.value.id - 1]
  {
    match ParseInt(id)
    case None => GetGameBySlug(games, id)
    case Some(n) =>
      match games.FindById(n)
      case None => Failure(NotFound)
      case Some(g) => Success(g)
  }

  /** `getGameBySlug`: the first game with that slug, or 404. */
  function GetGameBySlug(games: GameTable, slug: string): (r: Result<GameView, Status>)
    reads games
    ensures r.Failure? <==> r == Failure(NotFound)
    ensures r.Success? <==> exists i :: 0 <= i < |games.rows| && games.rows[i].slug == slug
    ensures r.Success? ==>
      1 <= r.value.id <= |games.rows| && r.value.game == games.rows[r.value.id - 1] && r.value.game.slug == slug
      && forall i :: 0 <= i < r.value.id - 1 ==> games.rows[i].slug != slug
  {
    match games.FindBySlug(slug)
    case None => Failure(NotFound)
    case Some(g) => Success(g)
  }

  /** A parameter `parseInt` cannot read reaches `getGameById` and
      `getGameBySlug` alike. */
  lemma NonNumericIdIsASlug(games: GameTable, id: string)
    requires ParseInt(id).None?
    ensures GetGameById(games, id) == GetGameBySlug(games, id)
  {
  }

  /** A slug that starts with a digit is read as an id: `7-days` names game 7. */
  lemma DigitSlugIsAnId(games: GameTable)
    requires |games.rows| >= 7
    ensures GetGameById(games, "7-days") == Success(games.FindById(7).value)
  {
    SevenDaysParses();
  }

  /** `parseInt("7-days")` reads the leading digit and stops at the dash. */
  lemma SevenDaysParses()
    ensures ParseInt("7-days") == Some(7)
  {
    var s := "7-days";
    assert IsDigit(s[0], 10) && !IsDigit(s[1], 10);
    ParseIntDecimal(s);
    var d := DigitPrefix(s, 10);
    assert |d| == 1 && d == s[..1];
    assert d == "7";
    assert DigitsValue("7", 10) == 7 by {
      assert "7"[..0] == [];
    }
  }

  /** No two games share a slug. */
  predicate UniqueSlugs(rows: seq<Game>)
  {
    forall i, j :: 0 <= i < j < |rows| ==> rows[i].slug != rows[j].slug
  }

  /** Why `createGame` or `updateGame` refused. */
  datatype GameRefusal = MissingTitleOrSlug | BadId | NoSuchGame | SlugTaken | NegativePrice
  {
    function Status(): Status
    {
      match this
      case MissingTitleOrSlug => BadRequest
      case BadId => BadRequest
      case NoSuchGame => NotFound
      case SlugTaken => Conflict
      case NegativePrice => BadRequest
    }
  }

  /** The guard chain of `createGame`: title and slug, a free slug, then a
      price that is not negative (a zero price is falsy and never checked). */
  function CreateGameCheck(rows: seq<Game>, data: GameData): (r: Option<GameRefusal>)
    ensures r == Some(MissingTitleOrSlug) <==> !Filled(data.titulo) || !Filled(data.slug)
    ensures r == Some(SlugTaken) <==>
      Filled(data.titulo) && Filled(data.slug) && exists i :: 0 <= i < |rows| && rows[i].slug == data.slug.value
    ensures r == Some(NegativePrice) <==>
      Filled(data.titulo) && Filled(data.slug) && (forall i :: 0 <= i < |rows| ==> rows[i].slug != data.slug.value)
      && data.precio.Some? && data.precio.value < 0
    ensures r.None? || r == Some(MissingTitleOrSlug) || r == Some(SlugTaken) || r == Some(NegativePrice)
  {
    if !Filled(data.titulo) || !Filled(data.slug) then Some(MissingTitleOrSlug)
    else if exists i :: 0 <= i < |rows| && rows[i].slug == data.slug.value then Some(SlugTaken)
    else if data.precio.Some? && data.precio.value != 0 && data.precio.value < 0 then Some(NegativePrice)
    else None
  }

  /** `createGame`: a refusal changes nothing. Otherwise the new row is
      appended with the repository's defaults, no game has a negative price
      given in the body, and slugs stay unique. A body that leaves a
      pass-through column undefined reaches the `catch`: 500, and nothing
      is written. */
  method CreateGame(games: GameTable, data: GameData) returns (status: Status, game: Option<GameView>)
    modifies games
    ensures var check := CreateGameCheck(old(games.rows), data);
      check.Some? ==> status == check.value.Status() && game.None? && games.rows == old(games.rows)
    ensures var check := CreateGameCheck(old(games.rows), data);
      check.None? && !BindsEveryColumn(data) ==> status == ServerError && game.None? && games.rows == old(games.rows)
    ensures var check := CreateGameCheck(old(games.rows), data);
      check.None? && BindsEveryColumn(data) ==>
        status == Created && games.rows == old(games.rows) + [NewGame(data)]
        && game == games.FindById(|games.rows|)
        && games.rows[|games.rows| - 1].precio >= 0
    ensures games.requirements == old(games.requirements)
    ensures UniqueSlugs(old(games.rows)) ==> UniqueSlugs(games.rows)
  {
    var check := CreateGameCheck(games.rows, data);
    if check.Some? {
      return check.value.Status(), None;
    }
    game := games.Create(data);
    status := if game.Some? then Created else ServerError;
  }

  /** The guard chain of `updateGame`: the id, the game, a changed slug
      that another game holds, then a defined negative price. */
  function UpdateGameCheck(rows: seq<Game>, id: string, data: GameData): (r: Option<GameRefusal>)
    ensures r == Some(BadId) <==> ParseInt(id).None?
    ensures r == Some(NoSuchGame) <==> ParseInt(id).Some? && !(1 <= ParseInt(id).value <= |rows|)
    ensures r == Some(SlugTaken) <==>
      ParseInt(id).Some? && 1 <= ParseInt(id).value <= |rows|
      && Filled(data.slug) && data.slug.value != rows[ParseInt(id).value - 1].slug
      && exists i :: 0 <= i < |rows| && rows[i].slug == data.slug.value
    ensures r == Some(NegativePrice) ==> data.precio.Some? && data.precio.value < 0
    ensures r.None? ==>
      ParseInt(id).Some? && 1 <= ParseInt(id).value <= |rows| && !(data.precio.Some? && data.precio.value < 0)
      && (Filled(data.slug) && data.slug.value != rows[ParseInt(id).value - 1].slug ==>
            forall i :: 0 <= i < |rows| ==> rows[i].slug != data.slug.value)
    ensures r != Some(MissingTitleOrSlug)
  {
    match ParseInt(id)
    case None => Some(BadId)
    case Some(n) =>
      if !(1 <= n <= |rows|) then Some(NoSuchGame)
      else if Filled(data.slug) && data.slug.value != rows[n - 1].slug
              && exists i :: 0 <= i < |rows| && rows[i].slug == data.slug.value then Some(SlugTaken)
      else if data.precio.Some? && data.precio.value < 0 then Some(NegativePrice)
      else None
  }

  /** `updateGame`: a refusal changes nothing. Otherwise the repository
      writes the allow-listed fields the body defines, and the handler says
      200 even when there was none to write (the game is then null). */
  method UpdateGame(games: GameTable, id: string, data: GameData) returns (status: Status, game: Option<GameView>)
    modifies games
    ensures var check := UpdateGameCheck(old(games.rows), id, data);
      check.Some? ==> status == check.value.Status() && game.None? && games.rows == old(games.rows)
    ensures var check := UpdateGameCheck(old(games.rows), id, data);
      check.None? ==>
        var n := ParseInt(id).value;
        status == Ok
        && (game.None? <==> DefinedFields(AllowedFields, data) == [])
        && (game.None? ==> games.rows == old(games.rows))
        && (game.Some? ==> games.rows == old(games.rows)[n - 1 := Apply(old(games.rows)[n - 1], data)]
                           && game == games.FindById(n))
    ensures games.requirements == old(games.requirements)
  {
    var check := UpdateGameCheck(games.rows, id, data);
    if check.Some? {
      return check.value.Status(), None;
    }
    var n := ParseInt(id).value;
    assert 1 <= n <= |games.rows|;
    game := games.Update(n, data);
    status := Ok;
  }

  /** An update `updateGame` lets through keeps slugs unique, unless the
      body sets an empty slug: the falsy guard skips the check for it. */
  lemma UpdateKeepsSlugsUnique(rows: seq<Game>, id: string, data: GameData)
    requires UniqueSlugs(rows) && UpdateGameCheck(rows, id, data).None? && data.slug != Some("")
    ensures var n := ParseInt(id).value;
      UniqueSlugs(rows[n - 1 := Apply(rows[n - 1], data)])
  {
    var n := ParseInt(id).value;
    var after := rows[n - 1 := Apply(rows[n - 1], data)];
    ApplyWrites(rows[n - 1], data, Slug);
    assert after[n - 1].slug == (if data.slug.Some? then data.slug.value else rows[n - 1].slug);
  }

  /** `deleteGame`: 400 on a non-numeric id, 404 when there is no such
      game; otherwise the game is deactivated and kept. */
  method DeleteGame(games: GameTable, id: string) returns (status: Status)
    modifies games
    ensures ParseInt(id).None? ==> status == BadRequest && games.rows == old(games.rows)
    ensures ParseInt(id).Some? ==>
      var n := ParseInt(id).value;
      |games.rows| == |old(games.rows)|
      && (status == NotFound <==> !(1 <= n <= |old(games.rows)|))
      && (status == NotFound ==> games.rows == old(games.rows))
      && (status != NotFound ==> status == Ok && games.rows == old(games.rows)[n - 1 := old(games.rows)[n - 1].(activo := false)])
    ensures games.requirements == old(games.requirements)
  {
    if ParseInt(id).None? {
      return BadRequest;
    }
    var deleted := games.SoftDelete(ParseInt(id).value);
    status := if deleted then Ok else NotFound;
  }

  /** The guard of `searchGames`: 400 exactly when `q` is absent or only
      white space; otherwise the search runs. */
  function SearchGamesCheck(q: Option<string>): (r: Option<Status>)
    ensures r.Some? <==> q.None? || AllSpace(q.value)
    ensures r.Some? ==> r.value == BadRequest
  {
    if q.None? || q.value == "" then Some(BadRequest)
    else
      TrimEmptyIffAllSpace(q.value);
      if Trim(q.value) == "" then Some(BadRequest) else None
  }
}
