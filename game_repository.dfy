/** The `videojuegos` catalogue and its `requisitos` rows. A game's id is its
    position in the table counted from 1: ids come from AUTO_INCREMENT and
    games are only ever deactivated, never deleted. Prices are in cents. */
module GameRepository {
  import opened Common
  import opened JsText

  /** A value stored in a column that the core passes through untouched. */
  datatype Value = NullValue | Text(s: string) | Number(n: int) | Flag(b: bool)

  /** The columns of `videojuegos` that a request body can set. */
  datatype Column =
    | Slug | Titulo | Descripcion | Precio | Stock | FechaLanzamiento | Desarrollador
    | Distribuidor | IdGenero | Plataforma | ClasificacionEdad | SteamAppId | IgdbId
    | ImagenUrl | TrailerUrl | Activo
  {
    /** A column the core stores as given and never interprets. */
    predicate IsDetail()
    {
      !(this.Slug? || this.Titulo? || this.Precio? || this.Stock? || this.Plataforma? || this.Activo?)
    }
  }

  /** A row of `videojuegos`: the columns the rest of the system reads are
      typed, the others are kept by column in `details`. */
  datatype Game = Game(slug: string, titulo: string, precio: int, stock: int,
                       plataforma: string, activo: bool, details: map<Column, Value>)

  /** A create or update request body; `None` is a member that is absent
      (undefined). */
  datatype GameData = GameData(slug: Option<string>, titulo: Option<string>,
                               precio: Option<int>, stock: Option<int>,
                               plataforma: Option<string>, activo: Option<bool>,
                               details: map<Column, Value>)

  /** The columns `update` may write, in the order it tries them. */
  const AllowedFields: seq<Column> :=
    [Slug, Titulo, Descripcion, Precio, Stock, FechaLanzamiento, Desarrollador, Distribuidor,
     IdGenero, Plataforma, ClasificacionEdad, SteamAppId, IgdbId, ImagenUrl, TrailerUrl, Activo]

  /** A row of `requisitos`. */
  datatype Requirement = Requirement(gameId: int, tipo: string, details: map<string, Value>)

  /** The `requisitos` member of a game as `findById` returns it. */
  datatype Requirements = Requirements(minimos: Option<Requirement>, recomendados: Option<Requirement>)

  /** A game as `findById` and `findBySlug` return it. */
  datatype GameView = GameView(id: int, game: Game, requisitos: Requirements)

  /** `gameData[field] !== undefined`. */
  predicate IsDefined(data: GameData, field: Column)
  {
    match field
    case Slug => data.slug.Some?
    case Titulo => data.titulo.Some?
    case Precio => data.precio.Some?
    case Stock => data.stock.Some?
    case Plataforma => data.plataforma.Some?
    case Activo => data.activo.Some?
    case _ => field in data.details
  }

  /** The `SET` list that the `update` loop builds from `fields`. */
  function DefinedFields(fields: seq<Column>, data: GameData): (r: seq<Column>)
    ensures forall f :: f in r <==> f in fields && IsDefined(data, f)
    ensures |r| <= |fields|
  {
    if fields == [] then []
    else
      var init := fields[..|fields| - 1];
      var last := fields[|fields| - 1];
      assert fields == init + [last];
      DefinedFields(init, data) + (if IsDefined(data, last) then [last] else [])
  }

  /** The pass-through members of a body. */
  function AllowedDetails(data: GameData): (r: map<Column, Value>)
    ensures forall k :: k in r <==> k in data.details && k.IsDetail()
    ensures forall k :: k in r ==> r[k] == data.details[k]
  {
    map k | k in data.details && k.IsDetail() :: data.details[k]
  }

  /** The row `UPDATE videojuegos SET <defined fields>` leaves behind. */
  function Apply(g: Game, data: GameData): Game
  {
    Game(
      if data.slug.Some? then data.slug.value else g.slug,
      if data.titulo.Some? then data.titulo.value else g.titulo,
      if data.precio.Some? then data.precio.value else g.precio,
      if data.stock.Some? then data.stock.value else g.stock,
      if data.plataforma.Some? then data.plataforma.value else g.plataforma,
      if data.activo.Some? then data.activo.value else g.activo,
      g.details + AllowedDetails(data))
  }

  /** The value of one column of a row. */
  function Read(g: Game, c: Column): Value
  {
    match c
    case Slug => Text(g.slug)
    case Titulo => Text(g.titulo)
    case Precio => Number(g.precio)
    case Stock => Number(g.stock)
    case Plataforma => Text(g.plataforma)
    case Activo => Flag(g.activo)
    case _ => if c in g.details then g.details[c] else NullValue
  }

  /** The value a body gives a column it defines. */
  function Given(data: GameData, c: Column): Value
    requires IsDefined(data, c)
  {
    match c
    case Slug => Text(data.slug.value)
    case Titulo => Text(data.titulo.value)
    case Precio => Number(data.precio.value)
    case Stock => Number(data.stock.value)
    case Plataforma => Text(data.plataforma.value)
    case Activo => Flag(data.activo.value)
    case _ => data.details[c]
  }

  /** Every column `update` can touch is on its allow-list. */
  lemma AllColumnsAllowed(c: Column)
    ensures c in AllowedFields
  {
    match c
    case Slug => assert AllowedFields[0] == c;
    case Titulo => assert AllowedFields[1] == c;
    case Descripcion => assert AllowedFields[2] == c;
    case Precio => assert AllowedFields[3] == c;
    case Stock => assert AllowedFields[4] == c;
    case FechaLanzamiento => assert AllowedFields[5] == c;
    case Desarrollador => assert AllowedFields[6] == c;
    case Distribuidor => assert AllowedFields[7] == c;
    case IdGenero => assert AllowedFields[8] == c;
    case Plataforma => assert AllowedFields[9] == c;
    case ClasificacionEdad => assert AllowedFields[10] == c;
    case SteamAppId => assert AllowedFields[11] == c;
    case IgdbId => assert AllowedFields[12] == c;
    case ImagenUrl => assert AllowedFields[13] == c;
    case TrailerUrl => assert AllowedFields[14] == c;
    case Activo => assert AllowedFields[15] == c;
  }

  /** An update writes exactly the columns the body defines: each of them
      takes the given value and every other column keeps its value. */
  lemma ApplyWrites(g: Game, data: GameData, c: Column)
    ensures IsDefined(data, c) ==> Read(Apply(g, data), c) == Given(data, c)
    ensures !IsDefined(data, c) ==> Read(Apply(g, data), c) == Read(g, c)
  {
  }

  /** Writing the same body twice has the effect of writing it once. */
  lemma ApplyIdempotent(g: Game, data: GameData)
    ensures Apply(Apply(g, data), data) == Apply(g, data)
  {
    var once := Apply(g, data);
    assert once.details + AllowedDetails(data) == once.details;
  }

  /** A body that defines none of the allow-listed fields writes nothing. */
  lemma NothingDefinedNoChange(g: Game, data: GameData)
    requires DefinedFields(AllowedFields, data) == []
    ensures Apply(g, data) == g
  {
    forall c: Column
      ensures !IsDefined(data, c)
    {
      AllColumnsAllowed(c);
      assert c !in DefinedFields(AllowedFields, data);
    }
    assert !IsDefined(data, Slug) && !IsDefined(data, Titulo) && !IsDefined(data, Precio);
    assert !IsDefined(data, Stock) && !IsDefined(data, Plataforma) && !IsDefined(data, Activo);
    forall k: Column
      ensures k !in AllowedDetails(data)
    {
      if k.IsDetail() {
        assert IsDefined(data, k) == (k in data.details);
      }
    }
    assert AllowedDetails(data).Keys == {};
    assert g.details + AllowedDetails(data) == g.details;
  }

  /** Every pass-through column is a member of the body, possibly `null`.
      `create` binds these members without a default, and the MySQL driver
      refuses to bind an undefined value. */
  predicate BindsEveryColumn(data: GameData)
  {
    forall k: Column :: k.IsDetail() ==> k in data.details
  }

  /** The row `create` inserts: price 0, stock 999, platform 'PC' and active
      unless the body says otherwise, and every pass-through column as the
      body gives it. */
  function NewGame(data: GameData): (r: Game)
    requires data.slug.Some? && data.titulo.Some? && BindsEveryColumn(data)
    ensures r.slug == data.slug.value && r.titulo == data.titulo.value
    ensures r.precio == if data.precio.Some? then data.precio.value else 0
    ensures r.stock == if data.stock.Some? then data.stock.value else 999
    ensures r.plataforma == if data.plataforma.Some? then data.plataforma.value else "PC"
    ensures r.activo == if data.activo.Some? then data.activo.value else true
    ensures forall k :: k in r.details <==> k.IsDetail()
    ensures forall k :: k in r.details ==> r.details[k] == data.details[k]
    ensures forall c: Column :: Read(r, c) == if IsDefined(data, c) then Given(data, c) else Read(Game("", "", 0, 999, "PC", true, map[]), c)
  {
    Game(data.slug.value, data.titulo.value,
         if data.precio.Some? then data.precio.value else 0,
         if data.stock.Some? then data.stock.value else 999,
         if data.plataforma.Some? then data.plataforma.value else "PC",
         if data.activo.Some? then data.activo.value else true,
         AllowedDetails(data))
  }

  /** The first row of `rows` for `gameId` whose `tipo` is `kind`
      (`rows.find(r => r.tipo === kind) || null`). */
  function FirstOfKind(rows: seq<Requirement>, gameId: int, kind: string): (r: Option<Requirement>)
    ensures r.Some? ==> r.value in rows && r.value.gameId == gameId && r.value.tipo == kind
    ensures r.None? <==> forall q :: q in rows ==> q.gameId != gameId || q.tipo != kind
  {
    if rows == [] then None
    else if rows[0].gameId == gameId && rows[0].tipo == kind then Some(rows[0])
    else
      var rest := FirstOfKind(rows[1..], gameId, kind);
      assert forall q :: q in rows ==> q == rows[0] || q in rows[1..];
      rest
  }

  /** The `findAll` query parameters after the controller has parsed them;
      `None` for `page`/`limit` is NaN, for the others undefined. The price
      bounds are in cents, like the prices they are compared with. */
  datatype GameFilters = GameFilters(page: Option<int>, limit: Option<int>,
                                     plataforma: Option<string>,
                                     precioMin: Option<int>, precioMax: Option<int>,
                                     idGenero: Option<int>, activo: Option<bool>,
                                     sort: string, order: string)

  /** One `WHERE` condition of `findAll`. */
  datatype Condition = ActiveIs(b: bool) | PlatformIs(p: string) | PriceAtLeast(min: int) | PriceAtMost(max: int)

  /** The `whereConditions` list. The destructuring default `activo = true`
      replaces an undefined `activo`, so an active filter is always there;
      `id_genero` is accepted and never turned into a condition. */
  function Conditions(f: GameFilters): (r: seq<Condition>)
    ensures |r| >= 1 && r[0] == ActiveIs(if f.activo.Some? then f.activo.value else true)
    ensures PlatformIs(if f.plataforma.Some? then f.plataforma.value else "") in r <==> f.plataforma.Some? && f.plataforma.value != ""
    ensures f.precioMin.Some? <==> PriceAtLeast(if f.precioMin.Some? then f.precioMin.value else 0) in r
    ensures f.precioMax.Some? <==> PriceAtMost(if f.precioMax.Some? then f.precioMax.value else 0) in r
  {
    var active := [ActiveIs(if f.activo.Some? then f.activo.value else true)];
    var platform := if Filled(f.plataforma) then [PlatformIs(f.plataforma.value)] else [];
    var min := if f.precioMin.Some? then [PriceAtLeast(f.precioMin.value)] else [];
    var max := if f.precioMax.Some? then [PriceAtMost(f.precioMax.value)] else [];
    active + platform + min + max
  }

  /** A row satisfies one condition. */
  predicate Holds(g: Game, c: Condition)
  {
    match c
    case ActiveIs(b) => g.activo == b
    case PlatformIs(p) => g.plataforma == p
    case PriceAtLeast(min) => g.precio >= min
    case PriceAtMost(max) => g.precio <= max
  }

  /** A row satisfies every condition of the `WHERE` clause. */
  predicate Satisfies(g: Game, conds: seq<Condition>)
  {
    forall c :: c in conds ==> Holds(g, c)
  }

  /** A game matches the filters exactly when it has the requested active
      flag (true when none was given), platform and price bounds. */
  lemma SatisfiesConditions(g: Game, f: GameFilters)
    ensures Satisfies(g, Conditions(f)) <==>
      g.activo == (if f.activo.Some? then f.activo.value else true)
      && (Filled(f.plataforma) ==> g.plataforma == f.plataforma.value)
      && (f.precioMin.Some? ==> g.precio >= f.precioMin.value)
      && (f.precioMax.Some? ==> g.precio <= f.precioMax.value)
  {
    var active := [ActiveIs(if f.activo.Some? then f.activo.value else true)];
    var platform := if Filled(f.plataforma) then [PlatformIs(f.plataforma.value)] else [];
    var min := if f.precioMin.Some? then [PriceAtLeast(f.precioMin.value)] else [];
    var max := if f.precioMax.Some? then [PriceAtMost(f.precioMax.value)] else [];
    var conds := Conditions(f);
    assert conds == active + platform + min + max;
    assert active[0] in conds;
    if Filled(f.plataforma) {
      assert platform[0] in conds;
    }
    if f.precioMin.Some? {
      assert min[0] in conds;
    }
    if f.precioMax.Some? {
      assert max[0] in conds;
    }
    forall c | c in conds
      ensures c in active || c in platform || c in min || c in max
    {
    }
  }

  /** Every id names a row that satisfies `conds`. */
  predicate AllSatisfy(rows: seq<Game>, ids: seq<int>, conds: seq<Condition>)
  {
    forall id :: id in ids ==> 1 <= id <= |rows| && Satisfies(rows[id - 1], conds)
  }

  /** The ids (positions + 1) of the rows that satisfy `conds`, in table order. */
  function MatchingIds(rows: seq<Game>, conds: seq<Condition>): (r: seq<int>)
    ensures forall id :: id in r <==> 1 <= id <= |rows| && Satisfies(rows[id - 1], conds)
    ensures |r| <= |rows|
  {
    if rows == [] then []
    else
      var init := rows[..|rows| - 1];
      MatchingIds(init, conds) + (if Satisfies(rows[|rows| - 1], conds) then [|rows|] else [])
  }

  const GameSortColumns: seq<string> := ["fecha_agregado", "titulo", "precio", "calificacion_promedio", "fecha_lanzamiento"]

  /** The `ORDER BY` column of `findAll`. */
  function GameSortColumn(sort: string): (r: string)
    ensures r in GameSortColumns
    ensures r == sort || r == "fecha_agregado"
  {
    AllowListed(sort, GameSortColumns, "fecha_agregado")
  }

  /** The `pagination` object of a page of games. `None` in `page` or
      `limit` is NaN; `None` in `totalPages` is NaN or Infinity. */
  datatype Pagination = Pagination(page: Option<int>, limit: Option<int>, total: nat, totalPages: Option<int>)

  /** One page of `findAll`: the ids of its games, the query shape, and the
      pagination block. */
  datatype GamePage = GamePage(ids: seq<int>, sortColumn: string, sortOrder: SortOrder,
                               conditions: seq<Condition>, pagination: Pagination)

  /** `parseInt(page) || 1` and `parseInt(limit) || 12`. */
  function PageInt(f: GameFilters): int { OrDefault(f.page, 1) }
  function LimitInt(f: GameFilters): int { OrDefault(f.limit, 12) }

  /** `findAll` as written: the page itself is cut with the defaulted
      `pageInt`/`limitInt`, but `pagination` echoes the raw `page` and
      `limit` and divides by the raw `limit`. `None` is a statement MySQL
      rejects (a negative LIMIT or OFFSET). */
  function FindAllAsWritten(rows: seq<Game>, f: GameFilters): (r: Option<GamePage>)
    ensures r.Some? <==> LimitInt(f) > 0 && PageInt(f) >= 1
    ensures r.Some? ==> r.value.pagination.page == f.page && r.value.pagination.limit == f.limit
    ensures r.Some? ==> r.value.pagination.totalPages == JsTotalPages(r.value.pagination.total, f.limit)
    ensures r.Some? ==> r.value.pagination.total == |MatchingIds(rows, Conditions(f))|
    ensures r.Some? ==> r.value.sortColumn == GameSortColumn(f.sort) && r.value.sortOrder == NormalizeOrder(f.order)
    ensures r.Some? && r.value.sortColumn == "fecha_agregado" ==>
      DatePage(r.value.ids, MatchingIds(rows, Conditions(f)), r.value.sortOrder, Offset(PageInt(f), LimitInt(f)), LimitInt(f))
  {
    var pageInt := PageInt(f);
    var limitInt := LimitInt(f);
    var offset := Offset(pageInt, limitInt);
    if limitInt < 0 then None
    else
      OffsetSign(pageInt, limitInt);
      if offset < 0 then None
      else
        var conds := Conditions(f);
        var all := MatchingIds(rows, conds);
        var order := NormalizeOrder(f.order);
        PageByDate(all, order, offset, limitInt);
        Some(GamePage(Page(ByDate(all, order), offset, limitInt), GameSortColumn(f.sort), order, conds,
                      Pagination(f.page, f.limit, |all|, JsTotalPages(|all|, f.limit))))
  }

  /** With `limit=0` the query still returns up to 12 games, but the response
      reports a limit of 0 and a `totalPages` that is not a number. */
  lemma FindAllAsWrittenZeroLimit(rows: seq<Game>, f: GameFilters)
    requires f.limit == Some(0) && PageInt(f) == 1
    ensures FindAllAsWritten(rows, f).Some?
    ensures FindAllAsWritten(rows, f).value.pagination.limit == Some(0)
    ensures FindAllAsWritten(rows, f).value.pagination.totalPages.None?
    ensures |FindAllAsWritten(rows, f).value.ids| == if |MatchingIds(rows, Conditions(f))| < 12 then |MatchingIds(rows, Conditions(f))| else 12
  {
  }

  /** `findAll` with the pagination block computed from the values the query
      used: `page` and `limit` are `pageInt` and `limitInt`, and `totalPages`
      is the least number of such pages that hold every match. */
  function FindAll(rows: seq<Game>, f: GameFilters): (r: Option<GamePage>)
    ensures r.Some? <==> LimitInt(f) > 0 && PageInt(f) >= 1
    ensures r.Some? ==> r.value.pagination.page == Some(PageInt(f)) && r.value.pagination.limit == Some(LimitInt(f))
    ensures r.Some? ==> r.value.pagination.total == |MatchingIds(rows, Conditions(f))|
    ensures r.Some? ==> r.value.pagination.totalPages == Some(CeilDiv(r.value.pagination.total, LimitInt(f)))
    ensures r.Some? ==> |r.value.ids| <= LimitInt(f)
    ensures r.Some? ==> r.value.sortColumn == GameSortColumn(f.sort) && r.value.sortOrder == NormalizeOrder(f.order)
    ensures r.Some? ==> r.value.conditions == Conditions(f)
    ensures r.Some? ==> AllSatisfy(rows, r.value.ids, Conditions(f))
  {
    var pageInt := PageInt(f);
    var limitInt := LimitInt(f);
    var offset := Offset(pageInt, limitInt);
    if limitInt < 0 then None
    else
      OffsetSign(pageInt, limitInt);
      if offset < 0 then None
      else
        var conds := Conditions(f);
        var all := MatchingIds(rows, conds);
        var order := NormalizeOrder(f.order);
        var page := Page(ByDate(all, order), offset, limitInt);
        PageByDate(all, order, offset, limitInt);
        PageByDateWithin(all, order, offset, limitInt);
        Some(GamePage(page, GameSortColumn(f.sort), order, conds,
                      Pagination(Some(pageInt), Some(limitInt), |all|, Some(CeilDiv(|all|, limitInt)))))
  }

  /** Sorted by the date a game was added, a page of `findAll` holds the
      matches in that order: newest first under DESC, the default. */
  lemma FindAllByDate(rows: seq<Game>, f: GameFilters)
    requires FindAll(rows, f).Some? && GameSortColumn(f.sort) == "fecha_agregado"
    ensures DatePage(FindAll(rows, f).value.ids, MatchingIds(rows, Conditions(f)), NormalizeOrder(f.order),
                     Offset(PageInt(f), LimitInt(f)), LimitInt(f))
  {
    var all := MatchingIds(rows, Conditions(f));
    var offset := Offset(PageInt(f), LimitInt(f));
    OffsetSign(PageInt(f), LimitInt(f));
    assert FindAll(rows, f).value.ids == Page(ByDate(all, NormalizeOrder(f.order)), offset, LimitInt(f));
    PageByDate(all, NormalizeOrder(f.order), offset, LimitInt(f));
  }

  /** Every game on a page has the active flag the filters ask for, and
      the active one when they ask for none. */
  lemma FindAllActivity(rows: seq<Game>, f: GameFilters)
    requires FindAll(rows, f).Some?
    ensures forall id :: id in FindAll(rows, f).value.ids ==>
      1 <= id <= |rows| && rows[id - 1].activo == (if f.activo.Some? then f.activo.value else true)
  {
    MatchesActivity(rows, f, FindAll(rows, f).value.ids);
  }

  /** Ids of games that pass the filters name games with the active flag
      the filters ask for. */
  lemma MatchesActivity(rows: seq<Game>, f: GameFilters, ids: seq<int>)
    requires AllSatisfy(rows, ids, Conditions(f))
    ensures forall id :: id in ids ==>
      1 <= id <= |rows| && rows[id - 1].activo == (if f.activo.Some? then f.activo.value else true)
  {
    forall id | id in ids
      ensures 1 <= id <= |rows| && rows[id - 1].activo == (if f.activo.Some? then f.activo.value else true)
    {
      SatisfiesConditions(rows[id - 1], f);
    }
  }

  /** The corrected pagination is consistent: `totalPages` pages of `limit`
      games hold every match and one page fewer would not, and a page past
      the last one is empty. */
  lemma FindAllPagination(rows: seq<Game>, f: GameFilters)
    requires FindAll(rows, f).Some?
    ensures var p := FindAll(rows, f).value.pagination;
      p.totalPages.Some? && p.limit.Some? && p.page.Some?
      && p.totalPages.value * p.limit.value >= p.total
      && (p.totalPages.value > 0 ==> (p.totalPages.value - 1) * p.limit.value < p.total)
      && (p.page.value > p.totalPages.value ==> FindAll(rows, f).value.ids == [])
  {
    var pageInt := PageInt(f);
    var limitInt := LimitInt(f);
    var all := MatchingIds(rows, Conditions(f));
    var pages := CeilDiv(|all|, limitInt);
    assert FindAll(rows, f).value.ids == Page(ByDate(all, NormalizeOrder(f.order)), Offset(pageInt, limitInt), limitInt);
    assert FindAll(rows, f).value.pagination == Pagination(Some(pageInt), Some(limitInt), |all|, Some(pages));
    if pageInt > pages {
      MulMonotone(pageInt - 1, pages, limitInt);
    }
  }

  /** The `videojuegos` and `requisitos` tables. */
  class GameTable {
    var rows: seq<Game>
    var requirements: seq<Requirement>

    constructor ()
      ensures rows == [] && requirements == []
    {
      rows := [];
      requirements := [];
    }

    /** `getRequirements`: the first minimum and the first recommended row
        of the game. */
    function GetRequirements(gameId: int): (r: Requirements)
      reads this
      ensures r.minimos.Some? ==> r.minimos.value in requirements && r.minimos.value.gameId == gameId && r.minimos.value.tipo == "Minimo"
      ensures r.recomendados.Some? ==> r.recomendados.value in requirements && r.recomendados.value.gameId == gameId && r.recomendados.value.tipo == "Recomendado"
      ensures r.minimos.None? <==> forall q :: q in requirements ==> q.gameId != gameId || q.tipo != "Minimo"
      ensures r.recomendados.None? <==> forall q :: q in requirements ==> q.gameId != gameId || q.tipo != "Recomendado"
    {
      Requirements(FirstOfKind(requirements, gameId, "Minimo"), FirstOfKind(requirements, gameId, "Recomendado"))
    }

    /** `findById`: the game with that id and its requirements, or null. */
    function FindById(id: int): (r: Option<GameView>)
      reads this
      ensures r.Some? <==> 1 <= id <= |rows|
      ensures r.Some? ==> r.value.id == id && r.value.game == rows[id - 1]
    {
      if 1 <= id <= |rows| then Some(GameView(id, rows[id - 1], GetRequirements(id))) else None
    }

    /** `findBySlug`: the first game whose slug is `slug`, or null. */
    function FindBySlug(slug: string): (r: Option<GameView>)
      reads this
      ensures r.Some? ==> 1 <= r.value.id <= |rows| && r.value.game == rows[r.value.id - 1] && r.value.game.slug == slug
      ensures r.None? <==> forall i :: 0 <= i < |rows| ==> rows[i].slug != slug
      ensures r.Some? ==> forall i :: 0 <= i < r.value.id - 1 ==> rows[i].slug != slug
    {
      SlugFrom(slug, 0)
    }

    function SlugFrom(slug: string, from: nat): (r: Option<GameView>)
      reads this
      requires from <= |rows|
      ensures r.Some? ==> from < r.value.id <= |rows| && r.value.game == rows[r.value.id - 1] && r.value.game.slug == slug
      ensures r.None? <==> forall i :: from <= i < |rows| ==> rows[i].slug != slug
      ensures r.Some? ==> forall i :: from <= i < r.value.id - 1 ==> rows[i].slug != slug
      decreases |rows| - from
    {
      if from == |rows| then None
      else if rows[from].slug == slug then Some(GameView(from + 1, rows[from], GetRequirements(from + 1)))
      else SlugFrom(slug, from + 1)
    }

    /** `exists`. */
    predicate Exists(id: int)
      reads this
    {
      FindById(id).Some?
    }

    /** `create`: insert the row and return it as `findById` would. A body
        that leaves a pass-through column undefined fails before the
        statement is sent, and nothing is written. */
    method Create(data: GameData) returns (r: Option<GameView>)
      requires data.slug.Some? && data.titulo.Some?
      modifies this
      ensures r.Some? <==> BindsEveryColumn(data)
      ensures r.None? ==> rows == old(rows)
      ensures r.Some? ==> rows == old(rows) + [NewGame(data)] && r.value.id == |rows| && r == FindById(r.value.id)
      ensures requirements == old(requirements)
    {
      if !BindsEveryColumn(data) {
        return None;
      }
      rows := rows + [NewGame(data)];
      r := Some(GameView(|rows|, NewGame(data), GetRequirements(|rows|)));
    }

    /** `update`: collect the allow-listed fields the body defines; with none,
        or with no such game, answer null and change nothing; otherwise write
        them and answer the new row. */
    method Update(id: int, data: GameData) returns (r: Option<GameView>)
      modifies this
      ensures r.None? <==> DefinedFields(AllowedFields, data) == [] || !(1 <= id <= |old(rows)|)
      ensures r.None? ==> rows == old(rows)
      ensures r.Some? ==> rows == old(rows)[id - 1 := Apply(old(rows)[id - 1], data)] && r == FindById(id)
      ensures requirements == old(requirements)
    {
      var fields: seq<Column> := [];
      var i := 0;
      while i < |AllowedFields|
        invariant 0 <= i <= |AllowedFields|
        invariant fields == DefinedFields(AllowedFields[..i], data)
      {
        assert AllowedFields[..i + 1] == AllowedFields[..i] + [AllowedFields[i]];
        if IsDefined(data, AllowedFields[i]) {
          fields := fields + [AllowedFields[i]];
        }
        i := i + 1;
      }
      assert AllowedFields[..i] == AllowedFields;
      if fields == [] {
        return None;
      }
      if !(1 <= id <= |rows|) {
        return None;
      }
      rows := rows[id - 1 := Apply(rows[id - 1], data)];
      r := FindById(id);
    }

    /** `softDelete`: deactivate the game, true iff it exists. */
    method SoftDelete(id: int) returns (deleted: bool)
      modifies this
      ensures deleted <==> 1 <= id <= |old(rows)|
      ensures rows == if deleted then old(rows)[id - 1 := old(rows)[id - 1].(activo := false)] else old(rows)
      ensures requirements == old(requirements)
    {
      deleted := 1 <= id <= |rows|;
      if deleted {
        rows := rows[id - 1 := rows[id - 1].(activo := false)];
      }
    }

    /** `updateStock`: take `quantity` off the stock only when that much is
        left; the stock of a game never goes below zero this way. */
    method UpdateStock(id: int, quantity: int) returns (updated: bool)
      modifies this
      ensures updated <==> 1 <= id <= |old(rows)| && old(rows)[id - 1].stock >= quantity
      ensures rows == if updated then old(rows)[id - 1 := old(rows)[id - 1].(stock := old(rows)[id - 1].stock - quantity)] else old(rows)
      ensures updated ==> rows[id - 1].stock >= 0
      ensures requirements == old(requirements)
    {
      updated := 1 <= id <= |rows| && rows[id - 1].stock >= quantity;
      if updated {
        rows := rows[id - 1 := rows[id - 1].(stock := rows[id - 1].stock - quantity)];
      }
    }
  }
}
