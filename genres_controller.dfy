/** The genre handlers: `getAllGenres`, `getGenreById`, `createGenre`,
    `updateGenre` and `deleteGenre`. Route ids arrive as text. */
module GenresController {
  import opened Common
  import opened JsText
  import opened GameRepository
  import opened GenreRepository

  /** `getAllGenres`: every genre with its count of active games, in name
      order. */
  function GetAllGenres(t: GenreTable, games: GameTable): (r: seq<GenreSummary>)
    reads t, games
    ensures ByName(r) && |r| == |t.rows|
    ensures forall x :: x in r ==> x.totalJuegos == ActiveGames(games.rows, x.id)
    ensures forall i :: 0 <= i < |t.rows| ==>
      GenreSummary(t.rows[i].id, t.rows[i].genre, ActiveGames(games.rows, t.rows[i].id)) in r
  {
    var r := t.FindAll(games);
    forall i | 0 <= i < |t.rows|
      ensures GenreSummary(t.rows[i].id, t.rows[i].genre, ActiveGames(games.rows, t.rows[i].id)) in r
    {
      var all := Summaries(t.rows, games.rows);
      assert all[i] in multiset(all);
    }
    r
  }

  /** `getGenreById`: 400 on a non-numeric id, 404 when no genre has it. */
  function GetGenreById(t: GenreTable, games: GameTable, id: string): (r: Result<GenreSummary, Status>)
    reads t, games
    ensures r == Failure(BadRequest) <==> ParseInt(id).None?
    ensures r == Failure(NotFound) <==>
      ParseInt(id).Some? && forall i :: 0 <= i < |t.rows| ==> t.rows[i].id != ParseInt(id).value
    ensures r.Success? ==>
      r.value.id == ParseInt(id).value && GenreRow(r.value.id, r.value.genre) in t.rows
      && r.value.totalJuegos == ActiveGames(games.rows, r.value.id)
  {
    match ParseInt(id)
    case None => Failure(BadRequest)
    case Some(n) =>
      match t.FindById(n, games)
      case None => Failure(NotFound)
      case Some(g) => Success(g)
  }

  /** Why a genre handler refused. A name already in use is reported as
      404, not 409. */
  datatype GenreRefusal = MissingName | NameInUse | BadId
  {
    function Status(): Status
    {
      match this
      case MissingName => BadRequest
      case NameInUse => NotFound
      case BadId => BadRequest
    }
  }

  /** The guard chain of `createGenre`. */
  function CreateGenreCheck(t: GenreTable, nombre: Option<string>): (r: Option<GenreRefusal>)
    reads t
    ensures r == Some(MissingName) <==> !Filled(nombre)
    ensures r == Some(NameInUse) <==> Filled(nombre) && t.Exists(nombre.value)
    ensures r.None? <==> Filled(nombre) && !t.Exists(nombre.value)
  {
    if !Filled(nombre) then Some(MissingName)
    else if t.Exists(nombre.value) then Some(NameInUse)
    else None
  }

  /** `createGenre`: a refusal changes nothing; otherwise one row with the
      next id and `descripcion || null` is added, and the answer is that
      genre as `findById` reads it back. The unique name key cannot fail,
      since the name was looked up first. */
  method CreateGenre(t: GenreTable, games: GameTable, nombre: Option<string>, descripcion: Option<string>)
    returns (status: Status, genre: Option<GenreSummary>)
    requires t.Valid()
    modifies t
    ensures t.Valid()
    ensures var check := old(CreateGenreCheck(t, nombre));
      check.Some? ==> status == check.value.Status() && genre.None? && t.rows == old(t.rows) && t.nextId == old(t.nextId)
    ensures var check := old(CreateGenreCheck(t, nombre));
      check.None? ==>
        status == Created
        && t.rows == old(t.rows) + [GenreRow(old(t.nextId), Genre(nombre.value, OrNull(descripcion)))]
        && genre == Some(GenreSummary(old(t.nextId), Genre(nombre.value, OrNull(descripcion)), ActiveGames(games.rows, old(t.nextId))))
  {
    var check := CreateGenreCheck(t, nombre);
    if check.Some? {
      return check.value.Status(), None;
    }
    var r := t.Create(nombre.value, descripcion);
    if r.DuplicateEntry? {
      assert false;
      return ServerError, None;
    }
    assert PositionOf(t.rows, r.value).Some? by {
      assert t.rows[|t.rows| - 1].id == r.value;
    }
    genre := t.FindById(r.value, games);
    status := Created;
  }

  /** `updateGenre`: 400 on a non-numeric id; 404 whenever the repository
      answers null, that is also when neither member is truthy; a name
      another genre holds reaches the unique key and gives 500. Otherwise
      the row is rewritten and read back. */
  method UpdateGenre(t: GenreTable, games: GameTable, id: string, p: GenrePatch)
    returns (status: Status, genre: Option<GenreSummary>)
    requires t.Valid()
    modifies t
    ensures t.Valid() && t.nextId == old(t.nextId)
    ensures ParseInt(id).None? ==> status == BadRequest && genre.None? && t.rows == old(t.rows)
    ensures status == BadRequest <==> ParseInt(id).None?
    ensures status == ServerError <==>
      ParseInt(id).Some? && Filled(p.nombre) && PositionOf(old(t.rows), ParseInt(id).value).Some?
      && NameHeldByOther(old(t.rows), ParseInt(id).value, p.nombre.value)
    ensures ParseInt(id).Some? ==>
      var n := ParseInt(id).value;
      (status == NotFound <==> (!Filled(p.nombre) && !Filled(p.descripcion)) || PositionOf(old(t.rows), n).None?)
      && (status == ServerError ==>
            Filled(p.nombre) && exists i :: 0 <= i < |t.rows| && t.rows[i].id != n && t.rows[i].genre.nombre == p.nombre.value)
      && (status != Ok ==> genre.None? && t.rows == old(t.rows))
      && (status == Ok ==>
            var k := PositionOf(old(t.rows), n).value;
            t.rows == old(t.rows)[k := GenreRow(n, PatchedGenre(old(t.rows)[k].genre, p))]
            && genre == t.FindById(n, games))
    ensures status == Ok || status == BadRequest || status == NotFound || status == ServerError
  {
    if ParseInt(id).None? {
      return BadRequest, None;
    }
    var n := ParseInt(id).value;
    var r := t.Update(n, p);
    match r
    case DuplicateEntry =>
      return ServerError, None;
    case Answer(updated) =>
      if updated.None? {
        return NotFound, None;
      }
      status, genre := Ok, t.FindById(n, games);
  }

  /** `deleteGenre`: 400 on a non-numeric id, 404 when no row had the id;
      otherwise that row is gone and the others stay. */
  method DeleteGenre(t: GenreTable, id: string) returns (status: Status)
    requires t.Valid()
    modifies t
    ensures t.Valid() && t.nextId == old(t.nextId)
    ensures ParseInt(id).None? ==> status == BadRequest && t.rows == old(t.rows)
    ensures ParseInt(id).Some? ==>
      var n := ParseInt(id).value;
      t.rows == WithoutId(old(t.rows), n)
      && (status == NotFound <==> PositionOf(old(t.rows), n).None?)
      && (status != NotFound ==> status == Ok)
      && (status == NotFound ==> t.rows == old(t.rows))
  {
    if ParseInt(id).None? {
      return BadRequest;
    }
    var deleted := t.Delete(ParseInt(id).value);
    status := if deleted then Ok else NotFound;
  }
}
