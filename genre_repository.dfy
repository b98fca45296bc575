/** The `genero_videojuego` table. Genres are deleted outright, so each row
    carries its AUTO_INCREMENT id, and the table keeps the next id to hand
    out. `nombre` is a unique key. */
module GenreRepository {
  import opened Common
  import opened GameRepository

  datatype Genre = Genre(nombre: string, descripcion: Option<string>)

  /** A row with its id. */
  datatype GenreRow = GenreRow(id: int, genre: Genre)

  /** A row as `findAll` and `findById` return it: with the number of active
      games of the genre. */
  datatype GenreSummary = GenreSummary(id: int, genre: Genre, totalJuegos: nat)

  /** The body of `update`; `None` is an absent member. */
  datatype GenrePatch = GenrePatch(nombre: Option<string>, descripcion: Option<string>)

  /** The game is active and belongs to the genre: the `LEFT JOIN ... ON
      g.id_genero = v.id_genero AND v.activo = true` condition. */
  predicate CountsFor(g: Game, id: int)
  {
    g.activo && IdGenero in g.details && g.details[IdGenero] == Number(id)
  }

  /** `COUNT(v.id_juego)` of the join: the active games of the genre. */
  function ActiveGames(games: seq<Game>, id: int): (r: nat)
    ensures r <= |games|
  {
    if games == [] then 0
    else ActiveGames(games[..|games| - 1], id) + (if CountsFor(games[|games| - 1], id) then 1 else 0)
  }

  /** A game that is not active, or of another genre, adds nothing to the
      count when it is appended, and one that counts adds one. */
  lemma ActiveGamesAppend(games: seq<Game>, g: Game, id: int)
    ensures ActiveGames(games + [g], id) == ActiveGames(games, id) + (if CountsFor(g, id) then 1 else 0)
  {
    assert (games + [g])[..|games + [g]| - 1] == games;
  }

  /** Deactivating a game never raises any genre's count. */
  lemma {:induction false} DeactivateLowersCount(games: seq<Game>, k: nat, id: int)
    requires k < |games|
    ensures ActiveGames(games[k := games[k].(activo := false)], id) <= ActiveGames(games, id)
    decreases |games|
  {
    var games' := games[k := games[k].(activo := false)];
    var n := |games|;
    if k < n - 1 {
      assert games'[..n - 1] == games[..n - 1][k := games[k].(activo := false)];
      DeactivateLowersCount(games[..n - 1], k, id);
    } else {
      assert games'[..n - 1] == games[..n - 1];
    }
  }

  /** Code-point order on names: a prefix comes first, otherwise the first
      differing character decides. */
  predicate NameLe(a: string, b: string)
  {
    if a == [] then true
    else if b == [] then false
    else if a[0] != b[0] then a[0] < b[0]
    else NameLe(a[1..], b[1..])
  }

  lemma {:induction false} NameLeTotal(a: string, b: string)
    ensures NameLe(a, b) || NameLe(b, a)
    decreases |a|
  {
    if a != [] && b != [] && a[0] == b[0] {
      NameLeTotal(a[1..], b[1..]);
    }
  }

  /** Neighbouring rows are in name order. */
  predicate ByName(s: seq<GenreSummary>)
  {
    forall i :: 0 <= i < |s| - 1 ==> NameLe(s[i].genre.nombre, s[i + 1].genre.nombre)
  }

  /** Insert `e` into a list in name order. */
  function InsertByName(e: GenreSummary, s: seq<GenreSummary>): (r: seq<GenreSummary>)
    requires ByName(s)
    ensures ByName(r)
    ensures multiset(r) == multiset(s) + multiset{e}
    ensures |r| == |s| + 1
    ensures r[0] == e || (s != [] && r[0] == s[0])
  {
    if s == [] then [e]
    else if NameLe(e.genre.nombre, s[0].genre.nombre) then [e] + s
    else
      var rest := InsertByName(e, s[1..]);
      assert s == [s[0]] + s[1..];
      var r := [s[0]] + rest;
      assert NameLe(s[0].genre.nombre, r[1].genre.nombre) by {
        NameLeTotal(e.genre.nombre, s[0].genre.nombre);
      }
      ConsByName(s[0], rest);
      r
  }

  /** A row in name order before the first row of an ordered list keeps it
      ordered. */
  lemma ConsByName(x: GenreSummary, s: seq<GenreSummary>)
    requires ByName(s) && (s != [] ==> NameLe(x.genre.nombre, s[0].genre.nombre))
    ensures ByName([x] + s)
  {
    var r := [x] + s;
    forall i | 0 <= i < |r| - 1
      ensures NameLe(r[i].genre.nombre, r[i + 1].genre.nombre)
    {
      if i > 0 {
        assert r[i] == s[i - 1] && r[i + 1] == s[i];
      }
    }
  }

  /** `ORDER BY g.nombre ASC`: the same rows, in name order. */
  function SortByName(s: seq<GenreSummary>): (r: seq<GenreSummary>)
    ensures ByName(r)
    ensures multiset(r) == multiset(s)
  {
    if s == [] then []
    else
      assert s == [s[0]] + s[1..];
      InsertByName(s[0], SortByName(s[1..]))
  }

  /** Each row of the table with its count of active games, in table order. */
  function Summaries(rows: seq<GenreRow>, games: seq<Game>): (r: seq<GenreSummary>)
    ensures |r| == |rows|
    ensures forall i :: 0 <= i < |r| ==> r[i] == GenreSummary(rows[i].id, rows[i].genre, ActiveGames(games, rows[i].id))
  {
    if rows == [] then []
    else [GenreSummary(rows[0].id, rows[0].genre, ActiveGames(games, rows[0].id))] + Summaries(rows[1..], games)
  }

  /** No two rows share an id or a name, and every id is below the next id
      to hand out. */
  predicate WellKeyed(rows: seq<GenreRow>, nextId: int)
  {
    nextId >= 1 && (forall i :: 0 <= i < |rows| ==> 1 <= rows[i].id < nextId)
    && forall i, j :: 0 <= i < j < |rows| ==> rows[i].id != rows[j].id && rows[i].genre.nombre != rows[j].genre.nombre
  }

  /** A row other than the one with `id` already holds the name. */
  predicate NameHeldByOther(rows: seq<GenreRow>, id: int, nombre: string)
  {
    exists i :: 0 <= i < |rows| && rows[i].id != id && rows[i].genre.nombre == nombre
  }

  /** The row after `update` wrote the truthy members of the body. */
  function PatchedGenre(g: Genre, p: GenrePatch): (r: Genre)
    ensures r.nombre == if Filled(p.nombre) then p.nombre.value else g.nombre
    ensures r.descripcion == if Filled(p.descripcion) then p.descripcion else g.descripcion
    ensures !Filled(p.nombre) && !Filled(p.descripcion) ==> r == g
  {
    Genre(if Filled(p.nombre) then p.nombre.value else g.nombre,
          if Filled(p.descripcion) then p.descripcion else g.descripcion)
  }

  /** The position of the row with that id. */
  function PositionOf(rows: seq<GenreRow>, id: int): (r: Option<nat>)
    ensures r.Some? ==> r.value < |rows| && rows[r.value].id == id
    ensures r.None? <==> forall i :: 0 <= i < |rows| ==> rows[i].id != id
  {
    if rows == [] then None
    else if rows[0].id == id then Some(0)
    else
      match PositionOf(rows[1..], id)
      case Some(k) => Some(k + 1)
      case None => None
  }

  /** The rows left by `DELETE ... WHERE id_genero = ?`. */
  function WithoutId(rows: seq<GenreRow>, id: int): (r: seq<GenreRow>)
    ensures forall x :: x in r <==> x in rows && x.id != id
    ensures |r| <= |rows|
    ensures (forall i :: 0 <= i < |rows| ==> rows[i].id != id) ==> r == rows
  {
    if rows == [] then []
    else
      assert rows == [rows[0]] + rows[1..];
      (if rows[0].id == id then [] else [rows[0]]) + WithoutId(rows[1..], id)
  }

  /** Removing rows keeps the table well keyed. */
  lemma {:induction false} WithoutIdKeepsKeys(rows: seq<GenreRow>, nextId: int, id: int)
    requires WellKeyed(rows, nextId)
    ensures WellKeyed(WithoutId(rows, id), nextId)
    decreases |rows|
  {
    if rows != [] {
      var tail := rows[1..];
      assert rows == [rows[0]] + tail;
      TailKeyed(rows, nextId);
      WithoutIdKeepsKeys(tail, nextId, id);
      var rest := WithoutId(tail, id);
      if rows[0].id != id {
        assert WithoutId(rows, id) == [rows[0]] + rest;
        forall y | y in rest
          ensures y.id != rows[0].id && y.genre.nombre != rows[0].genre.nombre
        {
          var j :| 0 <= j < |tail| && tail[j] == y;
          assert rows[j + 1] == y;
        }
        ConsKeyed(rows[0], rest, nextId);
      } else {
        assert WithoutId(rows, id) == rest;
      }
    }
  }

  lemma TailKeyed(rows: seq<GenreRow>, nextId: int)
    requires WellKeyed(rows, nextId) && rows != []
    ensures WellKeyed(rows[1..], nextId)
  {
    var tail := rows[1..];
    forall i, j | 0 <= i < j < |tail|
      ensures tail[i].id != tail[j].id && tail[i].genre.nombre != tail[j].genre.nombre
    {
      assert tail[i] == rows[i + 1] && tail[j] == rows[j + 1];
    }
  }

  lemma ConsKeyed(x: GenreRow, rest: seq<GenreRow>, nextId: int)
    requires WellKeyed(rest, nextId) && 1 <= x.id < nextId
    requires forall y :: y in rest ==> y.id != x.id && y.genre.nombre != x.genre.nombre
    ensures WellKeyed([x] + rest, nextId)
  {
    var r := [x] + rest;
    forall i, j | 0 <= i < j < |r|
      ensures r[i].id != r[j].id && r[i].genre.nombre != r[j].genre.nombre
    {
      assert r[j] == rest[j - 1];
      if i > 0 {
        assert r[i] == rest[i - 1];
      }
    }
  }

  lemma AppendKeyed(rows: seq<GenreRow>, x: GenreRow, nextId: int)
    requires WellKeyed(rows, nextId) && x.id == nextId >= 1
    requires forall y :: y in rows ==> y.id != x.id && y.genre.nombre != x.genre.nombre
    ensures WellKeyed(rows + [x], nextId + 1)
  {
    var r := rows + [x];
    forall i, j | 0 <= i < j < |r|
      ensures r[i].id != r[j].id && r[i].genre.nombre != r[j].genre.nombre
    {
      assert r[i] == rows[i];
      if j < |rows| {
        assert r[j] == rows[j];
      }
    }
  }

  class GenreTable {
    var rows: seq<GenreRow>
    var nextId: int

    constructor ()
      ensures rows == [] && nextId == 1
    {
      rows := [];
      nextId := 1;
    }

    predicate Valid()
      reads this
    {
      WellKeyed(rows, nextId)
    }

    /** `findAll`: every genre with its count of active games, in name
        order. */
    function FindAll(games: GameTable): (r: seq<GenreSummary>)
      reads this, games
      ensures ByName(r)
      ensures multiset(r) == multiset(Summaries(rows, games.rows))
      ensures forall x :: x in r ==> x.totalJuegos == ActiveGames(games.rows, x.id)
      ensures |r| == |rows|
    {
      var all := Summaries(rows, games.rows);
      var r := SortByName(all);
      assert forall x :: x in r ==> x in multiset(all);
      assert |r| == |multiset(r)| == |multiset(all)| == |all|;
      r
    }

    /** `findById`: the genre with its count of active games, or null. */
    function FindById(id: int, games: GameTable): (r: Option<GenreSummary>)
      reads this, games
      ensures r.Some? ==> GenreRow(id, r.value.genre) in rows && r.value.id == id
      ensures r.Some? ==> r.value.totalJuegos == ActiveGames(games.rows, id)
      ensures r.None? <==> forall i :: 0 <= i < |rows| ==> rows[i].id != id
    {
      match PositionOf(rows, id)
      case Some(k) => Some(GenreSummary(id, rows[k].genre, ActiveGames(games.rows, id)))
      case None => None
    }

    /** `exists(name)` (and `findByName` returning a row): some genre has
        the name. */
    predicate Exists(nombre: string)
      reads this
    {
      exists i :: 0 <= i < |rows| && rows[i].genre.nombre == nombre
    }

    /** `create`: `descripcion || null`; a name already present violates the
        unique key. */
    method Create(nombre: string, descripcion: Option<string>) returns (r: Sql<int>)
      requires Valid()
      modifies this
      ensures Valid()
      ensures r.DuplicateEntry? <==> old(Exists(nombre))
      ensures r.DuplicateEntry? ==> rows == old(rows) && nextId == old(nextId)
      ensures r.Answer? ==> r.value == old(nextId) && nextId == old(nextId) + 1
                            && rows == old(rows) + [GenreRow(r.value, Genre(nombre, OrNull(descripcion)))]
    {
      if Exists(nombre) {
        return DuplicateEntry;
      }
      var row := GenreRow(nextId, Genre(nombre, OrNull(descripcion)));
      forall y | y in rows
        ensures y.id != row.id && y.genre.nombre != row.genre.nombre
      {
      }
      AppendKeyed(rows, row, nextId);
      rows := rows + [row];
      r := Answer(nextId);
      nextId := nextId + 1;
    }

    /** `update`: null when neither member is truthy or no row has the id;
        a name another genre holds violates the unique key. */
    method Update(id: int, p: GenrePatch) returns (r: Sql<Option<Genre>>)
      requires Valid()
      modifies this
      ensures Valid() && nextId == old(nextId)
      ensures r == Answer(None) <==> (!Filled(p.nombre) && !Filled(p.descripcion)) || PositionOf(old(rows), id).None?
      ensures !r.Answer? || r.value.None? ==> rows == old(rows)
      ensures r.DuplicateEntry? ==> Filled(p.nombre) && exists i :: 0 <= i < |rows| && rows[i].id != id && rows[i].genre.nombre == p.nombre.value
      ensures r.DuplicateEntry? <==>
        Filled(p.nombre) && PositionOf(old(rows), id).Some? && NameHeldByOther(old(rows), id, p.nombre.value)
      ensures r.Answer? && r.value.Some? ==>
        var k := PositionOf(old(rows), id).value;
        r.value.value == PatchedGenre(old(rows)[k].genre, p) && rows == old(rows)[k := GenreRow(id, r.value.value)]
    {
      if !Filled(p.nombre) && !Filled(p.descripcion) {
        return Answer(None);
      }
      var pos := PositionOf(rows, id);
      if pos.None? {
        return Answer(None);
      }
      var k := pos.value;
      var g := PatchedGenre(rows[k].genre, p);
      if exists i :: 0 <= i < |rows| && i != k && rows[i].genre.nombre == g.nombre {
        var i :| 0 <= i < |rows| && i != k && rows[i].genre.nombre == g.nombre;
        assert Filled(p.nombre);
        assert rows[i].id != id;
        return DuplicateEntry;
      }
      rows := rows[k := GenreRow(id, g)];
      r := Answer(Some(g));
    }

    /** `delete`: remove the row; true iff there was one. */
    method Delete(id: int) returns (deleted: bool)
      requires Valid()
      modifies this
      ensures Valid() && nextId == old(nextId)
      ensures deleted <==> old(PositionOf(rows, id)).Some?
      ensures rows == WithoutId(old(rows), id)
      ensures PositionOf(rows, id).None?
    {
      deleted := PositionOf(rows, id).Some?;
      WithoutIdKeepsKeys(rows, nextId, id);
      rows := WithoutId(rows, id);
    }
  }
}
