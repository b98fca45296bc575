/** The (user, game) relations behind the cart and the wishlist tables. Rows
    are kept in insertion order, which is also the order of their
    `fecha_agregado` timestamps. */
module Pairs {

  /** One row of `carrito` or `lista_deseos`: who holds which game. */
  datatype Pair = Pair(user: int, game: int)

  /** The rows left by `DELETE ... WHERE id_usuario = ? AND id_juego = ?`. */
  function Without(rows: seq<Pair>, p: Pair): (r: seq<Pair>)
    ensures p !in r
    ensures forall q :: q != p ==> multiset(r)[q] == multiset(rows)[q]
    ensures |r| + multiset(rows)[p] == |rows|
  {
    if rows == [] then []
    else
      var init := rows[..|rows| - 1];
      var last := rows[|rows| - 1];
      assert rows == init + [last];
      if last == p then Without(init, p) else Without(init, p) + [last]
  }

  /** The rows left by `DELETE ... WHERE id_usuario = ?`. */
  function WithoutUser(rows: seq<Pair>, user: int): (r: seq<Pair>)
    ensures forall q :: q in r <==> q in rows && q.user != user
    ensures forall q: Pair :: q.user != user ==> multiset(r)[q] == multiset(rows)[q]
    ensures |r| + CountUser(rows, user) == |rows|
  {
    if rows == [] then []
    else
      var init := rows[..|rows| - 1];
      var last := rows[|rows| - 1];
      assert rows == init + [last];
      if last.user == user then WithoutUser(init, user) else WithoutUser(init, user) + [last]
  }

  /** `SELECT COUNT(*) ... WHERE id_usuario = ?`. */
  function CountUser(rows: seq<Pair>, user: int): nat
  {
    if rows == [] then 0
    else CountUser(rows[..|rows| - 1], user) + (if rows[|rows| - 1].user == user then 1 else 0)
  }

  /** `SELECT id_juego ... WHERE id_usuario = ?`, in row order. */
  function GamesOf(rows: seq<Pair>, user: int): (r: seq<int>)
    ensures |r| == CountUser(rows, user)
    ensures forall g :: g in r <==> Pair(user, g) in rows
  {
    if rows == [] then []
    else
      var init := rows[..|rows| - 1];
      var last := rows[|rows| - 1];
      assert rows == init + [last];
      if last.user == user then GamesOf(init, user) + [last.game] else GamesOf(init, user)
  }

  /** No (user, game) pair appears twice. */
  predicate Unique(rows: seq<Pair>)
  {
    forall i, j :: 0 <= i < j < |rows| ==> rows[i] != rows[j]
  }

  /** Deleting a pair that was just inserted restores the table. */
  lemma {:induction false} WithoutAfterInsert(rows: seq<Pair>, p: Pair)
    requires p !in rows
    ensures Without(rows + [p], p) == rows
  {
    assert (rows + [p])[..|rows + [p]| - 1] == rows;
    WithoutAbsent(rows, p);
  }

  /** Deleting an absent pair changes nothing. */
  lemma {:induction false} WithoutAbsent(rows: seq<Pair>, p: Pair)
    requires p !in rows
    ensures Without(rows, p) == rows
    decreases |rows|
  {
    if rows != [] {
      var init := rows[..|rows| - 1];
      assert rows == init + [rows[|rows| - 1]];
      WithoutAbsent(init, p);
    }
  }

  /** A unique table stays unique when an absent pair is inserted, and then
      holds that pair exactly once. */
  lemma InsertKeepsUnique(rows: seq<Pair>, p: Pair)
    requires Unique(rows) && p !in rows
    ensures Unique(rows + [p])
    ensures multiset(rows + [p])[p] == 1
  {
    assert multiset(rows)[p] == 0;
  }

  /** Deleting rows keeps a unique table unique. */
  lemma {:induction false} WithoutKeepsUnique(rows: seq<Pair>, p: Pair)
    requires Unique(rows)
    ensures Unique(Without(rows, p))
    decreases |rows|
  {
    if rows != [] {
      var init := rows[..|rows| - 1];
      var last := rows[|rows| - 1];
      assert rows == init + [last];
      assert Unique(init);
      WithoutKeepsUnique(init, p);
      if last != p {
        assert multiset(init)[last] == 0;
      }
    }
  }

  lemma {:induction false} WithoutUserKeepsUnique(rows: seq<Pair>, user: int)
    requires Unique(rows)
    ensures Unique(WithoutUser(rows, user))
    decreases |rows|
  {
    if rows != [] {
      var init := rows[..|rows| - 1];
      var last := rows[|rows| - 1];
      assert rows == init + [last];
      assert Unique(init);
      WithoutUserKeepsUnique(init, user);
      if last.user != user {
        assert multiset(init)[last] == 0;
      }
    }
  }

  /** Inserting a pair for one user leaves every other user's game list as
      it was, and appends the game to that user's list. */
  lemma GamesOfInsert(rows: seq<Pair>, p: Pair, user: int)
    ensures GamesOf(rows + [p], user) ==
      if p.user == user then GamesOf(rows, user) + [p.game] else GamesOf(rows, user)
  {
    assert (rows + [p])[..|rows + [p]| - 1] == rows;
  }

  /** After `DELETE ... WHERE id_usuario = ?` the user holds nothing. */
  lemma {:induction false} WithoutUserEmpties(rows: seq<Pair>, user: int)
    ensures GamesOf(WithoutUser(rows, user), user) == []
    ensures CountUser(WithoutUser(rows, user), user) == 0
    decreases |rows|
  {
    if rows != [] {
      var init := rows[..|rows| - 1];
      var last := rows[|rows| - 1];
      assert rows == init + [last];
      WithoutUserEmpties(init, user);
      if last.user != user {
        var r := WithoutUser(init, user) + [last];
        assert r[..|r| - 1] == WithoutUser(init, user);
      }
    }
  }
}
