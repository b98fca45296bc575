/** The view that the cart and the wishlist both serve: the user's rows
    joined with the catalogue, keeping only active games, newest first. */
module Holdings {
  import opened Common
  import opened Pairs
  import opened GameRepository

  /** One listed game: its id and the catalogue columns shown with it. */
  datatype Item = Item(gameId: int, titulo: string, slug: string, precio: int, plataforma: string)

  function ItemOf(gameId: int, g: Game): Item
  {
    Item(gameId, g.titulo, g.slug, g.precio, g.plataforma)
  }

  /** The game behind an id is in the catalogue and active. */
  predicate Listed(games: seq<Game>, gameId: int)
  {
    1 <= gameId <= |games| && games[gameId - 1].activo
  }

  /** An item the listing may hold: a row of the user for an active game,
      shown with that game's catalogue data. */
  predicate Shows(rows: seq<Pair>, user: int, games: seq<Game>, it: Item)
  {
    Pair(user, it.gameId) in rows && Listed(games, it.gameId) && it == ItemOf(it.gameId, games[it.gameId - 1])
  }

  /** `JOIN videojuegos ... WHERE id_usuario = ? AND v.activo = true ORDER BY
      fecha_agregado DESC`: every row of the user whose game is active,
      newest first. */
  function ActiveItems(rows: seq<Pair>, user: int, games: seq<Game>): (r: seq<Item>)
    ensures |r| <= CountUser(rows, user)
    ensures forall i :: 0 <= i < |r| ==> Shows(rows, user, games, r[i])
    ensures forall g :: Pair(user, g) in rows && Listed(games, g) ==> ItemOf(g, games[g - 1]) in r
  {
    if rows == [] then []
    else
      var init := rows[..|rows| - 1];
      var last := rows[|rows| - 1];
      assert rows == init + [last];
      var rest := ActiveItems(init, user, games);
      if last.user == user && Listed(games, last.game) then [ItemOf(last.game, games[last.game - 1])] + rest
      else rest
  }

  /** The prices of the listed games. */
  function Prices(items: seq<Item>): (r: seq<int>)
    ensures |r| == |items| && forall i :: 0 <= i < |items| ==> r[i] == items[i].precio
  {
    if items == [] then [] else [items[0].precio] + Prices(items[1..])
  }

  /** `rows.reduce((sum, item) => sum + item.precio, 0)`, in cents. */
  function Total(items: seq<Item>): int
  {
    Sum(Prices(items))
  }

  /** Every game in the catalogue has a price of at least zero. */
  predicate PricesNonNegative(games: seq<Game>)
  {
    forall i :: 0 <= i < |games| ==> games[i].precio >= 0
  }

  /** A listing of a catalogue without negative prices has a total of at
      least zero. */
  lemma TotalNonNegative(rows: seq<Pair>, user: int, games: seq<Game>)
    requires PricesNonNegative(games)
    ensures Total(ActiveItems(rows, user, games)) >= 0
  {
    var items := ActiveItems(rows, user, games);
    SumNonNegative(Prices(items));
  }

  /** The listing after an insert of an active game is the new item
      followed by the old listing. */
  lemma ActiveItemsInsert(rows: seq<Pair>, user: int, g: int, games: seq<Game>)
    requires Listed(games, g)
    ensures ActiveItems(rows + [Pair(user, g)], user, games) == [ItemOf(g, games[g - 1])] + ActiveItems(rows, user, games)
  {
    var rows' := rows + [Pair(user, g)];
    assert rows'[..|rows'| - 1] == rows;
  }

  /** Putting one item in front adds its price to the total. */
  lemma TotalCons(item: Item, items: seq<Item>)
    ensures Total([item] + items) == item.precio + Total(items)
  {
    assert Prices([item] + items) == [item.precio] + Prices(items);
    SumAppend([item.precio], Prices(items));
    assert [item.precio][..0] == [];
  }

  /** Rows of other users never show up in a user's listing. */
  lemma {:induction false} ActiveItemsOtherUser(rows: seq<Pair>, p: Pair, user: int, games: seq<Game>)
    requires p.user != user
    ensures ActiveItems(rows + [p], user, games) == ActiveItems(rows, user, games)
  {
    assert (rows + [p])[..|rows + [p]| - 1] == rows;
  }
}
