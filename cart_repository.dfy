/** The `carrito` table: which games each user has put in the cart. */
module CartRepository {
  import opened Common
  import opened Pairs
  import opened GameRepository
  import opened Holdings

  /** What `getCartByUser` returns: the active items and their total. */
  datatype CartView = CartView(items: seq<Item>, total: int)

  class CartTable {
    var rows: seq<Pair>

    constructor ()
      ensures rows == []
    {
      rows := [];
    }

    /** `getCartByUser`: the user's active items, newest first, with the sum
        of their prices. */
    function GetCartByUser(user: int, games: GameTable): (r: CartView)
      reads this, games
      ensures r.items == ActiveItems(rows, user, games.rows)
      ensures r.total == Total(r.items)
      ensures |r.items| <= CountItems(user)
    {
      var items := ActiveItems(rows, user, games.rows);
      CartView(items, Total(items))
    }

    /** `isInCart`: whether the pair has a row, active game or not. */
    predicate IsInCart(user: int, game: int)
      reads this
    {
      Pair(user, game) in rows
    }

    /** `getGameIds`: the games of every row of the user. */
    function GetGameIds(user: int): (r: seq<int>)
      reads this
      ensures |r| == CountItems(user)
      ensures forall g :: g in r <==> IsInCart(user, g)
    {
      GamesOf(rows, user)
    }

    /** `countItems`: the number of rows of the user, active game or not. */
    function CountItems(user: int): nat
      reads this
    {
      CountUser(rows, user)
    }

    /** The table holds each (user, game) pair at most once, as its unique
        key demands. */
    predicate Valid()
      reads this
    {
      Unique(rows)
    }

    /** `addItem`: insert the pair; the unique key makes the insert fail
        when the pair is already there. */
    method AddItem(user: int, game: int) returns (ok: bool)
      requires Valid()
      modifies this
      ensures Valid()
      ensures ok <==> !old(IsInCart(user, game))
      ensures rows == if ok then old(rows) + [Pair(user, game)] else old(rows)
      ensures IsInCart(user, game)
      ensures ok ==> multiset(rows)[Pair(user, game)] == 1
    {
      ok := !IsInCart(user, game);
      if ok {
        InsertKeepsUnique(rows, Pair(user, game));
        rows := rows + [Pair(user, game)];
      }
    }

    /** `removeItem`: delete the pair's rows; true iff there were any. */
    method RemoveItem(user: int, game: int) returns (removed: bool)
      requires Valid()
      modifies this
      ensures Valid()
      ensures removed <==> old(IsInCart(user, game))
      ensures rows == Without(old(rows), Pair(user, game))
      ensures !IsInCart(user, game)
    {
      removed := Pair(user, game) in rows;
      WithoutKeepsUnique(rows, Pair(user, game));
      rows := Without(rows, Pair(user, game));
    }

    /** `clearCart`: delete every row of the user and answer how many. */
    method ClearCart(user: int) returns (deleted: nat)
      requires Valid()
      modifies this
      ensures Valid()
      ensures deleted == old(CountItems(user))
      ensures rows == WithoutUser(old(rows), user)
      ensures CountItems(user) == 0
    {
      deleted := CountUser(rows, user);
      WithoutUserKeepsUnique(rows, user);
      rows := WithoutUser(rows, user);
      WithoutUserEmpties(old(rows), user);
    }
  }

  /** An item whose game is inactive still counts in `countItems` but is
      missing from `getCartByUser`, so the count can exceed the listing. */
  lemma {:induction false} CountCoversListing(rows: seq<Pair>, user: int, games: seq<Game>, g: int)
    requires Pair(user, g) in rows && !Listed(games, g)
    ensures |ActiveItems(rows, user, games)| < CountUser(rows, user)
    decreases |rows|
  {
    var init := rows[..|rows| - 1];
    var last := rows[|rows| - 1];
    assert rows == init + [last];
    if last == Pair(user, g) {
      assert |ActiveItems(init, user, games)| <= CountUser(init, user);
    } else {
      assert Pair(user, g) in init;
      CountCoversListing(init, user, games, g);
    }
  }
}
