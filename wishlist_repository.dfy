/** The `lista_deseos` table: the games each user wishes for. */
module WishlistRepository {
  import opened Common
  import opened Pairs
  import opened GameRepository
  import opened Holdings

  class WishlistTable {
    var rows: seq<Pair>

    constructor ()
      ensures rows == []
    {
      rows := [];
    }

    /** `getWishlist`: the user's active wished-for games, newest first
        (the listing of the rows in insertion order, read back to front, as
        `Holdings.ActiveItemsInsert` states). */
    function GetWishlist(user: int, games: GameTable): (r: seq<Item>)
      reads this, games
      ensures r == ActiveItems(rows, user, games.rows)
      ensures forall i :: 0 <= i < |r| ==> IsInWishlist(user, r[i].gameId) && Listed(games.rows, r[i].gameId)
      ensures forall g :: IsInWishlist(user, g) && Listed(games.rows, g) ==> ItemOf(g, games.rows[g - 1]) in r
    {
      ActiveItems(rows, user, games.rows)
    }

    /** `isInWishlist`: whether the pair has a row. */
    predicate IsInWishlist(user: int, game: int)
      reads this
    {
      Pair(user, game) in rows
    }

    /** The table holds each (user, game) pair at most once, as its unique
        key demands. */
    predicate Valid()
      reads this
    {
      Unique(rows)
    }

    /** `addItem`: insert the pair; the unique key makes the insert fail
        when the pair is already there. */
    method AddItem(user: int, game: int) returns (ok: bool)
      requires Valid()
      modifies this
      ensures Valid()
      ensures ok <==> !old(IsInWishlist(user, game))
      ensures rows == if ok then old(rows) + [Pair(user, game)] else old(rows)
      ensures IsInWishlist(user, game)
      ensures ok ==> multiset(rows)[Pair(user, game)] == 1
    {
      ok := !IsInWishlist(user, game);
      if ok {
        InsertKeepsUnique(rows, Pair(user, game));
        rows := rows + [Pair(user, game)];
      }
    }

    /** `removeItem`: delete the pair's rows; true iff there were any. */
    method RemoveItem(user: int, game: int) returns (removed: bool)
      requires Valid()
      modifies this
      ensures Valid()
      ensures removed <==> old(IsInWishlist(user, game))
      ensures rows == Without(old(rows), Pair(user, game))
      ensures !IsInWishlist(user, game)
    {
      removed := Pair(user, game) in rows;
      WithoutKeepsUnique(rows, Pair(user, game));
      rows := Without(rows, Pair(user, game));
    }
  }
}
