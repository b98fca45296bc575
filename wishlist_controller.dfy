/** The wishlist handlers: `getWishlist`, `addToWishlist` and
    `removeFromWishlist`. They change the wishlist table only, so no
    wishlist request can touch a cart row. */
module WishlistController {
  import opened Common
  import opened JsText
  import opened Pairs
  import opened GameRepository
  import opened Holdings
  import opened LibraryRepository
  import opened WishlistRepository

  /** The JSON body of a wishlist answer. */
  datatype WishlistBody = WishlistBody(items: seq<Item>, count: int)

  /** Why `addToWishlist` refused, in the order the handler checks. */
  datatype WishRefusal = NotNumeric | GameUnavailable | AlreadyOwned | AlreadyWished
  {
    function Status(): Status
    {
      match this
      case NotNumeric => BadRequest
      case GameUnavailable => NotFound
      case AlreadyOwned => Conflict
      case AlreadyWished => Conflict
    }
  }

  /** `getWishlist`: the active wished-for games, newest first, and their
      count. */
  function GetWishlist(wish: WishlistTable, games: GameTable, user: int): (r: WishlistBody)
    reads wish, games
    ensures r.count == |r.items|
    ensures r.items == ActiveItems(wish.rows, user, games.rows)
    ensures forall i :: 0 <= i < |r.items| ==> wish.IsInWishlist(user, r.items[i].gameId) && Listed(games.rows, r.items[i].gameId)
    ensures forall g :: wish.IsInWishlist(user, g) && Listed(games.rows, g) ==> ItemOf(g, games.rows[g - 1]) in r.items
  {
    var items := wish.GetWishlist(user, games);
    WishlistBody(items, |items|)
  }

  /** The guard chain of `addToWishlist`: `None` when the insert may go
      ahead. A missing and an inactive game are both 404 here. */
  function AddToWishlistCheck(games: seq<Game>, entries: seq<Entry>, rows: seq<Pair>, user: int, idJuego: string): (r: Option<WishRefusal>)
    ensures r == Some(NotNumeric) <==> ParseInt(idJuego).None?
    ensures ParseInt(idJuego).Some? ==>
      var g := ParseInt(idJuego).value;
      (r == Some(GameUnavailable) <==> !Listed(games, g))
      && (r == Some(AlreadyOwned) <==> Listed(games, g) && Owns(entries, user, g))
      && (r == Some(AlreadyWished) <==> Listed(games, g) && !Owns(entries, user, g) && Pair(user, g) in rows)
      && (r.None? <==> Listed(games, g) && !Owns(entries, user, g) && Pair(user, g) !in rows)
  {
    match ParseInt(idJuego)
    case None => Some(NotNumeric)
    case Some(g) =>
      if !Listed(games, g) then Some(GameUnavailable)
      else if Owns(entries, user, g) then Some(AlreadyOwned)
      else if Pair(user, g) in rows then Some(AlreadyWished)
      else None
  }

  /** `addToWishlist`. A refusal changes nothing; an accepted game is
      inserted once and heads the listing returned, in front of the
      listing as it was before. */
  method AddToWishlist(wish: WishlistTable, games: GameTable, lib: LibraryTable, user: int, idJuego: string)
    returns (status: Status, body: Option<WishlistBody>)
    requires wish.Valid()
    modifies wish
    ensures wish.Valid()
    ensures var check := AddToWishlistCheck(games.rows, lib.entries, old(wish.rows), user, idJuego);
      check.Some? ==> status == check.value.Status() && body.None? && wish.rows == old(wish.rows)
    ensures var check := AddToWishlistCheck(games.rows, lib.entries, old(wish.rows), user, idJuego);
      check.None? ==>
        var g := ParseInt(idJuego).value;
        status == Created
        && wish.rows == old(wish.rows) + [Pair(user, g)]
        && multiset(wish.rows)[Pair(user, g)] == 1
        && body == Some(GetWishlist(wish, games, user))
        && body.value.items == [ItemOf(g, games.rows[g - 1])] + ActiveItems(old(wish.rows), user, games.rows)
  {
    var check := AddToWishlistCheck(games.rows, lib.entries, wish.rows, user, idJuego);
    if check.Some? {
      return check.value.Status(), None;
    }
    var g := ParseInt(idJuego).value;
    ghost var before := wish.rows;
    var ok := wish.AddItem(user, g);
    assert ok && wish.rows == before + [Pair(user, g)];
    ActiveItemsInsert(before, user, g, games.rows);
    var listing := GetWishlist(wish, games, user);
    assert listing.items == [ItemOf(g, games.rows[g - 1])] + ActiveItems(before, user, games.rows);
    status, body := Created, Some(listing);
  }

  /** `removeFromWishlist`: 400 on a non-numeric id, 404 exactly when the
      pair had no row; otherwise the pair is gone and the rest is kept. */
  method RemoveFromWishlist(wish: WishlistTable, games: GameTable, user: int, gameId: string)
    returns (status: Status, body: Option<WishlistBody>)
    requires wish.Valid()
    modifies wish
    ensures wish.Valid()
    ensures ParseInt(gameId).None? ==> status == BadRequest && wish.rows == old(wish.rows)
    ensures ParseInt(gameId).Some? ==>
      var g := ParseInt(gameId).value;
      wish.rows == Without(old(wish.rows), Pair(user, g))
      && (status == NotFound <==> Pair(user, g) !in old(wish.rows))
      && (status == NotFound ==> wish.rows == old(wish.rows) && body.None?)
      && (status != NotFound ==> status == Ok && body == Some(GetWishlist(wish, games, user)))
  {
    match ParseInt(gameId)
    case None =>
      return BadRequest, None;
    case Some(g) =>
      var removed := wish.RemoveItem(user, g);
      if !removed {
        WithoutAbsent(old(wish.rows), Pair(user, g));
        return NotFound, None;
      }
      status, body := Ok, Some(GetWishlist(wish, games, user));
  }
}
