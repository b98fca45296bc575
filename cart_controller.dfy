/** The cart handlers: `getCart`, `addToCart`, `removeFromCart` and
    `clearCart`. The caller is the authenticated user; route and body ids
    arrive as the text that `parseInt` reads. */
module CartController {
  import opened Common
  import opened JsText
  import opened Pairs
  import opened GameRepository
  import opened Holdings
  import opened LibraryRepository
  import opened CartRepository

  /** The JSON body of a cart answer. */
  datatype CartBody = CartBody(items: seq<Item>, total: int, itemCount: int)

  /** Why `addToCart` refused, in the order the handler checks. */
  datatype AddRefusal = NotNumeric | MissingId | GameMissing | Unavailable | AlreadyOwned | AlreadyInCart
  {
    function Status(): Status
    {
      match this
      case NotNumeric => BadRequest
      case MissingId => BadRequest
      case GameMissing => NotFound
      case Unavailable => BadRequest
      case AlreadyOwned => Conflict
      case AlreadyInCart => Conflict
    }
  }

  /** No cart row holds a game its user already owns: the state that
      `addToCart` keeps and checkout relies on. */
  predicate NothingOwnedInCart(rows: seq<Pair>, entries: seq<Entry>)
  {
    forall p :: p in rows ==> !Owns(entries, p.user, p.game)
  }

  /** The answer body built from a cart view. */
  function BodyOf(view: CartView): (r: CartBody)
    ensures r.items == view.items && r.total == view.total
    ensures r.itemCount == |r.items|
  {
    CartBody(view.items, view.total, |view.items|)
  }

  /** `getCart`: the user's active items, their total, and a count that is
      the length of the listing, never more than the user's rows. */
  function GetCart(cart: CartTable, games: GameTable, user: int): (r: CartBody)
    reads cart, games
    ensures r.items == ActiveItems(cart.rows, user, games.rows) && r.total == Total(r.items)
    ensures r.itemCount == |r.items| <= cart.CountItems(user)
  {
    BodyOf(cart.GetCartByUser(user, games))
  }

  /** The guard chain of `addToCart`: `None` when the insert may go ahead. */
  function AddToCartCheck(games: seq<Game>, entries: seq<Entry>, rows: seq<Pair>, user: int, idJuego: string): (r: Option<AddRefusal>)
    ensures r == Some(NotNumeric) <==> ParseInt(idJuego).None?
    ensures r == Some(MissingId) <==> ParseInt(idJuego) == Some(0)
    ensures ParseInt(idJuego).Some? && ParseInt(idJuego).value != 0 ==>
      var g := ParseInt(idJuego).value;
      (r == Some(GameMissing) <==> !(1 <= g <= |games|))
      && (r == Some(Unavailable) <==> 1 <= g <= |games| && !games[g - 1].activo)
      && (r == Some(AlreadyOwned) <==> Listed(games, g) && Owns(entries, user, g))
      && (r == Some(AlreadyInCart) <==> Listed(games, g) && !Owns(entries, user, g) && Pair(user, g) in rows)
      && (r.None? <==> Listed(games, g) && !Owns(entries, user, g) && Pair(user, g) !in rows)
    ensures r.None? ==> ParseInt(idJuego).Some? && ParseInt(idJuego).value != 0
  {
    match ParseInt(idJuego)
    case None => Some(NotNumeric)
    case Some(g) =>
      if g == 0 then Some(MissingId)
      else if !(1 <= g <= |games|) then Some(GameMissing)
      else if !games[g - 1].activo then Some(Unavailable)
      else if Owns(entries, user, g) then Some(AlreadyOwned)
      else if Pair(user, g) in rows then Some(AlreadyInCart)
      else None
  }

  /** A game both owned and in the cart is refused as owned: ownership is
      checked first. */
  lemma OwnedCheckedBeforeCart(games: seq<Game>, entries: seq<Entry>, rows: seq<Pair>, user: int, idJuego: string)
    requires ParseInt(idJuego).Some? && Listed(games, ParseInt(idJuego).value)
    requires Owns(entries, user, ParseInt(idJuego).value) && Pair(user, ParseInt(idJuego).value) in rows
    ensures AddToCartCheck(games, entries, rows, user, idJuego) == Some(AlreadyOwned)
  {
  }

  /** An inactive game is refused with 400 in the cart. */
  lemma InactiveIsBadRequest(games: seq<Game>, entries: seq<Entry>, rows: seq<Pair>, user: int, idJuego: string)
    requires ParseInt(idJuego).Some? && 1 <= ParseInt(idJuego).value <= |games|
    requires !games[ParseInt(idJuego).value - 1].activo
    ensures AddToCartCheck(games, entries, rows, user, idJuego).value.Status().Code() == 400
  {
  }

  /** `addToCart`. A refusal changes nothing; an accepted game is inserted
      once, shows first in the listing, and the count is the listing's
      length. The cart keeps holding no owned game. */
  method AddToCart(cart: CartTable, games: GameTable, lib: LibraryTable, user: int, idJuego: string)
    returns (status: Status, body: Option<CartBody>)
    requires cart.Valid()
    modifies cart
    ensures cart.Valid()
    ensures var check := AddToCartCheck(games.rows, lib.entries, old(cart.rows), user, idJuego);
      check.Some? ==> status == check.value.Status() && body.None? && cart.rows == old(cart.rows)
    ensures var check := AddToCartCheck(games.rows, lib.entries, old(cart.rows), user, idJuego);
      check.None? ==>
        var g := ParseInt(idJuego).value;
        status == Created
        && cart.rows == old(cart.rows) + [Pair(user, g)]
        && multiset(cart.rows)[Pair(user, g)] == 1
        && body == Some(GetCart(cart, games, user))
        && body.value.items == [ItemOf(g, games.rows[g - 1])] + ActiveItems(old(cart.rows), user, games.rows)
    ensures old(NothingOwnedInCart(cart.rows, lib.entries)) ==> NothingOwnedInCart(cart.rows, lib.entries)
  {
    var check := AddToCartCheck(games.rows, lib.entries, cart.rows, user, idJuego);
    if check.Some? {
      return check.value.Status(), None;
    }
    var g := ParseInt(idJuego).value;
    var ok := cart.AddItem(user, g);
    ActiveItemsInsert(old(cart.rows), user, g, games.rows);
    status, body := Created, Some(GetCart(cart, games, user));
  }

  /** `removeFromCart`: 400 on a non-numeric id, 404 exactly when the pair
      had no row; otherwise the pair is gone and the rest is kept. */
  method RemoveFromCart(cart: CartTable, games: GameTable, user: int, gameId: string)
    returns (status: Status, body: Option<CartBody>)
    requires cart.Valid()
    modifies cart
    ensures cart.Valid()
    ensures ParseInt(gameId).None? ==> status == BadRequest && cart.rows == old(cart.rows)
    ensures ParseInt(gameId).Some? ==>
      var g := ParseInt(gameId).value;
      cart.rows == Without(old(cart.rows), Pair(user, g))
      && (status == NotFound <==> Pair(user, g) !in old(cart.rows))
      && (status == NotFound ==> cart.rows == old(cart.rows) && body.None?)
      && (status != NotFound ==> status == Ok && body == Some(GetCart(cart, games, user)))
    ensures forall q: Pair :: q.user != user ==> multiset(cart.rows)[q] == multiset(old(cart.rows))[q]
  {
    match ParseInt(gameId)
    case None =>
      return BadRequest, None;
    case Some(g) =>
      var removed := cart.RemoveItem(user, g);
      if !removed {
        WithoutAbsent(old(cart.rows), Pair(user, g));
        return NotFound, None;
      }
      status, body := Ok, Some(GetCart(cart, games, user));
  }

  /** `clearCart`: always 200 with an empty listing; the user has no rows
      left, whether their games were active or not, and other users keep
      theirs. */
  method ClearCart(cart: CartTable, user: int) returns (status: Status, body: CartBody)
    requires cart.Valid()
    modifies cart
    ensures cart.Valid()
    ensures status == Ok && body == CartBody([], 0, 0)
    ensures cart.CountItems(user) == 0 && cart.GetGameIds(user) == []
    ensures forall q: Pair :: q.user != user ==> multiset(cart.rows)[q] == multiset(old(cart.rows))[q]
  {
    var deleted := cart.ClearCart(user);
    WithoutUserEmpties(old(cart.rows), user);
    status, body := Ok, CartBody([], 0, 0);
  }
}
