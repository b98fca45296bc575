/** The browser-side cart and wishlist stores (`useCartStore` and
    `useWishlistStore`). Each holds the list of games the page shows; the
    games are objects as the API sent them, where `id_juego` or `id` may be
    missing. */
module WebStore {
  import opened Common

  /** A game object as the page holds it; `None` is a missing property. */
  datatype ClientGame = ClientGame(idJuego: Option<int>, id: Option<int>, precio: Option<int>)

  /** `item.id_juego || item.id`: the id `removeItem` compares. */
  function Key(g: ClientGame): (r: Option<int>)
    ensures g.idJuego.Some? && g.idJuego.value != 0 ==> r == g.idJuego
    ensures !(g.idJuego.Some? && g.idJuego.value != 0) ==> r == g.id
  {
    if g.idJuego.Some? && g.idJuego.value != 0 then g.idJuego else g.id
  }

  // ---------------------------------------------------------------------
  // addItem

  /** The duplicate test of `addItem` as written: `===` holds between two
      missing properties, so two objects that both lack `id` count as the
      same game whatever their `id_juego`. */
  predicate SameGameAsWritten(a: ClientGame, b: ClientGame)
  {
    a.idJuego == b.idJuego || a.id == b.id
  }

  /** `addItem` as written. */
  function AddedAsWritten(items: seq<ClientGame>, game: ClientGame): (r: seq<ClientGame>)
    ensures r == items <==> exists i :: 0 <= i < |items| && SameGameAsWritten(items[i], game)
    ensures r != items ==> r == items + [game]
  {
    if exists i :: 0 <= i < |items| && SameGameAsWritten(items[i], game) then items else items + [game]
  }

  /** Cart rows from the API carry `id_juego` and no `id`. Once one such
      game is in the list, `addItem` as written refuses every other one. */
  lemma AsWrittenRefusesSecondGame()
    ensures var items := [ClientGame(Some(1), None, Some(10))];
      var game := ClientGame(Some(2), None, Some(20));
      AddedAsWritten(items, game) == items
      && Added(items, game) == items + [game]
  {
    var items := [ClientGame(Some(1), None, Some(10))];
    var game := ClientGame(Some(2), None, Some(20));
    assert SameGameAsWritten(items[0], game);
    assert !SameGame(items[0], game);
  }

  /** The duplicate test `addItem` is meant to make: the same `id_juego`,
      or the same `id`, where that property is present. */
  predicate SameGame(a: ClientGame, b: ClientGame)
  {
    (a.idJuego.Some? && a.idJuego == b.idJuego) || (a.id.Some? && a.id == b.id)
  }

  /** `addItem` with the corrected test: the game is appended unless some
      item is the same game. */
  function Added(items: seq<ClientGame>, game: ClientGame): (r: seq<ClientGame>)
    ensures r == items <==> exists i :: 0 <= i < |items| && SameGame(items[i], game)
    ensures r != items ==> r == items + [game]
    ensures Distinct(items) ==> Distinct(r)
  {
    if exists i :: 0 <= i < |items| && SameGame(items[i], game) then items else items + [game]
  }

  /** No two items are the same game. */
  predicate Distinct(items: seq<ClientGame>)
  {
    forall i, j :: 0 <= i < j < |items| ==> !SameGame(items[i], items[j])
  }

  /** Adding a game twice adds it once. */
  lemma AddedIdempotent(items: seq<ClientGame>, game: ClientGame)
    requires game.idJuego.Some? || game.id.Some?
    ensures Added(Added(items, game), game) == Added(items, game)
  {
    var once := Added(items, game);
    if once != items {
      assert SameGame(once[|items|], game);
    }
  }

  // ---------------------------------------------------------------------
  // removeItem

  /** `items.filter(item => (item.id_juego || item.id) !== gameId)`. */
  function Removed(items: seq<ClientGame>, gameId: int): (r: seq<ClientGame>)
    ensures forall x :: x in r <==> x in items && Key(x) != Some(gameId)
    ensures |r| <= |items|
  {
    if items == [] then []
    else
      assert items == [items[0]] + items[1..];
      (if Key(items[0]) == Some(gameId) then [] else [items[0]]) + Removed(items[1..], gameId)
  }

  /** Filtering distributes over concatenation. */
  lemma {:induction false} RemovedAppend(a: seq<ClientGame>, b: seq<ClientGame>, gameId: int)
    ensures Removed(a + b, gameId) == Removed(a, gameId) + Removed(b, gameId)
    decreases |a|
  {
    if a == [] {
      assert a + b == b;
    } else {
      assert (a + b)[1..] == a[1..] + b;
      RemovedAppend(a[1..], b, gameId);
    }
  }

  /** A filter that drops nothing leaves the list as it was. */
  lemma {:induction false} RemovedNothing(items: seq<ClientGame>, gameId: int)
    requires forall x :: x in items ==> Key(x) != Some(gameId)
    ensures Removed(items, gameId) == items
    decreases |items|
  {
    if items != [] {
      assert items[0] in items;
      assert forall x :: x in items[1..] ==> x in items;
      RemovedNothing(items[1..], gameId);
    }
  }

  /** The filter keeps the order of what it keeps, so no two kept items are
      the same game either. */
  lemma {:induction false} RemovedKeepsDistinct(items: seq<ClientGame>, gameId: int)
    requires Distinct(items)
    ensures Distinct(Removed(items, gameId))
    decreases |items|
  {
    if items != [] {
      var tail := items[1..];
      assert Distinct(tail) by {
        forall i, j | 0 <= i < j < |tail|
          ensures !SameGame(tail[i], tail[j])
        {
          assert tail[i] == items[i + 1] && tail[j] == items[j + 1];
        }
      }
      RemovedKeepsDistinct(tail, gameId);
      var rest := Removed(tail, gameId);
      if Key(items[0]) != Some(gameId) {
        var r := [items[0]] + rest;
        forall i, j | 0 <= i < j < |r|
          ensures !SameGame(r[i], r[j])
        {
          if i > 0 {
            assert r[i] == rest[i - 1] && r[j] == rest[j - 1];
          } else {
            assert r[j] == rest[j - 1] && rest[j - 1] in tail;
            var k :| 0 <= k < |tail| && tail[k] == r[j];
            assert items[k + 1] == r[j];
          }
        }
      }
    }
  }

  /** Removing a game just added, from a list without it, gives the list
      back. */
  lemma RemoveUndoesAdd(items: seq<ClientGame>, game: ClientGame, gameId: int)
    requires Key(game) == Some(gameId)
    requires forall x :: x in items ==> Key(x) != Some(gameId)
    ensures Removed(Added(items, game), gameId) == items
  {
    RemovedNothing(items, gameId);
    if Added(items, game) != items {
      RemovedAppend(items, [game], gameId);
      assert Removed([game], gameId) == [];
    }
  }

  // ---------------------------------------------------------------------
  // getTotalPrice

  /** `parseFloat(item.precio || 0)`; prices are whole numbers here. */
  function Price(g: ClientGame): (r: int)
    ensures g.precio.None? ==> r == 0
    ensures g.precio.Some? ==> r == g.precio.value
  {
    if g.precio.Some? then g.precio.value else 0
  }

  /** The prices of the items, in order. */
  function Prices(items: seq<ClientGame>): (r: seq<int>)
    ensures |r| == |items| && forall i :: 0 <= i < |items| ==> r[i] == Price(items[i])
  {
    seq(|items|, i requires 0 <= i < |items| => Price(items[i]))
  }

  /** `items.reduce((total, item) => total + price(item), acc)`. */
  function SumFrom(items: seq<ClientGame>, acc: int): (r: int)
    decreases |items|
  {
    if items == [] then acc else SumFrom(items[1..], acc + Price(items[0]))
  }

  /** The left fold adds up the prices. */
  lemma {:induction false} SumFromIsSum(items: seq<ClientGame>, acc: int)
    ensures SumFrom(items, acc) == acc + Sum(Prices(items))
    decreases |items|
  {
    if items != [] {
      SumFromIsSum(items[1..], acc + Price(items[0]));
      assert Prices(items) == [Price(items[0])] + Prices(items[1..]);
      SumAppend([Price(items[0])], Prices(items[1..]));
      assert Sum([Price(items[0])]) == Price(items[0]) by {
        assert [Price(items[0])][..0] == [];
      }
    }
  }

  /** Adding a game adds its price to the total, once. */
  lemma TotalAfterAdd(items: seq<ClientGame>, game: ClientGame)
    ensures SumFrom(Added(items, game), 0) ==
      SumFrom(items, 0) + (if exists i :: 0 <= i < |items| && SameGame(items[i], game) then 0 else Price(game))
  {
    SumFromIsSum(items, 0);
    SumFromIsSum(Added(items, game), 0);
    if Added(items, game) != items {
      assert Prices(items + [game]) == Prices(items) + [Price(game)];
      SumAppend(Prices(items), [Price(game)]);
      assert Sum([Price(game)]) == Price(game) by {
        assert [Price(game)][..0] == [];
      }
    }
  }

  // ---------------------------------------------------------------------
  // The stores

  /** `useCartStore`. */
  class CartStore {
    var items: seq<ClientGame>

    constructor ()
      ensures items == []
    {
      items := [];
    }

    /** `addItem`. */
    method AddItem(game: ClientGame)
      modifies this
      ensures items == Added(old(items), game)
      ensures Distinct(old(items)) ==> Distinct(items)
    {
      items := Added(items, game);
    }

    /** `removeItem`. */
    method RemoveItem(gameId: int)
      modifies this
      ensures items == Removed(old(items), gameId)
      ensures forall x :: x in items ==> Key(x) != Some(gameId)
      ensures Distinct(old(items)) ==> Distinct(items)
    {
      if Distinct(items) {
        RemovedKeepsDistinct(items, gameId);
      }
      items := Removed(items, gameId);
    }

    /** `clearCart`. */
    method ClearCart()
      modifies this
      ensures items == [] && GetTotalPrice() == 0
    {
      items := [];
    }

    /** `getTotalPrice`: the sum of the item prices, a missing price
        counting as 0. */
    function GetTotalPrice(): (r: int)
      reads this
      ensures r == Sum(Prices(items))
    {
      SumFromIsSum(items, 0);
      SumFrom(items, 0)
    }
  }

  /** `useWishlistStore`: the same `addItem` and `removeItem`, and no
      total. */
  class WishlistStore {
    var items: seq<ClientGame>

    constructor ()
      ensures items == []
    {
      items := [];
    }

    /** `addItem`. */
    method AddItem(game: ClientGame)
      modifies this
      ensures items == Added(old(items), game)
      ensures Distinct(old(items)) ==> Distinct(items)
    {
      items := Added(items, game);
    }

    /** `removeItem`. */
    method RemoveItem(gameId: int)
      modifies this
      ensures items == Removed(old(items), gameId)
      ensures forall x :: x in items ==> Key(x) != Some(gameId)
      ensures Distinct(old(items)) ==> Distinct(items)
    {
      if Distinct(items) {
        RemovedKeepsDistinct(items, gameId);
      }
      items := Removed(items, gameId);
    }
  }
}
