/** The purchase handlers: checkout (`createPurchase`), which is the one
    request that changes several tables, and the permission rule of
    `getPurchaseById`. */
module PurchasesController {
  import opened Common
  import opened JsText
  import opened Pairs
  import opened GameRepository
  import opened Holdings
  import opened LibraryRepository
  import opened CartRepository
  import opened PurchaseRepository
  import opened CartController

  /** The state of the purchase written by checkout. */
  const Completed: string := "completado"

  /** The line checkout writes for one cart item: the listed price, one
      copy, no discount. */
  function LineOf(pid: int, item: Item): (r: Detail)
    ensures r == Detail(pid, item.gameId, item.precio, 1, 0)
  {
    NewDetail(DetailData(pid, item.gameId, item.precio, Some(1), None))
  }

  /** The lines of purchase `pid` for the items, in item order. */
  function DetailsFor(pid: int, items: seq<Item>): (r: seq<Detail>)
    ensures |r| == |items|
    ensures forall i :: 0 <= i < |items| ==> r[i] == LineOf(pid, items[i])
  {
    if items == [] then [] else DetailsFor(pid, items[..|items| - 1]) + [LineOf(pid, items[|items| - 1])]
  }

  /** The library entries checkout grants for the items, in item order. */
  function EntriesFor(user: int, pid: int, items: seq<Item>): (r: seq<Entry>)
    ensures |r| == |items|
    ensures forall i :: 0 <= i < |items| ==> r[i] == Entry(user, items[i].gameId, Some(pid), InitialStatus, 0)
  {
    if items == [] then []
    else EntriesFor(user, pid, items[..|items| - 1]) + [Entry(user, items[|items| - 1].gameId, Some(pid), InitialStatus, 0)]
  }

  /** The amounts paid on a list of lines. */
  function PaidPrices(lines: seq<Detail>): (r: seq<int>)
    ensures |r| == |lines| && forall i :: 0 <= i < |lines| ==> r[i] == lines[i].precioPagado
  {
    if lines == [] then [] else [lines[0].precioPagado] + PaidPrices(lines[1..])
  }

  /** The lines of a checkout add up to the cart total, exactly, in cents. */
  lemma LinesAddUpToTotal(pid: int, items: seq<Item>)
    ensures Sum(PaidPrices(DetailsFor(pid, items))) == Total(items)
  {
    assert PaidPrices(DetailsFor(pid, items)) == Prices(items);
  }

  /** Every line of `DetailsFor(pid, ...)` belongs to `pid`, so looking the
      purchase up finds exactly them. */
  lemma {:induction false} DetailsOfOwnLines(pid: int, items: seq<Item>)
    ensures DetailsOf(DetailsFor(pid, items), pid) == DetailsFor(pid, items)
    decreases |items|
  {
    if items != [] {
      var init := items[..|items| - 1];
      DetailsOfOwnLines(pid, init);
      DetailsOfAppend(DetailsFor(pid, init), [LineOf(pid, items[|items| - 1])], pid);
      var one := [LineOf(pid, items[|items| - 1])];
      assert one[..0] == [];
    }
  }

  /** No game appears in two items. */
  predicate DistinctGames(items: seq<Item>)
  {
    forall i, j :: 0 <= i < j < |items| ==> items[i].gameId != items[j].gameId
  }

  /** The items of a cart without duplicate rows name each game once. */
  lemma {:induction false} ActiveItemsDistinct(rows: seq<Pair>, user: int, games: seq<Game>)
    requires Unique(rows)
    ensures DistinctGames(ActiveItems(rows, user, games))
    decreases |rows|
  {
    if rows != [] {
      var init := rows[..|rows| - 1];
      var last := rows[|rows| - 1];
      assert rows == init + [last];
      assert Unique(init);
      ActiveItemsDistinct(init, user, games);
      var rest := ActiveItems(init, user, games);
      if last.user == user && Listed(games, last.game) {
        assert last !in init;
        forall k | 0 <= k < |rest|
          ensures rest[k].gameId != last.game
        {
          assert Shows(init, user, games, rest[k]);
        }
        ConsDistinct(ItemOf(last.game, games[last.game - 1]), rest);
      }
    }
  }

  /** An item whose game no other item names keeps a list distinct. */
  lemma ConsDistinct(x: Item, rest: seq<Item>)
    requires DistinctGames(rest)
    requires forall k :: 0 <= k < |rest| ==> rest[k].gameId != x.gameId
    ensures DistinctGames([x] + rest)
  {
    var items := [x] + rest;
    forall i, j | 0 <= i < j < |items|
      ensures items[i].gameId != items[j].gameId
    {
      assert items[j] == rest[j - 1];
      if i > 0 {
        assert items[i] == rest[i - 1];
      }
    }
  }

  /** The user owns none of the games of the items from position `from`
      on. */
  predicate NoneOwned(entries: seq<Entry>, user: int, items: seq<Item>, from: nat)
  {
    forall j :: from <= j < |items| ==> !Owns(entries, user, items[j].gameId)
  }

  /** Every item of a cart that holds no owned game is unowned. */
  lemma SnapshotUnowned(rows: seq<Pair>, entries: seq<Entry>, user: int, games: seq<Game>)
    requires NothingOwnedInCart(rows, entries)
    ensures NoneOwned(entries, user, ActiveItems(rows, user, games), 0)
  {
    var items := ActiveItems(rows, user, games);
    forall j | 0 <= j < |items|
      ensures !Owns(entries, user, items[j].gameId)
    {
      assert Pair(user, items[j].gameId) in rows;
    }
  }

  lemma OwnsAppend(entries: seq<Entry>, e: Entry, user: int, game: int)
    ensures Owns(entries + [e], user, game) <==> Owns(entries, user, game) || Of(e, user, game)
  {
    var es := entries + [e];
    if Owns(entries, user, game) {
      var i :| 0 <= i < |entries| && Of(entries[i], user, game);
      assert Of(es[i], user, game);
    }
    if Of(e, user, game) {
      assert Of(es[|entries|], user, game);
    }
    if Owns(es, user, game) {
      var i :| 0 <= i < |es| && Of(es[i], user, game);
      if i < |entries| {
        assert Of(entries[i], user, game);
      }
    }
  }

  /** Entries granted to one user for some games leave ownership of every
      other (user, game) pair as it was. */
  lemma {:induction false} EntriesForOthers(entries: seq<Entry>, user: int, pid: int, items: seq<Item>, u: int, g: int)
    requires u != user || forall j :: 0 <= j < |items| ==> items[j].gameId != g
    ensures Owns(entries + EntriesFor(user, pid, items), u, g) <==> Owns(entries, u, g)
    decreases |items|
  {
    if items == [] {
      assert entries + EntriesFor(user, pid, items) == entries;
    } else {
      var init := items[..|items| - 1];
      var e := Entry(user, items[|items| - 1].gameId, Some(pid), InitialStatus, 0);
      assert EntriesFor(user, pid, items) == EntriesFor(user, pid, init) + [e];
      assert entries + EntriesFor(user, pid, items) == (entries + EntriesFor(user, pid, init)) + [e];
      OwnsAppend(entries + EntriesFor(user, pid, init), e, u, g);
      assert forall j :: 0 <= j < |init| ==> init[j] == items[j];
      EntriesForOthers(entries, user, pid, init, u, g);
    }
  }

  /** A completed checkout keeps every cart free of owned games: the
      buyer's rows are gone and nobody else gained an entry. */
  lemma CheckoutKeepsCartsUnowned(rows: seq<Pair>, entries: seq<Entry>, user: int, pid: int, items: seq<Item>)
    requires NothingOwnedInCart(rows, entries)
    ensures NothingOwnedInCart(WithoutUser(rows, user), entries + EntriesFor(user, pid, items))
  {
    forall p | p in WithoutUser(rows, user)
      ensures !Owns(entries + EntriesFor(user, pid, items), p.user, p.game)
    {
      EntriesForOthers(entries, user, pid, items, p.user, p.game);
    }
  }

  /** The lines of a fresh purchase are exactly the checkout lines, and
      they add up to the cart total. */
  lemma CheckoutLines(details: seq<Detail>, pid: int, items: seq<Item>)
    requires DetailsOf(details, pid) == []
    ensures DetailsOf(details + DetailsFor(pid, items), pid) == DetailsFor(pid, items)
    ensures Sum(PaidPrices(DetailsOf(details + DetailsFor(pid, items), pid))) == Total(items)
  {
    DetailsOfAppend(details, DetailsFor(pid, items), pid);
    DetailsOfOwnLines(pid, items);
    LinesAddUpToTotal(pid, items);
  }

  /** The tables after a completed checkout of `items` by `user`, against
      the tables before it: one new purchase carrying the total, its
      lines and entries in item order, the user's cart rows gone, and the
      answer is the new purchase with exactly those lines. */
  predicate CheckedOut(purchases0: seq<Purchase>, details0: seq<Detail>, entries0: seq<Entry>, rows0: seq<Pair>,
                       purchases: seq<Purchase>, details: seq<Detail>, entries: seq<Entry>, rows: seq<Pair>,
                       user: int, items: seq<Item>, metodoPago: string, notas: Option<string>, view: Option<PurchaseView>)
  {
    var pid := |purchases0| + 1;
    var purchase := Purchase(user, Total(items), metodoPago, Completed, OrNull(notas));
    purchases == purchases0 + [purchase]
    && details == details0 + DetailsFor(pid, items)
    && entries == entries0 + EntriesFor(user, pid, items)
    && rows == WithoutUser(rows0, user)
    && view == Some(PurchaseView(pid, purchase, DetailsFor(pid, items)))
  }

  /** After a checkout the user's cart is empty, the new purchase's lines
      as `findById` reads them are the answer's lines, they add up to the
      stored total, and no other purchase gained a line. */
  lemma CheckedOutReadsBack(purchases0: seq<Purchase>, details0: seq<Detail>, entries0: seq<Entry>, rows0: seq<Pair>,
                            purchases: seq<Purchase>, details: seq<Detail>, entries: seq<Entry>, rows: seq<Pair>,
                            user: int, items: seq<Item>, metodoPago: string, notas: Option<string>, view: Option<PurchaseView>)
    requires forall d :: d in details0 ==> 1 <= d.purchaseId <= |purchases0|
    requires CheckedOut(purchases0, details0, entries0, rows0, purchases, details, entries, rows, user, items, metodoPago, notas, view)
    ensures CountUser(rows, user) == 0
    ensures var pid := |purchases0| + 1;
      view.value.id == pid == |purchases|
      && view.value.purchase == purchases[pid - 1]
      && view.value.items == DetailsOf(details, pid)
      && Sum(PaidPrices(view.value.items)) == purchases[pid - 1].total
    ensures forall id :: id != |purchases0| + 1 ==> DetailsOf(details, id) == DetailsOf(details0, id)
  {
    var pid := |purchases0| + 1;
    WithoutUserEmpties(rows0, user);
    NoDetailsYet(details0, pid);
    CheckoutLines(details0, pid, items);
    forall id | id != pid
      ensures DetailsOf(details, id) == DetailsOf(details0, id)
    {
      DetailsOfAppend(details0, DetailsFor(pid, items), id);
      NoLinesOfOthers(pid, items, id);
    }
  }

  /** The checkout lines of `pid` belong to no other purchase. */
  lemma NoLinesOfOthers(pid: int, items: seq<Item>, id: int)
    requires id != pid
    ensures DetailsOf(DetailsFor(pid, items), id) == []
  {
  }

  /** A checkout keeps every cart free of owned games: the buyer's rows
      are gone and nobody else gained an entry. */
  lemma CheckedOutKeepsCartsUnowned(purchases0: seq<Purchase>, details0: seq<Detail>, entries0: seq<Entry>, rows0: seq<Pair>,
                                    purchases: seq<Purchase>, details: seq<Detail>, entries: seq<Entry>, rows: seq<Pair>,
                                    user: int, items: seq<Item>, metodoPago: string, notas: Option<string>, view: Option<PurchaseView>)
    requires NothingOwnedInCart(rows0, entries0)
    requires CheckedOut(purchases0, details0, entries0, rows0, purchases, details, entries, rows, user, items, metodoPago, notas, view)
    ensures NothingOwnedInCart(rows, entries)
  {
    CheckoutKeepsCartsUnowned(rows0, entries0, user, |purchases0| + 1, items);
  }

  /** The tables after a checkout that stopped at item `k`, against the
      tables before it: every earlier item was unowned and got its line and
      its entry, item `k` is the first the user already owned, and it got
      its line but no entry. */
  predicate StoppedAt(details0: seq<Detail>, entries0: seq<Entry>, details: seq<Detail>, entries: seq<Entry>,
                      user: int, pid: int, items: seq<Item>, k: int)
  {
    0 <= k < |items|
    && (forall j :: 0 <= j < k ==> !Owns(entries0, user, items[j].gameId))
    && Owns(entries0, user, items[k].gameId)
    && details == details0 + DetailsFor(pid, items[..k + 1])
    && entries == entries0 + EntriesFor(user, pid, items[..k])
  }

  /** A checkout that stopped at some item. */
  predicate Stopped(details0: seq<Detail>, entries0: seq<Entry>, details: seq<Detail>, entries: seq<Entry>,
                    user: int, pid: int, items: seq<Item>)
  {
    exists k :: 0 <= k < |items| && StoppedAt(details0, entries0, details, entries, user, pid, items, k)
  }

  /** The tables after a checkout of `items` by `user` that failed, against
      the tables before it: the purchase stays written with the full total,
      the loop stopped at the first item whose game the user already owned,
      the cart is untouched and there is no answer. */
  predicate CheckoutFailed(purchases0: seq<Purchase>, details0: seq<Detail>, entries0: seq<Entry>, rows0: seq<Pair>,
                           purchases: seq<Purchase>, details: seq<Detail>, entries: seq<Entry>, rows: seq<Pair>,
                           user: int, items: seq<Item>, metodoPago: string, notas: Option<string>, view: Option<PurchaseView>)
  {
    purchases == purchases0 + [Purchase(user, Total(items), metodoPago, Completed, OrNull(notas))]
    && Stopped(details0, entries0, details, entries, user, |purchases0| + 1, items)
    && rows == rows0
    && view.None?
  }

  /** `createPurchase`. A missing payment method, or a cart with no active
      item, is a 400 that changes nothing. Otherwise the purchase is
      written with the cart total, one line and one library entry per item
      in cart order, and the user's cart is emptied, rows of inactive games
      included. An entry can only fail to be written when the cart held a
      game its user already owned; that is a 500 that leaves the writes
      made so far in place, as the handler runs no transaction. */
  method CreatePurchase(cart: CartTable, games: GameTable, purchases: PurchaseTable, lib: LibraryTable,
                        user: int, metodoPago: Option<string>, notas: Option<string>)
    returns (status: Status, view: Option<PurchaseView>)
    requires cart.Valid() && purchases.Valid() && lib.Valid()
    modifies cart, purchases, lib
    ensures cart.Valid() && purchases.Valid() && lib.Valid()
    ensures status == BadRequest || status == Created || status == ServerError
    ensures status == BadRequest <==> !Filled(metodoPago) || ActiveItems(old(cart.rows), user, games.rows) == []
    ensures status == BadRequest ==>
      cart.rows == old(cart.rows) && purchases.purchases == old(purchases.purchases)
      && purchases.details == old(purchases.details) && lib.entries == old(lib.entries)
    ensures status == Created ==>
      CheckedOut(old(purchases.purchases), old(purchases.details), old(lib.entries), old(cart.rows),
                 purchases.purchases, purchases.details, lib.entries, cart.rows,
                 user, ActiveItems(old(cart.rows), user, games.rows), metodoPago.value, notas, view)
    ensures status == ServerError ==> !old(NothingOwnedInCart(cart.rows, lib.entries))
    ensures status == ServerError ==>
      CheckoutFailed(old(purchases.purchases), old(purchases.details), old(lib.entries), old(cart.rows),
                     purchases.purchases, purchases.details, lib.entries, cart.rows,
                     user, ActiveItems(old(cart.rows), user, games.rows), metodoPago.value, notas, view)
    ensures old(NothingOwnedInCart(cart.rows, lib.entries)) ==> NothingOwnedInCart(cart.rows, lib.entries)
  {
    if !Filled(metodoPago) {
      return BadRequest, None;
    }
    var items := cart.GetCartByUser(user, games).items;
    if |items| == 0 {
      return BadRequest, None;
    }
    ghost var disjoint := NothingOwnedInCart(cart.rows, lib.entries);
    assert DistinctGames(items) && (disjoint ==> NoneOwned(lib.entries, user, items, 0)) by {
      ActiveItemsDistinct(cart.rows, user, games.rows);
      if disjoint {
        SnapshotUnowned(cart.rows, lib.entries, user, games.rows);
      }
    }
    status, view := Checkout(cart, purchases, lib, user, items, metodoPago.value, notas);
    assert disjoint ==> NothingOwnedInCart(cart.rows, lib.entries) by {
      if disjoint {
        CheckedOutKeepsCartsUnowned(old(purchases.purchases), old(purchases.details), old(lib.entries), old(cart.rows),
                                    purchases.purchases, purchases.details, lib.entries, cart.rows,
                                    user, items, metodoPago.value, notas, view);
      }
    }
  }

  /** `createPurchase` once the guards have passed, on the listed items:
      the purchase, its lines and entries, then the emptied cart and the
      purchase as `findById` reads it back. It fails only on a game the
      user already owns. */
  method Checkout(cart: CartTable, purchases: PurchaseTable, lib: LibraryTable, user: int, items: seq<Item>,
                  metodoPago: string, notas: Option<string>)
    returns (status: Status, view: Option<PurchaseView>)
    requires cart.Valid() && purchases.Valid() && lib.Valid()
    requires DistinctGames(items)
    modifies cart, purchases, lib
    ensures cart.Valid() && purchases.Valid() && lib.Valid()
    ensures status == Created || status == ServerError
    ensures status == Created ==>
      CheckedOut(old(purchases.purchases), old(purchases.details), old(lib.entries), old(cart.rows),
                 purchases.purchases, purchases.details, lib.entries, cart.rows,
                 user, items, metodoPago, notas, view)
    ensures status == ServerError ==>
      CheckoutFailed(old(purchases.purchases), old(purchases.details), old(lib.entries), old(cart.rows),
                     purchases.purchases, purchases.details, lib.entries, cart.rows,
                     user, items, metodoPago, notas, view)
    ensures NoneOwned(old(lib.entries), user, items, 0) ==> status == Created
  {
    var pid := purchases.Create(PurchaseData(user, Total(items), metodoPago, Completed, notas));
    ghost var details0 := purchases.details;
    assert details0 == old(purchases.details) && lib.entries == old(lib.entries) && pid == |old(purchases.purchases)| + 1;
    ghost var written := purchases.purchases;
    var ok := RecordItems(purchases, lib, user, pid, items);
    if !ok {
      assert purchases.purchases == written;
      assert Stopped(old(purchases.details), old(lib.entries), purchases.details, lib.entries, user, |old(purchases.purchases)| + 1, items);
      return ServerError, None;
    }
    var deleted := cart.ClearCart(user);
    view := purchases.FindById(pid);
    assert view == Some(PurchaseView(pid, written[pid - 1], DetailsOf(purchases.details, pid)));
    CheckoutLines(details0, pid, items);
    status := Created;
  }

  /** One pass of the `for` loop of `createPurchase`: the line of the
      item, then its library entry, which the unique key refuses when the
      user already owns the game. */
  method RecordItem(purchases: PurchaseTable, lib: LibraryTable, user: int, pid: int, item: Item) returns (ok: bool)
    requires purchases.Valid() && lib.Valid() && 1 <= pid <= |purchases.purchases|
    modifies purchases, lib
    ensures purchases.Valid() && lib.Valid()
    ensures purchases.purchases == old(purchases.purchases)
    ensures purchases.details == old(purchases.details) + [LineOf(pid, item)]
    ensures ok <==> !Owns(old(lib.entries), user, item.gameId)
    ensures lib.entries == if ok then old(lib.entries) + [Entry(user, item.gameId, Some(pid), InitialStatus, 0)] else old(lib.entries)
  {
    purchases.CreateDetail(DetailData(pid, item.gameId, item.precio, Some(1), None));
    ok := lib.AddGame(user, item.gameId, Some(pid));
  }

  /** One more item adds its line at the end. */
  lemma DetailsForSnoc(prefix: seq<Detail>, pid: int, items: seq<Item>, i: nat)
    requires i < |items|
    ensures prefix + DetailsFor(pid, items[..i + 1]) == (prefix + DetailsFor(pid, items[..i])) + [LineOf(pid, items[i])]
  {
    assert items[..i + 1][..i] == items[..i];
  }

  /** One more item adds its entry at the end. */
  lemma EntriesForSnoc(prefix: seq<Entry>, user: int, pid: int, items: seq<Item>, i: nat)
    requires i < |items|
    ensures prefix + EntriesFor(user, pid, items[..i + 1])
            == (prefix + EntriesFor(user, pid, items[..i])) + [Entry(user, items[i].gameId, Some(pid), InitialStatus, 0)]
  {
    assert items[..i + 1][..i] == items[..i];
  }

  /** The `for` loop of `createPurchase`: for each item in turn, one line
      of purchase `pid` and one library entry linked to it. It stops at
      the first entry the library refuses, which happens only for a game
      the user already owned. */
  method RecordItems(purchases: PurchaseTable, lib: LibraryTable, user: int, pid: int, items: seq<Item>) returns (ok: bool)
    requires purchases.Valid() && lib.Valid() && 1 <= pid <= |purchases.purchases|
    requires DistinctGames(items)
    modifies purchases, lib
    ensures purchases.Valid() && lib.Valid()
    ensures purchases.purchases == old(purchases.purchases)
    ensures ok ==> purchases.details == old(purchases.details) + DetailsFor(pid, items)
                   && lib.entries == old(lib.entries) + EntriesFor(user, pid, items)
    ensures !ok ==> Stopped(old(purchases.details), old(lib.entries), purchases.details, lib.entries, user, pid, items)
    ensures NoneOwned(old(lib.entries), user, items, 0) ==> ok
  {
    var i := 0;
    while i < |items|
      invariant 0 <= i <= |items|
      invariant purchases.Valid() && lib.Valid()
      invariant purchases.purchases == old(purchases.purchases)
      invariant purchases.details == old(purchases.details) + DetailsFor(pid, items[..i])
      invariant lib.entries == old(lib.entries) + EntriesFor(user, pid, items[..i])
      invariant forall j :: 0 <= j < i ==> !Owns(old(lib.entries), user, items[j].gameId)
    {
      ok := RecordItem(purchases, lib, user, pid, items[i]);
      RecordStep(old(purchases.details), old(lib.entries), purchases.details, lib.entries, user, pid, items, i, ok);
      if !ok {
        return;
      }
      i := i + 1;
    }
    assert items[..i] == items;
    ok := true;
  }

  /** One pass of the loop, on the tables: item `i` gets its line, and its
      entry exactly when the user did not own its game before the
      checkout, since the entries written so far are for other games. */
  lemma RecordStep(details0: seq<Detail>, entries0: seq<Entry>, details: seq<Detail>, entries: seq<Entry>,
                   user: int, pid: int, items: seq<Item>, i: nat, ok: bool)
    requires DistinctGames(items) && i < |items|
    requires forall j :: 0 <= j < i ==> !Owns(entries0, user, items[j].gameId)
    requires details == (details0 + DetailsFor(pid, items[..i])) + [LineOf(pid, items[i])]
    requires ok <==> !Owns(entries0 + EntriesFor(user, pid, items[..i]), user, items[i].gameId)
    requires entries == if ok then (entries0 + EntriesFor(user, pid, items[..i])) + [Entry(user, items[i].gameId, Some(pid), InitialStatus, 0)]
                        else entries0 + EntriesFor(user, pid, items[..i])
    ensures ok <==> !Owns(entries0, user, items[i].gameId)
    ensures details == details0 + DetailsFor(pid, items[..i + 1])
    ensures ok ==> entries == entries0 + EntriesFor(user, pid, items[..i + 1])
    ensures !ok ==> StoppedAt(details0, entries0, details, entries, user, pid, items, i)
  {
    DetailsForSnoc(details0, pid, items, i);
    EntriesForSnoc(entries0, user, pid, items, i);
    assert forall j :: 0 <= j < |items[..i]| ==> items[..i][j].gameId != items[i].gameId;
    EntriesForOthers(entries0, user, pid, items[..i], user, items[i].gameId);
  }

  /** Why `getPurchaseById` refused. */
  datatype ViewRefusal = BadId | NoSuchPurchase | NotYours
  {
    function Status(): Status
    {
      match this
      case BadId => BadRequest
      case NoSuchPurchase => NotFound
      case NotYours => Forbidden
    }
  }

  /** `getPurchaseById`: the purchase when the id parses, the purchase
      exists and the caller owns it or is an admin. */
  function GetPurchaseById(purchases: PurchaseTable, caller: Caller, id: string): (r: Result<PurchaseView, ViewRefusal>)
    reads purchases
    ensures r == Failure(BadId) <==> ParseInt(id).None?
    ensures r == Failure(NoSuchPurchase) <==> ParseInt(id).Some? && purchases.FindById(ParseInt(id).value).None?
    ensures r == Failure(NotYours) <==> ParseInt(id).Some? && purchases.FindById(ParseInt(id).value).Some?
                                        && purchases.FindById(ParseInt(id).value).value.purchase.user != caller.id && caller.role != Admin
    ensures r.Success? ==> Some(r.value) == purchases.FindById(ParseInt(id).value)
                           && (r.value.purchase.user == caller.id || caller.role == Admin)
  {
    match ParseInt(id)
    case None => Failure(BadId)
    case Some(pid) =>
      match purchases.FindById(pid)
      case None => Failure(NoSuchPurchase)
      case Some(v) =>
        if v.purchase.user != caller.id && caller.role != Admin then Failure(NotYours) else Success(v)
  }
}
