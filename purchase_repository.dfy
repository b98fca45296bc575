/** The `compras` ledger and its `compra_detalle` lines. A purchase's id is
    its position in the ledger counted from 1; purchases are never deleted.
    Amounts are in cents. */
module PurchaseRepository {
  import opened Common

  /** A row of `compras`. */
  datatype Purchase = Purchase(user: int, total: int, metodoPago: string, estadoPago: string, notas: Option<string>)

  /** A row of `compra_detalle`. */
  datatype Detail = Detail(purchaseId: int, gameId: int, precioPagado: int, cantidad: int, descuento: int)

  /** The body of `create`. */
  datatype PurchaseData = PurchaseData(user: int, total: int, metodoPago: string, estadoPago: string, notas: Option<string>)

  /** The body of `createDetail`; `None` is an absent member. */
  datatype DetailData = DetailData(purchaseId: int, gameId: int, precioPagado: int, cantidad: Option<int>, descuento: Option<int>)

  /** What `findById` returns: the purchase and exactly its lines. */
  datatype PurchaseView = PurchaseView(id: int, purchase: Purchase, items: seq<Detail>)

  /** The row `create` inserts: `notas || null`. */
  function NewPurchase(data: PurchaseData): (r: Purchase)
    ensures r.user == data.user && r.total == data.total && r.metodoPago == data.metodoPago && r.estadoPago == data.estadoPago
    ensures r.notas.Some? <==> Filled(data.notas)
    ensures r.notas.Some? ==> r.notas == data.notas
  {
    Purchase(data.user, data.total, data.metodoPago, data.estadoPago, OrNull(data.notas))
  }

  /** The row `createDetail` inserts: `cantidad || 1` and
      `descuento_aplicado || 0`. */
  function NewDetail(data: DetailData): (r: Detail)
    ensures r.purchaseId == data.purchaseId && r.gameId == data.gameId && r.precioPagado == data.precioPagado
    ensures r.cantidad == if data.cantidad.Some? && data.cantidad.value != 0 then data.cantidad.value else 1
    ensures r.descuento == if data.descuento.Some? && data.descuento.value != 0 then data.descuento.value else 0
    ensures r.cantidad != 0
  {
    Detail(data.purchaseId, data.gameId, data.precioPagado, OrDefault(data.cantidad, 1), OrDefault(data.descuento, 0))
  }

  /** `SELECT ... FROM compra_detalle WHERE id_compra = ?`, in table order. */
  function DetailsOf(details: seq<Detail>, id: int): (r: seq<Detail>)
    ensures forall d :: d in r <==> d in details && d.purchaseId == id
    ensures |r| <= |details|
  {
    if details == [] then []
    else
      var init := details[..|details| - 1];
      var last := details[|details| - 1];
      assert details == init + [last];
      DetailsOf(init, id) + (if last.purchaseId == id then [last] else [])
  }

  lemma {:induction false} DetailsOfAppend(a: seq<Detail>, b: seq<Detail>, id: int)
    ensures DetailsOf(a + b, id) == DetailsOf(a, id) + DetailsOf(b, id)
    decreases |b|
  {
    if b == [] {
      assert a + b == a;
    } else {
      var init := b[..|b| - 1];
      assert (a + b)[..|a + b| - 1] == a + init;
      DetailsOfAppend(a, init, id);
    }
  }

  /** The ids of the user's purchases, in ledger order. */
  function PurchasesOf(purchases: seq<Purchase>, user: int): (r: seq<int>)
    ensures forall id :: id in r <==> 1 <= id <= |purchases| && purchases[id - 1].user == user
    ensures |r| <= |purchases|
  {
    if purchases == [] then []
    else
      var init := purchases[..|purchases| - 1];
      PurchasesOf(init, user) + (if purchases[|purchases| - 1].user == user then [|purchases|] else [])
  }

  /** One page of `findByUser`. `None` in `page`, `limit` or `totalPages`
      is NaN (or Infinity). */
  datatype PurchasePage = PurchasePage(ids: seq<int>, page: Option<int>, limit: Option<int>, total: nat, totalPages: Option<int>)

  class PurchaseTable {
    var purchases: seq<Purchase>
    var details: seq<Detail>

    constructor ()
      ensures purchases == [] && details == []
    {
      purchases := [];
      details := [];
    }

    /** Every line belongs to a purchase that exists (the foreign key). */
    predicate Valid()
      reads this
    {
      forall d :: d in details ==> 1 <= d.purchaseId <= |purchases|
    }

    /** `findById`: the purchase and its lines, or null. */
    function FindById(id: int): (r: Option<PurchaseView>)
      reads this
      ensures r.Some? <==> 1 <= id <= |purchases|
      ensures r.Some? ==> r.value.id == id && r.value.purchase == purchases[id - 1]
      ensures r.Some? ==> forall d :: d in r.value.items <==> d in details && d.purchaseId == id
    {
      if 1 <= id <= |purchases| then Some(PurchaseView(id, purchases[id - 1], DetailsOf(details, id))) else None
    }

    /** `findByUser`: newest purchase first (`ORDER BY fecha_compra DESC`),
        `LIMIT ? OFFSET ?` bound from the parsed page and limit; a NaN or
        negative value is refused by MySQL (`None`). The pagination block
        echoes the parsed values. */
    function FindByUser(user: int, page: Option<int>, limit: Option<int>): (r: Option<PurchasePage>)
      reads this
      ensures r.Some? <==> page.Some? && limit.Some? && limit.value >= 0 && Offset(page.value, limit.value) >= 0
      ensures r.Some? ==> r.value.page == page && r.value.limit == limit
      ensures r.Some? ==> r.value.total == |PurchasesOf(purchases, user)| && |r.value.ids| <= limit.value
      ensures r.Some? ==> forall id :: id in r.value.ids ==> 1 <= id <= |purchases| && purchases[id - 1].user == user
      ensures r.Some? ==> r.value.totalPages == JsTotalPages(r.value.total, limit)
      ensures r.Some? ==> DatePage(r.value.ids, PurchasesOf(purchases, user), Desc, Offset(page.value, limit.value), limit.value)
    {
      if page.None? || limit.None? || limit.value < 0 || Offset(page.value, limit.value) < 0 then None
      else
        var all := PurchasesOf(purchases, user);
        var ids := Page(ByDate(all, Desc), Offset(page.value, limit.value), limit.value);
        PageByDate(all, Desc, Offset(page.value, limit.value), limit.value);
        PageByDateWithin(all, Desc, Offset(page.value, limit.value), limit.value);
        Some(PurchasePage(ids, page, limit, |all|, JsTotalPages(|all|, limit)))
    }

    /** `create`: append the purchase and answer its id. */
    method Create(data: PurchaseData) returns (id: int)
      requires Valid()
      modifies this
      ensures Valid()
      ensures purchases == old(purchases) + [NewPurchase(data)] && details == old(details)
      ensures id == |purchases| && DetailsOf(details, id) == []
    {
      purchases := purchases + [NewPurchase(data)];
      id := |purchases|;
      NoDetailsYet(details, id);
    }

    /** `createDetail`: append one line to an existing purchase. */
    method CreateDetail(data: DetailData)
      requires Valid() && 1 <= data.purchaseId <= |purchases|
      modifies this
      ensures Valid()
      ensures details == old(details) + [NewDetail(data)] && purchases == old(purchases)
    {
      details := details + [NewDetail(data)];
    }

    /** `updatePaymentStatus`: only `estado_pago` changes; true iff the
        purchase exists. */
    method UpdatePaymentStatus(id: int, estado: string) returns (updated: bool)
      requires Valid()
      modifies this
      ensures Valid()
      ensures updated <==> 1 <= id <= |old(purchases)|
      ensures purchases == if updated then old(purchases)[id - 1 := old(purchases)[id - 1].(estadoPago := estado)] else old(purchases)
      ensures details == old(details)
    {
      updated := 1 <= id <= |purchases|;
      if updated {
        purchases := purchases[id - 1 := purchases[id - 1].(estadoPago := estado)];
      }
    }
  }

  /** A purchase id past every line's purchase has no lines yet. */
  lemma {:induction false} NoDetailsYet(details: seq<Detail>, id: int)
    requires forall d :: d in details ==> d.purchaseId < id
    ensures DetailsOf(details, id) == []
    decreases |details|
  {
    if details != [] {
      var init := details[..|details| - 1];
      assert details == init + [details[|details| - 1]];
      NoDetailsYet(init, id);
    }
  }
}
