/** The cart store's three operations, each as one pure step from the current state, the operation's
    arguments and the replies of the remote stock/product service to a `Transition`.

    A remote `GET` is an input: `Some(reply)` is the body it answered with, `None` that the request
    threw. The `PUT /stock/{id}` the operation issues is an output (`Transition.put`). */
module CartStore {
  import Keyed
  import opened CartModel

  /** The stock reply allows an add: it is about the requested product and has units left. */
  predicate StockAvailable(productId: int, reply: StockRecord) {
    reply.id == productId && reply.amount > 0
  }

  /** JavaScript's `v <= 0` on a number-or-null: `null` converts to 0, so it counts as at most zero. */
  predicate NullableAtMostZero(v: Option<int>) {
    match v
    case None => true
    case Some(n) => n <= 0
  }

  /** Nothing changes, nothing is written or sent, and `e` is reported. */
  function Rejected(s: State, e: Failure): Transition {
    Transition(s, None, None, Some(e))
  }

  /** The operation completed: `after` is saved to local storage and `put` is sent. */
  function Committed(after: State, put: StockRecord): Transition {
    Transition(after, Some(after.cart), Some(put), None)
  }

  /** `addProduct(productId)`: one more unit of the product, taken from the remote stock. */
  function AddProduct(s: State, productId: int, stockReply: Option<StockRecord>, catalogReply: Option<CatalogEntry>): (t: Transition)
    // an add never fails half-way: a failure leaves everything as it was
    ensures t.error.Some? ==> t.after == s && t.saved.None? && t.put.None?
    // every failure other than out-of-stock is the generic one
    ensures t.error.Some? && t.error != Some(OutOfStock) ==> t.error == Some(OperationFailed)
    ensures t.error == Some(OutOfStock) <==> stockReply.Some? && !StockAvailable(productId, stockReply.value)
    ensures t.error.None? <==> stockReply.Some? && StockAvailable(productId, stockReply.value) && catalogReply.Some?
    ensures t.error.None? ==>
      && t.saved == Some(t.after.cart)
      && t.put == Some(StockRecord(productId, stockReply.value.amount - 1))
    // already in the cart: the same lines in the same order, the product's line one unit up
    ensures t.error.None? && InCart(s.cart, productId) ==>
      && t.after.stock == s.stock
      && |t.after.cart| == |s.cart|
      && forall i :: 0 <= i < |s.cart| ==>
           && t.after.cart[i].(amount := s.cart[i].amount) == s.cart[i]
           && t.after.cart[i].amount == s.cart[i].amount + (if s.cart[i].id == productId then 1 else 0)
    // not yet in the cart: one new line of amount 1 at the end, and the remote level cached
    ensures t.error.None? && !InCart(s.cart, productId) ==>
      && t.after.cart == s.cart + [LineOf(catalogReply.value, 1)]
      && t.after.stock == s.stock + [StockRecord(productId, stockReply.value.amount)]
  {
    match stockReply
    case None => Rejected(s, OperationFailed)
    case Some(reply) =>
      var stockApiAmount := if reply.id == productId then Some(reply.amount) else None;
      if NullableAtMostZero(stockApiAmount) then Rejected(s, OutOfStock)
      else
        match catalogReply
        case None => Rejected(s, OperationFailed)
        case Some(product) =>
          var put := StockRecord(productId, reply.amount - 1);
          if InCart(s.cart, productId) then
            Committed(State(Increment(s.cart, productId), s.stock), put)
          else
            var cart := s.cart + [LineOf(product, 1)];
            Committed(State(cart, s.stock + [StockRecord(productId, stockApiAmount.value)]), put)
  }

  /** `removeProduct(productId)`: drop the product's line and give its units back to the remote
      stock. */
  function RemoveProduct(s: State, productId: int, stockReply: Option<StockRecord>): (t: Transition)
    ensures t.error == Some(NotFound) <==> !InCart(s.cart, productId)
    ensures !InCart(s.cart, productId) ==> t.after == s && t.saved.None? && t.put.None?
    // present: the cart loses exactly the lines of this product and is saved, whatever happens next
    ensures InCart(s.cart, productId) ==>
      && t.saved == Some(t.after.cart)
      && |t.after.cart| < |s.cart|
      && (forall i :: 0 <= i < |t.after.cart| ==> t.after.cart[i] in s.cart && t.after.cart[i].id != productId)
      && (forall i :: 0 <= i < |s.cart| && s.cart[i].id != productId ==> s.cart[i] in t.after.cart)
    // present, but the stock lookup threw: the cart change stays, the stock list does not change
    ensures InCart(s.cart, productId) && stockReply.None? ==>
      t.error == Some(OperationFailed) && t.after.stock == s.stock && t.put.None?
    // present and the lookup answered: the cached records of the product are dropped, and the
    // remote stock is set to what it held plus the units the removed line held
    ensures InCart(s.cart, productId) && stockReply.Some? ==>
      && t.error.None?
      && (forall i :: 0 <= i < |t.after.stock| ==> t.after.stock[i] in s.stock && t.after.stock[i].id != productId)
      && (forall i :: 0 <= i < |s.stock| && s.stock[i].id != productId ==> s.stock[i] in t.after.stock)
      // the records of every other product stay as they were, in number and in order, so the
      // first cached record a later update reads is the same one
      && (forall id :: id != productId ==> Keyed.Only(t.after.stock, RecordId, id) == Keyed.Only(s.stock, RecordId, id))
      && t.put.Some? && t.put.value.id == productId
      && (Keyed.Unique(s.cart, LineId) ==>
            t.put.value.amount == Quantity(s.cart, productId) + stockReply.value.amount)
  {
    var productIndex := Keyed.FindIndex(s.cart, LineId, productId);
    if productIndex == -1 then Rejected(s, NotFound)
    else
      var productToRemove := s.cart[productIndex];
      var cart := Keyed.Without(s.cart, LineId, productId);
      Keyed.WithoutMembers(s.cart, LineId, productId);
      Keyed.WithoutMembers(s.stock, RecordId, productId);
      match stockReply
      case None => Transition(State(cart, s.stock), Some(cart), None, Some(OperationFailed))
      case Some(reply) =>
        var newAmount := productToRemove.amount + reply.amount;
        QuantityOfLine(s.cart, productIndex);
        Keyed.OthersUnchanged(s.stock, RecordId, productId);
        Committed(State(cart, Keyed.Without(s.stock, RecordId, productId)), StockRecord(productId, newAmount))
  }

  /** `updateProductAmount({ productId, amount })`: set the product's line to `amount` units. */
  function UpdateProductAmount(s: State, productId: int, amount: int, stockReply: Option<StockRecord>): (t: Transition)
    // rejected before anything is touched: the lookup threw, the amount is not positive, or the
    // remote stock cannot cover it (only the last is reported as out of stock)
    ensures stockReply.None? || amount <= 0 || stockReply.value.amount < amount ==>
      t.after == s && t.saved.None? && t.put.None? && t.error.Some?
    ensures t.error == Some(OutOfStock) <==> stockReply.Some? && 0 < amount && stockReply.value.amount < amount
    // every failure other than out-of-stock is the generic one
    ensures t.error.Some? && t.error != Some(OutOfStock) ==> t.error == Some(OperationFailed)
    // accepted: the product's line is set to `amount`, nothing else in the cart changes, the cart is
    // saved, and the stock list is untouched
    ensures stockReply.Some? && 0 < amount <= stockReply.value.amount ==>
      && t.saved == Some(t.after.cart)
      && t.after.stock == s.stock
      && |t.after.cart| == |s.cart|
      && (forall i :: 0 <= i < |s.cart| ==>
            && t.after.cart[i].(amount := s.cart[i].amount) == s.cart[i]
            && t.after.cart[i].amount == if s.cart[i].id == productId then amount else s.cart[i].amount)
      // the PUT happens exactly when a stock record of the product is cached; it sends the first
      // such record's amount minus the new amount
      && (t.error.None? <==> HasRecord(s.stock, productId))
      && (t.error.Some? ==> t.error == Some(OperationFailed) && t.put.None?)
      && (t.error.None? ==>
            var k := Keyed.FindIndex(s.stock, RecordId, productId);
            0 <= k && t.put == Some(StockRecord(productId, s.stock[k].amount - amount)))
  {
    match stockReply
    case None => Rejected(s, OperationFailed)
    case Some(reply) =>
      var apiStockAmount := reply.amount;
      if amount <= 0 then Rejected(s, OperationFailed)
      else if apiStockAmount <= 0 || apiStockAmount < amount then Rejected(s, OutOfStock)
      else
        var cart := SetAmount(s.cart, productId, amount);
        var cached := Keyed.Only(s.stock, RecordId, productId);
        if |cached| == 0 then
          // `stock.filter(...)[0]` is undefined: reading `.amount` throws after the cart was set
          Transition(State(cart, s.stock), Some(cart), None, Some(OperationFailed))
        else
          var initialStock := cached[0];
          Committed(State(cart, s.stock), StockRecord(productId, initialStock.amount - amount))
  }
}
