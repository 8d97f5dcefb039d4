/** Properties of the cart store's operations that relate several calls or hold over all outcomes:
    the cart invariants each operation keeps, what each does to the per-product quantities, and a
    bookkeeping invariant between the cart, the cached stock list and the remote stock service. */
module CartStoreProofs {
  import Keyed
  import opened CartModel
  import opened CartStore

  /** The cart invariant: no two lines share a product id and every line holds a unit or more. */
  predicate WellFormed(cart: seq<Product>) {
    Keyed.Unique(cart, LineId) && PositiveAmounts(cart)
  }

  /** The catalog answered for the product that was asked for. */
  predicate CatalogFor(productId: int, catalogReply: Option<CatalogEntry>) {
    catalogReply.Some? ==> catalogReply.value.id == productId
  }

  /** Rewriting amounts in place keeps the cart's ids, so it keeps them unique. */
  lemma SameIdsUnique(a: seq<Product>, b: seq<Product>)
    requires |a| == |b|
    requires forall i :: 0 <= i < |a| ==> a[i].id == b[i].id
    requires Keyed.Unique(a, LineId)
    ensures Keyed.Unique(b, LineId)
  {
    assert forall i :: 0 <= i < |a| ==> LineId(a[i]) == LineId(b[i]);
  }

  /** Every line of a filtered cart is a line of the original cart. */
  lemma WithoutPositive(cart: seq<Product>, id: int)
    requires PositiveAmounts(cart)
    ensures PositiveAmounts(Keyed.Without(cart, LineId, id))
  {
    var r := Keyed.Without(cart, LineId, id);
    Keyed.WithoutMembers(cart, LineId, id);
    forall i | 0 <= i < |r|
      ensures r[i].amount >= 1
    {
      assert r[i] in cart;
    }
  }

  /** Adding keeps the cart well formed, on every outcome. */
  lemma AddKeepsWellFormed(s: State, productId: int, stockReply: Option<StockRecord>, catalogReply: Option<CatalogEntry>)
    requires WellFormed(s.cart)
    requires CatalogFor(productId, catalogReply)
    ensures WellFormed(AddProduct(s, productId, stockReply, catalogReply).after.cart)
  {
    var t := AddProduct(s, productId, stockReply, catalogReply);
    if t.error.None? {
      if InCart(s.cart, productId) {
        SameIdsUnique(s.cart, t.after.cart);
      } else {
        Keyed.UniqueSnoc(s.cart, LineOf(catalogReply.value, 1), LineId);
      }
    }
  }

  /** Removing keeps the cart well formed, on every outcome. */
  lemma RemoveKeepsWellFormed(s: State, productId: int, stockReply: Option<StockRecord>)
    requires WellFormed(s.cart)
    ensures WellFormed(RemoveProduct(s, productId, stockReply).after.cart)
  {
    Keyed.WithoutUnique(s.cart, LineId, productId);
    WithoutPositive(s.cart, productId);
  }

  /** Updating keeps the cart well formed, on every outcome. */
  lemma UpdateKeepsWellFormed(s: State, productId: int, amount: int, stockReply: Option<StockRecord>)
    requires WellFormed(s.cart)
    ensures WellFormed(UpdateProductAmount(s, productId, amount, stockReply).after.cart)
  {
    var t := UpdateProductAmount(s, productId, amount, stockReply);
    if t.after != s {
      SameIdsUnique(s.cart, t.after.cart);
    }
  }

  /** A completed add puts exactly one more unit of the product in the cart and gives it an id it
      did not already have only when it was absent. */
  lemma AddOneUnit(s: State, productId: int, stockReply: Option<StockRecord>, catalogReply: Option<CatalogEntry>, other: int)
    requires Keyed.Unique(s.cart, LineId)
    requires CatalogFor(productId, catalogReply)
    requires AddProduct(s, productId, stockReply, catalogReply).error.None?
    ensures var after := AddProduct(s, productId, stockReply, catalogReply).after.cart;
      && Quantity(after, other) == Quantity(s.cart, other) + (if other == productId then 1 else 0)
      && Keyed.Keys(after, LineId) == Keyed.Keys(s.cart, LineId) + {productId}
  {
    var after := AddProduct(s, productId, stockReply, catalogReply).after.cart;
    Keyed.AnyIsKey(s.cart, LineId, productId);
    if InCart(s.cart, productId) {
      IncrementQuantity(s.cart, productId, other);
      assert forall i :: 0 <= i < |s.cart| ==> LineId(after[i]) == LineId(s.cart[i]);
    } else {
      var line := LineOf(catalogReply.value, 1);
      QuantityAppend(s.cart, line, other);
      if other == productId {
        QuantityAbsent(s.cart, productId);
      }
      assert forall i :: 0 <= i < |s.cart| ==> after[i] == s.cart[i];
      assert after[|s.cart|] == line;
    }
  }

  /** On the cart, a remove deletes exactly the product's one line and keeps the others in order,
      even when the stock lookup that follows fails. */
  lemma RemoveDeletesTheLine(s: State, k: int, stockReply: Option<StockRecord>)
    requires Keyed.Unique(s.cart, LineId)
    requires 0 <= k < |s.cart|
    ensures RemoveProduct(s, s.cart[k].id, stockReply).after.cart == s.cart[..k] + s.cart[k + 1..]
  {
    Keyed.WithoutAt(s.cart, LineId, k);
  }

  /** After a remove of a present product, none of its units remain and every other product keeps
      its quantity. */
  lemma RemoveAllUnits(s: State, productId: int, stockReply: Option<StockRecord>, other: int)
    requires InCart(s.cart, productId)
    ensures var after := RemoveProduct(s, productId, stockReply).after.cart;
      && Quantity(after, other) == (if other == productId then 0 else Quantity(s.cart, other))
      && Keyed.Keys(after, LineId) == Keyed.Keys(s.cart, LineId) - {productId}
  {
    var after := RemoveProduct(s, productId, stockReply).after.cart;
    WithoutQuantity(s.cart, productId, other);
    forall id
      ensures id in Keyed.Keys(after, LineId) <==> id in Keyed.Keys(s.cart, LineId) - {productId}
    {
      Keyed.AnyIsKey(after, LineId, id);
      Keyed.AnyIsKey(s.cart, LineId, id);
      if id in Keyed.Keys(s.cart, LineId) && id != productId {
        var i :| 0 <= i < |s.cart| && s.cart[i].id == id;
        assert s.cart[i] in after;
      }
    }
  }

  /** An accepted update leaves the product with exactly the requested number of units when it is in
      the cart, and every other product with its quantity. */
  lemma UpdateSetsUnits(s: State, productId: int, amount: int, stockReply: Option<StockRecord>, other: int)
    requires Keyed.Unique(s.cart, LineId)
    requires stockReply.Some? && 0 < amount <= stockReply.value.amount
    ensures var after := UpdateProductAmount(s, productId, amount, stockReply).after.cart;
      && Quantity(after, other) == (if other == productId && InCart(s.cart, productId) then amount else Quantity(s.cart, other))
      && Keyed.Keys(after, LineId) == Keyed.Keys(s.cart, LineId)
  {
    var after := UpdateProductAmount(s, productId, amount, stockReply).after.cart;
    SetAmountQuantity(s.cart, productId, amount, other);
    assert forall i :: 0 <= i < |s.cart| ==> LineId(after[i]) == LineId(s.cart[i]);
  }

  // ---------------------------------------------------------------------------------------------
  // Stock bookkeeping

  /** The cached stock list mirrors the cart (one record per line, keyed alike), and each cached
      level is the product's units in the cart plus the units the remote stock still holds: the
      cached level is the pool the cart draws from. */
  ghost predicate Synced(s: State, remote: map<int, int>) {
    && Keyed.Unique(s.cart, LineId)
    && Keyed.Unique(s.stock, RecordId)
    && Recorded(s)
    && Pooled(s, remote)
  }

  /** Every line of the cart has a cached stock record. */
  ghost predicate Recorded(s: State) {
    forall i :: 0 <= i < |s.cart| ==> HasRecord(s.stock, s.cart[i].id)
  }

  /** Every cached record belongs to a line of the cart, and its level is the pool the cart and
      the remote stock share. */
  ghost predicate Pooled(s: State, remote: map<int, int>) {
    forall i :: 0 <= i < |s.stock| ==>
      && InCart(s.cart, s.stock[i].id)
      && s.stock[i].id in remote
      && Quantity(s.cart, s.stock[i].id) + remote[s.stock[i].id] == s.stock[i].amount
  }

  /** The remote stock after the operation's `PUT`, if it issued one. */
  function ApplyPut(remote: map<int, int>, put: Option<StockRecord>): (r: map<int, int>)
    ensures put.Some? ==> r.Keys == remote.Keys + {put.value.id} && r[put.value.id] == put.value.amount
    ensures forall id :: id in remote && (put.None? || id != put.value.id) ==> id in r && r[id] == remote[id]
  {
    match put
    case None => remote
    case Some(p) => remote[p.id := p.amount]
  }

  /** The reply `GET /stock/{id}` gives when the remote service answers with what it holds. */
  function Lookup(remote: map<int, int>, id: int): (r: Option<StockRecord>)
    requires id in remote
    ensures r.Some? && r.value.id == id && r.value.amount == remote[id]
  {
    Some(StockRecord(id, remote[id]))
  }

  /** An add, answered truthfully by the remote service, keeps the bookkeeping in sync. */
  lemma AddKeepsSynced(s: State, remote: map<int, int>, productId: int, catalogReply: Option<CatalogEntry>)
    requires Synced(s, remote)
    requires productId in remote
    requires CatalogFor(productId, catalogReply)
    ensures var t := AddProduct(s, productId, Lookup(remote, productId), catalogReply);
      Synced(t.after, ApplyPut(remote, t.put))
  {
    var t := AddProduct(s, productId, Lookup(remote, productId), catalogReply);
    if t.error.None? {
      if InCart(s.cart, productId) {
        IncrementKeepsSynced(s, remote, productId);
      } else {
        AppendKeepsSynced(s, remote, LineOf(catalogReply.value, 1));
      }
    }
  }

  /** One more unit on a line, one unit less in the remote stock: the pool is unchanged. */
  lemma IncrementKeepsSynced(s: State, remote: map<int, int>, productId: int)
    requires Synced(s, remote)
    requires productId in remote
    ensures Synced(State(Increment(s.cart, productId), s.stock), remote[productId := remote[productId] - 1])
  {
    SameIdsUnique(s.cart, Increment(s.cart, productId));
    IncrementKeepsRecorded(s, productId);
    IncrementKeepsPooled(s, remote, productId);
  }

  lemma IncrementKeepsRecorded(s: State, productId: int)
    requires Recorded(s)
    ensures Recorded(State(Increment(s.cart, productId), s.stock))
  {
    var cart := Increment(s.cart, productId);
    assert forall i :: 0 <= i < |cart| ==> cart[i].id == s.cart[i].id;
  }

  lemma IncrementKeepsPooled(s: State, remote: map<int, int>, productId: int)
    requires Keyed.Unique(s.cart, LineId)
    requires Pooled(s, remote)
    requires productId in remote
    ensures Pooled(State(Increment(s.cart, productId), s.stock), remote[productId := remote[productId] - 1])
  {
    var cart := Increment(s.cart, productId);
    var remote' := remote[productId := remote[productId] - 1];
    forall i | 0 <= i < |s.stock|
      ensures InCart(cart, s.stock[i].id)
      ensures s.stock[i].id in remote'
      ensures Quantity(cart, s.stock[i].id) + remote'[s.stock[i].id] == s.stock[i].amount
    {
      var id := s.stock[i].id;
      var j :| 0 <= j < |s.cart| && s.cart[j].id == id;
      assert cart[j].id == id;
      IncrementQuantity(s.cart, productId, id);
    }
  }

  /** A new line of one unit, its remote level cached, one unit less in the remote stock: the new
      record's pool is the remote level, and the other pools are unchanged. */
  lemma AppendKeepsSynced(s: State, remote: map<int, int>, line: Product)
    requires Synced(s, remote)
    requires line.id in remote && line.amount == 1
    requires !InCart(s.cart, line.id)
    ensures Synced(State(s.cart + [line], s.stock + [StockRecord(line.id, remote[line.id])]),
                   remote[line.id := remote[line.id] - 1])
  {
    var cart := s.cart + [line];
    var rec := StockRecord(line.id, remote[line.id]);
    var stock := s.stock + [rec];
    Keyed.UniqueSnoc(s.cart, line, LineId);
    assert !HasRecord(s.stock, line.id);
    Keyed.UniqueSnoc(s.stock, rec, RecordId);
    AppendKeepsRecorded(s, line, rec);
    AppendKeepsPooled(s, remote, line);
  }

  lemma AppendKeepsRecorded(s: State, line: Product, rec: StockRecord)
    requires Recorded(s)
    requires rec.id == line.id
    ensures Recorded(State(s.cart + [line], s.stock + [rec]))
  {
    var cart := s.cart + [line];
    var stock := s.stock + [rec];
    forall i | 0 <= i < |cart|
      ensures HasRecord(stock, cart[i].id)
    {
      if i == |s.cart| {
        assert stock[|s.stock|] == rec;
      } else {
        assert cart[i] == s.cart[i];
        var j :| 0 <= j < |s.stock| && s.stock[j].id == s.cart[i].id;
        assert stock[j] == s.stock[j];
      }
    }
  }

  lemma AppendKeepsPooled(s: State, remote: map<int, int>, line: Product)
    requires Pooled(s, remote)
    requires line.id in remote && line.amount == 1
    requires !InCart(s.cart, line.id)
    ensures Pooled(State(s.cart + [line], s.stock + [StockRecord(line.id, remote[line.id])]),
                   remote[line.id := remote[line.id] - 1])
  {
    var cart := s.cart + [line];
    var stock := s.stock + [StockRecord(line.id, remote[line.id])];
    var remote' := remote[line.id := remote[line.id] - 1];
    forall i | 0 <= i < |stock|
      ensures InCart(cart, stock[i].id)
      ensures stock[i].id in remote'
      ensures Quantity(cart, stock[i].id) + remote'[stock[i].id] == stock[i].amount
    {
      var id := stock[i].id;
      QuantityAppend(s.cart, line, id);
      if i == |s.stock| {
        assert cart[|s.cart|] == line;
        QuantityAbsent(s.cart, line.id);
      } else {
        assert stock[i] == s.stock[i];
        var j :| 0 <= j < |s.cart| && s.cart[j].id == id;
        assert cart[j] == s.cart[j];
      }
    }
  }

  /** Dropping a product's line and its cached records keeps the bookkeeping in sync, whatever
      is then written to that product's remote stock. */
  lemma DropKeepsSynced(s: State, remote: map<int, int>, productId: int, restored: int)
    requires Synced(s, remote)
    ensures Synced(State(Keyed.Without(s.cart, LineId, productId), Keyed.Without(s.stock, RecordId, productId)),
                   remote[productId := restored])
  {
    Keyed.WithoutUnique(s.cart, LineId, productId);
    Keyed.WithoutUnique(s.stock, RecordId, productId);
    DropKeepsRecorded(s, productId);
    DropKeepsPooled(s, remote, productId, restored);
  }

  lemma DropKeepsRecorded(s: State, productId: int)
    requires Recorded(s)
    ensures Recorded(State(Keyed.Without(s.cart, LineId, productId), Keyed.Without(s.stock, RecordId, productId)))
  {
    var cart := Keyed.Without(s.cart, LineId, productId);
    var stock := Keyed.Without(s.stock, RecordId, productId);
    Keyed.WithoutMembers(s.cart, LineId, productId);
    Keyed.WithoutMembers(s.stock, RecordId, productId);
    forall i | 0 <= i < |cart|
      ensures HasRecord(stock, cart[i].id)
    {
      assert cart[i] in s.cart;
      var c :| 0 <= c < |s.cart| && s.cart[c] == cart[i];
      assert HasRecord(s.stock, s.cart[c].id);
      var j :| 0 <= j < |s.stock| && s.stock[j].id == s.cart[c].id;
      assert s.stock[j] in stock;
      var k :| 0 <= k < |stock| && stock[k] == s.stock[j];
      assert RecordId(stock[k]) == cart[i].id;
    }
  }

  lemma DropKeepsPooled(s: State, remote: map<int, int>, productId: int, restored: int)
    requires Pooled(s, remote)
    ensures Pooled(State(Keyed.Without(s.cart, LineId, productId), Keyed.Without(s.stock, RecordId, productId)),
                   remote[productId := restored])
  {
    var cart := Keyed.Without(s.cart, LineId, productId);
    var stock := Keyed.Without(s.stock, RecordId, productId);
    Keyed.WithoutMembers(s.cart, LineId, productId);
    Keyed.WithoutMembers(s.stock, RecordId, productId);
    var remote' := remote[productId := restored];
    forall i | 0 <= i < |stock|
      ensures InCart(cart, stock[i].id)
      ensures stock[i].id in remote'
      ensures Quantity(cart, stock[i].id) + remote'[stock[i].id] == stock[i].amount
    {
      var id := stock[i].id;
      assert stock[i] in s.stock;
      var j :| 0 <= j < |s.stock| && s.stock[j] == stock[i];
      assert InCart(s.cart, id);
      var c :| 0 <= c < |s.cart| && s.cart[c].id == id;
      assert s.cart[c] in cart;
      var k :| 0 <= k < |cart| && cart[k] == s.cart[c];
      assert LineId(cart[k]) == id;
      WithoutQuantity(s.cart, productId, id);
    }
  }

  /** A remove, answered truthfully by the remote service, keeps the bookkeeping in sync. */
  lemma RemoveKeepsSynced(s: State, remote: map<int, int>, productId: int)
    requires Synced(s, remote)
    requires productId in remote
    ensures var t := RemoveProduct(s, productId, Lookup(remote, productId));
      Synced(t.after, ApplyPut(remote, t.put))
  {
    var t := RemoveProduct(s, productId, Lookup(remote, productId));
    if InCart(s.cart, productId) {
      DropKeepsSynced(s, remote, productId, t.put.value.amount);
    }
  }

  /** A remove, answered truthfully while the bookkeeping is in sync, writes back exactly the
      product's cached level: every unit the cart held returns to the remote stock. */
  lemma RemoveRestoresPool(s: State, remote: map<int, int>, productId: int, k: int)
    requires Synced(s, remote)
    requires 0 <= k < |s.stock| && s.stock[k].id == productId
    ensures RemoveProduct(s, productId, Lookup(remote, productId)).put == Some(s.stock[k])
  {
    assert InCart(s.cart, productId);
  }

  /** Setting the product's line to `amount` and writing the cached pool minus `amount` to its
      remote stock keeps the bookkeeping in sync. */
  lemma SetKeepsSynced(s: State, remote: map<int, int>, productId: int, amount: int, k: int)
    requires Synced(s, remote)
    requires 0 <= k < |s.stock| && s.stock[k].id == productId
    ensures Synced(State(SetAmount(s.cart, productId, amount), s.stock), remote[productId := s.stock[k].amount - amount])
  {
    var cart := SetAmount(s.cart, productId, amount);
    SameIdsUnique(s.cart, cart);
    SetKeepsRecorded(s, productId, amount);
    SetKeepsPooled(s, remote, productId, amount, k);
  }

  lemma SetKeepsRecorded(s: State, productId: int, amount: int)
    requires Recorded(s)
    ensures Recorded(State(SetAmount(s.cart, productId, amount), s.stock))
  {
    var cart := SetAmount(s.cart, productId, amount);
    assert forall i :: 0 <= i < |cart| ==> cart[i].id == s.cart[i].id;
  }

  lemma SetKeepsPooled(s: State, remote: map<int, int>, productId: int, amount: int, k: int)
    requires Keyed.Unique(s.cart, LineId) && Keyed.Unique(s.stock, RecordId)
    requires Pooled(s, remote)
    requires 0 <= k < |s.stock| && s.stock[k].id == productId
    ensures Pooled(State(SetAmount(s.cart, productId, amount), s.stock), remote[productId := s.stock[k].amount - amount])
  {
    var cart := SetAmount(s.cart, productId, amount);
    var remote' := remote[productId := s.stock[k].amount - amount];
    assert InCart(s.cart, productId);
    forall i | 0 <= i < |s.stock|
      ensures InCart(cart, s.stock[i].id)
      ensures s.stock[i].id in remote'
      ensures Quantity(cart, s.stock[i].id) + remote'[s.stock[i].id] == s.stock[i].amount
    {
      var id := s.stock[i].id;
      var c :| 0 <= c < |s.cart| && s.cart[c].id == id;
      assert cart[c].id == id;
      SetAmountQuantity(s.cart, productId, amount, id);
    }
  }

  /** An update, answered truthfully by the remote service, keeps the bookkeeping in sync: it sets
      the remote stock to the cached pool minus the units now in the cart. */
  lemma UpdateKeepsSynced(s: State, remote: map<int, int>, productId: int, amount: int)
    requires Synced(s, remote)
    requires productId in remote
    ensures var t := UpdateProductAmount(s, productId, amount, Lookup(remote, productId));
      Synced(t.after, ApplyPut(remote, t.put))
  {
    var t := UpdateProductAmount(s, productId, amount, Lookup(remote, productId));
    if t.put.Some? {
      var k := Keyed.FindIndex(s.stock, RecordId, productId);
      SetKeepsSynced(s, remote, productId, amount, k);
    } else if !HasRecord(s.stock, productId) {
      // no cached record means no line either, so the rewrite of the cart changed nothing
      assert !InCart(s.cart, productId);
      assert SetAmount(s.cart, productId, amount) == s.cart;
    }
  }

  /** The gap the source leaves open: when the stock lookup of a remove throws, the line is already
      gone from the cart but its cached stock record stays, so the bookkeeping is out of sync. */
  lemma RemoveLookupFailureDesyncs(s: State, remote: map<int, int>, productId: int)
    requires Synced(s, remote)
    requires InCart(s.cart, productId)
    ensures var t := RemoveProduct(s, productId, None);
      t.error == Some(OperationFailed) && t.saved.Some? && !Synced(t.after, remote)
  {
    var t := RemoveProduct(s, productId, None);
    var c :| 0 <= c < |s.cart| && s.cart[c].id == productId;
    var j :| 0 <= j < |s.stock| && s.stock[j].id == productId;
    assert t.after.stock[j].id == productId;
    assert !InCart(t.after.cart, productId);
  }

  /** The stock list starts empty while the cart is restored from local storage, so right after a
      reload every accepted update of a product in the cart rewrites and saves the cart and then
      fails without a `PUT`. */
  lemma UpdateAfterReload(cart: seq<Product>, productId: int, amount: int, stockReply: Option<StockRecord>)
    requires InCart(cart, productId)
    requires stockReply.Some? && 0 < amount <= stockReply.value.amount
    ensures var t := UpdateProductAmount(State(cart, []), productId, amount, stockReply);
      && t.error == Some(OperationFailed)
      && t.put.None?
      && t.saved == Some(t.after.cart)
      && (forall i :: 0 <= i < |cart| && cart[i].id == productId ==> t.after.cart[i].amount == amount)
      && (Keyed.Unique(cart, LineId) ==> Quantity(t.after.cart, productId) == amount)
  {
    if Keyed.Unique(cart, LineId) {
      SetAmountQuantity(cart, productId, amount, productId);
    }
  }

  /** A remove gives back at least the units the removed line held: while the remote stock is not
      negative, the level it writes is not below the product's quantity in the cart. */
  lemma RemovePutCoversLine(s: State, productId: int, stockReply: Option<StockRecord>)
    requires WellFormed(s.cart)
    requires stockReply.Some? && stockReply.value.amount >= 0
    ensures var t := RemoveProduct(s, productId, stockReply);
      t.put.Some? ==> t.put.value.amount >= Quantity(s.cart, productId) >= 1
  {
    if InCart(s.cart, productId) {
      var c :| 0 <= c < |s.cart| && s.cart[c].id == productId;
      QuantityOfLine(s.cart, c);
    }
  }

  /** While the bookkeeping is in sync, an update never writes a remote level below the units the
      cart held before it: the guard compares the new amount with the remote stock alone, although
      the cart's own units are part of the pool too. */
  lemma UpdatePutCoversLine(s: State, remote: map<int, int>, productId: int, amount: int)
    requires Synced(s, remote)
    requires PositiveAmounts(s.cart)
    requires productId in remote
    ensures var t := UpdateProductAmount(s, productId, amount, Lookup(remote, productId));
      t.put.Some? ==> t.put.value.amount >= Quantity(s.cart, productId) >= 1
  {
    var t := UpdateProductAmount(s, productId, amount, Lookup(remote, productId));
    if t.put.Some? {
      var k := Keyed.FindIndex(s.stock, RecordId, productId);
      assert InCart(s.cart, productId);
      var c :| 0 <= c < |s.cart| && s.cart[c].id == productId;
      QuantityOfLine(s.cart, c);
    }
  }
}
