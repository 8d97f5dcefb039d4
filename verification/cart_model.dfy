/** The entities the cart store works on: catalog entries, cart line items, stock records, the
    store's state, and the outcome of one cart operation. */
module CartModel {
  import Keyed

  datatype Option<+T> = None | Some(value: T)

  /** A catalog entry as answered by `GET /products/{id}`. */
  datatype CatalogEntry = CatalogEntry(id: int, title: string, price: real, image: string)

  /** A cart line item: a catalog entry together with the quantity held in the cart. */
  datatype Product = Product(id: int, title: string, price: real, image: string, amount: int)

  /** `{ id, amount }`: the body of `GET /stock/{id}` and `PUT /stock/{id}`, and one entry of the
      locally cached stock list. */
  datatype StockRecord = StockRecord(id: int, amount: int)

  /** What an operation reports to the shopper when it does not complete. */
  datatype Failure =
    | OutOfStock       // "Quantidade solicitada fora de estoque", then the operation's generic message
    | NotFound         // removal of a product that is not in the cart
    | OperationFailed  // any other exception, reported with the operation's generic message

  /** The store: the cart (display order) and the locally cached stock list. */
  datatype State = State(cart: seq<Product>, stock: seq<StockRecord>)

  /** The outcome of one operation: the state afterwards, the cart snapshot written to local storage
      (if any), the body of the stock `PUT` issued (if any), and the failure reported (if any).
      A failure may come with a changed state when the source mutated the cart before failing. */
  datatype Transition = Transition(after: State, saved: Option<seq<Product>>, put: Option<StockRecord>, error: Option<Failure>)

  function LineId(p: Product): int { p.id }

  function RecordId(r: StockRecord): int { r.id }

  /** A cart line for a catalog entry, holding `amount` units. */
  function LineOf(e: CatalogEntry, amount: int): Product {
    Product(e.id, e.title, e.price, e.image, amount)
  }

  predicate InCart(cart: seq<Product>, id: int) {
    Keyed.Any(cart, LineId, id)
  }

  predicate HasRecord(stock: seq<StockRecord>, id: int) {
    Keyed.Any(stock, RecordId, id)
  }

  /** Every line holds at least one unit. */
  predicate PositiveAmounts(cart: seq<Product>) {
    forall i :: 0 <= i < |cart| ==> cart[i].amount >= 1
  }

  /** Total number of units of product `id` in the cart, over every line carrying that id. */
  function Quantity(cart: seq<Product>, id: int): int {
    if |cart| == 0 then 0
    else (if cart[0].id == id then cart[0].amount else 0) + Quantity(cart[1..], id)
  }

  /** The cart with one more unit on every line of product `id`; other lines are kept as they are. */
  function Increment(cart: seq<Product>, id: int): (r: seq<Product>)
    ensures |r| == |cart|
    ensures forall i :: 0 <= i < |cart| ==>
      r[i] == if cart[i].id == id then cart[i].(amount := cart[i].amount + 1) else cart[i]
  {
    if |cart| == 0 then []
    else
      var head := if cart[0].id == id then cart[0].(amount := cart[0].amount + 1) else cart[0];
      [head] + Increment(cart[1..], id)
  }

  /** The cart with every line of product `id` set to `amount` units; other lines are kept as they are. */
  function SetAmount(cart: seq<Product>, id: int, amount: int): (r: seq<Product>)
    ensures |r| == |cart|
    ensures forall i :: 0 <= i < |cart| ==>
      r[i] == if cart[i].id == id then cart[i].(amount := amount) else cart[i]
  {
    if |cart| == 0 then []
    else
      var head := if cart[0].id == id then cart[0].(amount := amount) else cart[0];
      [head] + SetAmount(cart[1..], id, amount)
  }

  lemma {:induction false} QuantityAbsent(cart: seq<Product>, id: int)
    requires !InCart(cart, id)
    ensures Quantity(cart, id) == 0
  {
    if |cart| > 0 {
      assert !InCart(cart[1..], id) by {
        assert forall j :: 0 <= j < |cart| - 1 ==> cart[1..][j] == cart[j + 1];
      }
      QuantityAbsent(cart[1..], id);
    }
  }

  lemma {:induction false} QuantityAppend(cart: seq<Product>, p: Product, id: int)
    ensures Quantity(cart + [p], id) == Quantity(cart, id) + (if p.id == id then p.amount else 0)
  {
    if |cart| == 0 {
      assert cart + [p] == [p];
    } else {
      assert (cart + [p])[1..] == cart[1..] + [p];
      QuantityAppend(cart[1..], p, id);
    }
  }

  /** With unique ids, the quantity of a product is the amount on its one line. */
  lemma {:induction false} QuantityOfLine(cart: seq<Product>, k: int)
    requires 0 <= k < |cart|
    ensures Keyed.Unique(cart, LineId) ==> Quantity(cart, cart[k].id) == cart[k].amount
  {
    if Keyed.Unique(cart, LineId) {
      Keyed.UniqueCons(cart[0], cart[1..], LineId);
      assert [cart[0]] + cart[1..] == cart;
      if k == 0 {
        QuantityAbsent(cart[1..], cart[0].id);
      } else {
        assert cart[1..][k - 1] == cart[k];
        QuantityOfLine(cart[1..], k - 1);
      }
    }
  }

  /** Incrementing product `id` adds one unit of `id` when it has a line, and leaves every other
      product's quantity alone. */
  lemma {:induction false} IncrementQuantity(cart: seq<Product>, id: int, other: int)
    requires Keyed.Unique(cart, LineId)
    ensures Quantity(Increment(cart, id), other) ==
      Quantity(cart, other) + (if other == id && InCart(cart, id) then 1 else 0)
  {
    if |cart| > 0 {
      Keyed.UniqueCons(cart[0], cart[1..], LineId);
      assert [cart[0]] + cart[1..] == cart;
      assert Increment(cart, id)[1..] == Increment(cart[1..], id);
      IncrementQuantity(cart[1..], id, other);
      assert InCart(cart, id) <==> cart[0].id == id || InCart(cart[1..], id) by {
        assert forall j :: 0 < j < |cart| ==> cart[j] == cart[1..][j - 1];
      }
    }
  }

  /** Setting product `id` to `amount` makes its quantity `amount` when it has a line, and leaves
      every other product's quantity alone. */
  lemma {:induction false} SetAmountQuantity(cart: seq<Product>, id: int, amount: int, other: int)
    requires Keyed.Unique(cart, LineId)
    ensures Quantity(SetAmount(cart, id, amount), other) ==
      if other == id && InCart(cart, id) then amount else Quantity(cart, other)
  {
    if |cart| > 0 {
      Keyed.UniqueCons(cart[0], cart[1..], LineId);
      assert [cart[0]] + cart[1..] == cart;
      assert SetAmount(cart, id, amount)[1..] == SetAmount(cart[1..], id, amount);
      SetAmountQuantity(cart[1..], id, amount, other);
      assert InCart(cart, id) <==> cart[0].id == id || InCart(cart[1..], id) by {
        assert forall j :: 0 < j < |cart| ==> cart[j] == cart[1..][j - 1];
      }
      if other == id && cart[0].id == id {
        QuantityAbsent(cart[1..], id);
        assert !InCart(SetAmount(cart[1..], id, amount), id);
        QuantityAbsent(SetAmount(cart[1..], id, amount), id);
      }
    }
  }

  /** Filtering product `id` out removes all of its units and no unit of any other product. */
  lemma {:induction false} WithoutQuantity(cart: seq<Product>, id: int, other: int)
    ensures Quantity(Keyed.Without(cart, LineId, id), other) == if other == id then 0 else Quantity(cart, other)
  {
    if |cart| > 0 {
      WithoutQuantity(cart[1..], id, other);
    }
  }
}
