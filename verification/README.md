# Shopping-cart store and header badge, modelled in Dafny

This project models the cart logic of a small storefront (RocketShoes). The cart store
(`CartProvider` in `src/hooks/useCart.tsx`) keeps the cart lines and a local list of cached stock
levels. It offers three operations, each of which talks to a remote stock/product service:

- `addProduct` raises a line's amount by one or appends a new line of amount 1.
- `removeProduct` filters a line out and gives its units back to the remote stock.
- `updateProductAmount` overwrites a line's amount, guarded by the remote stock level.

The page header (`src/components/Header/index.tsx`) shows a badge with the number of distinct
products in the cart and a singular or plural label.

Each operation is a pure function `State × arguments × remote replies → Transition`:

- A `State` is the cart plus the cached stock list.
- A remote `GET` reply is an input: `Some(body)` when the request answered, `None` when it threw.
- A `Transition` holds the state afterwards, the cart snapshot written to local storage (if any),
  the body of the `PUT /stock/{id}` sent (if any), and the failure reported (if any).

Where the source mutates the cart and then fails, the transition carries both the changed state and
the failure. This happens in a remove whose stock lookup throws, and in an update of a product that
has no cached stock record.

Files:

- `keyed.dfy` (module `Keyed`): `some`, `findIndex` and `filter` on an integer key, key uniqueness,
  and the set of keys.
- `cart_model.dfy` (module `CartModel`): the entities, plus per-product quantities and how the two
  `map` rewrites of the cart change them.
- `cart_store.dfy` (module `CartStore`): the three operations with their contracts.
- `cart_store_proofs.dfy` (module `CartStoreProofs`): lemmas about the three operations.
  - The cart invariant (unique ids, positive amounts) holds on every outcome.
  - Each operation changes the per-product quantities in a known way.
  - The bookkeeping invariant `Synced` is kept by every operation the remote service answers
    truthfully. `Synced` says each cached stock level equals the product's units in the cart plus
    the units left in the remote stock.
  - Two known gaps are stated as lemmas: a remove whose lookup throws breaks `Synced`, and an
    update right after a reload always fails.
- `header.dfy` (module `Header`): the header's `reduce` fold, the distinct-id count, and the label.

With an amount ≤ 0, `updateProductAmount` throws before the out-of-stock toast
(useCart.tsx:124-126), so only the generic update-failure message appears; the model reports
`OperationFailed`, not `OutOfStock`.

In `addProduct`, a stock reply whose `id` differs from the requested id makes `stockApiAmount`
`null`. JavaScript evaluates `null <= 0` as true, so such a reply is treated as out of stock
(`NullableAtMostZero`).

## Model

| member | source | states |
|---|---|---|
| CartStore.AddProduct | src/hooks/useCart.tsx:34-81 | Out of stock is reported exactly when the stock reply is for another id or has no units left. A completed add saves the cart and PUTs the remote amount − 1. It raises only the product's line by 1 (same lines, same order) when present, and otherwise appends one line of amount 1 and caches `{id, remote amount}`. A failed add changes nothing, saves nothing and PUTs nothing, and every failure other than out of stock is the generic `OperationFailed`. |
| CartStore.RemoveProduct | src/hooks/useCart.tsx:83-112 | NotFound exactly when the product has no line, and then nothing changes. Otherwise the cart loses exactly the lines of that id, is shorter, and is saved, even when the stock lookup then throws (no PUT, stock list kept). On an answered lookup, the product's cached records are dropped, the records of every other product stay in number and order (so `filter(...)[0]` later reads the same record), and the PUT sends the product's quantity + the remote amount. |
| CartStore.UpdateProductAmount | src/hooks/useCart.tsx:114-152 | A failed lookup, an amount ≤ 0 or a remote stock below the amount leaves everything untouched, and only the last case is OutOfStock. Otherwise only the product's line is set to the amount and the cart is saved. A PUT of (first cached record − amount) happens exactly when a record for the id is cached; otherwise the result is OperationFailed with the changed cart already saved. Every failure other than out of stock, including a failed lookup and an amount ≤ 0, is `OperationFailed`. |
| Keyed.FindIndex | src/hooks/useCart.tsx:86-91 | The result is −1 exactly when no element has the key; otherwise it is the first position holding the key. |
| Keyed.Only | src/hooks/useCart.tsx:141 | The result holds exactly the elements with the key. It is non-empty exactly when the key occurs, and then its head is the element `findIndex` finds. |
| Keyed.Without | src/hooks/useCart.tsx:93 | The result is never longer than the input, and strictly shorter when the key occurs. |
| Keyed.WithoutMembers | src/hooks/useCart.tsx:93 | Every kept element is from the input and lacks the key; every input element without the key is kept. |
| Keyed.WithoutAppend | src/hooks/useCart.tsx:93 | The filter distributes over concatenation, so it keeps elements in their order and with their multiplicity. |
| Keyed.OnlyWithout | src/hooks/useCart.tsx:102 | After filtering key k out, the elements of any other key are exactly those of the input, in order, and none of key k remain. |
| Keyed.WithoutAt | src/hooks/useCart.tsx:93 | With unique keys, filtering out a key deletes exactly its one element and keeps the rest in order. |
| Keyed.WithoutUnique | src/hooks/useCart.tsx:102 | Filtering keeps keys unique. |
| CartModel.Increment | src/hooks/useCart.tsx:53-55 | Same length; every line of the product gets one more unit, and every other line is unchanged. |
| CartModel.SetAmount | src/hooks/useCart.tsx:134-136 | Same length; every line of the product gets the new amount, and every other line is unchanged. |
| CartModel.IncrementQuantity | src/hooks/useCart.tsx:53-55 | With unique ids, the increment `map` adds one unit of the product when it has a line, and no unit of any other product. |
| CartModel.SetAmountQuantity | src/hooks/useCart.tsx:134-136 | With unique ids, the overwrite `map` makes the product's quantity the new amount when it has a line, and leaves every other product's quantity alone. |
| CartModel.WithoutQuantity | src/hooks/useCart.tsx:93 | Filtering a product out removes all of its units and no unit of another product. |
| CartStoreProofs.AddKeepsWellFormed | src/hooks/useCart.tsx:49-70 | Every outcome of an add keeps the cart's ids unique and its amounts ≥ 1, given that the catalog answers for the requested id. |
| CartStoreProofs.RemoveKeepsWellFormed | src/hooks/useCart.tsx:86-95 | Every outcome of a remove keeps the cart's ids unique and its amounts ≥ 1. |
| CartStoreProofs.UpdateKeepsWellFormed | src/hooks/useCart.tsx:124-139 | Every outcome of an update keeps the cart's ids unique and its amounts ≥ 1. |
| CartStoreProofs.AddOneUnit | src/hooks/useCart.tsx:49-70 | With unique ids, and when the catalog reply carries the requested id, a completed add puts exactly one more unit of the product in the cart and no unit of any other product. The id set becomes the old one plus the product. |
| CartStoreProofs.RemoveDeletesTheLine | src/hooks/useCart.tsx:86-95 | With unique ids, a remove turns the cart into the cart without the product's line, others in their original order, whatever the stock lookup does. |
| CartStoreProofs.RemoveAllUnits | src/hooks/useCart.tsx:93-95 | After a remove of a present product, none of its units remain, other products keep their quantities, and the id set loses exactly that id. |
| CartStoreProofs.UpdateSetsUnits | src/hooks/useCart.tsx:128-139 | With unique ids, an accepted update leaves the product with exactly the requested units when it has a line. Other products keep their quantities and the id set is unchanged. |
| CartStoreProofs.AddKeepsSynced | src/hooks/useCart.tsx:59-75 | An add answered truthfully keeps `Synced`: cached level = units in cart + remote units, with one cached record per line. |
| CartStoreProofs.RemoveKeepsSynced | src/hooks/useCart.tsx:98-107 | A remove answered truthfully keeps `Synced`: the records left still match the lines left, and the remote level written keeps every pool. |
| CartStoreProofs.RemoveRestoresPool | src/hooks/useCart.tsx:98-107 | Under `Synced`, the remote level a remove writes is exactly the product's cached level, so every unit in the cart goes back. |
| CartStoreProofs.UpdateKeepsSynced | src/hooks/useCart.tsx:141-147 | An update answered truthfully keeps `Synced`. The PUT (cached level − new amount) leaves the pool unchanged. |
| CartStoreProofs.RemoveLookupFailureDesyncs | src/hooks/useCart.tsx:93-102 | When a remove's stock lookup throws, the line is gone and saved but the cached record stays, so `Synced` no longer holds. |
| CartStoreProofs.UpdateAfterReload | src/hooks/useCart.tsx:134-142 | With an empty stock list (as after a reload from storage), every accepted update of a product in the cart saves the rewritten cart and then fails without a PUT. |
| CartStoreProofs.RemovePutCoversLine | src/hooks/useCart.tsx:98-107 | On a well-formed cart (unique ids, amounts ≥ 1) and with a non-negative remote level, a remove writes at least the product's quantity, which is ≥ 1. |
| CartStoreProofs.UpdatePutCoversLine | src/hooks/useCart.tsx:128-146 | Under `Synced`, an update never writes a remote level below the units the cart held before. |
| Header.Tally | src/components/Header/index.tsx:16-23 | The fold's keys are exactly the distinct product ids of the cart. |
| Header.TallyCounts | src/components/Header/index.tsx:17-22 | Each entry of the fold counts the lines carrying its id, and that count is at least 1. |
| Header.CartSize | src/components/Header/index.tsx:16-24 | The cart size is the number of distinct product ids. |
| Header.CartSizeBounds | src/components/Header/index.tsx:16-24 | The cart size is ≤ the number of lines, equal to it exactly when ids are unique, and 0 exactly for the empty cart. |
| Header.TallyIgnoresAmounts | src/components/Header/index.tsx:16-23 | Carts with the same ids position by position have the same fold, whatever their amounts, titles, prices and images. |
| Header.CartSizeIgnoresAmounts | src/components/Header/index.tsx:16-24 | Carts with the same ids position by position have the same size. |
| Header.CartSizePermutation | src/components/Header/index.tsx:16-24 | Reordering the cart does not change its size. |
| Header.DecimalValue | src/components/Header/index.tsx:36 | The decimal numeral of n reads back as n. |
| Header.LabelShowsSize | src/components/Header/index.tsx:36 | The label's leading number is the cart size. |
| Header.LabelSingular | src/components/Header/index.tsx:36 | The label is "1 item" exactly when the size is 1, and "N itens" for every other size, 0 included. |
| Header.BadgeText | src/components/Header/index.tsx:16-36 | The badge shows the number of distinct ids, and it is singular exactly when there is one. |

## Left out

- React wiring (`createContext`, `useState`, `useContext`, JSX) has no logic of its own. The state
  before and after an operation is explicit instead.
- Local storage is modelled only as the snapshot written (`Transition.saved`). `JSON.parse` of the
  stored cart at start-up is not modelled. A `setItem` that throws (quota exceeded) is not
  modelled: writes are assumed to succeed.
- The network calls are replies given as inputs plus a PUT body given as an output. A failing PUT
  is not modelled: nothing follows it but the generic toast, so it changes no state.
- Toasts are collapsed into a `Failure` kind. An out-of-stock add or update shows the out-of-stock
  toast and then the operation's generic one; both are represented by `OutOfStock`.
- Interleaving of concurrent operations is not modelled. Each operation is one atomic step.
- JavaScript number semantics are not modelled. Ids and amounts are mathematical integers, and the
  catalog price is a `real`.
- The `useCart` hook (useCart.tsx:163-167) only returns the context, so it is not modelled.
- RemoveProduct: the PUT amount is stated as quantity + remote amount only for carts with unique
  ids. With duplicate ids, the source uses the first matching line's amount; the contract only
  says a PUT for the id is sent.
- AddKeepsWellFormed: the new line takes its id from the catalog reply (`{...product}`), so
  uniqueness is proved only when that reply carries the requested id.
- AddOneUnit: like AddKeepsWellFormed, it assumes the catalog reply carries the requested id. When
  it carries another id, the source appends a line for that other id (useCart.tsx:65), so the
  requested product gains no unit and the other id may end up on two lines.
- AddOneUnit: also stated for carts with unique ids only. The increment `map` touches every line of
  the id, so on a cart with two lines of one id an add adds two units; `Increment` states that
  per-line behaviour for every cart.
- UpdateSetsUnits: stated for carts with unique ids only. The overwrite `map` touches every line of
  the id, so on a cart with two lines of one id an update to n leaves 2·n units; `SetAmount` states
  that per-line behaviour for every cart.
- RemovePutCoversLine: stated for well-formed carts only. With duplicate ids the PUT reads the first
  line's amount (useCart.tsx:87, :100), which can be below the product's total quantity.
- CartSizePermutation: only the size is stated to be order-independent, not each per-id count of
  the fold.
