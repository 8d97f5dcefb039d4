/** The cart badge of the page header: the number of distinct products in the cart and its label. */
module Header {
  import Keyed
  import opened CartModel

  /** The header's `reduce` over the cart: a map from product id to the number of lines carrying
      that id, built left to right; each line adds one to the entry of its id, starting from zero.
      Its keys are the distinct ids of the cart. */
  function Tally(cart: seq<Product>): (total: map<int, int>)
    ensures total.Keys == Keyed.Keys(cart, LineId)
  {
    if |cart| == 0 then map[]
    else
      var init := cart[..|cart| - 1];
      var product := cart[|cart| - 1];
      var total := Tally(init);
      var currentValue := if product.id in total then total[product.id] else 0;
      Keyed.KeysSnoc(init, product, LineId);
      assert cart == init + [product];
      total[product.id := currentValue + 1]
  }

  /** Each entry of the tally counts the lines carrying its id. */
  lemma {:induction false} TallyCounts(cart: seq<Product>, id: int)
    requires id in Tally(cart)
    ensures Tally(cart)[id] == |Keyed.Only(cart, LineId, id)| >= 1
  {
    var init := cart[..|cart| - 1];
    var product := cart[|cart| - 1];
    assert cart == init + [product];
    Keyed.OnlySnoc(init, product, LineId, id);
    if id in Tally(init) {
      TallyCounts(init, id);
    } else {
      Keyed.AnyIsKey(init, LineId, id);
    }
  }

  /** `Object.keys(tally).length`: the number of distinct product ids in the cart. */
  function CartSize(cart: seq<Product>): (n: nat)
    ensures n == |Keyed.Keys(cart, LineId)|
  {
    |Tally(cart).Keys|
  }

  /** The cart size never exceeds the number of lines, equals it exactly when ids are unique, and
      is zero exactly for the empty cart. */
  lemma CartSizeBounds(cart: seq<Product>)
    ensures CartSize(cart) <= |cart|
    ensures CartSize(cart) == |cart| <==> Keyed.Unique(cart, LineId)
    ensures CartSize(cart) == 0 <==> |cart| == 0
  {
    Keyed.KeysCount(cart, LineId);
    if |cart| > 0 {
      assert cart[0].id in Keyed.Keys(cart, LineId);
    }
  }

  /** The fold reads only ids: carts that differ only in amounts (or titles, prices, images) have
      the same tally. */
  lemma {:induction false} TallyIgnoresAmounts(a: seq<Product>, b: seq<Product>)
    requires |a| == |b|
    requires forall i :: 0 <= i < |a| ==> a[i].id == b[i].id
    ensures Tally(a) == Tally(b)
  {
    if |a| > 0 {
      var n := |a| - 1;
      TallyIgnoresAmounts(a[..n], b[..n]);
      TallyStep(a);
      TallyStep(b);
      assert a[n].id == b[n].id;
    }
  }

  /** One step of the fold: the last line adds one to its id's entry. */
  lemma TallyStep(cart: seq<Product>)
    requires |cart| > 0
    ensures var init := Tally(cart[..|cart| - 1]);
      var id := cart[|cart| - 1].id;
      Tally(cart) == init[id := (if id in init then init[id] else 0) + 1]
  {
  }

  /** Carts with the same ids position by position have the same size. */
  lemma CartSizeIgnoresAmounts(a: seq<Product>, b: seq<Product>)
    requires |a| == |b|
    requires forall i :: 0 <= i < |a| ==> a[i].id == b[i].id
    ensures CartSize(a) == CartSize(b)
  {
    TallyIgnoresAmounts(a, b);
  }

  /** Reordering the cart does not change its size. */
  lemma CartSizePermutation(a: seq<Product>, b: seq<Product>)
    requires multiset(a) == multiset(b)
    ensures CartSize(a) == CartSize(b)
  {
    forall id | id in Keyed.Keys(a, LineId)
      ensures id in Keyed.Keys(b, LineId)
    {
      var i :| 0 <= i < |a| && a[i].id == id;
      assert a[i] in multiset(b);
      var j :| 0 <= j < |b| && b[j] == a[i];
    }
    forall id | id in Keyed.Keys(b, LineId)
      ensures id in Keyed.Keys(a, LineId)
    {
      var j :| 0 <= j < |b| && b[j].id == id;
      assert b[j] in multiset(a);
      var i :| 0 <= i < |a| && a[i] == b[j];
    }
    assert Keyed.Keys(a, LineId) == Keyed.Keys(b, LineId);
  }

  // ---------------------------------------------------------------------------------------------
  // The label

  predicate IsDigit(c: char) { '0' <= c <= '9' }

  function DigitChar(d: nat): (c: char)
    requires d < 10
    ensures IsDigit(c)
  {
    (48 + d) as char
  }

  function DigitValue(c: char): int { c as int - 48 }

  /** The decimal numeral of `n`, as a template literal renders a non-negative integer. */
  function Decimal(n: nat): (s: string)
    ensures |s| >= 1
    ensures forall i :: 0 <= i < |s| ==> IsDigit(s[i])
  {
    if n < 10 then [DigitChar(n)] else Decimal(n / 10) + [DigitChar(n % 10)]
  }

  /** The number a string of decimal digits denotes. */
  function Value(s: string): int {
    if |s| == 0 then 0 else Value(s[..|s| - 1]) * 10 + DigitValue(s[|s| - 1])
  }

  /** The number of decimal digits at the front of `s`. */
  function DigitRun(s: string): (k: nat)
    ensures k <= |s|
  {
    if |s| == 0 || !IsDigit(s[0]) then 0 else 1 + DigitRun(s[1..])
  }

  /** The number written at the front of a label. */
  function LeadingNumber(s: string): int {
    Value(s[..DigitRun(s)])
  }

  /** The badge label: the size in decimal, then the singular noun for one product and the plural
      noun for any other count. */
  function Label(cartSize: nat): string {
    if cartSize == 1 then Decimal(cartSize) + " item" else Decimal(cartSize) + " itens"
  }

  lemma {:induction false} DecimalValue(n: nat)
    ensures Value(Decimal(n)) == n
  {
    if n >= 10 {
      var d := Decimal(n / 10);
      DecimalValue(n / 10);
      assert (d + [DigitChar(n % 10)])[..|d|] == d;
    }
  }

  lemma {:induction false} DigitRunOfNumeral(ds: string, rest: string)
    requires forall i :: 0 <= i < |ds| ==> IsDigit(ds[i])
    requires |rest| == 0 || !IsDigit(rest[0])
    ensures DigitRun(ds + rest) == |ds|
  {
    if |ds| > 0 {
      assert (ds + rest)[1..] == ds[1..] + rest;
      DigitRunOfNumeral(ds[1..], rest);
    } else {
      assert ds + rest == rest;
    }
  }

  /** The label starts with the cart size written in decimal. */
  lemma LabelShowsSize(n: nat)
    ensures LeadingNumber(Label(n)) == n
  {
    var d := Decimal(n);
    var rest := if n == 1 then " item" else " itens";
    assert Label(n) == d + rest;
    DigitRunOfNumeral(d, rest);
    assert (d + rest)[..|d|] == d;
    DecimalValue(n);
  }

  /** The label is the singular "1 item" exactly when the size is 1; every other size, 0 included,
      takes the plural. */
  lemma LabelSingular(n: nat)
    ensures Label(n) == "1 item" <==> n == 1
    ensures n != 1 ==> Label(n) == Decimal(n) + " itens"
  {
    assert Decimal(1) == "1";
    if n != 1 {
      var l := Label(n);
      assert l[|l| - 1] == 's';
    }
  }

  /** The badge text shows the number of distinct products and is singular exactly for one. */
  lemma BadgeText(cart: seq<Product>)
    ensures LeadingNumber(Label(CartSize(cart))) == |Keyed.Keys(cart, LineId)|
    ensures Label(CartSize(cart)) == "1 item" <==> |Keyed.Keys(cart, LineId)| == 1
  {
    LabelShowsSize(CartSize(cart));
    LabelSingular(CartSize(cart));
  }
}
