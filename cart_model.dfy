/** Values of the cart manager in src/hooks/useCart.tsx: the cart entries, the
    answers of the stock and catalog services, the notices shown to the user,
    the array queries the hook relies on (find, findIndex, splice, forEach)
    and one step function per operation, stating the cart that results and
    the notice that is raised. */
module CartModel {

  /** Display fields of a product; the cart only carries them along. */
  datatype Details = Details(title: string, price: real, image: string)

  /** A cart entry: the product and the number of units the user wants. */
  datatype Product = Product(id: int, amount: int, details: Details)

  /** The stock service's record for one product. */
  datatype Stock = Stock(id: int, amount: int)

  /** The answer of a remote lookup: the data, or a failed request. */
  datatype Lookup<T> = Fetched(value: T) | LookupFailed

  /** What an operation reports. `Ok` means the new cart was committed (and
      persisted); every other value leaves the cart as it was. `Silent` is a
      return without any toast; the other four are the toasts of the hook. */
  datatype Notice = Ok | OutOfStock | AddFailed | RemoveFailed | UpdateFailed | Silent

  /** The cart an operation leaves behind, with its notice. */
  datatype Transition = Transition(notice: Notice, cart: seq<Product>)

  datatype Option<T> = None | Some(value: T)

  predicate Contains(cart: seq<Product>, id: int)
  {
    exists i :: 0 <= i < |cart| && cart[i].id == id
  }

  /** No two entries share an id. */
  predicate UniqueIds(cart: seq<Product>)
  {
    forall i, j :: 0 <= i < j < |cart| ==> cart[i].id != cart[j].id
  }

  /** The cart invariant: ids are unique and every amount is at least one. */
  predicate WellFormed(cart: seq<Product>)
  {
    UniqueIds(cart) && forall i :: 0 <= i < |cart| ==> cart[i].amount >= 1
  }

  /** The catalog answer is the product that was asked for. */
  predicate Describes(catalog: Lookup<Product>, id: int)
  {
    catalog.Fetched? ==> catalog.value.id == id
  }

  /** `cart.findIndex(p => p.id === id)`: the first index holding `id`, or -1. */
  function FindIndex(cart: seq<Product>, id: int): (i: int)
    ensures -1 <= i < |cart|
    ensures i == -1 <==> !Contains(cart, id)
    ensures 0 <= i ==> cart[i].id == id && forall j :: 0 <= j < i ==> cart[j].id != id
    decreases |cart|
  {
    if |cart| == 0 then -1
    else if cart[0].id == id then 0
    else
      var k := FindIndex(cart[1..], id);
      if k < 0 then -1 else k + 1
  }

  /** `cart.find(p => p.id === id)`: the first entry holding `id`, if any;
      it agrees with FindIndex. */
  function Find(cart: seq<Product>, id: int): (r: Option<Product>)
    ensures r.None? <==> FindIndex(cart, id) == -1
    ensures r.Some? ==> r.value == cart[FindIndex(cart, id)]
    decreases |cart|
  {
    if |cart| == 0 then None
    else if cart[0].id == id then Some(cart[0])
    else Find(cart[1..], id)
  }

  /** The array left by `s.splice(start, 1)`: a negative start counts from
      the end (and is clamped at 0), a start at or past the end removes
      nothing. */
  function Splice<T>(s: seq<T>, start: int): (r: seq<T>)
    ensures start >= |s| ==> r == s
    ensures 0 <= start < |s| ==> |r| == |s| - 1
    ensures 0 <= start < |s| ==> forall k :: 0 <= k < start ==> r[k] == s[k]
    ensures 0 <= start < |s| ==> forall k :: start <= k < |r| ==> r[k] == s[k + 1]
    ensures start < 0 && |s| > 0 ==> |r| == |s| - 1
    ensures start == -1 && |s| > 0 ==> r == s[..|s| - 1]
  {
    var k := if start < 0 then (if |s| + start < 0 then 0 else |s| + start) else start;
    if k < |s| then s[..k] + s[k + 1..] else s
  }

  /** The cart after `forEach(p => { if (p.id === id) p.amount = amount })`:
      every entry with that id gets the new amount, all others are kept. */
  function WithAmount(cart: seq<Product>, id: int, amount: int): (r: seq<Product>)
    ensures |r| == |cart|
    ensures forall i :: 0 <= i < |cart| && cart[i].id == id ==> r[i] == cart[i].(amount := amount)
    ensures forall i :: 0 <= i < |cart| && cart[i].id != id ==> r[i] == cart[i]
    decreases |cart|
  {
    if |cart| == 0 then []
    else
      var head := if cart[0].id == id then cart[0].(amount := amount) else cart[0];
      [head] + WithAmount(cart[1..], id, amount)
  }

  /** updateProductAmount({ productId: id, amount }) with the stock answer
      `stock` (useCart.tsx:81-114). */
  function UpdateStep(cart: seq<Product>, id: int, amount: int, stock: Lookup<Stock>): (r: Transition)
    ensures r.notice in {Ok, OutOfStock, UpdateFailed, Silent}
    ensures r.notice != Ok ==> r.cart == cart
    ensures r.notice == Silent <==> amount <= 0 || (stock.Fetched? && !Contains(cart, id))
    ensures r.notice == UpdateFailed <==> amount > 0 && stock.LookupFailed?
    ensures r.notice == OutOfStock <==>
      amount > 0 && stock.Fetched? && Contains(cart, id) && amount > stock.value.amount
    ensures r.notice == Ok ==> 0 < amount <= stock.value.amount
    ensures r.notice == Ok ==> |r.cart| == |cart|
    ensures r.notice == Ok ==> forall i :: 0 <= i < |cart| ==>
      r.cart[i].id == cart[i].id && r.cart[i].details == cart[i].details &&
      r.cart[i].amount == (if cart[i].id == id then amount else cart[i].amount)
    ensures WellFormed(cart) ==> WellFormed(r.cart)
  {
    if amount <= 0 then Transition(Silent, cart)
    else match stock
      case LookupFailed => Transition(UpdateFailed, cart)
      case Fetched(s) =>
        if Find(cart, id).None? then Transition(Silent, cart)
        else if amount <= s.amount then Transition(Ok, WithAmount(cart, id, amount))
        else Transition(OutOfStock, cart)
  }

  /** addProduct(id) with the stock answer `stock` and the catalog answer
      `catalog` (useCart.tsx:35-59). An entry already present is delegated to
      the update path with its amount plus one, against the same stock record;
      a new product is appended with amount 1, without any stock check. */
  function AddStep(cart: seq<Product>, id: int, stock: Lookup<Stock>, catalog: Lookup<Product>): (r: Transition)
    ensures r.notice in {Ok, OutOfStock, AddFailed, UpdateFailed, Silent}
    ensures r.notice != Ok ==> r.cart == cart
    ensures r.notice == AddFailed <==> stock.LookupFailed? || (!Contains(cart, id) && catalog.LookupFailed?)
    ensures stock.Fetched? && !Contains(cart, id) && catalog.Fetched? ==>
      r.notice == Ok && r.cart == cart + [catalog.value.(amount := 1)]
    ensures stock.Fetched? && Contains(cart, id) && cart[FindIndex(cart, id)].amount < stock.value.amount ==>
      r == UpdateStep(cart, id, cart[FindIndex(cart, id)].amount + 1, stock)
    ensures stock.Fetched? && Contains(cart, id) ==>
      var p := cart[FindIndex(cart, id)];
      (r.notice == OutOfStock <==> p.amount >= stock.value.amount) &&
      (p.amount >= 0 && p.amount < stock.value.amount ==> r == Transition(Ok, WithAmount(cart, id, p.amount + 1))) &&
      (p.amount < 0 && p.amount < stock.value.amount ==> r == Transition(Silent, cart))
    ensures WellFormed(cart) && Describes(catalog, id) ==> WellFormed(r.cart)
  {
    match stock
    case LookupFailed => Transition(AddFailed, cart)
    case Fetched(s) =>
      match Find(cart, id)
      case Some(p) =>
        if p.amount < s.amount then UpdateStep(cart, id, p.amount + 1, stock)
        else Transition(OutOfStock, cart)
      case None =>
        match catalog
        case LookupFailed => Transition(AddFailed, cart)
        case Fetched(q) => Transition(Ok, cart + [q.(amount := 1)])
  }

  /** removeProduct(id) (useCart.tsx:61-79): an absent id fails, otherwise the
      entry at the first matching index is spliced out. */
  function RemoveStep(cart: seq<Product>, id: int): (r: Transition)
    ensures r.notice in {Ok, RemoveFailed}
    ensures r.notice == RemoveFailed <==> !Contains(cart, id)
    ensures r.notice != Ok ==> r.cart == cart
    ensures r.notice == Ok ==> |r.cart| == |cart| - 1
    ensures r.notice == Ok ==>
      var i := FindIndex(cart, id);
      r.cart == cart[..i] + cart[i + 1..]
    ensures WellFormed(cart) ==> WellFormed(r.cart)
  {
    if Find(cart, id).None? then Transition(RemoveFailed, cart)
    else Transition(Ok, Splice(cart, FindIndex(cart, id)))
  }
}
