/** The stateful part of src/hooks/useCart.tsx: the `cart` state and the
    '@RocketShoes:cart' entry of local storage, updated by the three
    operations. Remote lookups arrive as parameters and toasts leave as the
    returned Notice. Entries are values here: the source's update copies the
    array and then assigns `amount` on entry objects that the previous state
    still shares, an aliasing this model does not reproduce. */
module CartProvider {
  import opened CartModel

  /** The `forEach` of updateProductAmount over the copied array: every
      element holding `id` gets `amount`, in place. */
  method SetAmountInPlace(a: array<Product>, id: int, amount: int)
    modifies a
    ensures a[..] == WithAmount(old(a[..]), id, amount)
  {
    ghost var was := a[..];
    ghost var want := WithAmount(was, id, amount);
    var i := 0;
    while i < a.Length
      invariant 0 <= i <= a.Length
      invariant forall k :: 0 <= k < i ==> a[k] == want[k]
      invariant forall k :: i <= k < a.Length ==> a[k] == was[k]
    {
      if a[i].id == id {
        a[i] := a[i].(amount := amount);
      }
      i := i + 1;
    }
    assert a[..] == want;
  }

  class CartManager {
    /** The in-memory cart. */
    var cart: seq<Product>
    /** The value stored under the '@RocketShoes:cart' key of local
        storage; None when nothing is stored there. */
    var snapshot: Option<seq<Product>>

    /** Reloading from storage gives the current cart: the stored value when
        there is one, else the empty cart. */
    ghost predicate Valid()
      reads this
    {
      cart == if snapshot.Some? then snapshot.value else []
    }

    /** The useState initializer: the stored cart if there is one, else empty. */
    constructor (stored: Option<seq<Product>>)
      ensures Valid()
      ensures snapshot == stored
      ensures cart == if stored.Some? then stored.value else []
    {
      snapshot := stored;
      cart := if stored.Some? then stored.value else [];
    }

    /** The state after a commit: cart and snapshot are both `newCart`. */
    method Commit(newCart: seq<Product>)
      modifies this
      ensures cart == newCart && snapshot == Some(newCart)
    {
      cart := newCart;
      snapshot := Some(newCart);
    }

    method UpdateProductAmount(productId: int, amount: int, stock: Lookup<Stock>) returns (notice: Notice)
      requires Valid()
      modifies this
      ensures Valid()
      ensures Transition(notice, cart) == UpdateStep(old(cart), productId, amount, stock)
      ensures snapshot == if notice == Ok then Some(cart) else old(snapshot)
      ensures WellFormed(old(cart)) ==> WellFormed(cart)
    {
      if amount <= 0 {
        return Silent;
      }
      if stock.LookupFailed? {
        return UpdateFailed;
      }
      var product := Find(cart, productId);
      if product.Some? {
        if amount <= stock.value.amount {
          var current := cart;
          var newCart := new Product[|current|](i requires 0 <= i < |current| => current[i]);
          assert newCart[..] == current;
          SetAmountInPlace(newCart, productId, amount);
          Commit(newCart[..]);
          notice := Ok;
        } else {
          notice := OutOfStock;
        }
      } else {
        notice := Silent;
      }
    }

    method AddProduct(productId: int, stock: Lookup<Stock>, catalog: Lookup<Product>) returns (notice: Notice)
      requires Valid()
      modifies this
      ensures Valid()
      ensures Transition(notice, cart) == AddStep(old(cart), productId, stock, catalog)
      ensures snapshot == if notice == Ok then Some(cart) else old(snapshot)
      ensures WellFormed(old(cart)) && Describes(catalog, productId) ==> WellFormed(cart)
    {
      if stock.LookupFailed? {
        return AddFailed;
      }
      var product := Find(cart, productId);
      if product.Some? {
        if product.value.amount < stock.value.amount {
          notice := UpdateProductAmount(productId, product.value.amount + 1, stock);
        } else {
          notice := OutOfStock;
        }
      } else {
        if catalog.LookupFailed? {
          return AddFailed;
        }
        var newCart := cart + [catalog.value.(amount := 1)];
        Commit(newCart);
        notice := Ok;
      }
    }

    method RemoveProduct(productId: int) returns (notice: Notice)
      requires Valid()
      modifies this
      ensures Valid()
      ensures Transition(notice, cart) == RemoveStep(old(cart), productId)
      ensures snapshot == if notice == Ok then Some(cart) else old(snapshot)
      ensures WellFormed(old(cart)) ==> WellFormed(cart)
    {
      var product := Find(cart, productId);
      if product.None? {
        return RemoveFailed;
      }
      var newCart := cart;
      var indexToRemove := FindIndex(cart, productId);
      newCart := Splice(newCart, indexToRemove);
      Commit(newCart);
      notice := Ok;
    }
  }

  /** A session on an empty store with five units of product 1 in stock:
      add, add, set the amount to five, add once more; then a reload from
      storage. */
  method Session(details: Details) returns (final: seq<Product>, last: Notice, reloaded: seq<Product>)
    ensures final == [Product(1, 5, details)] && last == OutOfStock
    ensures reloaded == final
  {
    var stock := Fetched(Stock(1, 5));
    var catalog := Fetched(Product(1, 0, details));
    var m := new CartManager(None);
    var n := m.AddProduct(1, stock, catalog);
    assert m.cart == [Product(1, 1, details)];
    n := m.AddProduct(1, stock, catalog);
    assert m.cart == [Product(1, 2, details)];
    n := m.UpdateProductAmount(1, 5, stock);
    assert m.cart == [Product(1, 5, details)];
    last := m.AddProduct(1, stock, catalog);
    final := m.cart;
    var again := new CartManager(m.snapshot);
    reloaded := again.cart;
  }
}
