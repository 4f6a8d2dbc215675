/** Properties of the cart operations of src/hooks/useCart.tsx that relate
    several steps, or that need the uniqueness of ids. */
module CartLemmas {
  import opened CartModel

  /** With unique ids, removing an id that is present leaves no entry with it,
      and every other entry stays, in its order. */
  lemma RemoveLeavesNoEntry(cart: seq<Product>, id: int)
    requires UniqueIds(cart) && Contains(cart, id)
    ensures var r := RemoveStep(cart, id);
      r.notice == Ok && !Contains(r.cart, id) &&
      forall i :: 0 <= i < |cart| && cart[i].id != id ==> cart[i] in r.cart
  {
  }

  /** Removing a product right after adding it as a new entry restores the cart. */
  lemma RemoveUndoesAddNew(cart: seq<Product>, id: int, s: Stock, q: Product)
    requires !Contains(cart, id) && q.id == id
    ensures var added := AddStep(cart, id, Fetched(s), Fetched(q));
      added.notice == Ok && RemoveStep(added.cart, id) == Transition(Ok, cart)
  {
    var grown := cart + [q.(amount := 1)];
    assert grown[|cart|].id == id;
    assert FindIndex(grown, id) == |cart|;
    assert grown[..|cart|] == cart;
  }

  /** Setting the same amount twice is the same as setting it once. */
  lemma UpdateIdempotent(cart: seq<Product>, id: int, amount: int, stock: Lookup<Stock>)
    ensures var once := UpdateStep(cart, id, amount, stock);
      UpdateStep(once.cart, id, amount, stock) == once
  {
  }

  /** In a well-formed cart, setting an entry to the amount it already has
      changes nothing (though it is still a commit). */
  lemma UpdateToCurrentAmountKeepsCart(cart: seq<Product>, id: int, s: Stock)
    requires WellFormed(cart) && Contains(cart, id)
    requires cart[FindIndex(cart, id)].amount <= s.amount
    ensures UpdateStep(cart, id, cart[FindIndex(cart, id)].amount, Fetched(s)) == Transition(Ok, cart)
  {
    var k := FindIndex(cart, id);
    var same := WithAmount(cart, id, cart[k].amount);
    forall i | 0 <= i < |cart|
      ensures same[i] == cart[i]
    {
      if cart[i].id == id {
        assert i == k;
      }
    }
    assert same == cart;
  }

  /** Adding a product that is present and below its stock increments exactly
      that entry's amount. */
  lemma AddIncrementsPresentEntry(cart: seq<Product>, id: int, s: Stock, catalog: Lookup<Product>)
    requires WellFormed(cart) && Contains(cart, id)
    requires cart[FindIndex(cart, id)].amount < s.amount
    ensures var r := AddStep(cart, id, Fetched(s), catalog);
      var k := FindIndex(cart, id);
      r.notice == Ok && |r.cart| == |cart| &&
      r.cart[k] == cart[k].(amount := cart[k].amount + 1) &&
      forall i :: 0 <= i < |cart| && i != k ==> r.cart[i] == cart[i]
  {
  }

  /** One call made by the UI, with the answers its lookups receive. */
  datatype Op =
    | Add(id: int, stock: Lookup<Stock>, catalog: Lookup<Product>)
    | Remove(id: int)
    | Update(id: int, amount: int, stock: Lookup<Stock>)

  function Apply(cart: seq<Product>, op: Op): (r: Transition)
  {
    match op
    case Add(id, stock, catalog) => AddStep(cart, id, stock, catalog)
    case Remove(id) => RemoveStep(cart, id)
    case Update(id, amount, stock) => UpdateStep(cart, id, amount, stock)
  }

  /** The cart after the operations run one after another, each as one
      atomic step. */
  function Run(cart: seq<Product>, ops: seq<Op>): (r: seq<Product>)
    decreases |ops|
  {
    if |ops| == 0 then cart else Run(Apply(cart, ops[0]).cart, ops[1..])
  }

  /** Every catalog answer describes the product it was asked for. */
  predicate HonestCatalog(ops: seq<Op>)
  {
    forall k :: 0 <= k < |ops| && ops[k].Add? ==> Describes(ops[k].catalog, ops[k].id)
  }

  /** Unique ids and positive amounts hold after any run of operations. */
  lemma {:induction false} RunPreservesWellFormed(cart: seq<Product>, ops: seq<Op>)
    requires WellFormed(cart) && HonestCatalog(ops)
    ensures WellFormed(Run(cart, ops))
    decreases |ops|
  {
    if |ops| > 0 {
      var next := Apply(cart, ops[0]);
      assert WellFormed(next.cart);
      assert HonestCatalog(ops[1..]) by {
        forall k | 0 <= k < |ops[1..]| && ops[1..][k].Add?
          ensures Describes(ops[1..][k].catalog, ops[1..][k].id)
        {
          assert ops[1..][k] == ops[k + 1];
        }
      }
      RunPreservesWellFormed(next.cart, ops[1..]);
    }
  }
}
