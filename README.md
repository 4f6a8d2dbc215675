# Shopping-cart manager (RocketShoes `useCart` hook) in Dafny

The repository keeps a shopping cart in React state and mirrors it in local
storage under the key `@RocketShoes:cart`. Every cart entry is a product
(`id`, display fields) with the `amount` the user wants. The hook offers
three operations:

- `addProduct(id)` looks up the stock. A product that is already in the cart
  and below its stock is incremented by one, through `updateProductAmount`.
  A product at its stock raises the "out of stock" toast. A new product is
  fetched from the catalog and appended with amount 1.
- `removeProduct(id)` splices out the entry at the first index holding `id`.
  If there is none, it raises the "remove failed" toast.
- `updateProductAmount(id, amount)` returns at once when `amount <= 0`.
  Otherwise it looks up the stock. An amount within stock is written into
  every entry holding `id`. An amount above stock raises "out of stock". An
  id absent from the cart is ignored.

Any failed lookup is caught, and the operation's own failure toast is raised.
Every committed change writes the same new cart to state and to storage. On
start-up, the cart is the stored one, or empty when nothing is stored.

The project has three modules:

- `CartModel` (`cart_model.dfy`) holds the values and the array queries the
  hook uses. `FindIndex`, `Find`, `Splice` and `WithAmount` model
  `findIndex`, `find`, `splice(i, 1)` and the `forEach` that sets amounts.
  It also holds one step function per operation: `AddStep`, `RemoveStep`
  and `UpdateStep`. Each gives the resulting cart and the `Notice`, and its
  contract says when each notice is raised and what the committed cart is.
- `CartProvider` (`cart_provider.dfy`) holds the class `CartManager`, with
  the fields `cart` and `snapshot` (the stored value). Its methods follow
  the source statement by statement. The update path copies the cart into
  an array and runs the `forEach` as an in-place loop (`SetAmountInPlace`).
  Each method is proved to produce the state its step function describes.
  Each method also leaves `snapshot` equal to the cart on a commit, and
  untouched otherwise. The invariant `Valid()` holds from the constructor
  through every method: reloading from storage gives the current cart. `Session` replays a short add/add/update/add session
  and a reload from storage.
- `CartLemmas` (`cart_lemmas.dfy`) holds properties that relate several
  steps. Examples: removing a just-added product restores the cart, and
  updates are idempotent. `RunPreservesWellFormed` shows that any run of
  operations keeps ids unique and amounts at least one.

The remote services are parameters. A stock or catalog answer is
`Fetched(value)` or `LookupFailed`. Toasts become the returned `Notice`:
`Ok` (committed, no toast), `OutOfStock`, `AddFailed`, `RemoveFailed`,
`UpdateFailed`, and `Silent` (no change and no toast).

Three behaviours of the code that are easy to miss:

- A new product is appended without comparing the stock amount. Only a
  failed stock or catalog lookup stops it. So a product with zero stock is
  still added with amount 1.
- The update writes the amount into every entry holding the id (a
  `forEach`), not only into the first one. The two agree when ids are unique.
- The new entry takes its `id` from the catalog answer (`{...response.data,
  amount: 1}`). Uniqueness of ids is therefore proved for catalog answers
  that describe the requested product (`Describes`).

## Model

| member | source | states |
|---|---|---|
| `CartModel.FindIndex` | src/hooks/useCart.tsx:70 | The result is -1 exactly when no entry holds the id; otherwise it is the first index holding the id. |
| `CartModel.Find` | src/hooks/useCart.tsx:63 | `find` returns nothing exactly when `findIndex` returns -1, and otherwise returns the entry at that index. |
| `CartModel.Splice` | src/hooks/useCart.tsx:72 | `splice(i, 1)` with `0 <= i < n` drops exactly element `i` and keeps all others in order; a start past the end removes nothing; -1 drops the last element. |
| `CartModel.WithAmount` | src/hooks/useCart.tsx:97-101 | The length is kept; each entry with the id gets the new amount and keeps all other fields; every other entry is unchanged. |
| `CartProvider.SetAmountInPlace` | src/hooks/useCart.tsx:95-101 | The in-place loop over the copied array leaves it equal to `WithAmount` of its old contents. |
| `CartModel.UpdateStep` | src/hooks/useCart.tsx:81-114 | `Silent` iff the amount is not positive, or the stock is fetched and the id is absent. `UpdateFailed` iff the lookup failed. `OutOfStock` iff the id is present and the amount exceeds stock. A commit keeps the length, order, ids and display fields, and sets the amount only on entries with that id. Any non-commit keeps the cart. Well-formedness is preserved. |
| `CartModel.AddStep` | src/hooks/useCart.tsx:35-59 | `AddFailed` iff the stock lookup fails, or the product is new and the catalog lookup fails. A new product is committed as the old cart plus one entry with amount 1 at the end, whatever the stock. A present entry at or above stock gives `OutOfStock`; below stock the result is exactly `UpdateStep` with amount + 1, which commits that amount when it is positive and is a silent no-op otherwise. Any non-commit keeps the cart. Well-formedness is preserved when the catalog answers for the requested id. |
| `CartModel.RemoveStep` | src/hooks/useCart.tsx:61-79 | `RemoveFailed` iff the id is absent, and the cart is then unchanged. Otherwise the result is the cart without the entry at the first matching index, one shorter. Well-formedness is preserved. |
| `CartProvider.CartManager.constructor` | src/hooks/useCart.tsx:25-33 | The initial cart is the stored snapshot when one exists, else empty; storage is untouched; `Valid()` holds, so a reload from storage gives the current cart. |
| `CartProvider.CartManager.Commit` | src/hooks/useCart.tsx:103-104 | A commit sets the cart and overwrites the stored snapshot with the same cart. |
| `CartProvider.CartManager.UpdateProductAmount` | src/hooks/useCart.tsx:81-114 | The notice and new cart are those of `UpdateStep`. The snapshot equals the cart after a commit and is untouched otherwise; `Valid()` (a reload gives the current cart) is kept. Well-formedness is preserved. |
| `CartProvider.CartManager.AddProduct` | src/hooks/useCart.tsx:35-59 | The notice and new cart are those of `AddStep`, including the delegated update. The snapshot equals the cart after a commit and is untouched otherwise; `Valid()` (a reload gives the current cart) is kept. Well-formedness is preserved for honest catalog answers. |
| `CartProvider.CartManager.RemoveProduct` | src/hooks/useCart.tsx:61-79 | The notice and new cart are those of `RemoveStep`. The snapshot equals the cart after a commit and is untouched otherwise; `Valid()` (a reload gives the current cart) is kept. Well-formedness is preserved. |
| `CartProvider.Session` | src/hooks/useCart.tsx:25-114 | From an empty store with five units in stock: add, add, set to 5, add. The cart ends as one entry with amount 5, the last add reports out of stock, and a reload from storage gives the same cart. |
| `CartLemmas.RemoveLeavesNoEntry` | src/hooks/useCart.tsx:69-75 | With unique ids, removing a present id commits, leaves no entry with that id, and keeps every other entry. |
| `CartLemmas.RemoveUndoesAddNew` | src/hooks/useCart.tsx:49-54 | Adding a product not in the cart and then removing it gives back the original cart. |
| `CartLemmas.UpdateIdempotent` | src/hooks/useCart.tsx:93-104 | Applying the same update twice gives the same notice and cart as applying it once. |
| `CartLemmas.UpdateToCurrentAmountKeepsCart` | src/hooks/useCart.tsx:93-104 | In a well-formed cart, setting an entry to its current amount (within stock) commits an unchanged cart. |
| `CartLemmas.AddIncrementsPresentEntry` | src/hooks/useCart.tsx:40-44 | In a well-formed cart, adding a present product below its stock commits. Exactly that entry's amount grows by one, and the length and all other entries are kept. |
| `CartLemmas.RunPreservesWellFormed` | src/hooks/useCart.tsx:35-114 | Any sequence of add/remove/update calls keeps ids unique and amounts at least one, when catalog answers describe the requested product. |

## Left out

- React plumbing (`createContext`, the provider component, `useCart`, the `useState` setter) is left out. `setCart` is an assignment to the `cart` field.
- The HTTP client is left out. Answers of `stock/{id}` and `products/{id}` are parameters, either a value or a failed lookup.
- The stock is fetched only once. The update that `addProduct` delegates to fetches the stock again; the model reuses the first answer, so the re-fetch cannot fail or differ.
- `toast.error` is left out. Its four messages and the silent returns become the returned `Notice`.
- `localStorage` and JSON are left out. The stored value is a copy of the cart, so the JSON round trip is not modelled. Snapshots are not validated, as in the source. A write that throws (for example, storage full) is not modelled.
- Asynchrony is left out. Each operation is one atomic step, so the lost-update race between overlapping calls is not modelled.
- Aliasing is left out. Entries are values. The source's update shallow-copies the array and then assigns `amount` on entry objects the previous state still shares.
- Numbers are unbounded integers. JavaScript numbers are floating point, and fractional or non-finite amounts are not modelled.
- Display fields (title, price, image) are carried along and never inspected.
- `CartModel.Splice`: its contract states only the starts the hook can produce and -1. The clamping of other negative starts is in the body only.
