# Shelf and order bookkeeping of the CloudKitchens ordering system

This project models the part of the CloudKitchens Android ordering system that keeps track of orders. Arriving orders are placed on Hot, Cold, Frozen and Overflow shelves. Couriers take orders off the shelves. A periodic heartbeat tidies the shelves. The model follows the Kotlin classes `BaseShelf` and `ShelfManager`. Each handler is a pure Dafny function from one manager value to the next.

- `optional.dfy`, module `Optional`: `Option`, standing for Kotlin's nullable results.
- `orders.dfy`, module `Orders`:
  - the arriving order record (`KitchenOrderServerDetail`) and the stored order record (`KitchenOrderDetail`);
  - `FromServer`, which builds one from the other on arrival.
- `base_shelf.dfy`, module `BaseShelf`: the keyed order container.
  - A shelf is the sequence of its orders in the iteration order of the source's `mutableMapOf`, an insertion-ordered hash map keyed by order id. No id occurs twice.
  - Operations: upsert (`addOrder`), removal by id (`removeOrder(id)`), the expired-order filter (`removeOrder()`), and the two timestamp queries `getOldestOrder` and `getNewstOrder`.
  - `getOrdersCount` is the shelf's length.
  - Every query is a function of the shelf value, so none of them can change the shelf.
- `shelf_manager.dfy`, module `ShelfManager`: the four shelves and their capacities.
  - The arrival handler (the body of the `kitchenOrderDispatcher` loop).
  - The courier handler (`shelfUpdateSelector` and the helpers it goes through).
  - The heartbeat (`removeExpiredOrders` then `moveOrdersFromOverflow`).
  - The status record (`copyShelfOrders`/`generateKitchenOrder`).
  - `moveOrdersFromOverflow` is also modelled as a method with the source's two loops, and is proved equal to its one-step functional summary.
- `manager_properties.dfy`, module `ManagerProperties`: the three handlers as one step function over events, and what every run of steps keeps:
  - shelf capacities;
  - one shelf per order id, given fresh arrival ids;
  - order counts.

Several behaviours differ from what the names and comments in the source suggest. The model states what the code does:
- `getOldestOrder` returns an order with the greatest timestamp, the last such one in iteration order. `getNewstOrder` returns an order with the smallest, the first such one.
- A courier takes the order with the greatest timestamp. It does not deliver the order: it moves it to Overflow, or drops it when Overflow's count equals its capacity.
- An order arriving at a full home shelf is put on no shelf. The handler only runs the expired-order path, and that path finds nothing, because `isExpired` always answers false.
- `moveOrdersFromOverflow` moves at most one order per call. Overflow is not changed inside its loop, so every pass sees the same `getOldestOrder` result.
- In `expiredOrdersRemoveHelper` the `return@forEach` after each add only skips to the next element, and the sorted list is thrown away. Every listed order is added, so Overflow's capacity holds only when the list fits the free slots. `ExpiredOrdersRemoveHelperOverfills` exhibits a manager within capacity that the helper takes past it. No caller ever passes a non-empty list, because no order is ever reported expired.
- Overflow's count is compared with its capacity by `==` (`expiredOrderRemoveHelper`, `expiredOrdersRemoveHelper`) and by `<` (`removeExpiredOrders`). A home shelf's count is compared by `>=` on arrival and by `<` on reclamation. The model keeps each comparison as written.

## Model

| member | source | states |
|---|---|---|
| Orders.FromServer | app/src/main/java/css/com/cloudkitchens/managers/ShelfManager.kt:276-286 | The stored record carries the arriving order's id, name, tag, shelf life, decay rate and timestamp, starts with normalized life 1.0 and decay 0.0, and has the whole shelf life remaining. |
| BaseShelf.IsExpired | app/src/main/java/css/com/cloudkitchens/shelves/BaseShelf.kt:9-11 | Never reports an order as expired. |
| BaseShelf.IndexOf | app/src/main/java/css/com/cloudkitchens/shelves/BaseShelf.kt:54 | The key lookup finds a position exactly when the id is held, and that position holds the id. |
| BaseShelf.AddOrder | app/src/main/java/css/com/cloudkitchens/shelves/BaseShelf.kt:59-61 | Upsert by id: afterwards the order is held and is the only entry with its id. Every entry with another id is kept, and nothing else appears. The ids gain the order's id. The count grows by one exactly when the id was absent. |
| BaseShelf.AddOrderIdempotent | app/src/main/java/css/com/cloudkitchens/shelves/BaseShelf.kt:59-61 | Adding an order the shelf already holds leaves the shelf as it is. |
| BaseShelf.RemoveOrder | app/src/main/java/css/com/cloudkitchens/shelves/BaseShelf.kt:53-57 | An absent id, including on an empty shelf, gives null and an unchanged shelf. A present id gives the order held under it. Exactly the entries with other ids remain, and the count drops by one. |
| BaseShelf.RemoveUndoesAdd | app/src/main/java/css/com/cloudkitchens/shelves/BaseShelf.kt:53-61 | Removing the id of an order just added under a new key returns that order and the original shelf. |
| BaseShelf.AddUndoesRemove | app/src/main/java/css/com/cloudkitchens/shelves/BaseShelf.kt:53-61 | Adding back a removed order restores the shelf's orders and its count. |
| BaseShelf.RemoveAtContents | app/src/main/java/css/com/cloudkitchens/shelves/BaseShelf.kt:56 | Cutting one entry out of a shelf keeps ids distinct and leaves exactly the orders with other ids, one fewer. |
| BaseShelf.ExpiredIn | app/src/main/java/css/com/cloudkitchens/shelves/BaseShelf.kt:66-72 | The filter loop collects exactly the held orders `isExpired` selects. With none expired it collects nothing. |
| BaseShelf.RemoveExpired | app/src/main/java/css/com/cloudkitchens/shelves/BaseShelf.kt:63-73 | `removeOrder()` returns exactly the expired held orders, which is always the empty list, since `isExpired` (lines 9-11) is constantly false. |
| BaseShelf.OldestOrder | app/src/main/java/css/com/cloudkitchens/shelves/BaseShelf.kt:25-37 | Null exactly for an empty shelf. Otherwise the result is a held order whose timestamp is at least every held timestamp. |
| BaseShelf.OldestOrderLastOfTies | app/src/main/java/css/com/cloudkitchens/shelves/BaseShelf.kt:28-35 | With the `>=` comparison the result is the last entry in iteration order with the greatest timestamp. |
| BaseShelf.OldestScan | app/src/main/java/css/com/cloudkitchens/shelves/BaseShelf.kt:30-35 | The scan from any position ends on an entry whose timestamp is at least the running best and every timestamp, with every later entry strictly smaller. |
| BaseShelf.NewestOrder | app/src/main/java/css/com/cloudkitchens/shelves/BaseShelf.kt:39-51 | Null exactly for an empty shelf or one whose every timestamp is `Long.MAX_VALUE`. Otherwise the result is a held order below `Long.MAX_VALUE` whose timestamp is at most every held timestamp. |
| BaseShelf.NewestOrderFirstOfTies | app/src/main/java/css/com/cloudkitchens/shelves/BaseShelf.kt:42-49 | With the strict `<` comparison the result is the first entry in iteration order with the smallest timestamp. |
| BaseShelf.NewestScan | app/src/main/java/css/com/cloudkitchens/shelves/BaseShelf.kt:44-49 | The scan from any position ends on an entry at most the running best and every timestamp, with every earlier entry strictly greater. It finds nothing only if every remaining timestamp is at least the running best. |
| ShelfManager.Init | app/src/main/java/css/com/cloudkitchens/managers/ShelfManager.kt:39-43 | The manager starts with four empty shelves. |
| ShelfManager.ExpiredOrderRemoveHelper | app/src/main/java/css/com/cloudkitchens/managers/ShelfManager.kt:57-63 | The order goes onto Overflow unless Overflow's count equals its capacity, in which case nothing changes. Home shelves are untouched, and Overflow within capacity stays within it. |
| ShelfManager.AddAll | app/src/main/java/css/com/cloudkitchens/managers/ShelfManager.kt:80-86 | Every listed order is added in turn. Entries whose ids are not listed are kept, nothing unlisted appears, and the count grows by at most the list's length. |
| ShelfManager.AddAllIds | app/src/main/java/css/com/cloudkitchens/managers/ShelfManager.kt:80-86 | Afterwards the held ids are the old ids together with every listed id; the loop is not cut short. |
| ShelfManager.AddAllFresh | app/src/main/java/css/com/cloudkitchens/managers/ShelfManager.kt:80-86 | Listed orders with distinct new ids all land on the shelf, one slot each. |
| ShelfManager.ExpiredOrdersRemoveHelper | app/src/main/java/css/com/cloudkitchens/managers/ShelfManager.kt:71-87 | Overflow at capacity, or an empty list, changes nothing. Otherwise Overflow gains every listed id, keeps every unlisted entry, and the home shelves are untouched. |
| ShelfManager.RemoveExpiredOrders | app/src/main/java/css/com/cloudkitchens/managers/ShelfManager.kt:115-128 | Since no order is reported expired, the step changes nothing: shelves and capacities come back as they were. |
| ShelfManager.ReclaimCandidate | app/src/main/java/css/com/cloudkitchens/managers/ShelfManager.kt:140-166 | The order a pass moves is `getOldestOrder`'s pick on Overflow. It has a known tag, and its home shelf is below capacity. |
| ShelfManager.AfterPlacement | app/src/main/java/css/com/cloudkitchens/managers/ShelfManager.kt:137-172 | The placement loop never changes Overflow or the capacities. |
| ShelfManager.ReclaimFromOverflowMovesOne | app/src/main/java/css/com/cloudkitchens/managers/ShelfManager.kt:135-179 | If Overflow's greatest-timestamp order has an unknown tag or a full home shelf, nothing changes. Otherwise exactly that order moves to its home shelf and off Overflow, and the other shelves are unchanged. |
| ShelfManager.ReclaimPass | app/src/main/java/css/com/cloudkitchens/managers/ShelfManager.kt:140-170 | One loop pass leads from the start state to the placed state, and leaves the placed state where it is. Every noted order is the one order moved. |
| ShelfManager.CleanupRemoves | app/src/main/java/css/com/cloudkitchens/managers/ShelfManager.kt:174-178 | The first clean-up removal of the moved order's id gives the final state, and repeats change nothing. |
| ShelfManager.PlaceFromOverflow | app/src/main/java/css/com/cloudkitchens/managers/ShelfManager.kt:136-172 | After `count + 1` passes the candidate is on its home shelf. The removal list is empty exactly when there was no candidate, and otherwise holds only that order. |
| ShelfManager.MoveOrdersFromOverflow | app/src/main/java/css/com/cloudkitchens/managers/ShelfManager.kt:135-179 | The two loops as written end in the same state as the one-move summary `ReclaimFromOverflow`. |
| ShelfManager.PickupCandidate | app/src/main/java/css/com/cloudkitchens/managers/ShelfManager.kt:187 | The head of the list sorted by descending timestamp is a held order with the greatest timestamp. |
| ShelfManager.PickupCandidateFirstOfTies | app/src/main/java/css/com/cloudkitchens/managers/ShelfManager.kt:187 | The sort is stable, so among equal greatest timestamps the first entry in iteration order is taken. |
| ShelfManager.FirstMaxScan | app/src/main/java/css/com/cloudkitchens/managers/ShelfManager.kt:187 | The scan ends on an entry with the greatest timestamp, with every earlier entry strictly smaller. |
| ShelfManager.ShelfUpdateSelector | app/src/main/java/css/com/cloudkitchens/managers/ShelfManager.kt:181-204 | An unknown tag or an empty home shelf changes nothing. Otherwise the order with the greatest timestamp leaves its home shelf, which shrinks by one, and other home shelves are unchanged. The order goes onto Overflow exactly when Overflow's count differs from its capacity; otherwise it is dropped. |
| ShelfManager.CopyShelfOrders | app/src/main/java/css/com/cloudkitchens/managers/ShelfManager.kt:239-249 | The two copies hold exactly the orders of the chosen shelf and of Overflow, with the same counts. |
| ShelfManager.GenerateKitchenOrder | app/src/main/java/css/com/cloudkitchens/managers/ShelfManager.kt:251-256 | The status record carries the tag, the chosen shelf's orders and ids, and Overflow's orders and ids. |
| ShelfManager.DispatchOrder | app/src/main/java/css/com/cloudkitchens/managers/ShelfManager.kt:263-347 | An unknown tag changes nothing and emits nothing. A full home shelf leaves every shelf unchanged. A home shelf with room gets the order, under its id, with decay fields 1.0, 0.0 and the shelf life; everything else is unchanged. A known tag emits the status record of the new state. |
| ShelfManager.Heartbeat | app/src/main/java/css/com/cloudkitchens/managers/ShelfManager.kt:228-233 | Ageing, then `removeExpiredOrders`, then `moveOrdersFromOverflow` amount to one reclamation from Overflow. |
| ManagerProperties.Step | app/src/main/java/css/com/cloudkitchens/managers/ShelfManager.kt:44-46 | Each event goes to its handler, and no handler changes the capacity parameters. |
| ManagerProperties.ArrivalKeepsCapacity | app/src/main/java/css/com/cloudkitchens/managers/ShelfManager.kt:270-288 | An arrival keeps every shelf within capacity. |
| ManagerProperties.PickupKeepsCapacity | app/src/main/java/css/com/cloudkitchens/managers/ShelfManager.kt:57-63 | A pickup keeps every shelf, Overflow included, within capacity. |
| ManagerProperties.HeartbeatKeepsCapacity | app/src/main/java/css/com/cloudkitchens/managers/ShelfManager.kt:143-165 | A heartbeat keeps every shelf within capacity. |
| ManagerProperties.RunKeepsCapacity | app/src/main/java/css/com/cloudkitchens/managers/ShelfManager.kt:44-46 | No sequence of arrivals, pickups and heartbeats takes any shelf over its capacity. |
| ManagerProperties.ArrivalKeepsDisjoint | app/src/main/java/css/com/cloudkitchens/managers/ShelfManager.kt:270-288 | An arrival with an id no shelf holds keeps every id on at most one shelf. |
| ManagerProperties.PickupKeepsDisjoint | app/src/main/java/css/com/cloudkitchens/managers/ShelfManager.kt:181-204 | A pickup keeps every id on at most one shelf. |
| ManagerProperties.HeartbeatKeepsDisjoint | app/src/main/java/css/com/cloudkitchens/managers/ShelfManager.kt:135-179 | A heartbeat keeps every id on at most one shelf. |
| ManagerProperties.RunKeepsDisjoint | app/src/main/java/css/com/cloudkitchens/managers/ShelfManager.kt:44-46 | With fresh ids on arrival, no id is ever held on two shelves. |
| ManagerProperties.ArrivalCount | app/src/main/java/css/com/cloudkitchens/managers/ShelfManager.kt:268-292 | An arrival adds one order exactly when its tag is known, its home shelf has room, and its id is not already there. Otherwise the count is unchanged. |
| ManagerProperties.PickupCount | app/src/main/java/css/com/cloudkitchens/managers/ShelfManager.kt:181-204 | A pickup keeps the total count or lowers it by one. For a known tag whose home shelf is not empty, and with disjoint shelves, it keeps it exactly when Overflow's count differs from its capacity. |
| ManagerProperties.HeartbeatCount | app/src/main/java/css/com/cloudkitchens/managers/ShelfManager.kt:135-179 | A heartbeat never raises the total count, and with disjoint shelves keeps it. |
| ManagerProperties.RunCount | app/src/main/java/css/com/cloudkitchens/managers/ShelfManager.kt:44-46 | After any run the shelves hold at most the starting orders plus one per arrival. |
| ManagerProperties.ExpiredOrdersRemoveHelperCapacity | app/src/main/java/css/com/cloudkitchens/managers/ShelfManager.kt:71-87 | Overflow stays within capacity when the list fits the free slots. Below capacity, a list of distinct new ids is added whole. |
| ManagerProperties.ExpiredOrdersRemoveHelperOverfills | app/src/main/java/css/com/cloudkitchens/managers/ShelfManager.kt:80-86 | Some manager within capacity is taken past Overflow's capacity by the helper. |
| ManagerProperties.PickupTakesGreatestTimestamp | app/src/main/java/css/com/cloudkitchens/managers/ShelfManager.kt:187 | The courier takes an order with the timestamp `getOldestOrder` reports, the greatest. It is the very same order when timestamps are distinct. |
| ManagerProperties.StatusShowsArrival | app/src/main/java/css/com/cloudkitchens/managers/ShelfManager.kt:289-291 | The emitted record lists the new order exactly when its home shelf had room or already held that record, and lists Overflow unchanged. |
| ManagerProperties.UnknownTagIgnored | app/src/main/java/css/com/cloudkitchens/managers/ShelfManager.kt:182-203 | A tag other than "hot", "cold" and "frozen" changes nothing: no status record on arrival, and no order taken on pickup. |

## Left out

- Concurrency: the model assumes that the three handlers run one at a time, each to completion. The source does not enforce this. Its delivery loop runs on the IO dispatcher (ShelfManager.kt:211) and the other two loops on the default pool (:224, :264), in parallel. Only four helpers are `@Synchronized` (:92, :101, :114, :134). The arrival handler's capacity test (:270) and add (:275), the courier's emptiness test (:185) and the ageing calls (:228-231) take no lock. For example, an arrival can read the hot count as one below capacity, a heartbeat can then move a hot order back onto the hot shelf, and the arrival's add then puts the hot shelf one over capacity. The channel reads become the `Event` values of `ManagerProperties`; job cancellation is not modelled.
- ManagerProperties.RunKeepsCapacity: holds only for runs in which the handlers execute one after another, not for the interleavings the source permits.
- ManagerProperties.RunKeepsDisjoint: holds only for runs in which the handlers execute one after another.
- ManagerProperties.RunCount: holds only for runs in which the handlers execute one after another.
- The heartbeat's timing (`delay`, the clock and the log line) is left out; only the step sequence is modelled.
- Ageing is assumed to change nothing. `ageOrder` belongs to the shelf subclasses `ShelfHot`, `ShelfCold`, `ShelfFrozen` and `ShelfOverflow`, which are not part of this model, and they cannot reach the base shelf's private order map anyway. The decay and value arithmetic and the floating-point `Double` fields are not computed. The fields are `real` values that are only copied or set to the constants the arrival handler uses.
- `isExpired` is modelled exactly as its stub: it never reports an order as expired.
- `getKitchenOrderDetailList` is called at ShelfManager.kt:185, 187, 193, 194, 199, 200, 242 and 246, but neither `ShelfInterface` nor `BaseShelf` declares it, so its behaviour is not in the code. It is taken to list a shelf's orders in the map's iteration order, and the order type mismatches between `KitchenOrder` and `KitchenOrderDetail` are resolved by a single stored order record.
- The shelf subclasses and the `Constants` values are not part of this model. Each shelf is a plain base shelf, and each capacity is a positive parameter.
- Timestamps are modelled as non-negative `Long` values. A negative timestamp, for which `getOldestOrder` could return null on a non-empty shelf, is not modelled. `shelfLife` is an unbounded integer rather than a 32-bit `Int`.
- The order source (`FoodOrderService`: the Poisson sampler, random generation, JSON loading, Android service lifecycle), the user interface and the logging utilities are outside the bookkeeping core.
- ShelfManager.ReclaimFromOverflow: its own contract only states that the capacities are kept. What it does is stated by `ReclaimFromOverflowMovesOne`, to keep the function cheap to use in other proofs.
