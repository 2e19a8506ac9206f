/**
 The shelf manager (`ShelfManager`): four shelves and the handlers of the three
 event streams, each handler one atomic step from one manager value to the next.

 The model ASSUMES that the handlers run one at a time, each to completion.
 The source does not enforce this: its three loops run on coroutine thread
 pools in parallel, and only four helpers (`removeExpiredOrdersFromSingleShelf`,
 `removeExpiredOrderFromSingleShelf`, `removeExpiredOrders`,
 `moveOrdersFromOverflow`) are `@Synchronized`. The arrival handler's capacity
 test and add, the courier's emptiness test and the ageing calls take no lock,
 so interleavings the model does not describe are possible.
 */
module ShelfManager {
  import opened Optional
  import opened Orders
  import opened BaseShelf

  /** The `MAX_*_CAPACITY` constants, taken as positive parameters. */
  type Capacity = c: int | c > 0 witness 1

  datatype Capacities = Capacities(hot: Capacity, cold: Capacity, frozen: Capacity, overflow: Capacity)

  /** The `Shelves` enum. */
  datatype ShelfKind = Hot | Cold | Frozen | Overflow

  datatype Manager = Manager(hot: Shelf, cold: Shelf, frozen: Shelf, overflow: Shelf, caps: Capacities)

  /** `KitchenOrderShelfStatus`: a shelf tag, a copy of that shelf and a copy of Overflow. */
  datatype ShelfStatus = ShelfStatus(temp: string, orders: seq<Order>, overflowOrders: seq<Order>)

  /** The `init` block: four empty shelves. */
  function Init(caps: Capacities): (m: Manager)
    ensures m.caps == caps
    ensures forall k :: ShelfOf(m, k) == []
  {
    Manager([], [], [], [], caps)
  }

  function ShelfOf(m: Manager, k: ShelfKind): Shelf {
    match k
    case Hot => m.hot
    case Cold => m.cold
    case Frozen => m.frozen
    case Overflow => m.overflow
  }

  function CapOf(m: Manager, k: ShelfKind): Capacity {
    match k
    case Hot => m.caps.hot
    case Cold => m.caps.cold
    case Frozen => m.caps.frozen
    case Overflow => m.caps.overflow
  }

  function WithShelf(m: Manager, k: ShelfKind, s: Shelf): (r: Manager)
    ensures r.caps == m.caps && ShelfOf(r, k) == s
    ensures forall k' :: k' != k ==> ShelfOf(r, k') == ShelfOf(m, k')
  {
    match k
    case Hot => m.(hot := s)
    case Cold => m.(cold := s)
    case Frozen => m.(frozen := s)
    case Overflow => m.(overflow := s)
  }

  /** The `when (temp)` dispatch: the home shelf of a temperature tag. */
  function HomeShelf(temp: string): (k: Option<ShelfKind>)
    ensures k.Some? ==> k.value != Overflow
  {
    if temp == "hot" then Some(Hot)
    else if temp == "cold" then Some(Cold)
    else if temp == "frozen" then Some(Frozen)
    else None
  }

  /** The three tags with a home shelf; every other tag has none. */
  lemma HomeShelfTags(temp: string)
    ensures HomeShelf(temp).Some? <==> temp == "hot" || temp == "cold" || temp == "frozen"
  {
  }

  /** Number of orders held over all four shelves. */
  function Total(m: Manager): nat {
    |m.hot| + |m.cold| + |m.frozen| + |m.overflow|
  }

  /**
   `expiredOrderRemoveHelper`: put one order on Overflow unless Overflow's
   count equals its capacity, in which case the order is dropped. The test is
   `==`, not `>=`.
   */
  function ExpiredOrderRemoveHelper(m: Manager, o: Order): (r: Manager)
    ensures r.caps == m.caps && r.hot == m.hot && r.cold == m.cold && r.frozen == m.frozen
    ensures |m.overflow| == m.caps.overflow ==> r == m
    ensures |m.overflow| != m.caps.overflow ==>
      o in r.overflow && forall x: Order :: x.id != o.id ==> (x in r.overflow <==> x in m.overflow)
    ensures |m.overflow| != m.caps.overflow ==>
      Ids(r.overflow) == Ids(m.overflow) + {o.id} &&
      |r.overflow| == |m.overflow| + (if o.id in Ids(m.overflow) then 0 else 1)
    ensures |m.overflow| <= m.caps.overflow ==> |r.overflow| <= m.caps.overflow
  {
    if |m.overflow| == m.caps.overflow then m
    else m.(overflow := AddOrder(m.overflow, o))
  }

  /**
   The `forEach` of `expiredOrdersRemoveHelper`: every listed order is added in
   turn. The capacity test after each add ends in `return@forEach`, which only
   moves on to the next element, so it never ends the loop.
   */
  function AddAll(s: Shelf, os: seq<Order>): (r: Shelf)
    ensures forall x :: x in r ==> x in s || x in os
    ensures forall x: Order :: x.id !in Ids(os) ==> (x in r <==> x in s)
    ensures |r| <= |s| + |os|
    decreases |os|
  {
    if |os| == 0 then s
    else
      SplitLast(os);
      AddOrder(AddAll(s, os[..|os| - 1]), os[|os| - 1])
  }

  /** The ids on the shelf after `AddAll` are the shelf's ids and the list's ids. */
  lemma {:induction false} AddAllIds(s: Shelf, os: seq<Order>)
    ensures Ids(AddAll(s, os)) == Ids(s) + Ids(os)
    decreases |os|
  {
    if |os| > 0 {
      SplitLast(os);
      AddAllIds(s, os[..|os| - 1]);
    }
  }

  /**
   Orders with distinct ids none of which is on the shelf yet all land on it,
   one slot each.
   */
  lemma {:induction false} AddAllFresh(s: Shelf, os: seq<Order>)
    requires DistinctIds(os) && Ids(os) !! Ids(s)
    ensures |AddAll(s, os)| == |s| + |os|
    ensures forall x :: x in os ==> x in AddAll(s, os)
    decreases |os|
  {
    if |os| > 0 {
      SplitLast(os);
      var front := os[..|os| - 1];
      assert DistinctIds(front);
      assert Ids(front) <= Ids(os);
      AddAllFresh(s, front);
      AddAllIds(s, front);
    }
  }

  /** A non-empty list is its front followed by its last entry, in contents and in ids. */
  lemma SplitLast(os: seq<Order>)
    requires |os| > 0
    ensures forall x :: x in os <==> x in os[..|os| - 1] || x == os[|os| - 1]
    ensures Ids(os) == Ids(os[..|os| - 1]) + {os[|os| - 1].id}
    ensures DistinctIds(os) ==> os[|os| - 1].id !in Ids(os[..|os| - 1])
  {
    var front, last := os[..|os| - 1], os[|os| - 1];
    assert os == front + [last];
  }

  /**
   `expiredOrdersRemoveHelper`: nothing happens when Overflow's count equals
   its capacity; otherwise every listed order is put on Overflow. The sort in
   the source builds a new list that is thrown away, so it has no effect.
   */
  function ExpiredOrdersRemoveHelper(m: Manager, os: seq<Order>): (r: Manager)
    ensures r.caps == m.caps && r.hot == m.hot && r.cold == m.cold && r.frozen == m.frozen
    ensures |m.overflow| == m.caps.overflow || os == [] ==> r == m
    ensures |m.overflow| != m.caps.overflow ==> Ids(r.overflow) == Ids(m.overflow) + Ids(os)
    ensures forall x: Order :: x.id !in Ids(os) ==> (x in r.overflow <==> x in m.overflow)
  {
    if |m.overflow| == m.caps.overflow then m
    else
      AddAllIds(m.overflow, os);
      m.(overflow := AddAll(m.overflow, os))
  }

  /**
   `removeExpiredOrders`: collect each home shelf's expired orders with the
   argument-less `removeOrder`, call it on Overflow too (its result is
   discarded, and the call changes nothing), and when Overflow is below
   capacity pass the three lists to `expiredOrdersRemoveHelper` in the order
   hot, cold, frozen. The home shelves are never touched; as no order is ever
   reported expired, the whole step changes nothing.
   */
  function RemoveExpiredOrders(m: Manager): (r: Manager)
    ensures r == m
  {
    var hotOrders := RemoveExpired(m.hot);
    var coldOrders := RemoveExpired(m.cold);
    var frozenOrders := RemoveExpired(m.frozen);
    if |m.overflow| < m.caps.overflow then
      var afterHot := ExpiredOrdersRemoveHelper(m, hotOrders);
      var afterCold := ExpiredOrdersRemoveHelper(afterHot, coldOrders);
      ExpiredOrdersRemoveHelper(afterCold, frozenOrders)
    else m
  }

  /**
   What a reclamation takes off Overflow on its home shelf `k`: `o` lands on
   shelf `k`, leaves Overflow, and nothing else changes.
   */
  ghost predicate Reclaimed(m: Manager, r: Manager, k: ShelfKind, o: Order) {
    && r.caps == m.caps
    && o in ShelfOf(r, k)
    && (forall x: Order :: x.id != o.id ==> (x in ShelfOf(r, k) <==> x in ShelfOf(m, k)))
    && Ids(ShelfOf(r, k)) == Ids(ShelfOf(m, k)) + {o.id}
    && |ShelfOf(r, k)| == |ShelfOf(m, k)| + (if o.id in Ids(ShelfOf(m, k)) then 0 else 1)
    && (forall x :: x in r.overflow <==> x in m.overflow && x.id != o.id)
    && Ids(r.overflow) == Ids(m.overflow) - {o.id}
    && |r.overflow| == |m.overflow| - 1
    && (forall k' :: k' != k && k' != Overflow ==> ShelfOf(r, k') == ShelfOf(m, k'))
  }

  /**
   The order `moveOrdersFromOverflow` moves, with its home shelf: the order
   `getOldestOrder` picks on Overflow (the greatest timestamp), provided its
   tag names a home shelf with a free slot.
   */
  function ReclaimCandidate(m: Manager): (c: Option<(Order, ShelfKind)>)
    ensures c.Some? ==> OldestOrder(m.overflow) == Some(c.value.0)
    ensures c.Some? ==> HomeShelf(c.value.0.temp) == Some(c.value.1)
    ensures c.Some? ==> |ShelfOf(m, c.value.1)| < CapOf(m, c.value.1)
  {
    match OldestOrder(m.overflow)
    case None => None
    case Some(o) =>
      match HomeShelf(o.temp)
      case None => None
      case Some(k) => if |ShelfOf(m, k)| < CapOf(m, k) then Some((o, k)) else None
  }

  /** The state after the first pass of the `moveOrdersFromOverflow` loop, before the clean-up. */
  function AfterPlacement(m: Manager): (r: Manager)
    ensures r.overflow == m.overflow && r.caps == m.caps
  {
    match ReclaimCandidate(m)
    case None => m
    case Some((o, k)) => WithShelf(m, k, AddOrder(ShelfOf(m, k), o))
  }

  /**
   The net effect of `moveOrdersFromOverflow`: at most ONE order moves per
   call, because Overflow is not changed inside the loop and so every pass
   looks at the same `getOldestOrder` result. That order (the greatest
   timestamp on Overflow) goes to its home shelf if the shelf has room, and
   only then leaves Overflow; an unknown tag or a full home shelf leaves it
   where it is.
   */
  function ReclaimFromOverflow(m: Manager): (r: Manager)
    ensures r.caps == m.caps
  {
    match ReclaimCandidate(m)
    case None => m
    case Some((o, k)) =>
      var placed := WithShelf(m, k, AddOrder(ShelfOf(m, k), o));
      WithShelf(placed, Overflow, RemoveOrder(m.overflow, o.id).0)
  }

  /**
   What `ReclaimFromOverflow` does, case by case: nothing unless Overflow's
   greatest-timestamp order has a known tag and its home shelf has room; then
   exactly that order moves from Overflow to the home shelf.
   */
  lemma ReclaimFromOverflowMovesOne(m: Manager)
    ensures match OldestOrder(m.overflow)
      case None => ReclaimFromOverflow(m) == m
      case Some(o) =>
        match HomeShelf(o.temp)
        case None => ReclaimFromOverflow(m) == m
        case Some(k) =>
          if |ShelfOf(m, k)| < CapOf(m, k) then Reclaimed(m, ReclaimFromOverflow(m), k, o)
          else ReclaimFromOverflow(m) == m
  {
    match OldestOrder(m.overflow)
    case None =>
    case Some(o) =>
      match HomeShelf(o.temp)
      case None =>
      case Some(k) =>
        if |ShelfOf(m, k)| < CapOf(m, k) {
          assert ReclaimCandidate(m) == Some((o, k));
          MoveIsReclaimed(m, o, k);
        }
  }

  /** Adding a held Overflow order to home shelf `k` and removing it from Overflow is `Reclaimed`. */
  lemma MoveIsReclaimed(m: Manager, o: Order, k: ShelfKind)
    requires k != Overflow && o in m.overflow
    ensures Reclaimed(m, WithShelf(WithShelf(m, k, AddOrder(ShelfOf(m, k), o)), Overflow, RemoveOrder(m.overflow, o.id).0), k, o)
  {
    var placed := WithShelf(m, k, AddOrder(ShelfOf(m, k), o));
    assert placed.overflow == m.overflow;
    var r := WithShelf(placed, Overflow, RemoveOrder(m.overflow, o.id).0);
    assert ShelfOf(r, k) == AddOrder(ShelfOf(m, k), o);
  }

  /**
   What the `moveOrdersFromOverflow` loop keeps before and after its first
   pass: nothing done yet; then the moved order (if any) is on its home shelf
   and every noted order is that one.
   */
  ghost predicate PassInvariant(m: Manager, started: bool, cur: Manager, ordersToRemove: seq<Order>) {
    && (!started ==> cur == m && ordersToRemove == [])
    && (started ==> cur == AfterPlacement(m))
    && (started && ReclaimCandidate(m).Some? ==> ordersToRemove != [])
    && (forall x :: x in ordersToRemove ==> ReclaimCandidate(m).Some? && x == ReclaimCandidate(m).value.0)
  }

  /**
   One pass of the `moveOrdersFromOverflow` loop: look up the order
   `getOldestOrder` picks on Overflow and, when its tag names a home shelf
   below capacity, add it there and note it for removal. From the starting
   state a pass leads to `AfterPlacement`; from there every further pass
   stays put.
   */
  method ReclaimPass(m: Manager, cur: Manager, ordersToRemove: seq<Order>, ghost started: bool)
    returns (next: Manager, toRemove: seq<Order>)
    requires PassInvariant(m, started, cur, ordersToRemove)
    ensures PassInvariant(m, true, next, toRemove)
  {
    next, toRemove := cur, ordersToRemove;
    var order := OldestOrder(cur.overflow);
    if order.Some? {
      var o := order.value;
      match HomeShelf(o.temp) {
        case Some(k) =>
          if |ShelfOf(cur, k)| < CapOf(cur, k) {
            PassPlaces(m, started, cur, ordersToRemove, o, k);
            next := WithShelf(cur, k, AddOrder(ShelfOf(cur, k), o));
            toRemove := ordersToRemove + [o];
          } else {
            PassSkips(m, started, cur, ordersToRemove);
          }
        case None =>
          PassSkips(m, started, cur, ordersToRemove);
      }
    } else {
      PassSkips(m, started, cur, ordersToRemove);
    }
  }

  /** A pass that adds order `o` to home shelf `k` leads to `AfterPlacement`, noting `o`. */
  lemma PassPlaces(m: Manager, started: bool, cur: Manager, ordersToRemove: seq<Order>, o: Order, k: ShelfKind)
    requires PassInvariant(m, started, cur, ordersToRemove)
    requires OldestOrder(cur.overflow) == Some(o) && HomeShelf(o.temp) == Some(k)
    requires |ShelfOf(cur, k)| < CapOf(cur, k)
    ensures PassInvariant(m, true, WithShelf(cur, k, AddOrder(ShelfOf(cur, k), o)), ordersToRemove + [o])
  {
    assert cur.overflow == m.overflow;
    assert ReclaimCandidate(m) == Some((o, k));
    if started {
      AddOrderIdempotent(ShelfOf(cur, k), o);
    }
    assert forall x :: x in ordersToRemove + [o] ==> x in ordersToRemove || x == o;
  }

  /** A pass that adds nothing leaves the loop state as it is, which is then already `AfterPlacement`. */
  lemma PassSkips(m: Manager, started: bool, cur: Manager, ordersToRemove: seq<Order>)
    requires PassInvariant(m, started, cur, ordersToRemove)
    requires match OldestOrder(cur.overflow)
      case None => true
      case Some(o) =>
        match HomeShelf(o.temp)
        case None => true
        case Some(k) => |ShelfOf(cur, k)| >= CapOf(cur, k)
    ensures PassInvariant(m, true, cur, ordersToRemove)
  {
    assert cur.overflow == m.overflow;
    if !started {
      assert ReclaimCandidate(m).None?;
    }
  }

  /** The clean-up loop: the first removal of the moved order's id gives the final state, later ones change nothing. */
  lemma CleanupRemoves(m: Manager)
    requires ReclaimCandidate(m).Some?
    ensures AfterPlacement(m).(overflow := RemoveOrder(AfterPlacement(m).overflow, ReclaimCandidate(m).value.0.id).0)
            == ReclaimFromOverflow(m)
    ensures ReclaimFromOverflow(m).(overflow := RemoveOrder(ReclaimFromOverflow(m).overflow, ReclaimCandidate(m).value.0.id).0)
            == ReclaimFromOverflow(m)
  {
    var o := ReclaimCandidate(m).value.0;
    var gone := RemoveOrder(m.overflow, o.id).0;
    assert ReclaimFromOverflow(m) == AfterPlacement(m).(overflow := gone);
    assert o.id !in Ids(gone);
  }

  /**
   The `for (i in count downTo 0)` loop of `moveOrdersFromOverflow`:
   `count + 1` passes, all looking at the same `getOldestOrder` result since
   Overflow is not changed inside the loop. Afterwards the order is on its
   home shelf and noted for removal exactly when there was room for it.
   */
  method PlaceFromOverflow(m: Manager) returns (cur: Manager, ordersToRemove: seq<Order>)
    ensures cur == AfterPlacement(m)
    ensures ReclaimCandidate(m).None? <==> ordersToRemove == []
    ensures forall x :: x in ordersToRemove ==> x == ReclaimCandidate(m).value.0
  {
    cur := m;
    ordersToRemove := [];
    var count := |m.overflow|;
    var i := count;
    while i >= 0
      invariant -1 <= i <= count
      invariant PassInvariant(m, i < count, cur, ordersToRemove)
      decreases i + 1
    {
      cur, ordersToRemove := ReclaimPass(m, cur, ordersToRemove, i < count);
      i := i - 1;
    }
    assert ordersToRemove != [] ==> ordersToRemove[0] in ordersToRemove;
  }

  /**
   `moveOrdersFromOverflow` as written: the placement loop, then the clean-up
   that removes every noted id from Overflow. Its net effect is
   `ReclaimFromOverflow`.
   */
  method MoveOrdersFromOverflow(m: Manager) returns (r: Manager)
    ensures r == ReclaimFromOverflow(m)
  {
    var cur, ordersToRemove := PlaceFromOverflow(m);
    var j := 0;
    while j < |ordersToRemove|
      invariant 0 <= j <= |ordersToRemove|
      invariant cur == if j == 0 then AfterPlacement(m) else ReclaimFromOverflow(m)
    {
      assert ordersToRemove[j] in ordersToRemove;
      CleanupRemoves(m);
      cur := cur.(overflow := RemoveOrder(cur.overflow, ordersToRemove[j].id).0);
      j := j + 1;
    }
    r := cur;
  }

  /**
   The order a courier takes in `shelfUpdateSelector`: the head of the
   shelf's list sorted by descending timestamp. The sort is stable, so that is
   the first entry, in shelf order, with the greatest timestamp.
   */
  function PickupCandidate(s: Shelf): (o: Order)
    requires |s| > 0
    ensures o in s
    ensures forall x :: x in s ==> x.timestamp <= o.timestamp
  {
    s[FirstMaxScan(s, 1, 0)]
  }

  /** Among equal greatest timestamps the stable sort keeps shelf order, so the pickup takes the first. */
  lemma PickupCandidateFirstOfTies(s: Shelf)
    requires |s| > 0
    ensures exists k :: 0 <= k < |s| && s[k] == PickupCandidate(s) &&
                        (forall j :: 0 <= j < k ==> s[j].timestamp < s[k].timestamp)
  {
    var k := FirstMaxScan(s, 1, 0);
    assert s[k] == PickupCandidate(s);
  }

  function FirstMaxScan(s: Shelf, i: nat, best: nat): (k: nat)
    requires best < i <= |s|
    requires forall j :: 0 <= j < i ==> s[j].timestamp <= s[best].timestamp
    requires forall j :: 0 <= j < best ==> s[j].timestamp < s[best].timestamp
    ensures k < |s|
    ensures forall j :: 0 <= j < |s| ==> s[j].timestamp <= s[k].timestamp
    ensures forall j :: 0 <= j < k ==> s[j].timestamp < s[k].timestamp
    decreases |s| - i
  {
    if i == |s| then best
    else if s[i].timestamp > s[best].timestamp then FirstMaxScan(s, i + 1, i)
    else FirstMaxScan(s, i + 1, best)
  }

  /**
   What a pickup from home shelf `k` does with order `o`: `o` leaves shelf
   `k`, the other home shelves stay as they are, and Overflow receives `o`
   unless its count equals its capacity, in which case `o` is dropped.
   */
  ghost predicate PickedUp(m: Manager, r: Manager, k: ShelfKind, o: Order) {
    && r.caps == m.caps
    && (forall x :: x in ShelfOf(r, k) <==> x in ShelfOf(m, k) && x.id != o.id)
    && Ids(ShelfOf(r, k)) == Ids(ShelfOf(m, k)) - {o.id}
    && |ShelfOf(r, k)| == |ShelfOf(m, k)| - 1
    && (forall k' :: k' != k && k' != Overflow ==> ShelfOf(r, k') == ShelfOf(m, k'))
    && (if |m.overflow| == m.caps.overflow then r.overflow == m.overflow
        else
          && o in r.overflow
          && (forall x: Order :: x.id != o.id ==> (x in r.overflow <==> x in m.overflow))
          && Ids(r.overflow) == Ids(m.overflow) + {o.id}
          && |r.overflow| == |m.overflow| + (if o.id in Ids(m.overflow) then 0 else 1))
  }

  /**
   `shelfUpdateSelector`, the courier handler. For a known tag with a
   non-empty shelf it removes the order with the greatest timestamp (the
   newest, not the oldest) and hands it to `expiredOrderRemoveHelper`, which
   moves it onto Overflow rather than delivering it. An unknown tag or an
   empty shelf changes nothing.
   */
  function ShelfUpdateSelector(m: Manager, selector: string): (r: Manager)
    ensures HomeShelf(selector).None? ==> r == m
    ensures HomeShelf(selector).Some? && |ShelfOf(m, HomeShelf(selector).value)| == 0 ==> r == m
    ensures HomeShelf(selector).Some? && |ShelfOf(m, HomeShelf(selector).value)| > 0 ==>
      var k := HomeShelf(selector).value;
      PickedUp(m, r, k, PickupCandidate(ShelfOf(m, k)))
  {
    match HomeShelf(selector)
    case None => m
    case Some(k) =>
      var shelf := ShelfOf(m, k);
      if |shelf| == 0 then m
      else
        var o := PickupCandidate(shelf);
        // the id was just read off this shelf, so `removeOrder` returns its order
        var removed := RemoveOrder(shelf, o.id);
        PickupMovesToOverflow(m, k, o);
        ExpiredOrderRemoveHelper(WithShelf(m, k, removed.0), removed.1.value)
  }

  /** Taking a held order off home shelf `k` and passing it to `expiredOrderRemoveHelper` is `PickedUp`. */
  lemma PickupMovesToOverflow(m: Manager, k: ShelfKind, o: Order)
    requires k != Overflow && o in ShelfOf(m, k)
    ensures RemoveOrder(ShelfOf(m, k), o.id).1 == Some(o)
    ensures PickedUp(m, ExpiredOrderRemoveHelper(WithShelf(m, k, RemoveOrder(ShelfOf(m, k), o.id).0), o), k, o)
  {
    var removed := RemoveOrder(ShelfOf(m, k), o.id);
    var rest := WithShelf(m, k, removed.0);
    assert rest.overflow == m.overflow;
    var r := ExpiredOrderRemoveHelper(rest, o);
    assert ShelfOf(r, k) == removed.0;
    assert forall k' :: k' != Overflow ==> ShelfOf(r, k') == ShelfOf(rest, k');
  }

  /** `copyShelfOrders`: copies of shelf `k` and of Overflow, in shelf order. */
  function CopyShelfOrders(m: Manager, k: ShelfKind): (r: (seq<Order>, seq<Order>))
    ensures |r.0| == |ShelfOf(m, k)| && |r.1| == |m.overflow|
    ensures DistinctIds(r.0) && DistinctIds(r.1)
    ensures forall x :: (x in r.0 <==> x in ShelfOf(m, k)) && (x in r.1 <==> x in m.overflow)
  {
    (ShelfOf(m, k), m.overflow)
  }

  /** `generateKitchenOrder`: the status record sent to the display after an arrival. */
  function GenerateKitchenOrder(m: Manager, k: ShelfKind, temp: string): (r: ShelfStatus)
    ensures r.temp == temp
    ensures Ids(r.orders) == Ids(ShelfOf(m, k)) && Ids(r.overflowOrders) == Ids(m.overflow)
    ensures forall x :: (x in r.orders <==> x in ShelfOf(m, k)) && (x in r.overflowOrders <==> x in m.overflow)
  {
    var copies := CopyShelfOrders(m, k);
    ShelfStatus(temp, copies.0, copies.1)
  }

  /**
   Where an arriving order ends up when its home shelf `k` has room: on `k`,
   under its id, as the record the handler builds; every other entry of `k`
   and every other shelf as before.
   */
  ghost predicate Placed(m: Manager, r: Manager, k: ShelfKind, so: ServerOrder) {
    && r.caps == m.caps
    && Ids(ShelfOf(r, k)) == Ids(ShelfOf(m, k)) + {so.id}
    && (forall x :: x in ShelfOf(r, k) && x.id == so.id ==>
          && x.name == so.name && x.temp == so.temp && x.shelfLife == so.shelfLife
          && x.decayRate == so.decayRate && x.timestamp == so.timestamp
          && x.normalizedShelfLife == 1.0 && x.orderDecay == 0.0
          && x.orderRemainingLife == so.shelfLife as real)
    && (forall x: Order :: x.id != so.id ==> (x in ShelfOf(r, k) <==> x in ShelfOf(m, k)))
    && |ShelfOf(r, k)| == |ShelfOf(m, k)| + (if so.id in Ids(ShelfOf(m, k)) then 0 else 1)
    && (forall k' :: k' != k ==> ShelfOf(r, k') == ShelfOf(m, k'))
  }

  /**
   The body of the `kitchenOrderDispatcher` loop for one arriving order. A
   known tag whose home shelf is below capacity gets the order added there.
   On a full home shelf the handler only runs the expired-order path, which
   finds nothing, so the incoming order is silently dropped. Either way a
   status record of the home shelf and Overflow is emitted. An unknown tag
   changes nothing and emits nothing.
   */
  function DispatchOrder(m: Manager, so: ServerOrder): (r: (Manager, Option<ShelfStatus>))
    ensures HomeShelf(so.temp).None? ==> r.0 == m && r.1.None?
    ensures HomeShelf(so.temp).Some? ==>
      r.1 == Some(GenerateKitchenOrder(r.0, HomeShelf(so.temp).value, so.temp))
    ensures HomeShelf(so.temp).Some? && |ShelfOf(m, HomeShelf(so.temp).value)| >= CapOf(m, HomeShelf(so.temp).value) ==>
      r.0 == m
    ensures HomeShelf(so.temp).Some? && |ShelfOf(m, HomeShelf(so.temp).value)| < CapOf(m, HomeShelf(so.temp).value) ==>
      Placed(m, r.0, HomeShelf(so.temp).value, so)
  {
    match HomeShelf(so.temp)
    case None => (m, None)
    case Some(k) =>
      var shelf := ShelfOf(m, k);
      var next :=
        if |shelf| >= CapOf(m, k) then ExpiredOrdersRemoveHelper(m, RemoveExpired(shelf))
        else WithShelf(m, k, AddOrder(shelf, FromServer(so)));
      (next, Some(GenerateKitchenOrder(next, k, so.temp)))
  }

  /**
   One heartbeat of `initiateOrderAging`: age every shelf, then
   `removeExpiredOrders`, then `moveOrdersFromOverflow`. Ageing is taken to
   change nothing: `ageOrder` belongs to the shelf subclasses, which are not
   part of this model and cannot reach the base shelf's private order map.
   */
  function Heartbeat(m: Manager): (r: Manager)
    ensures r == ReclaimFromOverflow(m)
  {
    ReclaimFromOverflow(RemoveExpiredOrders(m))
  }
}
