/**
 Whole-system properties of the shelf manager. The three event streams
 (arriving orders, arriving couriers, heartbeats) become one step function,
 and the lemmas below say what every step keeps and what it may add or lose,
 when the handlers run one after another (which the source does not enforce):
 - no shelf ever exceeds its capacity;
 - no order id is held on two shelves, provided arriving ids are fresh;
 - an arrival adds at most one order and only a pickup or a heartbeat can lose one.
 */
module ManagerProperties {
  import opened Optional
  import opened Orders
  import opened BaseShelf
  import opened ShelfManager

  /** The three event streams the manager listens to. */
  datatype Event =
    | OrderArrived(order: ServerOrder)   // the order channel read by `kitchenOrderDispatcher`
    | CourierArrived(selector: string)   // the driver channel read by `initiateDeliveries`
    | Tick                               // the heartbeat channel read by `initiateOrderAging`

  /** One handler run to completion. The capacities are fixed for the manager's lifetime. */
  function Step(m: Manager, e: Event): (r: Manager)
    ensures r.caps == m.caps
  {
    match e
    case OrderArrived(so) => DispatchOrder(m, so).0
    case CourierArrived(selector) => ShelfUpdateSelector(m, selector)
    case Tick => Heartbeat(m)
  }

  /** The handlers run one after another over a sequence of events. */
  function Run(m: Manager, es: seq<Event>): (r: Manager)
    ensures r.caps == m.caps
    decreases |es|
  {
    if |es| == 0 then m else Run(Step(m, es[0]), es[1..])
  }

  /** Number of arrivals in a sequence of events. */
  function Arrivals(es: seq<Event>): nat
    decreases |es|
  {
    if |es| == 0 then 0
    else (if es[0].OrderArrived? then 1 else 0) + Arrivals(es[1..])
  }

  /** Every shelf holds at most its capacity. */
  predicate WithinCapacity(m: Manager) {
    forall k :: |ShelfOf(m, k)| <= CapOf(m, k)
  }

  // ---------------------------------------------------------------------------
  // Capacity
  // ---------------------------------------------------------------------------

  /** Four empty shelves are within any capacities. */
  lemma InitWithinCapacity(caps: Capacities)
    ensures WithinCapacity(Init(caps))
  {
  }

  /**
   An arrival adds only under the `count < capacity` guard of its home shelf,
   and a full home shelf is left as it is, so capacities hold afterwards.
   */
  lemma ArrivalKeepsCapacity(m: Manager, so: ServerOrder)
    requires WithinCapacity(m)
    ensures WithinCapacity(DispatchOrder(m, so).0)
  {
    var r := DispatchOrder(m, so).0;
    match HomeShelf(so.temp)
    case None =>
    case Some(k) =>
      if |ShelfOf(m, k)| < CapOf(m, k) {
        assert Placed(m, r, k, so);
        forall k' ensures |ShelfOf(r, k')| <= CapOf(r, k') {
          if k' != k {
            assert ShelfOf(r, k') == ShelfOf(m, k');
          }
        }
      }
  }

  /**
   A pickup shrinks its home shelf by one and adds to Overflow only when
   Overflow's count differs from its capacity, which below capacity leaves room.
   */
  lemma PickupKeepsCapacity(m: Manager, selector: string)
    requires WithinCapacity(m)
    ensures WithinCapacity(ShelfUpdateSelector(m, selector))
  {
    var r := ShelfUpdateSelector(m, selector);
    match HomeShelf(selector)
    case None =>
    case Some(k) =>
      if |ShelfOf(m, k)| > 0 {
        assert PickedUp(m, r, k, PickupCandidate(ShelfOf(m, k)));
        forall k' ensures |ShelfOf(r, k')| <= CapOf(r, k') {
          if k' != k && k' != Overflow {
            assert ShelfOf(r, k') == ShelfOf(m, k');
          }
        }
      }
  }

  /** A reclamation adds to a home shelf only below its capacity and shrinks Overflow. */
  lemma HeartbeatKeepsCapacity(m: Manager)
    requires WithinCapacity(m)
    ensures WithinCapacity(Heartbeat(m))
  {
    ReclaimFromOverflowMovesOne(m);
    var r := Heartbeat(m);
    match OldestOrder(m.overflow)
    case None =>
    case Some(o) =>
      match HomeShelf(o.temp)
      case None =>
      case Some(k) =>
        if |ShelfOf(m, k)| < CapOf(m, k) {
          assert Reclaimed(m, r, k, o);
          forall k' ensures |ShelfOf(r, k')| <= CapOf(r, k') {
            if k' != k && k' != Overflow {
              assert ShelfOf(r, k') == ShelfOf(m, k');
            }
          }
        }
  }

  lemma StepKeepsCapacity(m: Manager, e: Event)
    requires WithinCapacity(m)
    ensures WithinCapacity(Step(m, e))
  {
    match e
    case OrderArrived(so) => ArrivalKeepsCapacity(m, so);
    case CourierArrived(selector) => PickupKeepsCapacity(m, selector);
    case Tick => HeartbeatKeepsCapacity(m);
  }

  /** No sequence of events takes a shelf over its capacity. */
  lemma {:induction false} RunKeepsCapacity(m: Manager, es: seq<Event>)
    requires WithinCapacity(m)
    ensures WithinCapacity(Run(m, es))
    decreases |es|
  {
    if |es| > 0 {
      StepKeepsCapacity(m, es[0]);
      RunKeepsCapacity(Step(m, es[0]), es[1..]);
    }
  }

  // ---------------------------------------------------------------------------
  // One shelf per order id
  // ---------------------------------------------------------------------------

  /** The ids held on any shelf. */
  function HeldIds(m: Manager): set<string> {
    Ids(m.hot) + Ids(m.cold) + Ids(m.frozen) + Ids(m.overflow)
  }

  /** No order id is held on two shelves. */
  predicate DisjointShelves(m: Manager) {
    forall k, k' :: k != k' ==> Ids(ShelfOf(m, k)) !! Ids(ShelfOf(m, k'))
  }

  lemma InitDisjoint(caps: Capacities)
    ensures DisjointShelves(Init(caps)) && HeldIds(Init(caps)) == {}
  {
  }

  /**
   Disjointness survives putting id `id` on shelf `to` when no other shelf
   holds it and every other shelf only loses entries.
   */
  lemma DisjointAfterAdd(m: Manager, r: Manager, to: ShelfKind, id: string)
    requires DisjointShelves(m)
    requires forall k :: k != to ==> id !in Ids(ShelfOf(m, k))
    requires Ids(ShelfOf(r, to)) <= Ids(ShelfOf(m, to)) + {id}
    requires forall k :: k != to ==> Ids(ShelfOf(r, k)) <= Ids(ShelfOf(m, k))
    ensures DisjointShelves(r)
  {
    forall k1, k2 | k1 != k2 ensures Ids(ShelfOf(r, k1)) !! Ids(ShelfOf(r, k2)) {
      assert Ids(ShelfOf(m, k1)) !! Ids(ShelfOf(m, k2));
    }
  }

  /** Shelves that only lose entries stay disjoint. */
  lemma DisjointAfterShrink(m: Manager, r: Manager)
    requires DisjointShelves(m)
    requires forall k :: Ids(ShelfOf(r, k)) <= Ids(ShelfOf(m, k))
    ensures DisjointShelves(r)
  {
    forall k1, k2 | k1 != k2 ensures Ids(ShelfOf(r, k1)) !! Ids(ShelfOf(r, k2)) {
      assert Ids(ShelfOf(m, k1)) !! Ids(ShelfOf(m, k2));
    }
  }

  /** An arrival with an id no shelf holds keeps every id on one shelf. */
  lemma ArrivalKeepsDisjoint(m: Manager, so: ServerOrder)
    requires DisjointShelves(m) && so.id !in HeldIds(m)
    ensures DisjointShelves(DispatchOrder(m, so).0)
  {
    var r := DispatchOrder(m, so).0;
    match HomeShelf(so.temp)
    case None =>
    case Some(k) =>
      if |ShelfOf(m, k)| < CapOf(m, k) {
        assert Placed(m, r, k, so);
        DisjointAfterAdd(m, r, k, so.id);
      }
  }

  /**
   A pickup moves one order from its home shelf to Overflow (or drops it), so
   its id leaves the only shelf that held it before it reaches Overflow.
   */
  lemma PickupKeepsDisjoint(m: Manager, selector: string)
    requires DisjointShelves(m)
    ensures DisjointShelves(ShelfUpdateSelector(m, selector))
  {
    var r := ShelfUpdateSelector(m, selector);
    match HomeShelf(selector)
    case None =>
    case Some(k) =>
      if |ShelfOf(m, k)| > 0 {
        var o := PickupCandidate(ShelfOf(m, k));
        assert PickedUp(m, r, k, o);
        assert o.id in Ids(ShelfOf(m, k));
        var taken := WithShelf(m, k, ShelfOf(r, k));
        DisjointAfterShrink(m, taken);
        assert forall k' :: o.id !in Ids(ShelfOf(taken, k'));
        DisjointAfterAdd(taken, r, Overflow, o.id);
      }
  }

  /** A reclamation moves one order from Overflow to its home shelf, off Overflow. */
  lemma HeartbeatKeepsDisjoint(m: Manager)
    requires DisjointShelves(m)
    ensures DisjointShelves(Heartbeat(m))
  {
    ReclaimFromOverflowMovesOne(m);
    var r := Heartbeat(m);
    match OldestOrder(m.overflow)
    case None =>
    case Some(o) =>
      match HomeShelf(o.temp)
      case None =>
      case Some(k) =>
        if |ShelfOf(m, k)| < CapOf(m, k) {
          assert Reclaimed(m, r, k, o);
          assert o.id in Ids(m.overflow);
          var taken := WithShelf(m, Overflow, r.overflow);
          DisjointAfterShrink(m, taken);
          assert forall k' :: o.id !in Ids(ShelfOf(taken, k'));
          DisjointAfterAdd(taken, r, k, o.id);
        }
  }

  // ---------------------------------------------------------------------------
  // Order counts
  // ---------------------------------------------------------------------------

  /** An id held on one shelf of a disjoint manager is on no other. */
  lemma HeldOnOneShelf(m: Manager, k: ShelfKind, k': ShelfKind, id: string)
    requires DisjointShelves(m) && k != k' && id in Ids(ShelfOf(m, k))
    ensures id !in Ids(ShelfOf(m, k'))
  {
    assert Ids(ShelfOf(m, k)) !! Ids(ShelfOf(m, k'));
  }

  /** Whether an arrival puts a new id on its home shelf: known tag, room, and the id not there yet. */
  predicate AddsOrder(m: Manager, so: ServerOrder) {
    match HomeShelf(so.temp)
    case None => false
    case Some(k) => |ShelfOf(m, k)| < CapOf(m, k) && so.id !in Ids(ShelfOf(m, k))
  }

  /** An arrival adds one order exactly when it puts a new id on its home shelf; otherwise the count stays. */
  lemma ArrivalCount(m: Manager, so: ServerOrder)
    ensures Total(DispatchOrder(m, so).0) == Total(m) + if AddsOrder(m, so) then 1 else 0
  {
    var r := DispatchOrder(m, so).0;
    match HomeShelf(so.temp)
    case None =>
    case Some(k) =>
      if |ShelfOf(m, k)| < CapOf(m, k) {
        assert Placed(m, r, k, so);
        assert forall k' :: k' != k ==> ShelfOf(r, k') == ShelfOf(m, k');
      }
  }

  /**
   A pickup never adds an order and loses at most one: the picked order
   leaves its home shelf and lands on Overflow unless Overflow's count equals
   its capacity. When no id is on two shelves, the count is kept exactly when
   Overflow was not at capacity.
   */
  lemma PickupCount(m: Manager, selector: string)
    ensures Total(m) - 1 <= Total(ShelfUpdateSelector(m, selector)) <= Total(m)
    ensures DisjointShelves(m) && HomeShelf(selector).Some? && |ShelfOf(m, HomeShelf(selector).value)| > 0 ==>
      (Total(ShelfUpdateSelector(m, selector)) == Total(m) <==> |m.overflow| != m.caps.overflow)
  {
    var r := ShelfUpdateSelector(m, selector);
    match HomeShelf(selector)
    case None =>
    case Some(k) =>
      if |ShelfOf(m, k)| > 0 {
        var o := PickupCandidate(ShelfOf(m, k));
        assert PickedUp(m, r, k, o);
        assert forall k' :: k' != k && k' != Overflow ==> ShelfOf(r, k') == ShelfOf(m, k');
        if DisjointShelves(m) {
          assert o.id in Ids(ShelfOf(m, k));
          HeldOnOneShelf(m, k, Overflow, o.id);
        }
      }
  }

  /**
   A heartbeat never adds an order and loses at most the moved order's old
   copy on its home shelf. When no id is on two shelves it keeps the count.
   */
  lemma HeartbeatCount(m: Manager)
    ensures Total(Heartbeat(m)) <= Total(m)
    ensures DisjointShelves(m) ==> Total(Heartbeat(m)) == Total(m)
  {
    ReclaimFromOverflowMovesOne(m);
    var r := Heartbeat(m);
    match OldestOrder(m.overflow)
    case None =>
    case Some(o) =>
      match HomeShelf(o.temp)
      case None =>
      case Some(k) =>
        if |ShelfOf(m, k)| < CapOf(m, k) {
          assert Reclaimed(m, r, k, o);
          assert forall k' :: k' != k && k' != Overflow ==> ShelfOf(r, k') == ShelfOf(m, k');
          if DisjointShelves(m) {
            assert o.id in Ids(m.overflow);
            HeldOnOneShelf(m, Overflow, k, o.id);
          }
        }
  }

  /** Every step adds at most one order, and only an arrival adds one. */
  lemma StepCount(m: Manager, e: Event)
    ensures Total(Step(m, e)) <= Total(m) + if e.OrderArrived? then 1 else 0
  {
    match e
    case OrderArrived(so) => ArrivalCount(m, so);
    case CourierArrived(selector) => PickupCount(m, selector);
    case Tick => HeartbeatCount(m);
  }

  /** Orders only come from arrivals: a run holds at most the starting orders plus one per arrival. */
  lemma {:induction false} RunCount(m: Manager, es: seq<Event>)
    ensures Total(Run(m, es)) <= Total(m) + Arrivals(es)
    decreases |es|
  {
    if |es| > 0 {
      StepCount(m, es[0]);
      RunCount(Step(m, es[0]), es[1..]);
    }
  }

  /** Every arrival in the run brings an id that no shelf holds at that point. */
  predicate FreshArrivals(m: Manager, es: seq<Event>)
    decreases |es|
  {
    |es| == 0 ||
    ((es[0].OrderArrived? ==> es[0].order.id !in HeldIds(m)) && FreshArrivals(Step(m, es[0]), es[1..]))
  }

  lemma StepKeepsDisjoint(m: Manager, e: Event)
    requires DisjointShelves(m)
    requires e.OrderArrived? ==> e.order.id !in HeldIds(m)
    ensures DisjointShelves(Step(m, e))
  {
    match e
    case OrderArrived(so) => ArrivalKeepsDisjoint(m, so);
    case CourierArrived(selector) => PickupKeepsDisjoint(m, selector);
    case Tick => HeartbeatKeepsDisjoint(m);
  }

  /**
   With fresh arrival ids no id is ever held on two shelves, and then no
   heartbeat loses an order: only a pickup onto a full Overflow does.
   */
  lemma {:induction false} RunKeepsDisjoint(m: Manager, es: seq<Event>)
    requires DisjointShelves(m) && FreshArrivals(m, es)
    ensures DisjointShelves(Run(m, es))
    decreases |es|
  {
    if |es| > 0 {
      StepKeepsDisjoint(m, es[0]);
      RunKeepsDisjoint(Step(m, es[0]), es[1..]);
    }
  }

  // ---------------------------------------------------------------------------
  // Overflow capacity in `expiredOrdersRemoveHelper`
  // ---------------------------------------------------------------------------

  /**
   `expiredOrdersRemoveHelper` keeps Overflow within capacity only when the
   list fits the free slots: a list of new, distinct ids is added whole, as
   the `return@forEach` after each add does not stop the loop.
   */
  lemma ExpiredOrdersRemoveHelperCapacity(m: Manager, os: seq<Order>)
    ensures |m.overflow| + |os| <= m.caps.overflow ==>
      |ExpiredOrdersRemoveHelper(m, os).overflow| <= m.caps.overflow
    ensures |m.overflow| != m.caps.overflow && DistinctIds(os) && Ids(os) !! Ids(m.overflow) ==>
      |ExpiredOrdersRemoveHelper(m, os).overflow| == |m.overflow| + |os|
  {
    if |m.overflow| != m.caps.overflow && DistinctIds(os) && Ids(os) !! Ids(m.overflow) {
      AddAllFresh(m.overflow, os);
    }
  }

  /**
   A manager within capacity whose Overflow `expiredOrdersRemoveHelper` takes
   past its capacity: Overflow capacity 1, empty Overflow, two orders listed.
   */
  lemma ExpiredOrdersRemoveHelperOverfills()
    ensures exists m: Manager, os: seq<Order> ::
      WithinCapacity(m) && |ExpiredOrdersRemoveHelper(m, os).overflow| > m.caps.overflow
  {
    var m := Init(Capacities(1, 1, 1, 1));
    var a := Order("a", "a", "hot", 1, 0.0, 0, 1.0, 0.0, 1.0);
    var b := a.(id := "b");
    var os := [a, b];
    assert Ids(os) == {"a", "b"};
    ExpiredOrdersRemoveHelperCapacity(m, os);
    assert WithinCapacity(m);
  }

  // ---------------------------------------------------------------------------
  // Which order a courier takes
  // ---------------------------------------------------------------------------

  /** No two entries of the shelf share a timestamp. */
  predicate DistinctTimestamps(s: Shelf) {
    forall i, j :: 0 <= i < j < |s| ==> s[i].timestamp != s[j].timestamp
  }

  /**
   The courier takes an order with the timestamp `getOldestOrder` reports, the
   greatest on the shelf, so the most recently stamped one. The two pick the
   same order when timestamps are distinct; on ties the pickup takes the
   first such entry and `getOldestOrder` the last.
   */
  lemma PickupTakesGreatestTimestamp(s: Shelf)
    requires |s| > 0
    ensures OldestOrder(s).Some?
    ensures PickupCandidate(s).timestamp == OldestOrder(s).value.timestamp
    ensures DistinctTimestamps(s) ==> PickupCandidate(s) == OldestOrder(s).value
  {
    var p, o := PickupCandidate(s), OldestOrder(s).value;
    if DistinctTimestamps(s) {
      var i :| 0 <= i < |s| && s[i] == p;
      var j :| 0 <= j < |s| && s[j] == o;
      if i < j {
        assert s[i].timestamp != s[j].timestamp;
      } else if j < i {
        assert s[j].timestamp != s[i].timestamp;
      }
    }
  }

  // ---------------------------------------------------------------------------
  // Arrival: the status record and unknown tags
  // ---------------------------------------------------------------------------

  /**
   The status record an arrival emits lists the new order on its home shelf
   exactly when there was room for it (or an identical record was already
   there), and lists Overflow as it was, since arrivals never touch it.
   */
  lemma StatusShowsArrival(m: Manager, so: ServerOrder)
    requires HomeShelf(so.temp).Some?
    ensures DispatchOrder(m, so).1.Some?
    ensures var k := HomeShelf(so.temp).value;
      var st := DispatchOrder(m, so).1.value;
      (FromServer(so) in st.orders <==> |ShelfOf(m, k)| < CapOf(m, k) || FromServer(so) in ShelfOf(m, k))
    ensures forall x :: x in DispatchOrder(m, so).1.value.overflowOrders <==> x in m.overflow
  {
    var k := HomeShelf(so.temp).value;
    var r := DispatchOrder(m, so).0;
    if |ShelfOf(m, k)| < CapOf(m, k) {
      assert Placed(m, r, k, so);
      var x :| x in ShelfOf(r, k) && x.id == so.id;
      assert x == FromServer(so);
    }
  }

  /**
   A tag other than "hot", "cold" and "frozen" changes nothing: an arrival
   with it is ignored without a status record, and a courier asking for it
   takes nothing.
   */
  lemma UnknownTagIgnored(m: Manager, so: ServerOrder, selector: string)
    ensures so.temp != "hot" && so.temp != "cold" && so.temp != "frozen" ==> DispatchOrder(m, so) == (m, None)
    ensures selector != "hot" && selector != "cold" && selector != "frozen" ==> ShelfUpdateSelector(m, selector) == m
  {
    HomeShelfTags(so.temp);
    HomeShelfTags(selector);
  }
}
