/**
 The keyed order container every shelf is built on (`BaseShelf`).

 The source keeps orders in a `mutableMapOf<String, ShelfOrder>`, which is an
 insertion-ordered hash map keyed by order id. A shelf here is the sequence of
 its orders in that iteration order, with no id occurring twice. Replacing the
 value of a present key keeps its position; removing a key keeps the order of
 the rest. The key of every entry is its order's id, since `addOrder` only
 ever stores `order.id -> order`.

 Every query is a function of the shelf value, so none of them can change it.
 */
module BaseShelf {
  import opened Optional
  import opened Orders

  predicate DistinctIds(es: seq<Order>) {
    forall i, j :: 0 <= i < j < |es| ==> es[i].id != es[j].id
  }

  type Shelf = es: seq<Order> | DistinctIds(es) witness []

  /** The keys of the map: the ids of the held orders. */
  function Ids(es: seq<Order>): set<string> {
    set x | x in es :: x.id
  }

  /** `ShelfOrder.isExpired`: a stub that never reports an order as expired. */
  predicate IsExpired(o: Order): (r: bool)
    ensures !r
  {
    false
  }

  /** Position of the entry with key `id`, if any (the map's key lookup). */
  function IndexOf(es: seq<Order>, id: string): (r: Option<nat>)
    ensures r.None? <==> id !in Ids(es)
    ensures r.Some? ==> r.value < |es| && es[r.value].id == id
    decreases |es|
  {
    if |es| == 0 then None
    else if es[|es| - 1].id == id then Some(|es| - 1)
    else
      assert forall x :: x in es ==> x in es[..|es| - 1] || x == es[|es| - 1];
      IndexOf(es[..|es| - 1], id)
  }

  /**
   `addOrder`: store `o` under its id. A present id keeps its place and gets
   the new order; an absent id is appended. Afterwards the id maps to `o`,
   every other entry is as before, and the count grows exactly when the id
   was absent.
   */
  function AddOrder(s: Shelf, o: Order): (r: Shelf)
    ensures o in r
    ensures forall x :: x in r && x.id == o.id ==> x == o
    ensures forall x: Order :: x.id != o.id ==> (x in r <==> x in s)
    ensures Ids(r) == Ids(s) + {o.id}
    ensures |r| == if o.id in Ids(s) then |s| else |s| + 1
  {
    match IndexOf(s, o.id)
    case Some(k) =>
      var r := s[k := o];
      assert r[k] == o;
      assert forall x :: x in r && x != o ==> x in s by {
        forall x | x in r && x != o ensures x in s {
          var i :| 0 <= i < |r| && r[i] == x;
          assert i != k;
        }
      }
      assert forall x :: x in s && x.id != o.id ==> x in r by {
        forall x | x in s && x.id != o.id ensures x in r {
          var i :| 0 <= i < |s| && s[i] == x;
          assert i != k && r[i] == x;
        }
      }
      r
    case None =>
      s + [o]
  }

  /**
   `removeOrder(id)`: take the entry with key `id` off the shelf and return
   its order; `None` (the source's null) and an unchanged shelf when the id
   is absent, which includes the empty shelf.
   */
  function RemoveOrder(s: Shelf, id: string): (r: (Shelf, Option<Order>))
    ensures id !in Ids(s) ==> r.0 == s && r.1.None?
    ensures id in Ids(s) ==> r.1.Some? && r.1.value in s && r.1.value.id == id
    ensures id in Ids(s) ==> |r.0| == |s| - 1
    ensures forall x :: x in s && x.id == id ==> r.1 == Some(x)
    ensures forall x :: x in r.0 <==> x in s && x.id != id
    ensures Ids(r.0) == Ids(s) - {id}
  {
    if |s| == 0 || IndexOf(s, id).None? then (s, None)
    else
      var k := IndexOf(s, id).value;
      RemoveAtContents(s, k);
      (s[..k] + s[k + 1..], Some(s[k]))
  }

  /** Re-adding an order a shelf already holds changes nothing. */
  lemma AddOrderIdempotent(s: Shelf, o: Order)
    requires o in s
    ensures AddOrder(s, o) == s
  {
    var k := IndexOf(s, o.id).value;
    var i :| 0 <= i < |s| && s[i] == o;
    assert i == k;
  }

  /** Removing the id of an order just added under a new key gives back the shelf and that order. */
  lemma RemoveUndoesAdd(s: Shelf, o: Order)
    requires o.id !in Ids(s)
    ensures RemoveOrder(AddOrder(s, o), o.id) == (s, Some(o))
  {
    var r := AddOrder(s, o);
    assert r == s + [o];
    assert IndexOf(r, o.id) == Some(|s|);
    assert r[..|s|] + r[|s| + 1..] == s;
  }

  /**
   Adding back the order just removed gives a shelf with the same orders,
   the re-added one now last in iteration order.
   */
  lemma AddUndoesRemove(s: Shelf, o: Order)
    requires o in s
    ensures forall x :: x in AddOrder(RemoveOrder(s, o.id).0, o) <==> x in s
    ensures |AddOrder(RemoveOrder(s, o.id).0, o)| == |s|
  {
    var rest := RemoveOrder(s, o.id).0;
    assert o.id in Ids(s);
    forall x | x in s && x.id == o.id ensures x == o {
      SameIdSameOrder(s, x, o);
    }
  }

  /** Within one shelf an id identifies a single order. */
  lemma SameIdSameOrder(s: Shelf, x: Order, y: Order)
    requires x in s && y in s && x.id == y.id
    ensures x == y
  {
    var i :| 0 <= i < |s| && s[i] == x;
    var j :| 0 <= j < |s| && s[j] == y;
    assert i == j;
  }

  /** Cutting entry `k` out of a shelf leaves exactly the orders with other ids. */
  lemma RemoveAtContents(s: Shelf, k: nat)
    requires k < |s|
    ensures DistinctIds(s[..k] + s[k + 1..])
    ensures forall x :: x in s[..k] + s[k + 1..] <==> x in s && x.id != s[k].id
    ensures forall x :: x in s && x.id == s[k].id ==> x == s[k]
    ensures |s[..k] + s[k + 1..]| == |s| - 1
  {
    RemoveAtIndexing(s, k);
    RemoveAtMembers(s, k);
    forall x | x in s && x.id == s[k].id ensures x == s[k] {
      SameIdSameOrder(s, x, s[k]);
    }
  }

  /** Entry `i` of the shelf without entry `k` is entry `i` or `i + 1` of the shelf. */
  lemma RemoveAtIndexing(s: seq<Order>, k: nat)
    requires k < |s|
    ensures |s[..k] + s[k + 1..]| == |s| - 1
    ensures forall i :: 0 <= i < k ==> (s[..k] + s[k + 1..])[i] == s[i]
    ensures forall i :: k < i < |s| ==> (s[..k] + s[k + 1..])[i - 1] == s[i]
  {
  }

  /** Dropping entry `k` drops exactly the entries with its id. */
  lemma RemoveAtMembers(s: Shelf, k: nat)
    requires k < |s|
    ensures forall x :: x in s[..k] + s[k + 1..] <==> x in s && x.id != s[k].id
  {
    var rest := s[..k] + s[k + 1..];
    RemoveAtIndexing(s, k);
    forall x ensures x in rest <==> x in s && x.id != s[k].id {
      if x in rest {
        var i :| 0 <= i < |rest| && rest[i] == x;
      }
      if x in s && x.id != s[k].id {
        var i :| 0 <= i < |s| && s[i] == x;
        assert rest[if i < k then i else i - 1] == x;
      }
    }
  }

  /** Entries of `es` that `IsExpired` selects, in shelf order. */
  function ExpiredIn(es: seq<Order>): (r: seq<Order>)
    ensures forall x :: x in r <==> x in es && IsExpired(x)
    ensures (forall x :: x in es ==> !IsExpired(x)) ==> r == []
    ensures |r| <= |es|
  {
    if |es| == 0 then []
    else
      var head := es[0];
      (if IsExpired(head) then [head] else []) + ExpiredIn(es[1..])
  }

  /**
   `removeOrder()` without an argument: despite its name it does not remove
   anything. It returns the held orders that `isExpired` selects, and since
   that predicate is constantly false, the list is always empty.
   */
  function RemoveExpired(s: Shelf): (r: seq<Order>)
    ensures forall x :: x in r <==> x in s && IsExpired(x)
    ensures r == []
  {
    if |s| == 0 then []
    else ExpiredIn(s)
  }

  /**
   The `forEach` of `getOldestOrder` from entry `i` on: `prev` is
   `prevOrderAge` and `best` the position of `requestedOrder` (-1 for null).
   An entry is taken when its timestamp is at least `prev`.
   */
  function OldestScan(s: Shelf, i: nat, prev: int, best: int): (k: int)
    requires i <= |s| && -1 <= best < i
    requires best == -1 ==> forall j :: 0 <= j < i ==> s[j].timestamp < prev
    requires best >= 0 ==> prev == s[best].timestamp
    requires best >= 0 ==> forall j :: 0 <= j < i ==> s[j].timestamp <= prev
    requires best >= 0 ==> forall j :: best < j < i ==> s[j].timestamp < prev
    ensures -1 <= k < |s|
    ensures k == -1 ==> best == -1 && forall j :: 0 <= j < |s| ==> s[j].timestamp < prev
    ensures k >= 0 ==> prev <= s[k].timestamp
    ensures k >= 0 ==> forall j :: 0 <= j < |s| ==> s[j].timestamp <= s[k].timestamp
    ensures k >= 0 ==> forall j :: k < j < |s| ==> s[j].timestamp < s[k].timestamp
    decreases |s| - i
  {
    if i == |s| then best
    else if s[i].timestamp >= prev then OldestScan(s, i + 1, s[i].timestamp, i)
    else OldestScan(s, i + 1, prev, best)
  }

  /**
   `getOldestOrder`. Despite its name it returns an order with the GREATEST
   timestamp (the search keeps whatever is at least the best so far), and
   among equal timestamps the one visited last. Null only for an empty shelf,
   since timestamps are never below the start value 0.
   */
  function OldestOrder(s: Shelf): (r: Option<Order>)
    ensures r.None? <==> |s| == 0
    ensures r.Some? ==> r.value in s
    ensures r.Some? ==> forall x :: x in s ==> x.timestamp <= r.value.timestamp
  {
    if |s| == 0 then None
    else Some(s[OldestScan(s, 0, 0, -1)])
  }

  /** Among equal greatest timestamps `OldestOrder` picks the entry visited last. */
  lemma OldestOrderLastOfTies(s: Shelf)
    ensures OldestOrder(s).Some? ==>
      exists k :: 0 <= k < |s| && s[k] == OldestOrder(s).value &&
        forall j :: k < j < |s| ==> s[j].timestamp < s[k].timestamp
  {
    if |s| > 0 {
      var k := OldestScan(s, 0, 0, -1);
      assert s[k] == OldestOrder(s).value;
    }
  }

  /**
   The `forEach` of `getNewstOrder` from entry `i` on: an entry is taken when
   its timestamp is strictly below `prev`.
   */
  function NewestScan(s: Shelf, i: nat, prev: int, best: int): (k: int)
    requires i <= |s| && -1 <= best < i
    requires best == -1 ==> forall j :: 0 <= j < i ==> s[j].timestamp >= prev
    requires best >= 0 ==> prev == s[best].timestamp
    requires best >= 0 ==> forall j :: 0 <= j < i ==> s[j].timestamp >= prev
    requires best >= 0 ==> forall j :: 0 <= j < best ==> s[j].timestamp > prev
    ensures -1 <= k < |s|
    ensures k == -1 ==> best == -1 && forall j :: 0 <= j < |s| ==> s[j].timestamp >= prev
    ensures k >= 0 ==> s[k].timestamp <= prev
    ensures k >= 0 && k != best ==> s[k].timestamp < prev
    ensures k >= 0 ==> forall j :: 0 <= j < |s| ==> s[k].timestamp <= s[j].timestamp
    ensures k >= 0 ==> forall j :: 0 <= j < k ==> s[k].timestamp < s[j].timestamp
    decreases |s| - i
  {
    if i == |s| then best
    else if s[i].timestamp < prev then NewestScan(s, i + 1, s[i].timestamp, i)
    else NewestScan(s, i + 1, prev, best)
  }

  /**
   `getNewstOrder`. Returns an order with the SMALLEST timestamp, the first
   visited among equal ones. The search starts from `Long.MAX_VALUE` with a
   strict comparison, so a shelf whose every timestamp is `Long.MAX_VALUE`
   yields null as well as an empty one.
   */
  function NewestOrder(s: Shelf): (r: Option<Order>)
    ensures r.None? <==> |s| == 0 || forall x :: x in s ==> x.timestamp == LongMax
    ensures r.Some? ==> r.value in s && r.value.timestamp < LongMax
    ensures r.Some? ==> forall x :: x in s ==> r.value.timestamp <= x.timestamp
  {
    if |s| == 0 then None
    else
      var k := NewestScan(s, 0, LongMax, -1);
      if k < 0 then None
      else Some(s[k])
  }

  /** Among equal smallest timestamps `NewestOrder` picks the entry visited first. */
  lemma NewestOrderFirstOfTies(s: Shelf)
    ensures NewestOrder(s).Some? ==>
      exists k :: 0 <= k < |s| && s[k] == NewestOrder(s).value &&
        forall j :: 0 <= j < k ==> s[k].timestamp < s[j].timestamp
  {
    if NewestOrder(s).Some? {
      var k := NewestScan(s, 0, LongMax, -1);
      assert s[k] == NewestOrder(s).value;
    }
  }
}
