/**
 Orders as the shelves hold them.

 `ServerOrder` is what the order source delivers on arrival
 (`KitchenOrderServerDetail`); `Order` is the record a shelf stores
 (`KitchenOrderDetail`, which carries the three decay-tracking fields on top).
 The source's `Double` fields are `real` here: the engine only copies them or
 sets them to constants, so no rounding is involved.
 */
module Orders {

  /** `Long.MAX_VALUE`, the start value of the minimum search in `getNewstOrder`. */
  const LongMax: int := 0x7fff_ffff_ffff_ffff

  /** Arrival timestamps: non-negative `Long` values. */
  type Timestamp = t: int | 0 <= t <= LongMax

  datatype ServerOrder = ServerOrder(
    id: string,
    name: string,
    temp: string,
    shelfLife: int,
    decayRate: real,
    timestamp: Timestamp)

  datatype Order = Order(
    id: string,
    name: string,
    temp: string,
    shelfLife: int,
    decayRate: real,
    timestamp: Timestamp,
    normalizedShelfLife: real,
    orderDecay: real,
    orderRemainingLife: real)

  /**
   The record the arrival handler builds before placing an order on its home
   shelf: the server fields copied, full normalized life, no decay yet, and
   the whole shelf life remaining.
   */
  function FromServer(so: ServerOrder): (o: Order)
    ensures o.id == so.id && o.name == so.name && o.temp == so.temp
    ensures o.shelfLife == so.shelfLife && o.decayRate == so.decayRate
    ensures o.timestamp == so.timestamp
    ensures o.normalizedShelfLife == 1.0 && o.orderDecay == 0.0
    ensures o.orderRemainingLife == so.shelfLife as real
  {
    Order(so.id, so.name, so.temp, so.shelfLife, so.decayRate, so.timestamp,
          1.0, 0.0, so.shelfLife as real)
  }
}
