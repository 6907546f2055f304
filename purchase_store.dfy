/**
 * The order reconciler: turning a completed Stripe checkout session into
 * one `orders` row and one `order_items` row per distinct purchased
 * product, inside one database transaction.  The two tables are maps
 * keyed by their SERIAL ids; the database's failures are an input naming
 * the statement that fails.
 */
module PurchaseStore {
  import opened Wrappers
  import opened JsText
  import opened JsNumber
  import opened ProductIds
  import opened Quantities
  import opened PgInt4

  /** `total_amount NUMERIC(10, 2)` holds magnitudes below 10^8 dollars, i.e. 10^10 cents. */
  const TotalLimitCents: int := 10000000000

  datatype Status = Paid | Pending

  datatype Order = Order(
    id: nat, userId: int, sessionId: string, paymentIntentId: Option<string>,
    totalCents: int, currency: string, status: Status, createdAt: int)

  datatype OrderItem = OrderItem(id: nat, orderId: nat, productId: int, unitPriceCents: int, quantity: nat)

  /** The fields of a checkout-session object that the reconciler reads; `None` where a field is absent. */
  datatype CheckoutSession = CheckoutSession(
    id: Option<string>, userIdMeta: Option<string>, productIdsMeta: Option<string>,
    paymentIntent: Option<string>, currency: Option<string>, paymentStatus: Option<string>,
    amountTotal: Option<int>)

  /** Which database statement fails, if any. */
  datatype Fault = NoFault | QueryFails | OrderInsertFails | ItemInsertFails(n: nat)

  datatype Outcome = Recorded(orderId: nat) | AlreadyRecorded

  datatype Failure = InvalidMetadata | DatabaseError

  /** Both tables and their SERIAL sequences. */
  datatype Tables = Tables(orders: map<nat, Order>, items: map<nat, OrderItem>, nextOrderId: nat, nextItemId: nat)

  /** Ids are the keys, ids were drawn from the sequences, session ids are unique, items belong to orders. */
  predicate ValidTables(t: Tables) {
    (forall id :: id in t.orders ==> id < t.nextOrderId && t.orders[id].id == id)
    && (forall a, b :: a in t.orders && b in t.orders && a != b ==> t.orders[a].sessionId != t.orders[b].sessionId)
    && (forall id :: id in t.items ==> id < t.nextItemId && t.items[id].id == id && t.items[id].orderId in t.orders)
  }

  // The values the reconciler derives from the session before it validates.

  /** `Number(session.metadata.user_id)`. */
  function UserIdOf(s: CheckoutSession): Num {
    if s.userIdMeta.None? then NaN else StringToNumber(s.userIdMeta.value)
  }

  /** `String(session.id || '')`. */
  function SessionIdOf(s: CheckoutSession): string {
    if s.id.None? then [] else s.id.value
  }

  /** `session.payment_intent ? String(session.payment_intent) : null`. */
  function PaymentIntentOf(s: CheckoutSession): Option<string> {
    if s.paymentIntent.None? || s.paymentIntent.value == [] then None else s.paymentIntent
  }

  /** `String(session.currency || 'usd')`. */
  function CurrencyOf(s: CheckoutSession): string {
    if s.currency.None? || s.currency.value == [] then "usd" else s.currency.value
  }

  function StatusOf(s: CheckoutSession): (st: Status)
    ensures st == Paid <==> s.paymentStatus == Some("paid")
  {
    if s.paymentStatus == Some("paid") then Paid else Pending
  }

  /** The order total in cents; a missing `amount_total` counts as 0. */
  function TotalCentsOf(s: CheckoutSession): int {
    s.amountTotal.GetOr(0)
  }

  /** The guard before anything is read from or written to the database. */
  predicate ValidMetadata(s: CheckoutSession) {
    IsPositiveInteger(UserIdOf(s)) && SessionIdOf(s) != [] && ParseProductIds(s.productIdsMeta) != []
  }

  /**
   * The item rows inserted for the distinct ids `keys`, in key order:
   * products without a price are skipped, the others are numbered from
   * `first` on.
   */
  function ItemRows(keys: seq<int>, ids: seq<int>, catalog: map<int, int>, orderId: nat, first: nat): (rows: seq<OrderItem>)
    ensures |rows| <= |keys|
  {
    if keys == [] then []
    else
      var prev := ItemRows(keys[..|keys| - 1], ids, catalog, orderId, first);
      var k := keys[|keys| - 1];
      if k in catalog then prev + [OrderItem(first + |prev|, orderId, k, catalog[k], Count(ids, k))] else prev
  }

  /** The rows as a table fragment keyed by their ids. */
  function RowsMap(rows: seq<OrderItem>): map<nat, OrderItem> {
    if rows == [] then map[]
    else RowsMap(rows[..|rows| - 1])[rows[|rows| - 1].id := rows[|rows| - 1]]
  }

  /** The column values of the order row the reconciler inserts. */
  datatype NewOrder = NewOrder(
    userId: int, sessionId: string, paymentIntentId: Option<string>,
    totalCents: int, currency: string, status: Status)
  {
    /** The stored row, with its SERIAL id and `created_at`. */
    function Row(id: nat, now: int): Order {
      Order(id, userId, sessionId, paymentIntentId, totalCents, currency, status, now)
    }

    /** `user_id INTEGER` accepts the user id; PostgreSQL checks this when the parameter is bound. */
    predicate UserFits() {
      userId <= Int4Max
    }

    /** `total_amount NUMERIC(10, 2)` accepts the total; PostgreSQL checks this while the insert runs. */
    predicate TotalFits() {
      -TotalLimitCents < totalCents < TotalLimitCents
    }

    predicate Fits() {
      UserFits() && TotalFits()
    }
  }

  function NewOrderOf(s: CheckoutSession): NewOrder
    requires IsPositiveInteger(UserIdOf(s))
  {
    NewOrder(UserIdOf(s).v.Floor, SessionIdOf(s), PaymentIntentOf(s), TotalCentsOf(s), CurrencyOf(s), StatusOf(s))
  }

  predicate HasSession(orders: map<nat, Order>, sessionId: string) {
    exists id :: id in orders && orders[id].sessionId == sessionId
  }

  /** An item insert fails before all `rows` are written. */
  predicate ItemFailure(fault: Fault, rows: seq<OrderItem>) {
    fault.ItemInsertFails? && fault.n < |rows|
  }

  /**
   * The order row and its item rows are inserted, or the transaction is
   * rolled back at the item insert that fails.
   */
  function Insertion(t: Tables, o: NewOrder, ids: seq<int>, keys: seq<int>, catalog: map<int, int>, fault: Fault, now: int)
    : (Tables, Result<Outcome, Failure>)
  {
    var orderId := t.nextOrderId;
    var rows := ItemRows(keys, ids, catalog, orderId, t.nextItemId);
    if ItemFailure(fault, rows) then
      (t.(nextOrderId := t.nextOrderId + 1, nextItemId := t.nextItemId + fault.n + 1), Err(DatabaseError))
    else
      (Tables(t.orders[orderId := o.Row(orderId, now)], t.items + RowsMap(rows), t.nextOrderId + 1, t.nextItemId + |rows|),
       Ok(Recorded(orderId)))
  }

  /**
   * The transaction, once the prices of the distinct ids `keys` are
   * known.  Sequences are not rolled back, so every insert that runs uses
   * up an id; a user id refused at parameter binding stops the insert
   * before its `id` default is evaluated.
   */
  function Transaction(t: Tables, o: NewOrder, ids: seq<int>, keys: seq<int>, catalog: map<int, int>, fault: Fault, now: int)
    : (Tables, Result<Outcome, Failure>)
  {
    if !o.UserFits() then (t, Err(DatabaseError))
    else if fault == OrderInsertFails || !o.TotalFits() then (t.(nextOrderId := t.nextOrderId + 1), Err(DatabaseError))
    else if HasSession(t.orders, o.sessionId) then (t.(nextOrderId := t.nextOrderId + 1), Ok(AlreadyRecorded))
    else Insertion(t, o, ids, keys, catalog, fault, now)
  }

  /** The price lookup fails: an id does not fit `$1::int[]`, or the query itself fails. */
  predicate LookupFails(keys: seq<int>, fault: Fault) {
    fault == QueryFails || (exists k :: k in keys && k > Int4Max)
  }

  /** The database part of the reconciler, once the metadata is valid. */
  function Transact(t: Tables, o: NewOrder, ids: seq<int>, catalog: map<int, int>, fault: Fault, now: int)
    : (Tables, Result<Outcome, Failure>)
  {
    if LookupFails(Distinct(ids), fault) then (t, Err(DatabaseError))
    else Transaction(t, o, ids, Distinct(ids), catalog, fault, now)
  }

  /**
   * `recordOrderFromCheckoutSession` as a function of the tables before
   * the call: the tables after it and what the call returns or throws.
   */
  function Reconcile(t: Tables, s: CheckoutSession, catalog: map<int, int>, fault: Fault, now: int): (Tables, Result<Outcome, Failure>) {
    if !ValidMetadata(s) then (t, Err(InvalidMetadata))
    else Transact(t, NewOrderOf(s), ParseProductIds(s.productIdsMeta), catalog, fault, now)
  }

  /** The rows for a prefix of the keys are a prefix of the rows for all of them. */
  lemma {:induction false} ItemRowsPrefix(keys: seq<int>, ids: seq<int>, catalog: map<int, int>, orderId: nat, first: nat, i: nat)
    requires i <= |keys|
    ensures ItemRows(keys[..i], ids, catalog, orderId, first) <= ItemRows(keys, ids, catalog, orderId, first)
    decreases |keys|
  {
    if i == |keys| {
      assert keys[..i] == keys;
    } else {
      var init := keys[..|keys| - 1];
      assert init[..i] == keys[..i];
      ItemRowsPrefix(init, ids, catalog, orderId, first, i);
    }
  }

  lemma MapUpdateUnion<K, V>(a: map<K, V>, b: map<K, V>, k: K, v: V)
    ensures (a + b)[k := v] == a + b[k := v]
  {
  }

  /** Row `j` is numbered `first + j`, belongs to the order, and holds a priced key's price and quantity. */
  ghost predicate RowShaped(rows: seq<OrderItem>, j: int, keys: seq<int>, ids: seq<int>, catalog: map<int, int>, orderId: nat, first: nat)
    requires 0 <= j < |rows|
  {
    rows[j].id == first + j && rows[j].orderId == orderId
    && rows[j].productId in keys && rows[j].productId in catalog
    && rows[j].unitPriceCents == catalog[rows[j].productId] && rows[j].quantity == Count(ids, rows[j].productId)
  }

  /** Every row is numbered from `first`, belongs to the order, and holds its product's price and quantity. */
  lemma {:induction false} ItemRowsShape(keys: seq<int>, ids: seq<int>, catalog: map<int, int>, orderId: nat, first: nat)
    ensures forall j :: 0 <= j < |ItemRows(keys, ids, catalog, orderId, first)| ==>
      RowShaped(ItemRows(keys, ids, catalog, orderId, first), j, keys, ids, catalog, orderId, first)
  {
    if keys != [] {
      var init := keys[..|keys| - 1];
      var k := keys[|keys| - 1];
      ItemRowsShape(init, ids, catalog, orderId, first);
      assert forall x :: x in init ==> x in keys;
      var prev := ItemRows(init, ids, catalog, orderId, first);
      var rows := ItemRows(keys, ids, catalog, orderId, first);
      if k in catalog {
        assert rows == prev + [OrderItem(first + |prev|, orderId, k, catalog[k], Count(ids, k))];
      } else {
        assert rows == prev;
      }
      forall j | 0 <= j < |rows|
        ensures RowShaped(rows, j, keys, ids, catalog, orderId, first)
      {
        if j < |prev| {
          assert RowShaped(prev, j, init, ids, catalog, orderId, first);
          assert rows[j] == prev[j];
        }
      }
    }
  }

  /** Every key with a price has a row. */
  ghost predicate CoversPriced(rows: seq<OrderItem>, keys: seq<int>, catalog: map<int, int>) {
    forall k :: k in keys && k in catalog ==> exists j :: 0 <= j < |rows| && rows[j].productId == k
  }

  /** No product has two rows. */
  ghost predicate DistinctProducts(rows: seq<OrderItem>) {
    forall i, j :: 0 <= i < j < |rows| ==> rows[i].productId != rows[j].productId
  }

  /** Each key with a price gets a row, and distinct keys give rows for distinct products. */
  lemma {:induction false} ItemRowsCover(keys: seq<int>, ids: seq<int>, catalog: map<int, int>, orderId: nat, first: nat)
    requires forall a, b :: 0 <= a < b < |keys| ==> keys[a] != keys[b]
    ensures CoversPriced(ItemRows(keys, ids, catalog, orderId, first), keys, catalog)
    ensures DistinctProducts(ItemRows(keys, ids, catalog, orderId, first))
  {
    if keys != [] {
      var init := keys[..|keys| - 1];
      var k := keys[|keys| - 1];
      var prev := ItemRows(init, ids, catalog, orderId, first);
      ItemRowsCover(init, ids, catalog, orderId, first);
      ItemRowsShape(init, ids, catalog, orderId, first);
      forall j | 0 <= j < |prev| ensures prev[j].productId in init {
        assert RowShaped(prev, j, init, ids, catalog, orderId, first);
      }
      assert k !in init by {
        forall a | 0 <= a < |init| ensures init[a] != k {
          assert init[a] == keys[a];
        }
      }
      assert forall x :: x in keys ==> x in init || x == k;
      var rows := ItemRows(keys, ids, catalog, orderId, first);
      if k in catalog {
        assert rows == prev + [OrderItem(first + |prev|, orderId, k, catalog[k], Count(ids, k))];
        forall x | x in keys && x in catalog
          ensures exists j :: 0 <= j < |rows| && rows[j].productId == x
        {
          if x == k {
            assert rows[|prev|].productId == x;
          } else {
            var j :| 0 <= j < |prev| && prev[j].productId == x;
            assert rows[j] == prev[j];
          }
        }
        forall i, j | 0 <= i < j < |rows|
          ensures rows[i].productId != rows[j].productId
        {
          assert rows[i] == prev[i];
          if j < |prev| {
            assert rows[j] == prev[j];
          }
        }
      } else {
        assert rows == prev;
        forall x | x in keys && x in catalog
          ensures exists j :: 0 <= j < |rows| && rows[j].productId == x
        {
          assert x in init;
          var j :| 0 <= j < |prev| && prev[j].productId == x;
          assert rows[j] == prev[j];
        }
        forall i, j | 0 <= i < j < |rows|
          ensures rows[i].productId != rows[j].productId
        {
          assert rows[i] == prev[i] && rows[j] == prev[j];
        }
      }
    }
  }

  /** Rows numbered from `first` fill exactly the ids `first .. first + |rows|` of the table fragment. */
  lemma {:induction false} RowsMapOf(rows: seq<OrderItem>, first: nat)
    requires forall j :: 0 <= j < |rows| ==> rows[j].id == first + j
    ensures forall id :: id in RowsMap(rows) <==> first <= id < first + |rows|
    ensures forall id :: id in RowsMap(rows) ==> id >= first && RowsMap(rows)[id] == rows[id - first]
  {
    if rows != [] {
      var init := rows[..|rows| - 1];
      RowsMapOf(init, first);
    }
  }

  /** An item row of order `orderId` for one of the distinct ids `keys`, priced from the catalog. */
  ghost predicate ItemFor(item: OrderItem, orderId: nat, ids: seq<int>, keys: seq<int>, catalog: map<int, int>) {
    item.orderId == orderId && item.productId in keys && item.productId in catalog
    && item.unitPriceCents == catalog[item.productId] && item.quantity == Count(ids, item.productId)
  }

  /** Nothing already stored is changed or removed, and the sequences never go back. */
  ghost predicate Extends(t: Tables, t2: Tables) {
    (forall id :: id in t.orders ==> id in t2.orders && t2.orders[id] == t.orders[id])
    && (forall id :: id in t.items ==> id in t2.items && t2.items[id] == t.items[id])
    && t.nextOrderId <= t2.nextOrderId && t.nextItemId <= t2.nextItemId
  }

  /**
   * Adding the item rows for `keys` to an item table whose ids are all
   * below `first` keeps every old row, and each fresh row is numbered
   * from `first` on and is an item of order `orderId`.
   */
  lemma AddedItems(items: map<nat, OrderItem>, items2: map<nat, OrderItem>, keys: seq<int>, ids: seq<int>, catalog: map<int, int>, orderId: nat, first: nat)
    requires forall id :: id in items ==> id < first
    requires items2 == items + RowsMap(ItemRows(keys, ids, catalog, orderId, first))
    ensures forall id :: id in items ==> id in items2 && items2[id] == items[id]
    ensures forall id :: id in items2 && id !in items ==>
      first <= id < first + |ItemRows(keys, ids, catalog, orderId, first)|
      && items2[id].id == id && ItemFor(items2[id], orderId, ids, keys, catalog)
  {
    var rows := ItemRows(keys, ids, catalog, orderId, first);
    ItemRowsShape(keys, ids, catalog, orderId, first);
    forall j | 0 <= j < |rows| ensures rows[j].id == first + j {
      assert RowShaped(rows, j, keys, ids, catalog, orderId, first);
    }
    RowsMapOf(rows, first);
    forall id | id in items2 && id !in items
      ensures items2[id] == rows[id - first] && ItemFor(items2[id], orderId, ids, keys, catalog)
    {
      assert RowShaped(rows, id - first, keys, ids, catalog, orderId, first);
    }
  }

  /**
   * When `keys` has no repeats, the fresh rows hold exactly one row per
   * priced key.
   */
  lemma AddedItemsCover(items: map<nat, OrderItem>, items2: map<nat, OrderItem>, keys: seq<int>, ids: seq<int>, catalog: map<int, int>, orderId: nat, first: nat)
    requires forall id :: id in items ==> id < first
    requires forall a, b :: 0 <= a < b < |keys| ==> keys[a] != keys[b]
    requires items2 == items + RowsMap(ItemRows(keys, ids, catalog, orderId, first))
    ensures forall p :: p in keys && p in catalog ==> exists id :: id in items2 && id !in items && items2[id].productId == p
    ensures forall a, b :: a in items2 && a !in items && b in items2 && b !in items && a != b ==>
      items2[a].productId != items2[b].productId
  {
    var rows := ItemRows(keys, ids, catalog, orderId, first);
    var added := RowsMap(rows);
    ItemRowsShape(keys, ids, catalog, orderId, first);
    ItemRowsCover(keys, ids, catalog, orderId, first);
    forall j | 0 <= j < |rows| ensures rows[j].id == first + j {
      assert RowShaped(rows, j, keys, ids, catalog, orderId, first);
    }
    RowsMapOf(rows, first);
    forall p | p in keys && p in catalog
      ensures exists id :: id in items2 && id !in items && items2[id].productId == p
    {
      var j :| 0 <= j < |rows| && rows[j].productId == p;
      assert first + j in added && added[first + j] == rows[j];
    }
    forall a, b | a in items2 && a !in items && b in items2 && b !in items && a != b
      ensures items2[a].productId != items2[b].productId
    {
      assert items2[a] == rows[a - first] && items2[b] == rows[b - first];
    }
  }

  /**
   * The database part never reports invalid metadata, and changes no row
   * unless it records the order.  A user id outside `INTEGER` changes
   * nothing, not even the order sequence; a total outside the column
   * uses up one order id.
   */
  lemma TransactAllOrNothing(t: Tables, o: NewOrder, ids: seq<int>, catalog: map<int, int>, fault: Fault, now: int,
                             t2: Tables, r: Result<Outcome, Failure>)
    requires (t2, r) == Transact(t, o, ids, catalog, fault, now)
    ensures r != Err(InvalidMetadata)
    ensures r.Err? || r == Ok(AlreadyRecorded) ==> t2.orders == t.orders && t2.items == t.items
    ensures !o.UserFits() ==> t2 == t && r == Err(DatabaseError)
    ensures o.UserFits() && !o.TotalFits() && !LookupFails(Distinct(ids), fault) ==>
      t2 == t.(nextOrderId := t.nextOrderId + 1) && r == Err(DatabaseError)
  {
    if !LookupFails(Distinct(ids), fault) {
      var keys := Distinct(ids);
      if fault != OrderInsertFails && o.Fits() && !HasSession(t.orders, o.sessionId) {
        assert (t2, r) == Insertion(t, o, ids, keys, catalog, fault, now);
      }
    }
  }

  /**
   * Metadata that fails the guard is rejected before the database is
   * touched; every failure and every duplicate leaves both tables as
   * they were (only the sequences may have moved).
   */
  lemma ReconcileAllOrNothing(t: Tables, s: CheckoutSession, catalog: map<int, int>, fault: Fault, now: int,
                              t2: Tables, r: Result<Outcome, Failure>)
    requires (t2, r) == Reconcile(t, s, catalog, fault, now)
    ensures r == Err(InvalidMetadata) <==> !ValidMetadata(s)
    ensures !ValidMetadata(s) ==> t2 == t
    ensures r.Err? || r == Ok(AlreadyRecorded) ==> t2.orders == t.orders && t2.items == t.items
  {
    if ValidMetadata(s) {
      TransactAllOrNothing(t, NewOrderOf(s), ParseProductIds(s.productIdsMeta), catalog, fault, now, t2, r);
    }
  }

  /** Inserting a new session's order and items keeps the tables well formed and only adds rows. */
  lemma InsertionPreservesValid(t: Tables, o: NewOrder, ids: seq<int>, keys: seq<int>, catalog: map<int, int>, fault: Fault, now: int, t2: Tables)
    requires ValidTables(t) && !HasSession(t.orders, o.sessionId)
    requires t2 == Insertion(t, o, ids, keys, catalog, fault, now).0
    ensures ValidTables(t2) && Extends(t, t2)
  {
    var orderId := t.nextOrderId;
    var rows := ItemRows(keys, ids, catalog, orderId, t.nextItemId);
    if !ItemFailure(fault, rows) {
      assert t2.orders == t.orders[orderId := o.Row(orderId, now)];
      forall a, b | a in t2.orders && b in t2.orders && a != b
        ensures t2.orders[a].sessionId != t2.orders[b].sessionId
      {
        if a == orderId {
          assert t.orders[b].sessionId != o.sessionId;
        } else if b == orderId {
          assert t.orders[a].sessionId != o.sessionId;
        }
      }
      AddedItems(t.items, t2.items, keys, ids, catalog, orderId, t.nextItemId);
    }
  }

  /** The database part keeps the tables well formed and only ever adds rows. */
  lemma TransactPreservesValid(t: Tables, o: NewOrder, ids: seq<int>, catalog: map<int, int>, fault: Fault, now: int, t2: Tables)
    requires ValidTables(t)
    requires t2 == Transact(t, o, ids, catalog, fault, now).0
    ensures ValidTables(t2) && Extends(t, t2)
  {
    var keys := Distinct(ids);
    if !LookupFails(keys, fault) && fault != OrderInsertFails && o.Fits() && !HasSession(t.orders, o.sessionId) {
      InsertionPreservesValid(t, o, ids, keys, catalog, fault, now, t2);
    }
  }

  /** The reconciler keeps the tables well formed and only ever adds rows. */
  lemma ReconcilePreservesValid(t: Tables, s: CheckoutSession, catalog: map<int, int>, fault: Fault, now: int, t2: Tables)
    requires ValidTables(t)
    requires t2 == Reconcile(t, s, catalog, fault, now).0
    ensures ValidTables(t2) && Extends(t, t2)
  {
    if ValidMetadata(s) {
      TransactPreservesValid(t, NewOrderOf(s), ParseProductIds(s.productIdsMeta), catalog, fault, now, t2);
    }
  }

  /** What a recorded outcome of the database part says about the tables before and after. */
  lemma TransactRecorded(t: Tables, o: NewOrder, ids: seq<int>, catalog: map<int, int>, fault: Fault, now: int, t2: Tables, orderId: nat)
    requires (t2, Ok(Recorded(orderId))) == Transact(t, o, ids, catalog, fault, now)
    ensures !HasSession(t.orders, o.sessionId) && orderId == t.nextOrderId
    ensures t2.orders == t.orders[orderId := o.Row(orderId, now)]
    ensures t2.items == t.items + RowsMap(ItemRows(Distinct(ids), ids, catalog, orderId, t.nextItemId))
  {
    assert !LookupFails(Distinct(ids), fault);
  }

  /**
   * A recorded session: the metadata was valid and the session new, the
   * order row carries the session's values (paid exactly when Stripe says
   * "paid", the total defaulting to 0), and the fresh item rows are one
   * per distinct listed product that has a price, each with that
   * product's price and the number of times it was listed.
   */
  lemma ReconcileRecorded(t: Tables, s: CheckoutSession, catalog: map<int, int>, fault: Fault, now: int, t2: Tables, orderId: nat)
    requires ValidTables(t)
    requires (t2, Ok(Recorded(orderId))) == Reconcile(t, s, catalog, fault, now)
    ensures ValidMetadata(s) && !HasSession(t.orders, SessionIdOf(s))
    ensures orderId == t.nextOrderId && orderId !in t.orders
    ensures t2.orders == t.orders[orderId := Order(orderId, UserIdOf(s).v.Floor, SessionIdOf(s), PaymentIntentOf(s),
                                                   s.amountTotal.GetOr(0), CurrencyOf(s), StatusOf(s), now)]
    ensures forall id :: id in t2.items && id !in t.items ==>
      ItemFor(t2.items[id], orderId, ParseProductIds(s.productIdsMeta), Distinct(ParseProductIds(s.productIdsMeta)), catalog)
    ensures forall p :: p in ParseProductIds(s.productIdsMeta) && p in catalog ==>
      exists id :: id in t2.items && id !in t.items && t2.items[id].productId == p
    ensures forall a, b :: a in t2.items && a !in t.items && b in t2.items && b !in t.items && a != b ==>
      t2.items[a].productId != t2.items[b].productId
  {
    var ids := ParseProductIds(s.productIdsMeta);
    var keys := Distinct(ids);
    TransactRecorded(t, NewOrderOf(s), ids, catalog, fault, now, t2, orderId);
    AddedItems(t.items, t2.items, keys, ids, catalog, orderId, t.nextItemId);
    AddedItemsCover(t.items, t2.items, keys, ids, catalog, orderId, t.nextItemId);
  }

  /**
   * A successful run of the database part leaves the session recorded,
   * and it succeeded only if the order values fit and no id was too large.
   */
  lemma TransactOkRecords(t: Tables, o: NewOrder, ids: seq<int>, catalog: map<int, int>, fault: Fault, now: int,
                          t1: Tables, r1: Result<Outcome, Failure>)
    requires (t1, r1) == Transact(t, o, ids, catalog, fault, now) && r1.Ok?
    ensures HasSession(t1.orders, o.sessionId) && o.Fits() && !LookupFails(Distinct(ids), NoFault)
  {
    if r1.value.Recorded? {
      assert t1.orders[t.nextOrderId].sessionId == o.sessionId;
    }
  }

  /** Running the database part for a session already recorded adds nothing. */
  lemma TransactReplay(t1: Tables, o: NewOrder, ids: seq<int>, catalog: map<int, int>, fault: Fault, now: int)
    requires HasSession(t1.orders, o.sessionId) && o.Fits() && !LookupFails(Distinct(ids), NoFault)
    ensures Transact(t1, o, ids, catalog, fault, now).0.orders == t1.orders
    ensures Transact(t1, o, ids, catalog, fault, now).0.items == t1.items
    ensures fault != QueryFails && fault != OrderInsertFails ==> Transact(t1, o, ids, catalog, fault, now).1 == Ok(AlreadyRecorded)
  {
  }

  /**
   * Replaying a session that was recorded (or found recorded) never
   * inserts again: the tables stay as they are, and unless the database
   * fails the answer is "already recorded".
   */
  lemma ReconcileIdempotent(t: Tables, s: CheckoutSession, catalog: map<int, int>, fault: Fault, now: int,
                            t1: Tables, r1: Result<Outcome, Failure>, catalog2: map<int, int>, fault2: Fault, now2: int)
    requires (t1, r1) == Reconcile(t, s, catalog, fault, now) && r1.Ok?
    ensures Reconcile(t1, s, catalog2, fault2, now2).0.orders == t1.orders
    ensures Reconcile(t1, s, catalog2, fault2, now2).0.items == t1.items
    ensures fault2 != QueryFails && fault2 != OrderInsertFails ==> Reconcile(t1, s, catalog2, fault2, now2).1 == Ok(AlreadyRecorded)
  {
    var o := NewOrderOf(s);
    var ids := ParseProductIds(s.productIdsMeta);
    TransactOkRecords(t, o, ids, catalog, fault, now, t1, r1);
    TransactReplay(t1, o, ids, catalog2, fault2, now2);
  }

  /**
   * A valid, new session whose ids fit the column types is recorded when
   * no statement fails.
   */
  lemma ReconcileRecordsFresh(t: Tables, s: CheckoutSession, catalog: map<int, int>, now: int)
    requires ValidMetadata(s) && NewOrderOf(s).Fits() && !HasSession(t.orders, SessionIdOf(s))
    requires forall p :: p in ParseProductIds(s.productIdsMeta) ==> p <= Int4Max
    ensures Reconcile(t, s, catalog, NoFault, now).1 == Ok(Recorded(t.nextOrderId))
  {
  }

  /** The `orders` and `order_items` tables with their SERIAL sequences. */
  class Store {
    var orders: map<nat, Order>
    var items: map<nat, OrderItem>
    var nextOrderId: nat
    var nextItemId: nat

    function State(): Tables
      reads this
    {
      Tables(orders, items, nextOrderId, nextItemId)
    }

    /** Empty tables; both sequences start at 1. */
    constructor ()
      ensures State() == Tables(map[], map[], 1, 1) && ValidTables(State())
    {
      orders := map[];
      items := map[];
      nextOrderId := 1;
      nextItemId := 1;
    }

    /**
     * `recordOrderFromCheckoutSession(session)`: validate, group the ids,
     * look the prices up, then insert the order (or find it already there)
     * and its items in one transaction that is rolled back on any failure.
     */
    method RecordOrder(session: CheckoutSession, catalog: map<int, int>, fault: Fault, now: int)
      returns (r: Result<Outcome, Failure>)
      modifies this
      ensures (State(), r) == Reconcile(old(State()), session, catalog, fault, now)
    {
      var userId := UserIdOf(session);
      var productIds := ParseProductIds(session.productIdsMeta);
      var sessionId := SessionIdOf(session);
      if !IsPositiveInteger(userId) || sessionId == [] || productIds == [] {
        return Err(InvalidMetadata);
      }
      r := Record(NewOrderOf(session), productIds, catalog, fault, now);
    }

    /** The price lookup and the transaction. */
    method Record(o: NewOrder, ids: seq<int>, catalog: map<int, int>, fault: Fault, now: int)
      returns (r: Result<Outcome, Failure>)
      modifies this
      ensures (State(), r) == Transact(old(State()), o, ids, catalog, fault, now)
    {
      var keys, counts := GroupQuantities(ids);
      if fault == QueryFails || exists k :: k in keys && k > Int4Max {
        return Err(DatabaseError);
      }
      r := RunTransaction(o, ids, keys, counts, catalog, fault, now);
    }

    /** `BEGIN`, the order insert, the item inserts, then `COMMIT` or `ROLLBACK`. */
    method RunTransaction(o: NewOrder, ids: seq<int>, keys: seq<int>, counts: map<int, nat>, catalog: map<int, int>, fault: Fault, now: int)
      returns (r: Result<Outcome, Failure>)
      requires forall k :: k in keys ==> k in counts && counts[k] == Count(ids, k)
      modifies this
      ensures (State(), r) == Transaction(old(State()), o, ids, keys, catalog, fault, now)
    {
      if !o.UserFits() {
        return Err(DatabaseError);
      }
      if fault == OrderInsertFails || !o.TotalFits() {
        nextOrderId := nextOrderId + 1;
        return Err(DatabaseError);
      }
      if exists id :: id in orders && orders[id].sessionId == o.sessionId {
        nextOrderId := nextOrderId + 1;
        return Ok(AlreadyRecorded);
      }
      r := InsertOrder(o, ids, keys, counts, catalog, fault, now);
    }

    /** A fresh session: the order insert succeeds, then the items are inserted. */
    method InsertOrder(o: NewOrder, ids: seq<int>, keys: seq<int>, counts: map<int, nat>, catalog: map<int, int>, fault: Fault, now: int)
      returns (r: Result<Outcome, Failure>)
      requires forall k :: k in keys ==> k in counts && counts[k] == Count(ids, k)
      modifies this
      ensures (State(), r) == Insertion(old(State()), o, ids, keys, catalog, fault, now)
    {
      var savedOrders, savedItems := orders, items;
      var orderId := nextOrderId;
      nextOrderId := nextOrderId + 1;
      orders := orders[orderId := o.Row(orderId, now)];
      var failed := InsertItems(keys, counts, ids, catalog, orderId, fault);
      if failed {
        orders, items := savedOrders, savedItems;
        return Err(DatabaseError);
      }
      return Ok(Recorded(orderId));
    }

    /**
     * One item insert per key that has a price, in key order; stops at the
     * insert that fails, leaving the rollback to the caller.
     */
    method InsertItems(keys: seq<int>, counts: map<int, nat>, ids: seq<int>, catalog: map<int, int>, orderId: nat, fault: Fault)
      returns (failed: bool)
      requires forall k :: k in keys ==> k in counts && counts[k] == Count(ids, k)
      modifies this
      ensures orders == old(orders) && nextOrderId == old(nextOrderId)
      ensures var rows := ItemRows(keys, ids, catalog, orderId, old(nextItemId));
        failed == ItemFailure(fault, rows)
        && (failed ==> nextItemId == old(nextItemId) + fault.n + 1)
        && (!failed ==> items == old(items) + RowsMap(rows) && nextItemId == old(nextItemId) + |rows|)
    {
      var first := nextItemId;
      var inserted: nat := 0;
      for i := 0 to |keys|
        invariant orders == old(orders) && nextOrderId == old(nextOrderId)
        invariant inserted == |ItemRows(keys[..i], ids, catalog, orderId, first)|
        invariant nextItemId == first + inserted
        invariant items == old(items) + RowsMap(ItemRows(keys[..i], ids, catalog, orderId, first))
        invariant fault.ItemInsertFails? ==> fault.n >= inserted
      {
        var productId := keys[i];
        var prev := ItemRows(keys[..i], ids, catalog, orderId, first);
        assert keys[..i + 1][..i] == keys[..i];
        assert keys[..i + 1][i] == productId;
        if productId in catalog {
          if fault == ItemInsertFails(inserted) {
            ItemRowsPrefix(keys, ids, catalog, orderId, first, i + 1);
            nextItemId := nextItemId + 1;
            return true;
          }
          var row := OrderItem(nextItemId, orderId, productId, catalog[productId], counts[productId]);
          assert ItemRows(keys[..i + 1], ids, catalog, orderId, first) == prev + [row];
          assert RowsMap(prev + [row]) == RowsMap(prev)[nextItemId := row] by {
            assert (prev + [row])[..|prev|] == prev;
          }
          MapUpdateUnion(old(items), RowsMap(prev), nextItemId, row);
          items := items[nextItemId := row];
          nextItemId := nextItemId + 1;
          inserted := inserted + 1;
        } else {
          assert ItemRows(keys[..i + 1], ids, catalog, orderId, first) == prev;
        }
      }
      assert keys[..|keys|] == keys;
      return false;
    }
  }
}
