/**
 * The `/create-session` route: the posted id list is normalised and
 * grouped into quantities, the products are looked up, and a Stripe
 * checkout session is requested with one line item per product and the
 * id list in its metadata.  The Stripe client is a function parameter
 * that answers a request with a session, or with `None` when it throws.
 */
module Checkout {
  import opened Wrappers
  import opened JsText
  import opened JsNumber
  import opened Json
  import opened JsonWrite
  import opened ProductIds
  import opened Quantities
  import PurchaseStore
  import PgInt4

  /** A `products` row as the route reads it; the price in cents. */
  datatype Product = Product(title: string, priceCents: int)

  /** One `line_items` entry: `price_data` (currency, product name, unit amount) and the quantity. */
  datatype LineItem = LineItem(currency: string, name: string, unitAmountCents: int, quantity: nat)

  /** The argument of `stripe.checkout.sessions.create`. */
  datatype SessionRequest = SessionRequest(
    mode: string, lineItems: seq<LineItem>, successUrl: string, cancelUrl: string,
    userIdMeta: string, productIdsMeta: string)

  /** The part of the created session the route returns. */
  datatype StripeSession = StripeSession(id: string, url: Option<string>)

  /** A `200 {url, sessionId}` reply, or an error status with its message. */
  datatype Reply = SessionCreated(url: Option<string>, sessionId: string) | Error(status: nat, message: string)

  const NotConfigured := Error(500, "STRIPE_SECRET_KEY is not configured")
  const NoProducts := Error(400, "At least one product is required")
  const InvalidProducts := Error(400, "One or more products are invalid")
  const CreateFailed := Error(500, "Failed to create checkout session")

  /** An environment variable that JavaScript treats as set: present and not empty. */
  predicate IsSet(v: Option<string>) {
    v.Some? && v.value != []
  }

  /** `process.env.FRONTEND_URL || 'http://localhost:5173'`. */
  function FrontendUrl(v: Option<string>): string {
    if IsSet(v) then v.value else "http://localhost:5173"
  }

  /** The rows of `SELECT ... WHERE id = ANY(keys)`: the keys that are products, in key order. */
  function FoundRows(keys: seq<int>, products: map<int, Product>): (rows: seq<(int, Product)>)
    ensures |rows| <= |keys|
  {
    if keys == [] then []
    else (if keys[0] in products then [(keys[0], products[keys[0]])] else []) + FoundRows(keys[1..], products)
  }

  /** `quantityByProductId.get(id) || 1`: the count, or 1 for an id the map lacks. */
  function QuantityOf(ids: seq<int>, id: int): (q: nat)
    ensures q >= 1
  {
    if Count(ids, id) > 0 then Count(ids, id) else 1
  }

  /** `productsResult.rows.map(...)`: one line item per row. */
  function LineItemsOf(ids: seq<int>, rows: seq<(int, Product)>): (items: seq<LineItem>) {
    seq(|rows|, i requires 0 <= i < |rows| =>
      LineItem("usd", rows[i].1.title, rows[i].1.priceCents, QuantityOf(ids, rows[i].0)))
  }

  /** The session request, with `user_id: String(sub)` and `product_ids: JSON.stringify(productIds)`. */
  function RequestOf(ids: seq<int>, rows: seq<(int, Product)>, sub: int, frontend: Option<string>): SessionRequest {
    SessionRequest("payment", LineItemsOf(ids, rows),
                   FrontendUrl(frontend) + "/my-purchases?checkout=success",
                   FrontendUrl(frontend) + "/cart?checkout=canceled",
                   DecimalString(sub), IntArrayText(ids))
  }

  /** The `$1::int[]` cast fails for an id beyond the `int` range. */
  predicate TooLarge(keys: seq<int>) {
    exists k :: k in keys && k > PgInt4.Int4Max
  }

  /**
   * Everything before the call to Stripe: the session request, or the
   * reply the route gives without creating a session.  `dbFails` says
   * that the table setup or the product query throws.
   */
  function Prepare(secret: Option<string>, frontend: Option<string>, body: Option<Json>, sub: int,
                   products: map<int, Product>, dbFails: bool): Result<SessionRequest, Reply>
  {
    var ids := NormalizeProductIds(body);
    if !IsSet(secret) then Err(NotConfigured)
    else if ids == [] then Err(NoProducts)
    else
      var keys := Distinct(ids);
      if dbFails || TooLarge(keys) then Err(CreateFailed)
      else
        var rows := FoundRows(keys, products);
        if |rows| != |keys| then Err(InvalidProducts)
        else Ok(RequestOf(ids, rows, sub, frontend))
  }

  /** The route's reply; `create` stands for `stripe.checkout.sessions.create`. */
  function CheckoutReply(secret: Option<string>, frontend: Option<string>, body: Option<Json>, sub: int,
                         products: map<int, Product>, dbFails: bool,
                         create: SessionRequest -> Option<StripeSession>): Reply
  {
    match Prepare(secret, frontend, body, sub, products, dbFails)
    case Err(reply) => reply
    case Ok(request) =>
      match create(request)
      case None => CreateFailed
      case Some(session) => SessionCreated(session.url, session.id)
  }

  /** The handler: the request is prepared, then Stripe is asked for the session. */
  method CreateSession(secret: Option<string>, frontend: Option<string>, body: Option<Json>, sub: int,
                       products: map<int, Product>, dbFails: bool,
                       create: SessionRequest -> Option<StripeSession>) returns (reply: Reply)
    ensures reply == CheckoutReply(secret, frontend, body, sub, products, dbFails, create)
  {
    var prepared := PrepareSession(secret, frontend, body, sub, products, dbFails);
    if prepared.Err? {
      return prepared.error;
    }
    var session := create(prepared.value);
    if session.None? {
      return CreateFailed;
    }
    return SessionCreated(session.value.url, session.value.id);
  }

  /** The checks and the request: the quantities are counted in a loop, then a line item is built per row. */
  method PrepareSession(secret: Option<string>, frontend: Option<string>, body: Option<Json>, sub: int,
                        products: map<int, Product>, dbFails: bool) returns (prepared: Result<SessionRequest, Reply>)
    ensures prepared == Prepare(secret, frontend, body, sub, products, dbFails)
  {
    var ids := NormalizeProductIds(body);
    if !IsSet(secret) {
      return Err(NotConfigured);
    }
    if |ids| == 0 {
      return Err(NoProducts);
    }
    var keys, counts := GroupQuantities(ids);
    if dbFails || exists k :: k in keys && k > PgInt4.Int4Max {
      return Err(CreateFailed);
    }
    var rows := FoundRows(keys, products);
    if |rows| != |keys| {
      return Err(InvalidProducts);
    }
    var items := BuildLineItems(ids, counts, rows);
    var base := FrontendUrl(frontend);
    return Ok(SessionRequest("payment", items, base + "/my-purchases?checkout=success",
                             base + "/cart?checkout=canceled", DecimalString(sub), IntArrayText(ids)));
  }

  /** The `rows.map(...)` step, reading each quantity from the grouped counts. */
  method BuildLineItems(ids: seq<int>, counts: map<int, nat>, rows: seq<(int, Product)>) returns (items: seq<LineItem>)
    requires forall x :: x in counts <==> x in ids
    requires forall x :: x in counts ==> counts[x] == Count(ids, x)
    ensures items == LineItemsOf(ids, rows)
  {
    items := seq(|rows|, i requires 0 <= i < |rows| =>
      LineItem("usd", rows[i].1.title, rows[i].1.priceCents,
               if rows[i].0 in counts && counts[rows[i].0] != 0 then counts[rows[i].0] else 1));
  }

  /** All keys were found exactly when the query returned one row per key, and then row `i` is key `i`. */
  lemma {:induction false} FoundRowsComplete(keys: seq<int>, products: map<int, Product>)
    ensures |FoundRows(keys, products)| == |keys| <==> forall k :: k in keys ==> k in products
    ensures |FoundRows(keys, products)| == |keys| ==>
      forall i :: 0 <= i < |keys| ==> keys[i] in products && FoundRows(keys, products)[i] == (keys[i], products[keys[i]])
  {
    if keys != [] {
      FoundRowsComplete(keys[1..], products);
      assert forall k :: k in keys ==> k == keys[0] || k in keys[1..];
      assert forall k :: k in keys[1..] ==> k in keys;
      var rest := FoundRows(keys[1..], products);
      if keys[0] in products {
        var rows := FoundRows(keys, products);
        assert rows == [(keys[0], products[keys[0]])] + rest;
        if |rows| == |keys| {
          forall i | 0 <= i < |keys| ensures keys[i] in products && rows[i] == (keys[i], products[keys[i]]) {
            if i > 0 {
              assert rows[i] == rest[i - 1] && keys[i] == keys[1..][i - 1];
            }
          }
        }
      } else {
        assert FoundRows(keys, products) == rest && |rest| <= |keys[1..]| == |keys| - 1;
        assert |FoundRows(keys, products)| < |keys|;
        NotAllFound(keys, products, keys[0]);
      }
    }
  }

  lemma NotAllFound(keys: seq<int>, products: map<int, Product>, k: int)
    requires k in keys && k !in products
    ensures !(forall x :: x in keys ==> x in products)
  {
  }

  /**
   * The route's decisions in order: a missing secret first, then an
   * empty list, then a database failure or an id out of range, then an
   * unknown product; none of these calls Stripe.
   */
  lemma PrepareDecisions(secret: Option<string>, frontend: Option<string>, body: Option<Json>, sub: int,
                         products: map<int, Product>, dbFails: bool)
    ensures Prepare(secret, frontend, body, sub, products, dbFails) == Err(NotConfigured) <==> !IsSet(secret)
    ensures Prepare(secret, frontend, body, sub, products, dbFails) == Err(NoProducts) <==>
      IsSet(secret) && NormalizeProductIds(body) == []
    ensures Prepare(secret, frontend, body, sub, products, dbFails) == Err(CreateFailed) <==>
      IsSet(secret) && NormalizeProductIds(body) != []
      && (dbFails || exists k :: k in NormalizeProductIds(body) && k > PgInt4.Int4Max)
    ensures Prepare(secret, frontend, body, sub, products, dbFails) == Err(InvalidProducts) <==>
      IsSet(secret) && NormalizeProductIds(body) != []
      && !dbFails && (forall k :: k in NormalizeProductIds(body) ==> k <= PgInt4.Int4Max)
      && exists k :: k in NormalizeProductIds(body) && k !in products
  {
    var ids := NormalizeProductIds(body);
    FoundRowsComplete(Distinct(ids), products);
  }

  /** Stripe is called only with a prepared request: every rejection is the same whatever Stripe would do. */
  lemma RejectionsSkipStripe(secret: Option<string>, frontend: Option<string>, body: Option<Json>, sub: int,
                             products: map<int, Product>, dbFails: bool,
                             create1: SessionRequest -> Option<StripeSession>, create2: SessionRequest -> Option<StripeSession>)
    requires Prepare(secret, frontend, body, sub, products, dbFails).Err?
    ensures CheckoutReply(secret, frontend, body, sub, products, dbFails, create1)
         == CheckoutReply(secret, frontend, body, sub, products, dbFails, create2)
    ensures CheckoutReply(secret, frontend, body, sub, products, dbFails, create1).Error?
  {
  }

  /**
   * A prepared request holds one line item per distinct requested id, in
   * first-occurrence order, each with its product's name and price and
   * the number of times the id was requested; the quantities add up to
   * the length of the list.
   */
  lemma PreparedLineItems(secret: Option<string>, frontend: Option<string>, body: Option<Json>, sub: int,
                          products: map<int, Product>, dbFails: bool, request: SessionRequest)
    requires Prepare(secret, frontend, body, sub, products, dbFails) == Ok(request)
    ensures |request.lineItems| == |Distinct(NormalizeProductIds(body))|
    ensures forall i :: 0 <= i < |request.lineItems| ==>
      var id := Distinct(NormalizeProductIds(body))[i];
      id in products && request.lineItems[i]
        == LineItem("usd", products[id].title, products[id].priceCents, Count(NormalizeProductIds(body), id))
    ensures SumCounts(NormalizeProductIds(body), Distinct(NormalizeProductIds(body))) == |NormalizeProductIds(body)|
  {
    var ids := NormalizeProductIds(body);
    var keys := Distinct(ids);
    FoundRowsComplete(keys, products);
    QuantitiesSumToLength(ids);
    forall i | 0 <= i < |request.lineItems|
      ensures keys[i] in products
      ensures request.lineItems[i] == LineItem("usd", products[keys[i]].title, products[keys[i]].priceCents, Count(ids, keys[i]))
    {
      assert keys[i] in ids;
    }
  }

  /**
   * The metadata written at checkout reads back at reconciliation: the
   * product list parses to the normalised list and the user id converts
   * to the subject.
   */
  lemma PreparedMetadata(secret: Option<string>, frontend: Option<string>, body: Option<Json>, sub: int,
                         products: map<int, Product>, dbFails: bool, request: SessionRequest)
    requires Prepare(secret, frontend, body, sub, products, dbFails) == Ok(request)
    ensures ParseProductIds(Some(request.productIdsMeta)) == NormalizeProductIds(body)
    ensures StringToNumber(request.userIdMeta) == Finite(sub as real)
  {
    var ids := NormalizeProductIds(body);
    assert request.productIdsMeta == IntArrayText(ids) && request.userIdMeta == DecimalString(sub);
    MetadataRoundTrip(body);
    StringToNumberOfDecimal(sub);
  }

  /**
   * A completed session created from a prepared request for a positive
   * subject passes the reconciler's guard, and the reconciler counts each
   * product exactly as the line items did.
   */
  lemma CheckoutFeedsReconciler(secret: Option<string>, frontend: Option<string>, body: Option<Json>, sub: int,
                                products: map<int, Product>, dbFails: bool, request: SessionRequest,
                                s: PurchaseStore.CheckoutSession)
    requires Prepare(secret, frontend, body, sub, products, dbFails) == Ok(request)
    requires sub > 0 && s.id.Some? && s.id.value != []
    requires s.userIdMeta == Some(request.userIdMeta) && s.productIdsMeta == Some(request.productIdsMeta)
    ensures PurchaseStore.ValidMetadata(s)
    ensures PurchaseStore.NewOrderOf(s).userId == sub
    ensures ParseProductIds(s.productIdsMeta) == NormalizeProductIds(body)
  {
    PreparedMetadata(secret, frontend, body, sub, products, dbFails, request);
    assert (sub as real).Floor == sub;
  }
}
