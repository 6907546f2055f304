/**
 * The Stripe webhook endpoint: configuration check, signature check
 * (Stripe's `constructEvent`, a parameter here), and dispatch of the two
 * checkout events to the order reconciler.
 */
module Webhook {
  import opened Wrappers
  import opened Utf8
  import opened PurchaseStore

  const CompletedEvent := "checkout.session.completed"
  const AsyncSucceededEvent := "checkout.session.async_payment_succeeded"
  const NotConfigured := "Stripe webhook is not fully configured"
  const MissingSignature := "Missing Stripe signature header"
  const ProcessingFailed := "Failed to process Stripe webhook event"

  /** A verified event: its type and `event.data.object`, read as a checkout session. */
  datatype Event = Event(eventType: string, session: CheckoutSession)

  /**
   * `stripe.webhooks.constructEvent(body, signature, secret)`: the event,
   * or the message of the error it throws.
   */
  type ConstructEvent = (seq<Byte>, string, string) -> Result<Event, string>

  datatype Reply =
    | ErrorJson(status: nat, error: string)
    | ErrorText(status: nat, text: string)
    | Received

  /** The events that record an order. */
  predicate Reconciles(eventType: string) {
    eventType == CompletedEvent || eventType == AsyncSucceededEvent
  }

  /** A variable of `process.env` is usable when it is set and not empty. */
  predicate Configured(value: Option<string>) {
    value.Some? && value.value != ""
  }

  /** The handler on the tables: the tables afterwards and the reply. */
  function HandleWebhook(t: Tables, stripeKey: Option<string>, webhookSecret: Option<string>, signature: Option<string>,
                         body: seq<Byte>, construct: ConstructEvent, catalog: map<int, int>, fault: Fault, now: int)
    : (Tables, Reply)
  {
    if !Configured(stripeKey) || !Configured(webhookSecret) then (t, ErrorJson(500, NotConfigured))
    else if !Configured(signature) then (t, ErrorJson(400, MissingSignature))
    else
      match construct(body, signature.value, webhookSecret.value)
      case Err(message) => (t, ErrorText(400, "Webhook Error: " + message))
      case Ok(event) =>
        if !Reconciles(event.eventType) then (t, Received)
        else
          var (t2, r) := Reconcile(t, event.session, catalog, fault, now);
          (t2, if r.Ok? then Received else ErrorJson(500, ProcessingFailed))
  }

  /** `POST /api/stripe/webhook` against the store. */
  method Handle(store: Store, stripeKey: Option<string>, webhookSecret: Option<string>, signature: Option<string>,
                body: seq<Byte>, construct: ConstructEvent, catalog: map<int, int>, fault: Fault, now: int)
    returns (reply: Reply)
    modifies store
    ensures (store.State(), reply) == HandleWebhook(old(store.State()), stripeKey, webhookSecret, signature, body,
                                                    construct, catalog, fault, now)
  {
    if !Configured(stripeKey) || !Configured(webhookSecret) {
      return ErrorJson(500, NotConfigured);
    }
    if !Configured(signature) {
      return ErrorJson(400, MissingSignature);
    }
    var event := construct(body, signature.value, webhookSecret.value);
    if event.Err? {
      return ErrorText(400, "Webhook Error: " + event.error);
    }
    if Reconciles(event.value.eventType) {
      var r := store.RecordOrder(event.value.session, catalog, fault, now);
      if r.Err? {
        return ErrorJson(500, ProcessingFailed);
      }
    }
    return Received;
  }

  /**
   * Nothing is written unless the service is configured, the signature
   * header is there and the event verifies: a missing secret is 500, a
   * missing header or a failed verification 400.
   */
  lemma RejectedBeforeDispatch(t: Tables, stripeKey: Option<string>, webhookSecret: Option<string>, signature: Option<string>,
                               body: seq<Byte>, construct: ConstructEvent, catalog: map<int, int>, fault: Fault, now: int)
    ensures var (t2, reply) := HandleWebhook(t, stripeKey, webhookSecret, signature, body, construct, catalog, fault, now);
      (reply == ErrorJson(500, NotConfigured) <==> !Configured(stripeKey) || !Configured(webhookSecret))
      && (reply == ErrorJson(400, MissingSignature) <==>
            Configured(stripeKey) && Configured(webhookSecret) && !Configured(signature))
      && (reply.ErrorText? <==>
            Configured(stripeKey) && Configured(webhookSecret) && Configured(signature)
            && construct(body, signature.value, webhookSecret.value).Err?)
      && (reply != Received && reply != ErrorJson(500, ProcessingFailed) ==> t2 == t)
  {
  }

  /**
   * Once the event verifies, the reconciler runs exactly for the two
   * checkout events; any other event is acknowledged with the tables
   * untouched, and a reconciler failure is 500.
   */
  lemma Dispatch(t: Tables, stripeKey: Option<string>, webhookSecret: Option<string>, signature: Option<string>,
                 body: seq<Byte>, construct: ConstructEvent, catalog: map<int, int>, fault: Fault, now: int, event: Event)
    requires Configured(stripeKey) && Configured(webhookSecret) && Configured(signature)
    requires construct(body, signature.value, webhookSecret.value) == Ok(event)
    ensures var (t2, reply) := HandleWebhook(t, stripeKey, webhookSecret, signature, body, construct, catalog, fault, now);
      var (t3, r) := Reconcile(t, event.session, catalog, fault, now);
      (Reconciles(event.eventType) ==> t2 == t3 && (reply == Received <==> r.Ok?))
      && (!Reconciles(event.eventType) ==> t2 == t && reply == Received)
      && (reply == Received || reply == ErrorJson(500, ProcessingFailed))
  {
  }

  /**
   * A delivery that was acknowledged, delivered again (Stripe retries),
   * adds no order and no item and is acknowledged again unless the
   * database fails on the lookup or the insert.
   */
  lemma RedeliveryIdempotent(t: Tables, stripeKey: Option<string>, webhookSecret: Option<string>, signature: Option<string>,
                             body: seq<Byte>, construct: ConstructEvent, catalog: map<int, int>, fault: Fault, now: int,
                             t1: Tables, catalog2: map<int, int>, fault2: Fault, now2: int)
    requires (t1, Received) == HandleWebhook(t, stripeKey, webhookSecret, signature, body, construct, catalog, fault, now)
    ensures var (t2, reply) := HandleWebhook(t1, stripeKey, webhookSecret, signature, body, construct, catalog2, fault2, now2);
      t2.orders == t1.orders && t2.items == t1.items
      && (fault2 != QueryFails && fault2 != OrderInsertFails ==> reply == Received)
  {
    var event := construct(body, signature.value, webhookSecret.value).value;
    if Reconciles(event.eventType) {
      var (t3, r) := Reconcile(t, event.session, catalog, fault, now);
      ReconcileIdempotent(t, event.session, catalog, fault, now, t3, r, catalog2, fault2, now2);
    }
  }
}
