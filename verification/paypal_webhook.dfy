/**
  `processWebhookEvent` and `webhookHandler` of the PayPal membership
  service: route the five handled event types to their handlers, ignore the
  rest, and acknowledge every event that parses, whatever became of it.
 */
module PayPalWebhook {
  import opened Wrappers
  import opened PayPalEvents
  import opened PayPalStore
  import opened PayPalActivation
  import opened PayPalLifecycle
  import opened PayPalPayments

  /**
    `processWebhookEvent`. Each handled type goes to its own handler (a
    completed sale to the handler as written); only an activation can fail;
    only an activation adds a member and only a completed sale adds a payment;
    an event of any other type leaves the store as it was.
   */
  function ProcessWebhookEvent(db: Store, ev: WebhookEvent, now: Timestamp)
    : (r: Result<Store, ActivationError>)
    ensures ev.eventType == SubscriptionActivated ==> r == Activate(db, ev, now)
    ensures ev.eventType == SubscriptionCancelled ==> r == Ok(Cancel(db, ev.resource.id, now))
    ensures ev.eventType == SubscriptionSuspended ==> r == Ok(Suspend(db, ev.resource.id, now))
    ensures ev.eventType == SubscriptionReactivated ==> r == Ok(Reactivate(db, ev.resource.id, now))
    ensures ev.eventType == PaymentSaleCompleted ==> r == Ok(PaymentCompleted(db, ev, now))
    ensures ev.eventType !in HandledEventTypes ==> r == Ok(db)
    ensures r.Err? ==> ev.eventType == SubscriptionActivated
    ensures r.Ok? && ev.eventType != SubscriptionActivated ==> |r.value.members| == |db.members|
    ensures r.Ok? && ev.eventType != PaymentSaleCompleted ==> r.value.payments == db.payments
    ensures r.Ok? && ev.eventType == PaymentSaleCompleted ==> r.value.history == db.history
    ensures Valid(db) && r.Ok? ==> Valid(r.value)
  {
    if ev.eventType == SubscriptionActivated then Activate(db, ev, now)
    else if ev.eventType == SubscriptionCancelled then Ok(Cancel(db, ev.resource.id, now))
    else if ev.eventType == SubscriptionSuspended then Ok(Suspend(db, ev.resource.id, now))
    else if ev.eventType == SubscriptionReactivated then Ok(Reactivate(db, ev.resource.id, now))
    else if ev.eventType == PaymentSaleCompleted then Ok(PaymentCompleted(db, ev, now))
    else Ok(db)
  }

  /** An incoming request: `body` is absent when reading it failed. */
  datatype Request = Request(httpMethod: string, body: Option<string>)

  /** The status code answered and the store after the request. */
  datatype Outcome = Outcome(code: int, db: Store)

  const StatusOK := 200
  const StatusBadRequest := 400
  const StatusMethodNotAllowed := 405

  /** The event the request carries: it was read and parses as JSON. */
  function EventOf(req: Request, parse: string -> Option<WebhookEvent>): Option<WebhookEvent> {
    if req.body.Some? then parse(req.body.value) else None
  }

  /**
    `webhookHandler`. `parse` stands for JSON decoding into the event record
    and `signatureValid` for the answer of PayPal's signature check, which is
    asked only when a webhook id is configured and is then only logged.
   */
  function WebhookHandler(db: Store, config: Config, req: Request,
                          parse: string -> Option<WebhookEvent>, signatureValid: bool,
                          now: Timestamp): (out: Outcome)
    ensures req.httpMethod != "POST" ==> out.code == StatusMethodNotAllowed
    ensures req.httpMethod == "POST" && EventOf(req, parse).None? ==> out.code == StatusBadRequest
    ensures out.code == StatusOK <==> req.httpMethod == "POST" && EventOf(req, parse).Some?
    ensures out.code != StatusOK ==> out.db == db
    ensures (out.code == StatusOK && ProcessWebhookEvent(db, EventOf(req, parse).value, now).Err?)
              ==> out.db == db
    ensures (out.code == StatusOK && ProcessWebhookEvent(db, EventOf(req, parse).value, now).Ok?)
              ==> out.db == ProcessWebhookEvent(db, EventOf(req, parse).value, now).value
    ensures Valid(db) ==> Valid(out.db)
  {
    if req.httpMethod != "POST" then Outcome(StatusMethodNotAllowed, db)
    else if req.body.None? then Outcome(StatusBadRequest, db)
    else match parse(req.body.value)
      case None => Outcome(StatusBadRequest, db)
      case Some(ev) =>
        match ProcessWebhookEvent(db, ev, now)
        case Ok(d) => Outcome(StatusOK, d)
        case Err(_) => Outcome(StatusOK, db)
  }

  /** The signature check decides nothing: a forged event is processed like a genuine one. */
  lemma SignatureIgnored(db: Store, config: Config, req: Request,
                         parse: string -> Option<WebhookEvent>, now: Timestamp)
    ensures WebhookHandler(db, config, req, parse, false, now)
         == WebhookHandler(db, config, req, parse, true, now)
  {
  }

  /** An activation the store rejects is still acknowledged, so PayPal does not retry it. */
  lemma FailedActivationAcknowledged(db: Store, config: Config, req: Request,
                                     parse: string -> Option<WebhookEvent>, signatureValid: bool,
                                     now: Timestamp, j: nat)
    requires req.httpMethod == "POST" && EventOf(req, parse).Some?
    requires var ev := EventOf(req, parse).value;
      && ev.eventType == SubscriptionActivated
      && ev.resource.subscriber.payerId == ""
      && j < |db.members| && db.members[j].payerId == Some("")
      && forall i :: 0 <= i < |db.members| ==> db.members[i].email != ActivationEmail(ev)
    ensures WebhookHandler(db, config, req, parse, signatureValid, now) == Outcome(StatusOK, db)
  {
    EmptyPayerIdCollides(db, EventOf(req, parse).value, now, j);
  }

  /**
    A redelivered sale is acknowledged again but adds no second payment and
    changes no payer id; at most update times move.
   */
  lemma RedeliveredSale(db: Store, config: Config, req: Request,
                        parse: string -> Option<WebhookEvent>, s1: bool, s2: bool,
                        t1: Timestamp, t2: Timestamp)
    requires req.httpMethod == "POST" && EventOf(req, parse).Some?
    requires EventOf(req, parse).value.eventType == PaymentSaleCompleted
    ensures var d := WebhookHandler(db, config, req, parse, s1, t1).db;
      var out := WebhookHandler(d, config, req, parse, s2, t2);
      && out.code == StatusOK
      && out.db.payments == d.payments
      && out.db.history == d.history
      && SameButUpdateTime(d.members, out.db.members)
  {
    RedeliveryAddsNoPayment(db, EventOf(req, parse).value, t1, t2);
  }
}
