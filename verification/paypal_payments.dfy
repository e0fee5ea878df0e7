/**
  `handlePaymentCompleted`: work out the payer and the subscription of a sale,
  fill in a missing payer id, and record the payment once per transaction id
  against the first member holding the subscription or the payer id.
 */
module PayPalPayments {
  import opened Wrappers
  import opened Strings
  import opened PayPalEvents
  import opened PayPalStore

  /** The payer id and e-mail a sale is attributed to. */
  datatype PayerRef = PayerRef(payerId: string, email: string)

  /**
    The payer of a sale: `payer` when it carries a payer id, otherwise
    `payer_info` when that does, otherwise nobody.
   */
  function PayerOf(p: Payer): (r: PayerRef)
    ensures r.payerId == "" <==> p.payerId == "" && p.payerInfo.payerId == ""
    ensures r.payerId == "" ==> r.email == ""
    ensures p.payerId != "" ==> r == PayerRef(p.payerId, p.emailAddress)
    ensures p.payerId == "" && r.payerId != "" ==> r == PayerRef(p.payerInfo.payerId, p.payerInfo.email)
  {
    if p.payerId != "" then PayerRef(p.payerId, p.emailAddress)
    else if p.payerInfo.payerId != "" then PayerRef(p.payerInfo.payerId, p.payerInfo.email)
    else PayerRef("", "")
  }

  function EmailKey(email: string): Member -> bool {
    (m: Member) => m.email == email
  }

  /**
    The subscription of a sale: its billing agreement id, otherwise the current
    subscription of the member with the payer's lower-cased e-mail. A member
    without a subscription yields "": scanning NULL into a Go string fails.
   */
  function SubscriptionFor(members: seq<Member>, billingAgreementId: string, email: string)
    : (sub: string)
    ensures billingAgreementId != "" ==> sub == billingAgreementId
    ensures billingAgreementId == "" && email == "" ==> sub == ""
    ensures billingAgreementId == "" && email != "" ==>
      sub == match FirstWhere(members, EmailKey(ToLower(email)))
             case None => ""
             case Some(k) => members[k].subscriptionId.GetOr("")
    ensures sub != billingAgreementId ==>
      exists k :: 0 <= k < |members| && members[k].email == ToLower(email)
                  && members[k].subscriptionId == Some(sub)
  {
    if billingAgreementId != "" then billingAgreementId
    else if email == "" then ""
    else match FirstWhere(members, EmailKey(ToLower(email)))
      case None => ""
      case Some(k) =>
        if members[k].subscriptionId.Some? then members[k].subscriptionId.value else ""
  }

  /* ---------------------------------------------------------------------- */
  /* Filling in the payer id                                                 */
  /* ---------------------------------------------------------------------- */

  /** `WHERE current_subscription_id = $2 AND (paypal_payer_id IS NULL OR paypal_payer_id = '')`. */
  predicate FillTarget(m: Member, sub: string) {
    m.subscriptionId == Some(sub) && (m.payerId == None || m.payerId == Some(""))
  }

  /**
    The statement as written: `SET paypal_payer_id = COALESCE(paypal_payer_id, $1)`
    on every selected row. COALESCE only replaces NULL, so a selected row
    holding '' keeps '', yet its update time changes.
   */
  function FillPayerAsWrittenRows(members: seq<Member>, sub: string, payerId: string,
                                  now: Timestamp): (r: seq<Member>)
    ensures |r| == |members|
    ensures forall i :: 0 <= i < |members| && FillTarget(members[i], sub) ==>
      && r[i] == members[i].(payerId := r[i].payerId, updatedAt := now)
      && r[i].payerId == (if members[i].payerId == None then Some(payerId) else Some(""))
    ensures forall i :: 0 <= i < |members| && !FillTarget(members[i], sub) ==> r[i] == members[i]
  {
    seq(|members|, i requires 0 <= i < |members| =>
      if FillTarget(members[i], sub) then
        members[i].(payerId := if members[i].payerId.None? then Some(payerId) else members[i].payerId,
                    updatedAt := now)
      else members[i])
  }

  /**
    The statement as written, executed: a result that would give two members
    the same payer id is rejected by the UNIQUE column and changes nothing
    (the handler only logs that failure).
   */
  function FillPayerAsWritten(members: seq<Member>, sub: string, payerId: string, now: Timestamp)
    : (r: seq<Member>)
    ensures PayerIdsUnique(members) ==> PayerIdsUnique(r)
    ensures PayerIdsUnique(FillPayerAsWrittenRows(members, sub, payerId, now)) ==>
      r == FillPayerAsWrittenRows(members, sub, payerId, now)
    ensures !PayerIdsUnique(FillPayerAsWrittenRows(members, sub, payerId, now)) ==> r == members
  {
    var filled := FillPayerAsWrittenRows(members, sub, payerId, now);
    if PayerIdsUnique(filled) then filled else members
  }

  /**
    The statement as evidently intended: every selected row, NULL or '',
    receives the payer id.
   */
  function FillPayerRows(members: seq<Member>, sub: string, payerId: string,
                         now: Timestamp): (r: seq<Member>)
    ensures |r| == |members|
    ensures forall i :: 0 <= i < |members| && FillTarget(members[i], sub) ==>
      r[i] == members[i].(payerId := Some(payerId), updatedAt := now)
    ensures forall i :: 0 <= i < |members| && !FillTarget(members[i], sub) ==> r[i] == members[i]
  {
    seq(|members|, i requires 0 <= i < |members| =>
      if FillTarget(members[i], sub) then members[i].(payerId := Some(payerId), updatedAt := now)
      else members[i])
  }

  /** The corrected fill, executed: rejected as a whole when it would duplicate a payer id. */
  function FillPayer(members: seq<Member>, sub: string, payerId: string, now: Timestamp)
    : (r: seq<Member>)
    ensures PayerIdsUnique(members) ==> PayerIdsUnique(r)
    ensures PayerIdsUnique(FillPayerRows(members, sub, payerId, now)) ==>
      r == FillPayerRows(members, sub, payerId, now)
    ensures !PayerIdsUnique(FillPayerRows(members, sub, payerId, now)) ==> r == members
  {
    var filled := FillPayerRows(members, sub, payerId, now);
    if PayerIdsUnique(filled) then filled else members
  }

  /**
    The discrepancy: a member on the subscription whose payer id is '' is
    selected by the statement as written, and its update time changes, yet its
    payer id stays ''.
   */
  lemma FillAsWrittenKeepsEmpty(members: seq<Member>, sub: string, payerId: string,
                                now: Timestamp, i: nat)
    requires i < |members|
    requires members[i].subscriptionId == Some(sub) && members[i].payerId == Some("")
    requires payerId != ""
    ensures FillTarget(members[i], sub)
    ensures FillPayerAsWrittenRows(members, sub, payerId, now)[i].payerId == Some("")
    ensures FillPayerAsWrittenRows(members, sub, payerId, now)[i].updatedAt == now
  {
  }

  /**
    The corrected fill gives the payer id to every selected member, '' or
    NULL alike, unless that would duplicate a payer id; afterwards no member
    on the subscription lacks a payer id, so the statement is not selected
    again.
   */
  lemma FillPayerFillsEmpty(members: seq<Member>, sub: string, payerId: string,
                            now: Timestamp)
    requires payerId != ""
    requires PayerIdsUnique(FillPayerRows(members, sub, payerId, now))
    ensures var r := FillPayer(members, sub, payerId, now);
      && (forall i :: 0 <= i < |members| && FillTarget(members[i], sub) ==>
            r[i].payerId == Some(payerId))
      && (forall i :: 0 <= i < |r| ==> !FillTarget(r[i], sub))
  {
  }

  /** Filling twice with the corrected statement is filling once: the second selects no row. */
  lemma FillPayerIdempotent(members: seq<Member>, sub: string, payerId: string,
                            t1: Timestamp, t2: Timestamp)
    requires payerId != ""
    ensures var r := FillPayer(members, sub, payerId, t1);
      FillPayer(r, sub, payerId, t2) == r
  {
    var r := FillPayer(members, sub, payerId, t1);
    var filled := FillPayerRows(members, sub, payerId, t1);
    if PayerIdsUnique(filled) {
      assert forall i :: 0 <= i < |r| ==> !FillTarget(r[i], sub);
      assert FillPayerRows(r, sub, payerId, t2) == r;
    }
  }

  /** The statement as written is not idempotent: each repeat touches the '' row again. */
  lemma FillAsWrittenRepeats(members: seq<Member>, sub: string, payerId: string,
                             t1: Timestamp, t2: Timestamp, i: nat)
    requires i < |members|
    requires members[i].subscriptionId == Some(sub) && members[i].payerId == Some("")
    requires payerId != "" && t1 != t2
    ensures var r := FillPayerAsWrittenRows(members, sub, payerId, t1);
      FillPayerAsWrittenRows(r, sub, payerId, t2) != r
  {
    var r := FillPayerAsWrittenRows(members, sub, payerId, t1);
    assert FillTarget(r[i], sub);
    assert FillPayerAsWrittenRows(r, sub, payerId, t2)[i].updatedAt == t2;
  }

  /** `b` is `a` with at most the update times changed. */
  predicate SameButUpdateTime(a: seq<Member>, b: seq<Member>) {
    |a| == |b| && forall i :: 0 <= i < |a| ==> b[i] == a[i].(updatedAt := b[i].updatedAt)
  }

  lemma SameButUpdateTimeKeepsUnique(a: seq<Member>, b: seq<Member>)
    requires SameButUpdateTime(a, b)
    ensures PayerIdsUnique(a) <==> PayerIdsUnique(b)
  {
    assert forall i :: 0 <= i < |a| ==> a[i].payerId == b[i].payerId;
  }

  /**
    Repeating the statement as written after it succeeded changes no payer
    id: the rows it selects again hold '' and keep it.
   */
  lemma {:induction false} FillAsWrittenRefill(members: seq<Member>, sub: string, payerId: string,
                                               t1: Timestamp, t2: Timestamp)
    requires payerId != ""
    ensures var r := FillPayerAsWritten(members, sub, payerId, t1);
      SameButUpdateTime(r, FillPayerAsWritten(r, sub, payerId, t2))
  {
    var rows1 := FillPayerAsWrittenRows(members, sub, payerId, t1);
    var r := FillPayerAsWritten(members, sub, payerId, t1);
    var rows2 := FillPayerAsWrittenRows(r, sub, payerId, t2);
    if PayerIdsUnique(rows1) {
      assert SameButUpdateTime(r, rows2);
      SameButUpdateTimeKeepsUnique(r, rows2);
    } else {
      assert SameButUpdateTime(rows1, rows2);
      SameButUpdateTimeKeepsUnique(rows1, rows2);
    }
  }

  /* ---------------------------------------------------------------------- */
  /* Recording the payment                                                   */
  /* ---------------------------------------------------------------------- */

  /** `WHERE current_subscription_id = $1 OR paypal_payer_id = $2`; NULL matches nothing. */
  function PaymentKey(sub: string, payerId: string): Member -> bool {
    (m: Member) => m.subscriptionId == Some(sub) || m.payerId == Some(payerId)
  }

  /** `INSERT INTO payments ... ON CONFLICT (transaction_id) DO NOTHING`. */
  function RecordPayment(payments: map<string, Payment>, transactionId: string, p: Payment)
    : (r: map<string, Payment>)
    ensures transactionId in payments ==> r == payments
    ensures transactionId !in payments ==> r == payments[transactionId := p]
  {
    if transactionId in payments then payments else payments[transactionId := p]
  }

  /**
    The fill as written runs only when both a payer id and a subscription are
    known; a row it changes was selected, gains the payer id only if it had
    NULL, and gets the update time.
   */
  function FillFor(members: seq<Member>, sub: string, payerId: string, now: Timestamp)
    : (r: seq<Member>)
    ensures payerId == "" || sub == "" ==> r == members
    ensures |r| == |members|
    ensures forall i :: 0 <= i < |members| ==>
      || r[i] == members[i]
      || (&& FillTarget(members[i], sub)
          && r[i] == members[i].(payerId := if members[i].payerId.None? then Some(payerId)
                                            else members[i].payerId,
                                 updatedAt := now))
    ensures PayerIdsUnique(members) ==> PayerIdsUnique(r)
  {
    if payerId != "" && sub != "" then FillPayerAsWritten(members, sub, payerId, now) else members
  }

  /** The corrected fill under the same guard; a changed row gains the payer id and the time. */
  function FillForCorrected(members: seq<Member>, sub: string, payerId: string, now: Timestamp)
    : (r: seq<Member>)
    ensures payerId == "" || sub == "" ==> r == members
    ensures |r| == |members|
    ensures forall i :: 0 <= i < |members| ==>
      || r[i] == members[i]
      || (FillTarget(members[i], sub) && r[i] == members[i].(payerId := Some(payerId), updatedAt := now))
    ensures PayerIdsUnique(members) ==> PayerIdsUnique(r)
  {
    if payerId != "" && sub != "" then FillPayer(members, sub, payerId, now) else members
  }

  /**
    The payment insert, made only when some member holds the subscription or
    the payer id, against the first such member.
   */
  function PaymentsAfter(payments: map<string, Payment>, members: seq<Member>, sub: string,
                         payerId: string, ev: WebhookEvent): (r: map<string, Payment>)
    ensures FirstWhere(members, PaymentKey(sub, payerId)).None? ==> r == payments
    ensures forall k :: FirstWhere(members, PaymentKey(sub, payerId)) == Some(k) ==>
      r == RecordPayment(payments, ev.resource.id,
                         Payment(k + 1, sub, ev.resource.amount.value, ev.resource.amount.currencyCode,
                                 "completed"))
    ensures forall t :: t in payments ==> t in r && r[t] == payments[t]
    ensures forall t :: t in r && t !in payments ==>
      t == ev.resource.id && 1 <= r[t].memberId <= |members|
  {
    match FirstWhere(members, PaymentKey(sub, payerId))
    case None => payments
    case Some(k) =>
      var p := Payment(k + 1, sub, ev.resource.amount.value, ev.resource.amount.currencyCode, "completed");
      RecordPayment(payments, ev.resource.id, p)
  }

  /** `handlePaymentCompleted` as written. */
  function PaymentCompleted(db: Store, ev: WebhookEvent, now: Timestamp): (d: Store)
    ensures d.history == db.history
    ensures |d.members| == |db.members|
    ensures forall i :: 0 <= i < |db.members| ==>
      d.members[i] == db.members[i].(payerId := d.members[i].payerId, updatedAt := d.members[i].updatedAt)
    ensures forall t :: t in db.payments ==> t in d.payments && d.payments[t] == db.payments[t]
    ensures forall t :: t in d.payments && t !in db.payments ==> t == ev.resource.id
    ensures Valid(db) ==> Valid(d)
  {
    var payer := PayerOf(ev.resource.payer);
    var sub := SubscriptionFor(db.members, ev.resource.billingAgreementId, payer.email);
    var members := FillFor(db.members, sub, payer.payerId, now);
    var d := Store(members, db.history, PaymentsAfter(db.payments, members, sub, payer.payerId, ev));
    PaymentKeepsValid(db, d);
    d
  }

  /** `handlePaymentCompleted` with the corrected payer-id fill (see Findings in the README). */
  function PaymentCompletedCorrected(db: Store, ev: WebhookEvent, now: Timestamp): (d: Store)
    ensures d.history == db.history
    ensures |d.members| == |db.members|
    ensures forall i :: 0 <= i < |db.members| ==>
      d.members[i] == db.members[i].(payerId := d.members[i].payerId, updatedAt := d.members[i].updatedAt)
    ensures forall t :: t in db.payments ==> t in d.payments && d.payments[t] == db.payments[t]
    ensures forall t :: t in d.payments && t !in db.payments ==> t == ev.resource.id
    ensures Valid(db) ==> Valid(d)
  {
    var payer := PayerOf(ev.resource.payer);
    var sub := SubscriptionFor(db.members, ev.resource.billingAgreementId, payer.email);
    var members := FillForCorrected(db.members, sub, payer.payerId, now);
    var d := Store(members, db.history, PaymentsAfter(db.payments, members, sub, payer.payerId, ev));
    PaymentKeepsValid(db, d);
    d
  }

  lemma PaymentKeepsValid(db: Store, d: Store)
    requires |d.members| == |db.members| && d.history == db.history
    requires forall i :: 0 <= i < |db.members| ==>
      d.members[i] == db.members[i].(payerId := d.members[i].payerId, updatedAt := d.members[i].updatedAt)
    requires PayerIdsUnique(db.members) ==> PayerIdsUnique(d.members)
    requires forall t :: t in d.payments && t !in db.payments ==> 1 <= d.payments[t].memberId <= |d.members|
    requires forall t :: t in db.payments ==> t in d.payments && d.payments[t] == db.payments[t]
    ensures Valid(db) ==> Valid(d)
  {
  }

  /* ---------------------------------------------------------------------- */
  /* Properties of the handler as written                                    */
  /* ---------------------------------------------------------------------- */

  /** A transaction id already recorded adds no second payment. */
  lemma DuplicateTransactionIgnored(db: Store, ev: WebhookEvent, now: Timestamp)
    requires ev.resource.id in db.payments
    ensures PaymentCompleted(db, ev, now).payments == db.payments
  {
  }

  /**
    A sale whose subscription nobody holds and whose payer id nobody holds
    changes nothing at all: no fill, no payment.
   */
  lemma UnknownSaleChangesNothing(db: Store, ev: WebhookEvent, now: Timestamp)
    requires ev.resource.billingAgreementId != ""
    requires forall i :: 0 <= i < |db.members| ==>
      && db.members[i].subscriptionId != Some(ev.resource.billingAgreementId)
      && db.members[i].payerId != Some(PayerOf(ev.resource.payer).payerId)
    ensures PaymentCompleted(db, ev, now) == db
  {
    var sub := ev.resource.billingAgreementId;
    var payer := PayerOf(ev.resource.payer);
    assert FillPayerAsWrittenRows(db.members, sub, payer.payerId, now) == db.members;
    assert FillFor(db.members, sub, payer.payerId, now) == db.members;
  }

  lemma FirstWhereSame(a: seq<Member>, b: seq<Member>, p: Member -> bool, q: Member -> bool)
    requires |a| == |b|
    requires forall i :: 0 <= i < |a| ==> p(a[i]) == q(b[i])
    ensures FirstWhere(a, p) == FirstWhere(b, q)
  {
    var x, y := FirstWhere(a, p), FirstWhere(b, q);
    if x.Some? && y.Some? {
      assert !(x.value < y.value) && !(y.value < x.value);
    }
  }

  /**
    A redelivered sale adds no second payment and changes no payer id; only
    the update time of a member on the subscription holding '' may move.
   */
  lemma RedeliveryAddsNoPayment(db: Store, ev: WebhookEvent, t1: Timestamp, t2: Timestamp)
    ensures var d := PaymentCompleted(db, ev, t1);
      var e := PaymentCompleted(d, ev, t2);
      && e.payments == d.payments
      && e.history == d.history
      && SameButUpdateTime(d.members, e.members)
  {
    var d := PaymentCompleted(db, ev, t1);
    var payer := PayerOf(ev.resource.payer);
    var sub := SubscriptionFor(db.members, ev.resource.billingAgreementId, payer.email);
    SubscriptionForStable(db.members, d.members, ev.resource.billingAgreementId, payer.email);
    FillForRefill(db.members, sub, payer.payerId, t1, t2);
    PaymentsAfterStable(db.payments, d.members, FillFor(d.members, sub, payer.payerId, t2),
                        sub, payer.payerId, ev);
  }

  /** The subscription lookup reads only e-mails and subscriptions. */
  lemma SubscriptionForStable(a: seq<Member>, b: seq<Member>, billingAgreementId: string, email: string)
    requires |a| == |b|
    requires forall i :: 0 <= i < |a| ==> b[i].email == a[i].email && b[i].subscriptionId == a[i].subscriptionId
    ensures SubscriptionFor(a, billingAgreementId, email) == SubscriptionFor(b, billingAgreementId, email)
  {
    if billingAgreementId == "" && email != "" {
      FirstWhereSame(a, b, EmailKey(ToLower(email)), EmailKey(ToLower(email)));
    }
  }

  /** Running the guarded fill as written again changes at most update times. */
  lemma FillForRefill(members: seq<Member>, sub: string, payerId: string, t1: Timestamp, t2: Timestamp)
    ensures var r := FillFor(members, sub, payerId, t1);
      SameButUpdateTime(r, FillFor(r, sub, payerId, t2))
  {
    if payerId != "" && sub != "" {
      FillAsWrittenRefill(members, sub, payerId, t1, t2);
    } else {
      var r := FillFor(members, sub, payerId, t1);
      assert FillFor(r, sub, payerId, t2) == r;
    }
  }

  /**
    The payment insert, repeated against members differing only in update
    times, finds the same member and meets the recorded transaction id.
   */
  lemma PaymentsAfterStable(payments: map<string, Payment>, a: seq<Member>, b: seq<Member>, sub: string,
                            payerId: string, ev: WebhookEvent)
    requires SameButUpdateTime(a, b)
    ensures var p := PaymentsAfter(payments, a, sub, payerId, ev);
      PaymentsAfter(p, b, sub, payerId, ev) == p
  {
    FirstWhereSame(a, b, PaymentKey(sub, payerId), PaymentKey(sub, payerId));
  }

  /**
    The counterpart of the discrepancy for the whole handler: a member on the
    subscription holding '' is touched by every delivery, so a redelivery at
    another time yields a different store.
   */
  lemma AsWrittenRedeliveryDiffers(db: Store, ev: WebhookEvent, t1: Timestamp, t2: Timestamp, k: nat)
    requires Valid(db)
    requires ev.resource.billingAgreementId != ""
    requires k < |db.members| && db.members[k].subscriptionId == Some(ev.resource.billingAgreementId)
    requires db.members[k].payerId == Some("")
    requires PayerOf(ev.resource.payer).payerId != ""
    requires t1 != t2
    ensures var d := PaymentCompleted(db, ev, t1);
      PaymentCompleted(d, ev, t2) != d
  {
    var sub := ev.resource.billingAgreementId;
    var pid := PayerOf(ev.resource.payer).payerId;
    var d := PaymentCompleted(db, ev, t1);
    FillOnlyHolder(db.members, sub, pid, t1, k);
    assert d.members[k].updatedAt == t1;
    FillOnlyHolder(d.members, sub, pid, t2, k);
    assert PaymentCompleted(d, ev, t2).members[k].updatedAt == t2;
  }

  /**
    A sale without any payer id and without a billing agreement is matched to
    the first member whose payer id is the empty string, since
    `paypal_payer_id = ''` is then the whole lookup.
   */
  lemma EmptyKeysMatchEmptyPayerId(db: Store, ev: WebhookEvent, now: Timestamp, j: nat)
    requires ev.resource.billingAgreementId == ""
    requires ev.resource.payer.payerId == "" && ev.resource.payer.payerInfo.payerId == ""
    requires j < |db.members| && db.members[j].payerId == Some("")
    requires forall i :: 0 <= i < j ==>
      db.members[i].subscriptionId != Some("") && db.members[i].payerId != Some("")
    requires ev.resource.id !in db.payments
    ensures var d := PaymentCompleted(db, ev, now);
      ev.resource.id in d.payments && d.payments[ev.resource.id].memberId == j + 1
  {
    var payer := PayerOf(ev.resource.payer);
    assert payer == PayerRef("", "");
    var k := FirstWhere(db.members, PaymentKey("", ""));
    assert PaymentKey("", "")(db.members[j]);
    assert k == Some(j);
  }

  /**
    The ordinary case: a sale on subscription `sub`, held by member `k`, whose
    payer id no other member holds, records the payment against `k`; `k`
    receives the payer id when it had NULL, and keeps any payer id it had,
    '' included.
   */
  lemma PaymentRecordedForHolder(db: Store, ev: WebhookEvent, now: Timestamp, k: nat)
    requires Valid(db)
    requires ev.resource.billingAgreementId != ""
    requires k < |db.members| && db.members[k].subscriptionId == Some(ev.resource.billingAgreementId)
    requires !PayerIdHeldElsewhere(db.members, PayerOf(ev.resource.payer).payerId, k)
    requires ev.resource.id !in db.payments
    ensures var d := PaymentCompleted(db, ev, now);
      var amount := ev.resource.amount;
      var pid := PayerOf(ev.resource.payer).payerId;
      && ev.resource.id in d.payments
      && d.payments[ev.resource.id]
           == Payment(k + 1, ev.resource.billingAgreementId, amount.value, amount.currencyCode, "completed")
      && (pid != "" && db.members[k].payerId == None ==> d.members[k].payerId == Some(pid))
      && (db.members[k].payerId.Some? ==> d.members[k].payerId == db.members[k].payerId)
  {
    var sub := ev.resource.billingAgreementId;
    var pid := PayerOf(ev.resource.payer).payerId;
    var members := FillFor(db.members, sub, pid, now);
    if pid != "" {
      FillOnlyHolder(db.members, sub, pid, now, k);
    }
    assert members[k].subscriptionId == Some(sub);
    assert forall i :: 0 <= i < k ==> !PaymentKey(sub, pid)(members[i]);
    assert FirstWhere(members, PaymentKey(sub, pid)) == Some(k);
  }

  /**
    With unique subscriptions, the fill as written touches only the holder of
    the subscription and replaces its payer id only when it is NULL; it is
    never rejected when the holder already has a payer id or nobody else holds
    the new one.
   */
  lemma FillOnlyHolder(members: seq<Member>, sub: string, payerId: string, now: Timestamp, k: nat)
    requires SubscriptionIdsUnique(members) && PayerIdsUnique(members)
    requires k < |members| && members[k].subscriptionId == Some(sub)
    requires members[k].payerId.Some? || !PayerIdHeldElsewhere(members, payerId, k)
    requires payerId != "" && sub != ""
    ensures var r := FillFor(members, sub, payerId, now);
      && SubscriptionIdsUnique(r) && PayerIdsUnique(r)
      && (forall i :: 0 <= i < |members| && i != k ==> r[i] == members[i])
      && r[k].payerId == (if members[k].payerId == None then Some(payerId) else members[k].payerId)
      && r[k].updatedAt == (if FillTarget(members[k], sub) then now else members[k].updatedAt)
  {
    var filled := FillPayerAsWrittenRows(members, sub, payerId, now);
    forall i | 0 <= i < |members| && i != k
      ensures filled[i] == members[i]
    {
      if i < k { assert members[i].subscriptionId != members[k].subscriptionId; }
      else { assert members[k].subscriptionId != members[i].subscriptionId; }
    }
    assert PayerIdsUnique(filled);
  }

  /* ---------------------------------------------------------------------- */
  /* Properties of the corrected handler                                     */
  /* ---------------------------------------------------------------------- */

  /**
    With the corrected fill, delivering the same sale twice is delivering it
    once: the second delivery finds the same subscription and member, fills
    nothing (not even the update time) and meets the recorded transaction id.
   */
  lemma CorrectedPaymentIdempotent(db: Store, ev: WebhookEvent, t1: Timestamp, t2: Timestamp)
    ensures var d := PaymentCompletedCorrected(db, ev, t1);
      PaymentCompletedCorrected(d, ev, t2) == d
  {
    var d := PaymentCompletedCorrected(db, ev, t1);
    var payer := PayerOf(ev.resource.payer);
    var sub := SubscriptionFor(db.members, ev.resource.billingAgreementId, payer.email);
    var members := FillForCorrected(db.members, sub, payer.payerId, t1);
    assert d.members == members;
    if ev.resource.billingAgreementId == "" && payer.email != "" {
      FirstWhereSame(db.members, d.members, EmailKey(ToLower(payer.email)), EmailKey(ToLower(payer.email)));
    }
    assert SubscriptionFor(d.members, ev.resource.billingAgreementId, payer.email) == sub;
    if payer.payerId != "" && sub != "" {
      FillPayerIdempotent(db.members, sub, payer.payerId, t1, t2);
    }
    assert FillForCorrected(d.members, sub, payer.payerId, t2) == d.members;
  }

  /**
    With the corrected fill, the holder of the subscription receives a payer id
    nobody else holds whether its own was NULL or '', and the payment is
    booked to it.
   */
  lemma CorrectedPaymentFillsHolder(db: Store, ev: WebhookEvent, now: Timestamp, k: nat)
    requires Valid(db)
    requires ev.resource.billingAgreementId != ""
    requires k < |db.members| && FillTarget(db.members[k], ev.resource.billingAgreementId)
    requires PayerOf(ev.resource.payer).payerId != ""
    requires !PayerIdHeldElsewhere(db.members, PayerOf(ev.resource.payer).payerId, k)
    requires ev.resource.id !in db.payments
    ensures var d := PaymentCompletedCorrected(db, ev, now);
      && d.members[k].payerId == Some(PayerOf(ev.resource.payer).payerId)
      && ev.resource.id in d.payments && d.payments[ev.resource.id].memberId == k + 1
  {
    var sub := ev.resource.billingAgreementId;
    var pid := PayerOf(ev.resource.payer).payerId;
    var members := FillForCorrected(db.members, sub, pid, now);
    CorrectedFillOnlyHolder(db.members, sub, pid, now, k);
    assert forall i :: 0 <= i < k ==> !PaymentKey(sub, pid)(members[i]);
    assert FirstWhere(members, PaymentKey(sub, pid)) == Some(k);
  }

  /**
    With unique subscriptions and a payer id nobody else holds, the corrected
    fill touches only the holder of the subscription and is never rejected.
   */
  lemma CorrectedFillOnlyHolder(members: seq<Member>, sub: string, payerId: string, now: Timestamp,
                                k: nat)
    requires SubscriptionIdsUnique(members) && PayerIdsUnique(members)
    requires k < |members| && members[k].subscriptionId == Some(sub)
    requires !PayerIdHeldElsewhere(members, payerId, k)
    requires payerId != "" && sub != ""
    ensures var r := FillForCorrected(members, sub, payerId, now);
      && (forall i :: 0 <= i < |members| && i != k ==> r[i] == members[i])
      && r[k].payerId == (if FillTarget(members[k], sub) then Some(payerId) else members[k].payerId)
  {
    var filled := FillPayerRows(members, sub, payerId, now);
    forall i | 0 <= i < |members| && i != k
      ensures filled[i] == members[i]
    {
      if i < k { assert members[i].subscriptionId != members[k].subscriptionId; }
      else { assert members[k].subscriptionId != members[i].subscriptionId; }
    }
    assert PayerIdsUnique(filled);
  }
}
