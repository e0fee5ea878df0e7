/**
  `handleSubscriptionActivated`: find the member by e-mail or payer id and
  update it, or insert a new one, then upsert the subscription's history row.
 */
module PayPalActivation {
  import opened Wrappers
  import opened Strings
  import opened PayPalEvents
  import opened PayPalStore

  /** The two statements whose failure the handler reports. */
  datatype ActivationError = UpdateFailed | CreateFailed

  const DefaultAmount := "10.00"

  /* ---------------------------------------------------------------------- */
  /* Input handling                                                          */
  /* ---------------------------------------------------------------------- */

  /** The custom id splits on its first ':' into the tag "referrer" and the rest. */
  lemma ReferrerSplit(customId: string)
    ensures var parts := SplitFirst(customId, ':');
      (|parts| == 2 && parts[0] == "referrer") <==> "referrer:" <= customId
    ensures var parts := SplitFirst(customId, ':');
      |parts| == 2 && parts[0] == "referrer" ==> parts[1] == customId[9..]
  {
    var parts := SplitFirst(customId, ':');
    if |parts| == 2 && parts[0] == "referrer" {
      assert customId == "referrer" + [':'] + parts[1];
      assert customId[..9] == "referrer:";
      assert customId[9..] == parts[1];
    }
    if "referrer:" <= customId {
      var rest := customId[9..];
      assert customId == "referrer" + [':'] + rest;
      SplitFirstJoin("referrer", ':', rest);
    }
  }

  /**
    The referrer carried in `custom_id` as "referrer:<who>"; `<who>` may itself
    hold ':' since only the first one separates. Any other custom id names none.
   */
  function ReferrerOf(customId: string): (r: string)
    ensures "referrer:" <= customId ==> r == customId[9..]
    ensures !("referrer:" <= customId) ==> r == ""
  {
    if customId == "" then ""
    else
      var parts := SplitFirst(customId, ':');
      ReferrerSplit(customId);
      if |parts| == 2 && parts[0] == "referrer" then parts[1] else ""
  }

  lemma ReferrerMayHoldColons()
    ensures ReferrerOf("referrer:a:b") == "a:b"
    ensures ReferrerOf("ref:a") == ""
  {
    assert "referrer:" <= "referrer:a:b";
    assert "referrer:a:b"[9..] == "a:b";
    assert !("referrer:" <= "ref:a") by {
      assert "ref:a"[3] != "referrer:"[3];
    }
  }

  /** An empty amount becomes the default monthly amount. */
  function AmountOf(value: string): string {
    if value != "" then value else DefaultAmount
  }

  /** The lookup key: the e-mail, or the payer id when one was sent. */
  predicate ActivationMatch(m: Member, email: string, payerId: string) {
    m.email == email || (payerId != "" && m.payerId == Some(payerId))
  }

  function ActivationKey(email: string, payerId: string): Member -> bool {
    m => ActivationMatch(m, email, payerId)
  }

  /** The e-mail the activation uses: lower-cased, but not trimmed. */
  function ActivationEmail(ev: WebhookEvent): string {
    ToLower(ev.resource.subscriber.emailAddress)
  }

  /* ---------------------------------------------------------------------- */
  /* Row changes                                                             */
  /* ---------------------------------------------------------------------- */

  /**
    The `UPDATE` of an existing member: the subscription, status and amount are
    overwritten; payer id and names only by non-empty values; the referrer is
    never touched.
   */
  function UpdatedMember(m: Member, ev: WebhookEvent, now: Timestamp): (u: Member)
    ensures u.id == m.id && u.email == m.email && u.referredBy == m.referredBy
    ensures u.createdAt == m.createdAt && u.updatedAt == now
    ensures u.subscriptionId == Some(ev.resource.id) && u.status == "active"
    ensures u.amount == Some(AmountOf(ev.resource.amount.value))
  {
    var s := ev.resource.subscriber;
    m.(subscriptionId := Some(ev.resource.id),
       status := "active",
       amount := Some(AmountOf(ev.resource.amount.value)),
       payerId := if s.payerId != "" then Some(s.payerId) else m.payerId,
       givenName := if s.name.givenName != "" then Some(s.name.givenName) else m.givenName,
       surname := if s.name.surname != "" then Some(s.name.surname) else m.surname,
       updatedAt := now)
  }

  /** The `INSERT` of a new member: every value is stored as sent, empty strings included. */
  function NewMember(id: nat, ev: WebhookEvent, now: Timestamp): (m: Member)
    ensures m.id == id && m.status == "active" && m.createdAt == now && m.updatedAt == now
    ensures m.email == ToLower(ev.resource.subscriber.emailAddress)
    ensures m.payerId == Some(ev.resource.subscriber.payerId)
    ensures m.subscriptionId == Some(ev.resource.id)
    ensures ev.resource.amount.value == "" ==> m.amount == Some(DefaultAmount)
    ensures ev.resource.amount.value != "" ==> m.amount == Some(ev.resource.amount.value)
    ensures m.referredBy == Some(ReferrerOf(ev.resource.customId))
  {
    var s := ev.resource.subscriber;
    Member(id, ActivationEmail(ev), Some(s.payerId), Some(ev.resource.id), "active",
           Some(AmountOf(ev.resource.amount.value)), Some(ReferrerOf(ev.resource.customId)),
           Some(s.name.givenName), Some(s.name.surname), now, now)
  }

  /** The history upsert: `ON CONFLICT (subscription_id) DO UPDATE SET status = 'active', ended_at = NULL`. */
  function RecordActivation(db: Store, memberId: nat, sub: string, now: Timestamp): (d: Store)
    ensures d.members == db.members && d.payments == db.payments
    ensures sub in d.history && d.history[sub].status == "active" && d.history[sub].endedAt == None
    ensures sub in db.history ==>
      d.history == db.history[sub := db.history[sub].(status := "active", endedAt := None)]
    ensures sub !in db.history ==> d.history == db.history[sub := HistoryRow(memberId, "active", now, None)]
    ensures forall s :: s in db.history && s != sub ==> s in d.history && d.history[s] == db.history[s]
  {
    if sub in db.history then
      db.(history := db.history[sub := db.history[sub].(status := "active", endedAt := None)])
    else
      db.(history := db.history[sub := HistoryRow(memberId, "active", now, None)])
  }

  lemma RecordActivationKeepsValid(db: Store, memberId: nat, sub: string, now: Timestamp)
    requires Valid(db) && 1 <= memberId <= |db.members|
    ensures Valid(RecordActivation(db, memberId, sub, now))
  {
  }

  /* ---------------------------------------------------------------------- */
  /* The handler                                                             */
  /* ---------------------------------------------------------------------- */

  /**
    `handleSubscriptionActivated`. A write the UNIQUE columns reject fails the
    handler and changes nothing; the history upsert never fails.
   */
  function Activate(db: Store, ev: WebhookEvent, now: Timestamp): (r: Result<Store, ActivationError>)
    ensures r.Ok? ==> |db.members| <= |r.value.members| <= |db.members| + 1
    ensures r.Ok? ==> r.value.payments == db.payments
    ensures r.Ok? ==> var h := r.value.history;
      ev.resource.id in h && h[ev.resource.id].status == "active" && h[ev.resource.id].endedAt == None
    ensures r.Ok? ==> forall s :: s in db.history && s != ev.resource.id ==>
      s in r.value.history && r.value.history[s] == db.history[s]
    ensures Valid(db) && r.Ok? ==> Valid(r.value)
  {
    var email := ActivationEmail(ev);
    var payer := ev.resource.subscriber.payerId;
    var sub := ev.resource.id;
    match FirstWhere(db.members, ActivationKey(email, payer))
    case Some(k) =>
      if payer != "" && PayerIdHeldElsewhere(db.members, payer, k) then Err(UpdateFailed)
      else if SubscriptionHeldElsewhere(db.members, sub, k) then Err(UpdateFailed)
      else
        var d := db.(members := db.members[k := UpdatedMember(db.members[k], ev, now)]);
        UpdateKeepsValid(db, k, ev, now);
        Ok(RecordActivation(d, k + 1, sub, now))
    case None =>
      if PayerIdHeldElsewhere(db.members, payer, -1) then Err(CreateFailed)
      else if SubscriptionHeldElsewhere(db.members, sub, -1) then Err(CreateFailed)
      else
        var d := db.(members := db.members + [NewMember(|db.members| + 1, ev, now)]);
        InsertKeepsValid(db, ev, now);
        Ok(RecordActivation(d, |db.members| + 1, sub, now))
  }

  lemma UpdateKeepsValid(db: Store, k: nat, ev: WebhookEvent, now: Timestamp)
    requires k < |db.members|
    requires ev.resource.subscriber.payerId != "" ==>
               !PayerIdHeldElsewhere(db.members, ev.resource.subscriber.payerId, k)
    requires !SubscriptionHeldElsewhere(db.members, ev.resource.id, k)
    ensures var d := db.(members := db.members[k := UpdatedMember(db.members[k], ev, now)]);
      Valid(db) ==> Valid(d) && 1 <= k + 1 <= |d.members|
  {
    var u := UpdatedMember(db.members[k], ev, now);
    var ms := db.members[k := u];
    if Valid(db) {
      assert PayerIdsUnique(ms) by {
        forall i, j | 0 <= i < j < |ms| && ms[i].payerId.Some?
          ensures ms[i].payerId != ms[j].payerId
        {
          if i == k && ev.resource.subscriber.payerId != "" {
            assert ms[j] == db.members[j];
          } else if j == k && ev.resource.subscriber.payerId != "" {
            assert ms[i] == db.members[i];
          }
        }
      }
      assert SubscriptionIdsUnique(ms) by {
        forall i, j | 0 <= i < j < |ms| && ms[i].subscriptionId.Some?
          ensures ms[i].subscriptionId != ms[j].subscriptionId
        {
          if i == k {
            assert ms[j] == db.members[j];
          } else if j == k {
            assert ms[i] == db.members[i];
          }
        }
      }
    }
  }

  lemma InsertKeepsValid(db: Store, ev: WebhookEvent, now: Timestamp)
    requires FirstWhere(db.members, ActivationKey(ActivationEmail(ev), ev.resource.subscriber.payerId)).None?
    requires !PayerIdHeldElsewhere(db.members, ev.resource.subscriber.payerId, -1)
    requires !SubscriptionHeldElsewhere(db.members, ev.resource.id, -1)
    ensures var d := db.(members := db.members + [NewMember(|db.members| + 1, ev, now)]);
      Valid(db) ==> Valid(d)
  {
    var n := NewMember(|db.members| + 1, ev, now);
    var ms := db.members + [n];
    assert n.email == ActivationEmail(ev);
    if Valid(db) {
      forall i | 0 <= i < |db.members|
        ensures db.members[i].email != n.email
      {
        assert !ActivationKey(ActivationEmail(ev), ev.resource.subscriber.payerId)(db.members[i]);
      }
      assert forall i :: 0 <= i < |db.members| ==> ms[i] == db.members[i];
    }
  }

  /* ---------------------------------------------------------------------- */
  /* Properties                                                              */
  /* ---------------------------------------------------------------------- */

  /**
    Activation of an unknown e-mail and payer id inserts exactly one member,
    holding every value as sent and the referrer from the custom id, and opens
    or reopens the subscription's history row; it fails
    exactly when another member already holds the payer id, empty or not, or
    the subscription id.
   */
  lemma ActivationCreates(db: Store, ev: WebhookEvent, now: Timestamp)
    requires forall i :: 0 <= i < |db.members| ==>
               !ActivationMatch(db.members[i], ActivationEmail(ev), ev.resource.subscriber.payerId)
    ensures var r := Activate(db, ev, now);
      var s := ev.resource.subscriber;
      && (r.Err? <==> PayerIdHeldElsewhere(db.members, s.payerId, -1)
                      || SubscriptionHeldElsewhere(db.members, ev.resource.id, -1))
      && (r.Err? ==> r.error == CreateFailed)
      && (r.Ok? ==> r.value.members == db.members + [Member(
            |db.members| + 1, ToLower(s.emailAddress), Some(s.payerId), Some(ev.resource.id),
            "active", Some(AmountOf(ev.resource.amount.value)),
            Some(ReferrerOf(ev.resource.customId)), Some(s.name.givenName), Some(s.name.surname),
            now, now)])
      && (r.Ok? ==> r.value.payments == db.payments)
      && (r.Ok? && ev.resource.id in db.history ==>
            r.value.history == db.history[ev.resource.id :=
              db.history[ev.resource.id].(status := "active", endedAt := None)])
      && (r.Ok? && ev.resource.id !in db.history ==>
            r.value.history == db.history[ev.resource.id :=
              HistoryRow(|db.members| + 1, "active", now, None)])
  {
    var key := ActivationKey(ActivationEmail(ev), ev.resource.subscriber.payerId);
    assert forall i :: 0 <= i < |db.members| ==> !key(db.members[i]);
  }

  /**
    Activation of a known member rewrites only that member: subscription,
    status, amount and update time are overwritten, the referrer is kept, an
    empty payer id or name keeps the stored one; the history row of the
    subscription is reopened, or created for that member. It fails exactly when
    another member already holds the new payer id or the subscription id.
   */
  lemma ActivationUpdates(db: Store, k: nat, ev: WebhookEvent, now: Timestamp)
    requires FirstWhere(db.members, ActivationKey(ActivationEmail(ev), ev.resource.subscriber.payerId)) == Some(k)
    ensures var r := Activate(db, ev, now);
      var s := ev.resource.subscriber;
      var m := db.members[k];
      && (r.Err? <==> (s.payerId != "" && PayerIdHeldElsewhere(db.members, s.payerId, k))
                      || SubscriptionHeldElsewhere(db.members, ev.resource.id, k))
      && (r.Err? ==> r.error == UpdateFailed)
      && (r.Ok? ==>
            && |r.value.members| == |db.members|
            && (forall j :: 0 <= j < |db.members| && j != k ==> r.value.members[j] == db.members[j])
            && r.value.members[k].referredBy == m.referredBy
            && r.value.members[k].email == m.email
            && r.value.members[k].subscriptionId == Some(ev.resource.id)
            && r.value.members[k].status == "active"
            && r.value.members[k].payerId == (if s.payerId == "" then m.payerId else Some(s.payerId))
            && r.value.members[k].givenName
                 == (if s.name.givenName == "" then m.givenName else Some(s.name.givenName))
            && r.value.members[k].surname
                 == (if s.name.surname == "" then m.surname else Some(s.name.surname))
            && r.value.members[k].amount == Some(AmountOf(ev.resource.amount.value))
            && r.value.members[k].updatedAt == now
            && r.value.members[k].id == m.id
            && r.value.members[k].createdAt == m.createdAt
            && r.value.payments == db.payments
            && (ev.resource.id in db.history ==>
                  r.value.history == db.history[ev.resource.id :=
                    db.history[ev.resource.id].(status := "active", endedAt := None)])
            && (ev.resource.id !in db.history ==>
                  r.value.history == db.history[ev.resource.id := HistoryRow(k + 1, "active", now, None)]))
  {
  }

  /**
    Activation of a new e-mail without a payer id stores '' as the payer id, so
    it fails once any member already holds ''.
   */
  lemma EmptyPayerIdCollides(db: Store, ev: WebhookEvent, now: Timestamp, j: nat)
    requires forall i :: 0 <= i < |db.members| ==> db.members[i].email != ActivationEmail(ev)
    requires ev.resource.subscriber.payerId == ""
    requires j < |db.members| && db.members[j].payerId == Some("")
    ensures Activate(db, ev, now) == Err(CreateFailed)
  {
    ActivationCreates(db, ev, now);
  }

  /** After a successful activation the lookup finds the activated row. */
  lemma ActivatedRow(db: Store, ev: WebhookEvent, now: Timestamp) returns (k: nat)
    requires Activate(db, ev, now).Ok?
    ensures var d := Activate(db, ev, now).value;
      var payer := ev.resource.subscriber.payerId;
      && k < |d.members|
      && FirstWhere(d.members, ActivationKey(ActivationEmail(ev), payer)) == Some(k)
      && d.members[k].subscriptionId == Some(ev.resource.id)
      && (payer != "" ==> d.members[k].payerId == Some(payer))
  {
    var d := Activate(db, ev, now).value;
    var payer := ev.resource.subscriber.payerId;
    var key := ActivationKey(ActivationEmail(ev), payer);
    match FirstWhere(db.members, key)
    case Some(i) =>
      k := i;
      assert key(d.members[k]) by {
        assert d.members[k].email == db.members[k].email;
      }
      assert forall j :: 0 <= j < k ==> d.members[j] == db.members[j];
    case None =>
      k := |db.members|;
      assert d.members[k] == NewMember(|db.members| + 1, ev, now);
      assert forall j :: 0 <= j < k ==> d.members[j] == db.members[j];
  }

  /** Activating the same event again succeeds, adds no member and leaves the history as it was. */
  lemma ActivationRepeat(db: Store, ev: WebhookEvent, now1: Timestamp, now2: Timestamp)
    requires Valid(db) && Activate(db, ev, now1).Ok?
    ensures var d1 := Activate(db, ev, now1).value;
      var r := Activate(d1, ev, now2);
      && r.Ok?
      && |r.value.members| == |d1.members|
      && r.value.history == d1.history
  {
    var d1 := Activate(db, ev, now1).value;
    var k := ActivatedRow(db, ev, now1);
    assert Valid(d1);
    var sub := ev.resource.id;
    assert d1.history[sub] == d1.history[sub].(status := "active", endedAt := None);
  }
}
