/**
  `handleSubscriptionCancelled`, `handleSubscriptionSuspended` and
  `handleSubscriptionReactivated`: each sets the status of the member whose
  current subscription is the event's resource id and, when there is one,
  updates that subscription's history row.
 */
module PayPalLifecycle {
  import opened Wrappers
  import opened PayPalStore

  /** What a status change does to the history row's `ended_at`. */
  datatype EndedAtChange = SetEnded | KeepEnded | ClearEnded

  predicate HoldsSubscription(m: Member, sub: string) {
    m.subscriptionId == Some(sub)
  }

  /** Some member's current subscription is `sub`: the `UPDATE` affects a row. */
  predicate HasSubscription(members: seq<Member>, sub: string) {
    exists i :: 0 <= i < |members| && HoldsSubscription(members[i], sub)
  }

  /** `UPDATE members SET subscription_status = $status ... WHERE current_subscription_id = $sub`. */
  function SetStatusWhere(members: seq<Member>, sub: string, status: string,
                          now: Timestamp): (r: seq<Member>)
    ensures |r| == |members|
    ensures forall i :: 0 <= i < |members| && !HoldsSubscription(members[i], sub) ==> r[i] == members[i]
    ensures forall i :: 0 <= i < |members| && HoldsSubscription(members[i], sub) ==>
      r[i] == members[i].(status := status, updatedAt := now)
  {
    seq(|members|, i requires 0 <= i < |members| =>
      if HoldsSubscription(members[i], sub) then members[i].(status := status, updatedAt := now)
      else members[i])
  }

  /** The `UPDATE subscription_history ... WHERE subscription_id = $sub`; no row, no change. */
  function UpdateHistory(history: map<string, HistoryRow>, sub: string, status: string,
                         ended: EndedAtChange, now: Timestamp): (h: map<string, HistoryRow>)
    ensures h.Keys == history.Keys
    ensures forall s :: s in history && s != sub ==> h[s] == history[s]
    ensures sub in history ==>
      && h[sub].memberId == history[sub].memberId
      && h[sub].startedAt == history[sub].startedAt
      && h[sub].status == status
      && h[sub].endedAt == match ended
                           case SetEnded => Some(now)
                           case KeepEnded => history[sub].endedAt
                           case ClearEnded => None
  {
    if sub !in history then history
    else
      var row := history[sub];
      var endedAt := match ended
                     case SetEnded => Some(now)
                     case KeepEnded => row.endedAt
                     case ClearEnded => None;
      history[sub := row.(status := status, endedAt := endedAt)]
  }

  /**
    The shape shared by the three handlers: with no member on subscription
    `sub` nothing changes, history included; otherwise the member's status and
    the history row change, and nothing else does.
   */
  function ChangeSubscription(db: Store, sub: string, status: string, ended: EndedAtChange,
                              now: Timestamp): (d: Store)
    ensures !HasSubscription(db.members, sub) ==> d == db
    ensures d.payments == db.payments && d.history.Keys == db.history.Keys
    ensures SameKeys(db.members, d.members)
    ensures forall i :: 0 <= i < |db.members| ==>
      && (HoldsSubscription(db.members[i], sub) ==>
            d.members[i] == db.members[i].(status := status, updatedAt := now))
      && (!HoldsSubscription(db.members[i], sub) ==> d.members[i] == db.members[i])
    ensures HasSubscription(db.members, sub) ==>
      d.history == UpdateHistory(db.history, sub, status, ended, now)
    ensures Valid(db) ==> Valid(d)
  {
    if !HasSubscription(db.members, sub) then db
    else
      var d := Store(SetStatusWhere(db.members, sub, status, now),
                     UpdateHistory(db.history, sub, status, ended, now),
                     db.payments);
      if Valid(db) then SameKeysKeepValid(db, d); d else d
  }

  /** `handleSubscriptionCancelled`: status "cancelled", history row ended now. */
  function Cancel(db: Store, sub: string, now: Timestamp): (d: Store)
    ensures !HasSubscription(db.members, sub) ==> d == db
    ensures |d.members| == |db.members| && d.history.Keys == db.history.Keys
    ensures forall i :: 0 <= i < |db.members| && HoldsSubscription(db.members[i], sub) ==>
      d.members[i].status == "cancelled"
    ensures forall i :: 0 <= i < |db.members| && !HoldsSubscription(db.members[i], sub) ==>
      d.members[i] == db.members[i]
    ensures d.payments == db.payments
    ensures HasSubscription(db.members, sub) && sub in db.history ==>
      d.history[sub].status == "cancelled" && d.history[sub].endedAt == Some(now)
    ensures Valid(db) ==> Valid(d)
  {
    ChangeSubscription(db, sub, "cancelled", SetEnded, now)
  }

  /** `handleSubscriptionSuspended`: status "suspended"; the history row keeps its end time. */
  function Suspend(db: Store, sub: string, now: Timestamp): (d: Store)
    ensures !HasSubscription(db.members, sub) ==> d == db
    ensures |d.members| == |db.members| && d.history.Keys == db.history.Keys
    ensures forall i :: 0 <= i < |db.members| && HoldsSubscription(db.members[i], sub) ==>
      d.members[i].status == "suspended"
    ensures forall i :: 0 <= i < |db.members| && !HoldsSubscription(db.members[i], sub) ==>
      d.members[i] == db.members[i]
    ensures d.payments == db.payments
    ensures HasSubscription(db.members, sub) && sub in db.history ==>
      d.history[sub].status == "suspended" && d.history[sub].endedAt == db.history[sub].endedAt
    ensures Valid(db) ==> Valid(d)
  {
    ChangeSubscription(db, sub, "suspended", KeepEnded, now)
  }

  /** `handleSubscriptionReactivated`: status "active" and the history row reopened. */
  function Reactivate(db: Store, sub: string, now: Timestamp): (d: Store)
    ensures !HasSubscription(db.members, sub) ==> d == db
    ensures |d.members| == |db.members| && d.history.Keys == db.history.Keys
    ensures forall i :: 0 <= i < |db.members| && HoldsSubscription(db.members[i], sub) ==>
      d.members[i].status == "active"
    ensures forall i :: 0 <= i < |db.members| && !HoldsSubscription(db.members[i], sub) ==>
      d.members[i] == db.members[i]
    ensures d.payments == db.payments
    ensures HasSubscription(db.members, sub) && sub in db.history ==>
      d.history[sub].status == "active" && d.history[sub].endedAt == None
    ensures Valid(db) ==> Valid(d)
  {
    ChangeSubscription(db, sub, "active", ClearEnded, now)
  }

  /** Members on other subscriptions and other history rows are never touched. */
  lemma ChangeSubscriptionFrame(db: Store, sub: string, status: string, ended: EndedAtChange,
                                now: Timestamp, i: nat, s: string)
    requires i < |db.members| && !HoldsSubscription(db.members[i], sub)
    requires s in db.history && s != sub
    ensures var d := ChangeSubscription(db, sub, status, ended, now);
      d.members[i] == db.members[i] && s in d.history && d.history[s] == db.history[s]
  {
  }

  /** Cancelling then reactivating leaves the member active and its history row open. */
  lemma CancelThenReactivate(db: Store, sub: string, t1: Timestamp, t2: Timestamp, i: nat)
    requires i < |db.members| && HoldsSubscription(db.members[i], sub)
    ensures var d := Reactivate(Cancel(db, sub, t1), sub, t2);
      && d.members[i] == db.members[i].(status := "active", updatedAt := t2)
      && (sub in db.history ==>
            d.history[sub] == db.history[sub].(status := "active", endedAt := None))
  {
    var c := Cancel(db, sub, t1);
    assert HoldsSubscription(c.members[i], sub);
  }

  /** Cancelling twice at the same moment is the same as cancelling once. */
  lemma CancelIdempotent(db: Store, sub: string, now: Timestamp)
    ensures Cancel(Cancel(db, sub, now), sub, now) == Cancel(db, sub, now)
  {
    var c := Cancel(db, sub, now);
    if HasSubscription(db.members, sub) {
      var i :| 0 <= i < |db.members| && HoldsSubscription(db.members[i], sub);
      assert HoldsSubscription(c.members[i], sub);
      assert c.members == SetStatusWhere(c.members, sub, "cancelled", now);
      assert c.history == UpdateHistory(c.history, sub, "cancelled", SetEnded, now);
    }
  }
}
