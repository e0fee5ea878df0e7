/**
  The three tables of the PayPal membership service as an immutable store:
  `members`, `subscription_history` keyed by its UNIQUE subscription id and
  `payments` keyed by its UNIQUE transaction id. The UNIQUE columns of
  `members` become the store invariant `Valid`.
 */
module PayPalStore {
  import opened Wrappers

  /** A point in time, in whatever unit the database clock uses. */
  type Timestamp = int

  /** One row of `members`; every NULL-able column is an `Option`. */
  datatype Member = Member(
    id: nat,
    email: string,
    payerId: Option<string>,
    subscriptionId: Option<string>,
    status: string,
    amount: Option<string>,
    referredBy: Option<string>,
    givenName: Option<string>,
    surname: Option<string>,
    createdAt: Timestamp,
    updatedAt: Timestamp
  )

  /** One row of `subscription_history`, stored under its subscription id. */
  datatype HistoryRow = HistoryRow(memberId: nat, status: string, startedAt: Timestamp,
                                   endedAt: Option<Timestamp>)

  /** One row of `payments`, stored under its transaction id. */
  datatype Payment = Payment(memberId: nat, subscriptionId: string, amount: string,
                             currency: string, status: string)

  datatype Store = Store(
    members: seq<Member>,
    history: map<string, HistoryRow>,
    payments: map<string, Payment>
  )

  /* ---------------------------------------------------------------------- */
  /* Invariant                                                               */
  /* ---------------------------------------------------------------------- */

  predicate IdsArePositions(members: seq<Member>) {
    forall i :: 0 <= i < |members| ==> members[i].id == i + 1
  }

  /** `paypal_email ... UNIQUE NOT NULL`. */
  predicate EmailsUnique(members: seq<Member>) {
    forall i, j :: 0 <= i < j < |members| ==> members[i].email != members[j].email
  }

  /** `paypal_payer_id ... UNIQUE`: NULLs never collide, the empty string does. */
  predicate PayerIdsUnique(members: seq<Member>) {
    forall i, j :: 0 <= i < j < |members| && members[i].payerId.Some? ==>
      members[i].payerId != members[j].payerId
  }

  /** `current_subscription_id ... UNIQUE`. */
  predicate SubscriptionIdsUnique(members: seq<Member>) {
    forall i, j :: 0 <= i < j < |members| && members[i].subscriptionId.Some? ==>
      members[i].subscriptionId != members[j].subscriptionId
  }

  /** `member_id INTEGER REFERENCES members(id)` in both dependent tables. */
  predicate ReferencesExist(db: Store) {
    && (forall s :: s in db.history ==> 1 <= db.history[s].memberId <= |db.members|)
    && (forall t :: t in db.payments ==> 1 <= db.payments[t].memberId <= |db.members|)
  }

  predicate Valid(db: Store) {
    && IdsArePositions(db.members)
    && EmailsUnique(db.members)
    && PayerIdsUnique(db.members)
    && SubscriptionIdsUnique(db.members)
    && ReferencesExist(db)
  }

  /** Some row other than `except` holds payer id `payerId`. */
  predicate PayerIdHeldElsewhere(members: seq<Member>, payerId: string, except: int) {
    exists j :: 0 <= j < |members| && j != except && members[j].payerId == Some(payerId)
  }

  /** Some row other than `except` holds subscription id `sub`. */
  predicate SubscriptionHeldElsewhere(members: seq<Member>, sub: string, except: int) {
    exists j :: 0 <= j < |members| && j != except && members[j].subscriptionId == Some(sub)
  }

  /* ---------------------------------------------------------------------- */
  /* Lookup                                                                  */
  /* ---------------------------------------------------------------------- */

  /** `SELECT id FROM members WHERE <p> LIMIT 1`: the first row, in table order, satisfying `p`. */
  function FirstWhere(members: seq<Member>, p: Member -> bool): (r: Option<nat>)
    ensures r.None? <==> forall i :: 0 <= i < |members| ==> !p(members[i])
    ensures r.Some? ==> r.value < |members| && p(members[r.value])
    ensures r.Some? ==> forall i :: 0 <= i < r.value ==> !p(members[i])
  {
    if |members| == 0 then None
    else if p(members[0]) then Some(0)
    else
      match FirstWhere(members[1..], p)
      case None => None
      case Some(i) => Some(i + 1)
  }

  /** Two row sequences agree on every column the invariant constrains. */
  predicate SameKeys(a: seq<Member>, b: seq<Member>) {
    && |a| == |b|
    && forall i :: 0 <= i < |a| ==>
         && a[i].id == b[i].id
         && a[i].email == b[i].email
         && a[i].payerId == b[i].payerId
         && a[i].subscriptionId == b[i].subscriptionId
  }

  /** Changing only columns outside the keys keeps the store valid. */
  lemma SameKeysKeepValid(db: Store, d: Store)
    requires Valid(db)
    requires SameKeys(db.members, d.members)
    requires d.history.Keys == db.history.Keys
    requires forall s :: s in d.history ==> d.history[s].memberId == db.history[s].memberId
    requires d.payments == db.payments
    ensures Valid(d)
  {
  }
}
