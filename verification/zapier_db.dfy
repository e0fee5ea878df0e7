/**
  The write path of the Zapier membership store (`db.go`): find-or-create of a
  member by normalised e-mail, the name-preservation rules of the update, and the
  transition-only status history.

  The `members` table is a sequence of rows whose `id` is the row's position
  plus one (a SERIAL key in a table that is never deleted from); the
  `status_history` table is an append-only sequence.
 */
module ZapierDb {
  import opened Wrappers
  import opened Strings
  import opened ZapierModels

  /** One row of `status_history`. */
  datatype HistoryEntry = HistoryEntry(memberId: nat, status: string)

  datatype Database = Database(members: seq<Member>, history: seq<HistoryEntry>)

  datatype DbError =
    | EmailRequired
    | MemberNotFound(email: string)

  /** The canonical form under which e-mails are looked up and stored. */
  function NormalizeEmail(email: string): (r: string)
    ensures r == [] || IsStoredEmail(r)
  {
    var t := TrimSpace(email);
    ToLowerIsLower(t);
    if t == [] then [] else
      LowerCharKeepsSpace(t[0]);
      LowerCharKeepsSpace(t[|t| - 1]);
      ToLower(t)
  }

  /**
    An e-mail as `ProcessMember` stores it: non-empty, lower-case and without
    white space at either end.
   */
  predicate IsStoredEmail(email: string) {
    email != [] && IsLower(email) && !IsSpace(email[0]) && !IsSpace(email[|email| - 1])
  }

  /** Stored e-mails are exactly the non-empty fixed points of normalisation. */
  lemma StoredEmailIsNormal(email: string)
    ensures IsStoredEmail(email) <==> email != [] && NormalizeEmail(email) == email
  {
    if IsStoredEmail(email) {
      TrimSpacePadding([], email, []);
      assert [] + email + [] == email;
      ToLowerOfLower(email);
    }
  }

  lemma NormalizeEmailIdempotent(email: string)
    ensures NormalizeEmail(NormalizeEmail(email)) == NormalizeEmail(email)
  {
    var e := NormalizeEmail(email);
    if e != [] {
      StoredEmailIsNormal(e);
    }
  }

  /** Surrounding white space and letter case do not distinguish two e-mails. */
  lemma NormalizeEmailExample()
    ensures NormalizeEmail("A@B.com ") == NormalizeEmail("a@b.com") == "a@b.com"
  {
    NormalizePaddedUpper();
    assert IsStoredEmail("a@b.com");
    StoredEmailIsNormal("a@b.com");
  }

  lemma NormalizePaddedUpper()
    ensures NormalizeEmail("A@B.com ") == "a@b.com"
  {
    TrimPaddedExample();
    LowerExample();
  }

  lemma TrimPaddedExample()
    ensures TrimSpace("A@B.com ") == "A@B.com"
  {
    assert "A@B.com " == [] + "A@B.com" + " ";
    TrimSpacePadding([], "A@B.com", " ");
  }

  lemma LowerExample()
    ensures ToLower("A@B.com") == "a@b.com"
  {
    var lowered := ToLower("A@B.com");
    assert lowered[0] == 'a' && lowered[2] == 'b';
  }

  predicate IdsArePositions(members: seq<Member>) {
    forall i :: 0 <= i < |members| ==> members[i].id == i + 1
  }

  predicate EmailsStored(members: seq<Member>) {
    forall i :: 0 <= i < |members| ==> IsStoredEmail(members[i].email)
  }

  predicate EmailsUnique(members: seq<Member>) {
    forall i, j :: 0 <= i < j < |members| ==> members[i].email != members[j].email
  }

  predicate HistoryRefersToMembers(history: seq<HistoryEntry>, count: nat) {
    forall k :: 0 <= k < |history| ==> 1 <= history[k].memberId <= count
  }

  /**
    The store invariant that `ProcessMember` maintains: ids follow the row
    positions, e-mails are non-empty, normalised and unique, and every history
    entry names an existing member.
   */
  predicate Valid(db: Database) {
    && IdsArePositions(db.members)
    && EmailsStored(db.members)
    && EmailsUnique(db.members)
    && HistoryRefersToMembers(db.history, |db.members|)
  }

  /** `SELECT ... FROM members WHERE email = $1`: the first row holding `email`. */
  function FindByEmail(members: seq<Member>, email: string): (r: Option<nat>)
    ensures r.None? <==> forall i :: 0 <= i < |members| ==> members[i].email != email
    ensures r.Some? ==> r.value < |members| && members[r.value].email == email
    ensures r.Some? ==> forall i :: 0 <= i < r.value ==> members[i].email != email
  {
    if |members| == 0 then None
    else if members[0].email == email then Some(0)
    else
      match FindByEmail(members[1..], email)
      case None => None
      case Some(i) => Some(i + 1)
  }

  /** In a valid store the row found for an e-mail is the only one holding it. */
  lemma FindByEmailUnique(db: Database, i: nat)
    requires Valid(db) && i < |db.members|
    ensures FindByEmail(db.members, db.members[i].email) == Some(i)
  {
  }

  /** `INSERT INTO members ... RETURNING id` followed by the initial history row. */
  function CreateMember(db: Database, email: string, name: string, isAnonymous: bool,
                        status: string, now: Timestamp): (d: Database)
    ensures |d.members| == |db.members| + 1 && d.members[..|db.members|] == db.members
    ensures var m := d.members[|db.members|];
      && m.id == |db.members| + 1 && m.email == email && m.name == Some(name)
      && m.isAnonymous == isAnonymous && m.status == status
      && m.firstSeen == now && m.lastUpdated == now
    ensures d.history == db.history + [HistoryEntry(|db.members| + 1, status)]
  {
    var id := |db.members| + 1;
    Database(
      db.members + [Member(id, email, Some(name), isAnonymous, status, now, now)],
      db.history + [HistoryEntry(id, status)])
  }

  /**
    The `UPDATE members` of an existing row: the name is kept for an anonymous
    event or an empty incoming name; anonymity, status and the update time are
    always overwritten; a history row is added only on a status change.
   */
  function UpdateMember(db: Database, i: nat, name: string, isAnonymous: bool,
                        status: string, now: Timestamp): (d: Database)
    requires i < |db.members|
    ensures |d.members| == |db.members|
    ensures forall j :: 0 <= j < |db.members| && j != i ==> d.members[j] == db.members[j]
    ensures var m := db.members[i]; var u := d.members[i];
      && u.id == m.id && u.email == m.email && u.firstSeen == m.firstSeen
      && u.isAnonymous == isAnonymous && u.status == status && u.lastUpdated == now
      && (isAnonymous || name == "" ==> u.name == m.name)
      && (!isAnonymous && name != "" ==> u.name == Some(name))
    ensures db.members[i].status == status ==> d.history == db.history
    ensures db.members[i].status != status ==>
      d.history == db.history + [HistoryEntry(db.members[i].id, status)]
  {
    var m := db.members[i];
    var newName := if isAnonymous then m.name else if name == "" then m.name else Some(name);
    Database(
      db.members[i := m.(name := newName, isAnonymous := isAnonymous, status := status, lastUpdated := now)],
      db.history + (if m.status != status then [HistoryEntry(m.id, status)] else []))
  }

  lemma CreateMemberFacts(db: Database, email: string, name: string, isAnonymous: bool,
                          status: string, now: Timestamp)
    requires IsStoredEmail(email)
    requires FindByEmail(db.members, email).None?
    ensures var d := CreateMember(db, email, name, isAnonymous, status, now);
      && SameIdentities(db.members, d.members)
      && FindByEmail(d.members, email) == Some(|db.members|)
      && (Valid(db) ==> Valid(d))
  {
    var d := CreateMember(db, email, name, isAnonymous, status, now);
    assert d.members[|db.members|].email == email;
    assert d.members[..|db.members|] == db.members;
    if Valid(db) {
      CreateKeepsValid(db, email, name, isAnonymous, status, now);
    }
  }

  lemma CreateKeepsValid(db: Database, email: string, name: string, isAnonymous: bool,
                         status: string, now: Timestamp)
    requires Valid(db) && IsStoredEmail(email)
    requires forall i :: 0 <= i < |db.members| ==> db.members[i].email != email
    ensures Valid(CreateMember(db, email, name, isAnonymous, status, now))
  {
    var d := CreateMember(db, email, name, isAnonymous, status, now);
    var n := |db.members|;
    assert forall j :: 0 <= j < n ==> d.members[j] == db.members[j];
    assert IdsArePositions(d.members);
    assert EmailsStored(d.members);
    assert EmailsUnique(d.members) by {
      forall i, j | 0 <= i < j < |d.members|
        ensures d.members[i].email != d.members[j].email
      {
        if j < n {
          assert d.members[i] == db.members[i] && d.members[j] == db.members[j];
        } else {
          assert d.members[j].email == email;
        }
      }
    }
    assert HistoryRefersToMembers(d.history, |d.members|) by {
      forall k | 0 <= k < |d.history|
        ensures 1 <= d.history[k].memberId <= |d.members|
      {
        if k < |db.history| {
          assert d.history[k] == db.history[k];
        }
      }
    }
  }

  lemma UpdateMemberFacts(db: Database, i: nat, name: string, isAnonymous: bool,
                          status: string, now: Timestamp)
    requires i < |db.members|
    requires FindByEmail(db.members, db.members[i].email) == Some(i)
    ensures var d := UpdateMember(db, i, name, isAnonymous, status, now);
      && SameIdentities(db.members, d.members)
      && FindByEmail(d.members, db.members[i].email) == Some(i)
      && (Valid(db) ==> Valid(d))
  {
    var d := UpdateMember(db, i, name, isAnonymous, status, now);
    assert forall j :: 0 <= j < |d.members| ==>
      d.members[j].email == db.members[j].email && d.members[j].id == db.members[j].id;
    FindByEmailSameEmails(db.members, d.members, db.members[i].email);
    if Valid(db) {
      assert HistoryRefersToMembers(d.history, |d.members|) by {
        assert d.history[..|db.history|] == db.history;
        assert db.members[i].id == i + 1;
      }
      SameColumnsKeepValid(db, d);
    }
  }

  /** A change that keeps every id and e-mail and adds only well-founded history keeps `Valid`. */
  lemma SameColumnsKeepValid(db: Database, d: Database)
    requires Valid(db)
    requires |d.members| == |db.members|
    requires forall j :: 0 <= j < |d.members| ==>
      d.members[j].email == db.members[j].email && d.members[j].id == db.members[j].id
    requires HistoryRefersToMembers(d.history, |d.members|)
    ensures Valid(d)
  {
    assert IdsArePositions(d.members);
    assert EmailsStored(d.members);
    assert EmailsUnique(d.members) by {
      forall i, j | 0 <= i < j < |d.members|
        ensures d.members[i].email != d.members[j].email
      {
        assert d.members[i].email == db.members[i].email;
      }
    }
  }

  /** The lookup depends only on the e-mail column. */
  lemma {:induction false} FindByEmailSameEmails(a: seq<Member>, b: seq<Member>, email: string)
    requires |a| == |b|
    requires forall j :: 0 <= j < |a| ==> a[j].email == b[j].email
    ensures FindByEmail(a, email) == FindByEmail(b, email)
    decreases |a|
  {
    if |a| > 0 {
      FindByEmailSameEmails(a[1..], b[1..], email);
    }
  }

  /** The e-mail, id and first-seen date of every row, which no update changes. */
  predicate SameIdentities(a: seq<Member>, b: seq<Member>)
    requires |a| <= |b|
  {
    forall i :: 0 <= i < |a| ==>
      b[i].id == a[i].id && b[i].email == a[i].email && b[i].firstSeen == a[i].firstSeen
  }

  /**
    `ProcessMember`: find-or-create the member for one webhook event. Fails only
    when the e-mail is empty after trimming; afterwards the member with the
    normalised e-mail exists and holds the incoming status and anonymity flag.
   */
  function ProcessMember(db: Database, email: string, name: string, isAnonymous: bool,
                         status: string, now: Timestamp): (r: Result<Database, DbError>)
    ensures r.Err? <==> NormalizeEmail(email) == []
    ensures r.Err? ==> r.error == EmailRequired
    ensures r.Ok? ==>
      var d := r.value;
      && |db.members| <= |d.members| <= |db.members| + 1
      && db.history <= d.history
      && |d.history| <= |db.history| + 1
      && FindByEmail(d.members, NormalizeEmail(email)).Some?
      && var m := d.members[FindByEmail(d.members, NormalizeEmail(email)).value];
         m.status == status && m.isAnonymous == isAnonymous && m.lastUpdated == now
    ensures Valid(db) && r.Ok? ==> Valid(r.value)
  {
    var e := NormalizeEmail(email);
    if e == [] then Err(EmailRequired)
    else
      var storedName := if isAnonymous then "" else name;
      match FindByEmail(db.members, e)
      case None =>
        CreateMemberFacts(db, e, storedName, isAnonymous, status, now);
        Ok(CreateMember(db, e, storedName, isAnonymous, status, now))
      case Some(i) =>
        UpdateMemberFacts(db, i, storedName, isAnonymous, status, now);
        Ok(UpdateMember(db, i, storedName, isAnonymous, status, now))
  }

  /** A first event for an unseen e-mail appends one member and one history row. */
  lemma ProcessMemberCreates(db: Database, email: string, name: string, isAnonymous: bool,
                             status: string, now: Timestamp)
    requires NormalizeEmail(email) != []
    requires forall i :: 0 <= i < |db.members| ==> db.members[i].email != NormalizeEmail(email)
    ensures var r := ProcessMember(db, email, name, isAnonymous, status, now);
      var id := |db.members| + 1;
      && r.Ok?
      && r.value.members == db.members + [Member(id, NormalizeEmail(email),
                                                 Some(if isAnonymous then "" else name),
                                                 isAnonymous, status, now, now)]
      && r.value.history == db.history + [HistoryEntry(id, status)]
  {
  }

  /**
    An event for a known e-mail rewrites only that member: the name survives an
    anonymous event or an empty name, anonymity and status are overwritten, and
    history grows exactly when the status changes.
   */
  lemma ProcessMemberUpdates(db: Database, i: nat, email: string, name: string,
                             isAnonymous: bool, status: string, now: Timestamp)
    requires Valid(db) && i < |db.members|
    requires db.members[i].email == NormalizeEmail(email)
    ensures var r := ProcessMember(db, email, name, isAnonymous, status, now);
      var old_ := db.members[i];
      && r.Ok?
      && |r.value.members| == |db.members|
      && (forall j :: 0 <= j < |db.members| && j != i ==> r.value.members[j] == db.members[j])
      && r.value.members[i] == Member(old_.id, old_.email,
                                      if isAnonymous || name == "" then old_.name else Some(name),
                                      isAnonymous, status, old_.firstSeen, now)
      && (old_.status != status ==> r.value.history == db.history + [HistoryEntry(i + 1, status)])
      && (old_.status == status ==> r.value.history == db.history)
  {
    FindByEmailUnique(db, i);
    var storedName := if isAnonymous then "" else name;
    assert ProcessMember(db, email, name, isAnonymous, status, now)
        == Ok(UpdateMember(db, i, storedName, isAnonymous, status, now));
  }

  /** An anonymous event never changes the name stored for an existing member. */
  lemma AnonymousEventKeepsName(db: Database, i: nat, email: string, name: string,
                                status: string, now: Timestamp)
    requires Valid(db) && i < |db.members|
    requires db.members[i].email == NormalizeEmail(email)
    ensures var r := ProcessMember(db, email, name, true, status, now);
      r.Ok? && r.value.members[i].name == db.members[i].name
  {
    ProcessMemberUpdates(db, i, email, name, true, status, now);
  }

  /** A stored non-empty name is never cleared, not even by an anonymous event. */
  lemma ProcessMemberNeverClearsName(db: Database, i: nat, email: string, name: string,
                                     isAnonymous: bool, status: string, now: Timestamp)
    requires Valid(db) && i < |db.members|
    requires db.members[i].name.Some? && db.members[i].name.value != ""
    ensures var r := ProcessMember(db, email, name, isAnonymous, status, now);
      r.Ok? ==> r.value.members[i].name.Some? && r.value.members[i].name.value != ""
  {
    if NormalizeEmail(email) == db.members[i].email {
      ProcessMemberUpdates(db, i, email, name, isAnonymous, status, now);
    } else {
      ProcessMemberFrame(db, i, email, name, isAnonymous, status, now);
    }
  }

  /** Members holding any other e-mail are left exactly as they were. */
  lemma ProcessMemberFrame(db: Database, j: nat, email: string, name: string,
                           isAnonymous: bool, status: string, now: Timestamp)
    requires j < |db.members|
    requires db.members[j].email != NormalizeEmail(email)
    ensures var r := ProcessMember(db, email, name, isAnonymous, status, now);
      r.Ok? ==> j < |r.value.members| && r.value.members[j] == db.members[j]
  {
    var e := NormalizeEmail(email);
    var storedName := if isAnonymous then "" else name;
    if e != [] {
      match FindByEmail(db.members, e)
      case None =>
        assert CreateMember(db, e, storedName, isAnonymous, status, now).members[j] == db.members[j];
      case Some(k) =>
        assert k != j;
        assert UpdateMember(db, k, storedName, isAnonymous, status, now).members[j] == db.members[j];
    }
  }

  /**
    Repeating an event, at any later time, adds no history and changes only
    the update time of the event's member.
   */
  lemma ProcessMemberRepeat(db: Database, email: string, name: string, isAnonymous: bool,
                            status: string, t1: Timestamp, t2: Timestamp)
    requires NormalizeEmail(email) != []
    ensures var d := ProcessMember(db, email, name, isAnonymous, status, t1).value;
      var k := FindByEmail(d.members, NormalizeEmail(email));
      && k.Some? && k.value < |d.members|
      && ProcessMember(d, email, name, isAnonymous, status, t2)
           == Ok(d.(members := d.members[k.value := d.members[k.value].(lastUpdated := t2)]))
  {
    var e := NormalizeEmail(email);
    var storedName := if isAnonymous then "" else name;
    match FindByEmail(db.members, e)
    case None =>
      CreateMemberFacts(db, e, storedName, isAnonymous, status, t1);
      CreateThenUpdate(db, e, storedName, isAnonymous, status, t1, t2);
    case Some(i) =>
      UpdateMemberFacts(db, i, storedName, isAnonymous, status, t1);
      UpdateTwice(db, i, storedName, isAnonymous, status, t1, t2);
  }

  /** Repeating an event at the same time changes nothing: no duplicate history row. */
  lemma ProcessMemberIdempotent(db: Database, email: string, name: string, isAnonymous: bool,
                                status: string, now: Timestamp)
    requires NormalizeEmail(email) != []
    ensures var d := ProcessMember(db, email, name, isAnonymous, status, now).value;
      ProcessMember(d, email, name, isAnonymous, status, now) == Ok(d)
  {
    var d := ProcessMember(db, email, name, isAnonymous, status, now).value;
    ProcessMemberRepeat(db, email, name, isAnonymous, status, now, now);
    var k := FindByEmail(d.members, NormalizeEmail(email)).value;
    assert d.members[k].lastUpdated == now;
    assert d.members[k := d.members[k].(lastUpdated := now)] == d.members;
  }

  lemma CreateThenUpdate(db: Database, email: string, name: string, isAnonymous: bool,
                         status: string, t1: Timestamp, t2: Timestamp)
    ensures var d := CreateMember(db, email, name, isAnonymous, status, t1);
      var k := |db.members|;
      UpdateMember(d, k, name, isAnonymous, status, t2)
        == d.(members := d.members[k := d.members[k].(lastUpdated := t2)])
  {
    var d := CreateMember(db, email, name, isAnonymous, status, t1);
    var m := d.members[|db.members|];
    assert m.(name := m.name, isAnonymous := isAnonymous, status := status, lastUpdated := t2)
        == m.(lastUpdated := t2);
  }

  lemma UpdateTwice(db: Database, i: nat, name: string, isAnonymous: bool,
                    status: string, t1: Timestamp, t2: Timestamp)
    requires i < |db.members|
    ensures var d := UpdateMember(db, i, name, isAnonymous, status, t1);
      UpdateMember(d, i, name, isAnonymous, status, t2)
        == d.(members := d.members[i := d.members[i].(lastUpdated := t2)])
  {
    var d := UpdateMember(db, i, name, isAnonymous, status, t1);
    var m := d.members[i];
    assert m.(name := m.name, isAnonymous := isAnonymous, status := status, lastUpdated := t2)
        == m.(lastUpdated := t2);
  }

  /** Two identical events for a new e-mail, at any two times, leave exactly one history row. */
  lemma RepeatedEventRecordsOneTransition(db: Database, email: string, name: string,
                                          isAnonymous: bool, status: string,
                                          t1: Timestamp, t2: Timestamp)
    requires NormalizeEmail(email) != []
    requires forall i :: 0 <= i < |db.members| ==> db.members[i].email != NormalizeEmail(email)
    ensures var r1 := ProcessMember(db, email, name, isAnonymous, status, t1);
      && r1.Ok?
      && var r2 := ProcessMember(r1.value, email, name, isAnonymous, status, t2);
      && r2.Ok?
      && r2.value.history == db.history + [HistoryEntry(|db.members| + 1, status)]
  {
    ProcessMemberCreates(db, email, name, isAnonymous, status, t1);
    ProcessMemberRepeat(db, email, name, isAnonymous, status, t1, t2);
  }

  /** Mark every row holding `email` with `status` and the update time. */
  function SetStatusWhere(members: seq<Member>, email: string, status: string,
                          now: Timestamp): (r: seq<Member>)
    ensures |r| == |members|
    ensures forall i :: 0 <= i < |members| && members[i].email != email ==> r[i] == members[i]
    ensures forall i :: 0 <= i < |members| && members[i].email == email ==>
      r[i] == members[i].(status := status, lastUpdated := now)
  {
    seq(|members|, i requires 0 <= i < |members| =>
      if members[i].email == email then members[i].(status := status, lastUpdated := now)
      else members[i])
  }

  /**
    `UpdateMemberStatus`: set the status of the member with the normalised
    e-mail. An unknown e-mail is an error that changes nothing; otherwise one
    history row is appended, even when the status was already the same.
   */
  function UpdateMemberStatus(db: Database, email: string, status: string,
                              now: Timestamp): (r: Result<Database, DbError>)
    ensures var e := NormalizeEmail(email);
      r.Err? <==> forall i :: 0 <= i < |db.members| ==> db.members[i].email != e
    ensures r.Err? ==> r.error == MemberNotFound(NormalizeEmail(email))
    ensures r.Ok? ==>
      && |r.value.members| == |db.members|
      && SameIdentities(db.members, r.value.members)
      && forall i :: 0 <= i < |db.members| ==>
           && r.value.members[i].name == db.members[i].name
           && r.value.members[i].isAnonymous == db.members[i].isAnonymous
           && (db.members[i].email == NormalizeEmail(email) ==>
                 r.value.members[i].status == status && r.value.members[i].lastUpdated == now)
           && (db.members[i].email != NormalizeEmail(email) ==> r.value.members[i] == db.members[i])
    ensures Valid(db) && r.Ok? ==>
      var h := r.value.history;
      && Valid(r.value)
      && |h| == |db.history| + 1
      && h[..|db.history|] == db.history
      && h[|db.history|].status == status
      && db.members[h[|db.history|].memberId - 1].email == NormalizeEmail(email)
  {
    var e := NormalizeEmail(email);
    match FindByEmail(db.members, e)
    case None => Err(MemberNotFound(e))
    case Some(i) =>
      SetStatusFacts(db, e, i, status, now);
      Ok(SetStatus(db, e, i, status, now))
  }

  /**
    The two statements of a successful `UpdateMemberStatus`: the `UPDATE` of
    every row with the e-mail, then one history row for the first of them.
   */
  function SetStatus(db: Database, email: string, i: nat, status: string,
                     now: Timestamp): Database
    requires i < |db.members|
  {
    var id := db.members[i].id;
    Database(SetStatusWhere(db.members, email, status, now),
             if id > 0 then db.history + [HistoryEntry(id, status)] else db.history)
  }

  lemma SetStatusFacts(db: Database, email: string, i: nat, status: string, now: Timestamp)
    requires FindByEmail(db.members, email) == Some(i)
    ensures var d := SetStatus(db, email, i, status, now);
      && |d.members| == |db.members|
      && SameIdentities(db.members, d.members)
      && (Valid(db) ==>
            && Valid(d)
            && d.history == db.history + [HistoryEntry(i + 1, status)]
            && d.history[..|db.history|] == db.history)
  {
    var d := SetStatus(db, email, i, status, now);
    assert forall j :: 0 <= j < |d.members| ==>
      d.members[j].email == db.members[j].email && d.members[j].id == db.members[j].id;
    if Valid(db) {
      assert db.members[i].id == i + 1;
      assert d.history == db.history + [HistoryEntry(i + 1, status)];
      assert d.history[..|db.history|] == db.history;
      assert HistoryRefersToMembers(d.history, |d.members|) by {
        forall k | 0 <= k < |d.history|
          ensures 1 <= d.history[k].memberId <= |d.members|
        {
          if k < |db.history| {
            assert d.history[k] == db.history[k];
          }
        }
      }
      SameColumnsKeepValid(db, d);
    }
  }

  /** An empty or blank e-mail never names a member of a valid store. */
  lemma UpdateMemberStatusBlankEmail(db: Database, email: string, status: string, now: Timestamp)
    requires Valid(db)
    requires NormalizeEmail(email) == []
    ensures UpdateMemberStatus(db, email, status, now) == Err(MemberNotFound([]))
  {
  }
}
