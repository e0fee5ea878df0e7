/**
  The read side of the Zapier membership store (`db.go`): the member listing
  behind `/members`, the recent-members projection, the e-mail to status map
  and the statistics counters.

  `ORDER BY last_updated DESC` leaves the order of equal timestamps to the
  database; the model sorts stably and every contract below holds of any
  newest-first order.
 */
module ZapierQueries {
  import opened Wrappers
  import opened Strings
  import opened ZapierModels
  import opened ZapierDb

  datatype QueryError = NegativeLimit(limit: int)

  /** One entry of the `/members` listing; `name` is absent or present. */
  datatype MemberListing = MemberListing(
    email: string,
    status: string,
    isAnonymous: bool,
    firstSeen: Timestamp,
    lastUpdated: Timestamp,
    name: Option<string>
  )

  /** One entry of the recent-members projection. */
  datatype RecentMember = RecentMember(
    email: string,
    status: string,
    lastUpdated: Timestamp,
    name: Option<string>
  )

  /* ---------------------------------------------------------------------- */
  /* Selection and ordering                                                  */
  /* ---------------------------------------------------------------------- */

  /** The optional `WHERE status = $1`: an empty filter selects every row. */
  predicate MatchesFilter(m: Member, statusFilter: string) {
    statusFilter == "" || m.status == statusFilter
  }

  /** No row appears twice. */
  predicate Distinct(rows: seq<Member>) {
    forall i, j :: 0 <= i < j < |rows| ==> rows[i] != rows[j]
  }

  /** The rows matching the filter, in table order: each as often as in the table. */
  function Select(members: seq<Member>, statusFilter: string): (r: seq<Member>)
    ensures forall m :: m in r <==> m in members && MatchesFilter(m, statusFilter)
    ensures |r| <= |members|
  {
    if |members| == 0 then []
    else
      var rest := Select(members[1..], statusFilter);
      assert members == [members[0]] + members[1..];
      if MatchesFilter(members[0], statusFilter) then [members[0]] + rest else rest
  }

  /** Selection repeats no row: each selected row is counted at most as often as in the table. */
  lemma {:induction false} SelectSubMultiset(members: seq<Member>, statusFilter: string)
    ensures multiset(Select(members, statusFilter)) <= multiset(members)
    decreases |members|
  {
    if |members| > 0 {
      SelectSubMultiset(members[1..], statusFilter);
      assert members == [members[0]] + members[1..];
    }
  }

  /** With no filter every row is selected. */
  lemma {:induction false} SelectUnfiltered(members: seq<Member>)
    ensures Select(members, "") == members
    decreases |members|
  {
    if |members| > 0 {
      SelectUnfiltered(members[1..]);
      assert members == [members[0]] + members[1..];
    }
  }

  /** Selection commutes with concatenation, so it keeps the table order. */
  lemma {:induction false} SelectAppend(a: seq<Member>, b: seq<Member>, statusFilter: string)
    ensures Select(a + b, statusFilter) == Select(a, statusFilter) + Select(b, statusFilter)
    decreases |a|
  {
    if |a| > 0 {
      SelectAppend(a[1..], b, statusFilter);
      assert (a + b)[0] == a[0];
      assert (a + b)[1..] == a[1..] + b;
    } else {
      assert a + b == b;
    }
  }

  lemma SelectSingle(m: Member, statusFilter: string)
    ensures Select([m], statusFilter) == if MatchesFilter(m, statusFilter) then [m] else []
  {
    assert [m][1..] == [];
  }

  /** A table without repeated rows holds each row at most once, counted as a multiset. */
  lemma {:induction false} DistinctCountsOnce(rows: seq<Member>)
    requires Distinct(rows)
    ensures forall m :: multiset(rows)[m] <= 1
    decreases |rows|
  {
    if |rows| > 0 {
      DistinctCountsOnce(rows[1..]);
      assert rows == [rows[0]] + rows[1..];
      assert rows[0] !in rows[1..];
    }
  }

  /** A row at two positions is counted at least twice. */
  lemma RepeatCountsTwice(a: seq<Member>, i: nat, j: nat)
    requires i < j < |a|
    ensures a[i] == a[j] ==> multiset(a)[a[j]] >= 2
  {
    if a[i] == a[j] {
      assert a == a[..j] + [a[j]] + a[j + 1..];
      assert a[i] in a[..j];
    }
  }

  /** A sub-multiset of a table without repeated rows has none either. */
  lemma DistinctSubMultiset(a: seq<Member>, b: seq<Member>)
    requires multiset(a) <= multiset(b) && Distinct(b)
    ensures Distinct(a)
  {
    DistinctCountsOnce(b);
    forall i, j | 0 <= i < j < |a|
      ensures a[i] != a[j]
    {
      RepeatCountsTwice(a, i, j);
    }
  }

  predicate NewestFirst(rows: seq<Member>) {
    forall i, j :: 0 <= i < j < |rows| ==> rows[i].lastUpdated >= rows[j].lastUpdated
  }

  function InsertNewestFirst(m: Member, rows: seq<Member>): (r: seq<Member>)
    requires NewestFirst(rows)
    ensures NewestFirst(r)
    ensures multiset(r) == multiset(rows) + multiset{m}
    ensures |r| > 0 && (r[0] == m || (|rows| > 0 && r[0] == rows[0]))
  {
    if rows == [] || m.lastUpdated >= rows[0].lastUpdated then
      PrependNewestFirst(m, rows);
      [m] + rows
    else
      var rest := InsertNewestFirst(m, rows[1..]);
      assert rows == [rows[0]] + rows[1..];
      PrependNewestFirst(rows[0], rest);
      [rows[0]] + rest
  }

  lemma PrependNewestFirst(x: Member, rows: seq<Member>)
    requires NewestFirst(rows)
    requires |rows| > 0 ==> rows[0].lastUpdated <= x.lastUpdated
    ensures NewestFirst([x] + rows)
  {
    var r := [x] + rows;
    forall i, j | 0 <= i < j < |r|
      ensures r[i].lastUpdated >= r[j].lastUpdated
    {
      assert r[j] == rows[j - 1];
      if i > 0 {
        assert r[i] == rows[i - 1];
      } else if j > 1 {
        assert rows[0].lastUpdated >= rows[j - 1].lastUpdated;
      }
    }
  }

  /** `ORDER BY last_updated DESC`, as a stable insertion sort. */
  function SortNewestFirst(rows: seq<Member>): (r: seq<Member>)
    ensures NewestFirst(r)
    ensures multiset(r) == multiset(rows)
    ensures |r| == |rows|
  {
    if rows == [] then []
    else
      assert rows == [rows[0]] + rows[1..];
      InsertNewestFirst(rows[0], SortNewestFirst(rows[1..]))
  }

  function Min(a: int, b: int): int {
    if a <= b then a else b
  }

  /** The first `limit` rows in newest-first order: `ORDER BY last_updated DESC LIMIT n`. */
  function TakeNewest(rows: seq<Member>, limit: nat): (r: seq<Member>)
    ensures |r| == Min(limit, |rows|)
    ensures NewestFirst(r)
    ensures forall i :: 0 <= i < |r| ==> r[i] in rows
    ensures multiset(r) <= multiset(rows)
  {
    var sorted := SortNewestFirst(rows);
    var r := sorted[..Min(limit, |sorted|)];
    assert forall i :: 0 <= i < |r| ==> r[i] in multiset(sorted);
    PrefixSubMultiset(sorted, |r|);
    r
  }

  lemma PrefixSubMultiset(s: seq<Member>, k: nat)
    requires k <= |s|
    ensures multiset(s[..k]) <= multiset(s)
  {
    assert s == s[..k] + s[k..];
  }

  /**
    A row is taken unless the result is full and holds only rows updated at
    least as recently.
   */
  lemma TakeNewestTopK(rows: seq<Member>, limit: nat, m: Member)
    requires m in rows
    ensures var r := TakeNewest(rows, limit);
      || m in r
      || (|r| == limit && forall i :: 0 <= i < |r| ==> r[i].lastUpdated >= m.lastUpdated)
  {
    var sorted := SortNewestFirst(rows);
    var r := TakeNewest(rows, limit);
    assert m in multiset(sorted);
    var p :| 0 <= p < |sorted| && sorted[p] == m;
    if p < |r| {
      assert r[p] == m;
    } else {
      assert forall i :: 0 <= i < |r| ==> r[i] == sorted[i];
    }
  }

  /** With a limit covering every row, every row is taken. */
  lemma TakeNewestComplete(rows: seq<Member>, limit: nat, m: Member)
    requires limit >= |rows|
    requires m in rows
    ensures m in TakeNewest(rows, limit)
  {
    var sorted := SortNewestFirst(rows);
    assert TakeNewest(rows, limit) == sorted;
    assert m in multiset(sorted);
  }

  /* ---------------------------------------------------------------------- */
  /* GetMembers                                                              */
  /* ---------------------------------------------------------------------- */

  /** A listing entry carries a name only for a non-anonymous member whose name is not NULL. */
  function ListingOf(m: Member): (r: MemberListing)
    ensures r.email == m.email && r.status == m.status && r.lastUpdated == m.lastUpdated
    ensures r.name.Some? <==> !m.isAnonymous && m.name.Some?
    ensures r.name.Some? ==> r.name == m.name
  {
    MemberListing(m.email, m.status, m.isAnonymous, m.firstSeen, m.lastUpdated,
                  if !m.isAnonymous && m.name.Some? then m.name else None)
  }

  /**
    `GetMembers(statusFilter, limit)`: at most `limit` rows of the members
    matching the filter, newest update first. A negative limit is rejected by
    the database.
   */
  function GetMembers(db: Database, statusFilter: string, limit: int)
    : (r: Result<seq<MemberListing>, QueryError>)
    ensures r.Err? <==> limit < 0
    ensures r.Ok? ==> |r.value| == Min(limit, |Select(db.members, statusFilter)|)
    ensures r.Ok? ==> forall i, j :: 0 <= i < j < |r.value| ==>
      r.value[i].lastUpdated >= r.value[j].lastUpdated
    ensures r.Ok? ==> forall i :: 0 <= i < |r.value| ==>
      exists m :: m in db.members && MatchesFilter(m, statusFilter) && r.value[i] == ListingOf(m)
    ensures Valid(db) && r.Ok? ==> forall i, j :: 0 <= i < j < |r.value| ==>
      r.value[i].email != r.value[j].email
  {
    if limit < 0 then Err(NegativeLimit(limit))
    else
      var taken := TakeNewest(Select(db.members, statusFilter), limit);
      TakenFromSelection(db, statusFilter, limit);
      var r := Listings(taken);
      assert forall i :: 0 <= i < |r| ==> r[i] == ListingOf(taken[i]);
      Ok(r)
  }

  /** The rows the listing is built from: matching members of the store, no e-mail twice. */
  lemma TakenFromSelection(db: Database, statusFilter: string, limit: nat)
    ensures var taken := TakeNewest(Select(db.members, statusFilter), limit);
      && (forall i :: 0 <= i < |taken| ==> taken[i] in db.members && MatchesFilter(taken[i], statusFilter))
      && (Valid(db) ==> forall i, j :: 0 <= i < j < |taken| ==> taken[i].email != taken[j].email)
  {
    var taken := TakeNewest(Select(db.members, statusFilter), limit);
    if Valid(db) {
      SelectSubMultiset(db.members, statusFilter);
      TakenHaveDistinctEmails(db, Select(db.members, statusFilter), taken);
    }
  }

  function Listings(taken: seq<Member>): (r: seq<MemberListing>)
    ensures |r| == |taken|
    ensures forall i :: 0 <= i < |r| ==> r[i] == ListingOf(taken[i])
    ensures (forall i, j :: 0 <= i < j < |taken| ==> taken[i].email != taken[j].email) ==>
      forall i, j :: 0 <= i < j < |r| ==> r[i].email != r[j].email
  {
    seq(|taken|, i requires 0 <= i < |taken| => ListingOf(taken[i]))
  }

  /** Rows taken without repetition from a valid store carry pairwise different e-mails. */
  lemma TakenHaveDistinctEmails(db: Database, rows: seq<Member>, taken: seq<Member>)
    requires Valid(db)
    requires multiset(rows) <= multiset(db.members) && multiset(taken) <= multiset(rows)
    ensures forall i, j :: 0 <= i < j < |taken| ==> taken[i].email != taken[j].email
  {
    assert Distinct(db.members);
    DistinctSubMultiset(taken, db.members);
    forall i, j | 0 <= i < j < |taken|
      ensures taken[i].email != taken[j].email
    {
      assert taken[i] in multiset(db.members) && taken[j] in multiset(db.members);
      var p :| 0 <= p < |db.members| && db.members[p] == taken[i];
      var q :| 0 <= q < |db.members| && db.members[q] == taken[j];
      assert p != q;
    }
  }

  /**
    Every matching member is listed, unless the listing is full and holds only
    members updated at least as recently.
   */
  lemma GetMembersTopK(db: Database, statusFilter: string, limit: int, m: Member)
    requires limit >= 0
    requires m in db.members && MatchesFilter(m, statusFilter)
    ensures var r := GetMembers(db, statusFilter, limit).value;
      || ListingOf(m) in r
      || (|r| == limit && forall i :: 0 <= i < |r| ==> r[i].lastUpdated >= m.lastUpdated)
  {
    var taken := TakeNewest(Select(db.members, statusFilter), limit);
    var r := GetMembers(db, statusFilter, limit).value;
    TakeNewestTopK(Select(db.members, statusFilter), limit, m);
    if m in taken {
      var p :| 0 <= p < |taken| && taken[p] == m;
      assert r[p] == ListingOf(m);
    }
  }

  /** With a large enough limit the listing holds every matching member. */
  lemma GetMembersComplete(db: Database, statusFilter: string, limit: int, m: Member)
    requires limit >= |db.members|
    requires m in db.members && MatchesFilter(m, statusFilter)
    ensures ListingOf(m) in GetMembers(db, statusFilter, limit).value
  {
    var rows := Select(db.members, statusFilter);
    var taken := TakeNewest(rows, limit);
    TakeNewestComplete(rows, limit, m);
    var p :| 0 <= p < |taken| && taken[p] == m;
    assert GetMembers(db, statusFilter, limit).value[p] == ListingOf(m);
  }

  /* ---------------------------------------------------------------------- */
  /* GetRecentMembers                                                        */
  /* ---------------------------------------------------------------------- */

  /** A recent-members entry carries any stored name that is not empty, anonymous or not. */
  function RecentOf(m: Member): (r: RecentMember)
    ensures r.email == m.email && r.status == m.status && r.lastUpdated == m.lastUpdated
    ensures r.name.Some? <==> m.name.Some? && m.name.value != ""
    ensures r.name.Some? ==> r.name == m.name
  {
    RecentMember(m.email, m.status, m.lastUpdated,
                 if m.name.Some? && m.name.value != "" then m.name else None)
  }

  /** `GetRecentMembers(limit)`: the `limit` most recently updated members. */
  function GetRecentMembers(db: Database, limit: int): (r: Result<seq<RecentMember>, QueryError>)
    ensures r.Err? <==> limit < 0
    ensures r.Ok? ==> |r.value| == Min(limit, |db.members|)
    ensures r.Ok? ==> forall i, j :: 0 <= i < j < |r.value| ==>
      r.value[i].lastUpdated >= r.value[j].lastUpdated
    ensures r.Ok? ==> forall i :: 0 <= i < |r.value| ==>
      exists m :: m in db.members && r.value[i] == RecentOf(m)
    ensures Valid(db) && r.Ok? ==> forall i, j :: 0 <= i < j < |r.value| ==>
      r.value[i].email != r.value[j].email
  {
    if limit < 0 then Err(NegativeLimit(limit))
    else
      var taken := TakeNewest(db.members, limit);
      var r := Recents(taken);
      assert forall i :: 0 <= i < |r| ==> r[i] == RecentOf(taken[i]) && taken[i] in db.members;
      if Valid(db) then
        TakenHaveDistinctEmails(db, db.members, taken);
        Ok(r)
      else Ok(r)
  }

  function Recents(taken: seq<Member>): (r: seq<RecentMember>)
    ensures |r| == |taken|
    ensures forall i :: 0 <= i < |r| ==> r[i] == RecentOf(taken[i])
    ensures (forall i, j :: 0 <= i < j < |taken| ==> taken[i].email != taken[j].email) ==>
      forall i, j :: 0 <= i < j < |r| ==> r[i].email != r[j].email
  {
    seq(|taken|, i requires 0 <= i < |taken| => RecentOf(taken[i]))
  }

  /**
    Every member appears in the projection, unless it is full and holds only
    members updated at least as recently.
   */
  lemma GetRecentMembersTopK(db: Database, limit: int, m: Member)
    requires limit >= 0
    requires m in db.members
    ensures var r := GetRecentMembers(db, limit).value;
      || RecentOf(m) in r
      || (|r| == limit && forall i :: 0 <= i < |r| ==> r[i].lastUpdated >= m.lastUpdated)
  {
    var taken := TakeNewest(db.members, limit);
    var r := GetRecentMembers(db, limit).value;
    TakeNewestTopK(db.members, limit, m);
    if m in taken {
      var p :| 0 <= p < |taken| && taken[p] == m;
      assert r[p] == RecentOf(m);
    }
  }

  lemma GetRecentMembersComplete(db: Database, limit: int, m: Member)
    requires limit >= |db.members|
    requires m in db.members
    ensures RecentOf(m) in GetRecentMembers(db, limit).value
  {
    var taken := TakeNewest(db.members, limit);
    TakeNewestComplete(db.members, limit, m);
    var p :| 0 <= p < |taken| && taken[p] == m;
    assert GetRecentMembers(db, limit).value[p] == RecentOf(m);
  }

  /**
    The two projections disagree on anonymous members: a stored name that the
    listing withholds is exposed by the recent-members projection.
   */
  lemma AnonymousNameExposure(db: Database, limit: int, m: Member)
    requires limit >= |db.members|
    requires m in db.members
    requires m.isAnonymous && m.name.Some? && m.name.value != ""
    ensures MemberListing(m.email, m.status, true, m.firstSeen, m.lastUpdated, None)
              in GetMembers(db, "", limit).value
    ensures RecentMember(m.email, m.status, m.lastUpdated, m.name)
              in GetRecentMembers(db, limit).value
  {
    SelectUnfiltered(db.members);
    GetMembersComplete(db, "", limit, m);
    GetRecentMembersComplete(db, limit, m);
  }

  /* ---------------------------------------------------------------------- */
  /* GetAllMemberStatuses                                                    */
  /* ---------------------------------------------------------------------- */

  /**
    `GetAllMemberStatuses`: lower-cased e-mail to status, a later row
    overwriting an earlier one with the same key.
   */
  function GetAllMemberStatuses(members: seq<Member>): (r: map<string, string>)
    ensures forall i :: 0 <= i < |members| ==> ToLower(members[i].email) in r
    ensures forall k :: k in r ==>
      exists i :: 0 <= i < |members| && ToLower(members[i].email) == k && r[k] == members[i].status
  {
    if |members| == 0 then map[]
    else
      var last := members[|members| - 1];
      var rest := GetAllMemberStatuses(members[..|members| - 1]);
      assert forall i :: 0 <= i < |members| - 1 ==> members[..|members| - 1][i] == members[i];
      rest[ToLower(last.email) := last.status]
  }

  /** A row whose key no later row repeats is reported with its own status. */
  lemma {:induction false} LastWriterWins(members: seq<Member>, i: nat)
    requires i < |members|
    requires forall j :: i < j < |members| ==> ToLower(members[j].email) != ToLower(members[i].email)
    ensures GetAllMemberStatuses(members)[ToLower(members[i].email)] == members[i].status
    decreases |members|
  {
    if i < |members| - 1 {
      var init := members[..|members| - 1];
      assert init[i] == members[i];
      LastWriterWins(init, i);
    }
  }

  /** In a valid store the map holds every member's own e-mail and status. */
  lemma StatusesOfValidStore(db: Database)
    requires Valid(db)
    ensures var r := GetAllMemberStatuses(db.members);
      forall i :: 0 <= i < |db.members| ==>
        db.members[i].email in r && r[db.members[i].email] == db.members[i].status
  {
    var r := GetAllMemberStatuses(db.members);
    forall i | 0 <= i < |db.members|
      ensures db.members[i].email in r && r[db.members[i].email] == db.members[i].status
    {
      ToLowerOfLower(db.members[i].email);
      forall j | i < j < |db.members|
        ensures ToLower(db.members[j].email) != ToLower(db.members[i].email)
      {
        ToLowerOfLower(db.members[j].email);
      }
      LastWriterWins(db.members, i);
    }
  }

  /** After a successful event the map reports the event's status for its e-mail. */
  lemma StatusesAfterProcessMember(db: Database, email: string, name: string,
                                   isAnonymous: bool, status: string, now: Timestamp)
    requires Valid(db)
    requires ProcessMember(db, email, name, isAnonymous, status, now).Ok?
    ensures var d := ProcessMember(db, email, name, isAnonymous, status, now).value;
      var r := GetAllMemberStatuses(d.members);
      NormalizeEmail(email) in r && r[NormalizeEmail(email)] == status
  {
    var d := ProcessMember(db, email, name, isAnonymous, status, now).value;
    var k := FindByEmail(d.members, NormalizeEmail(email)).value;
    assert d.members[k].email == NormalizeEmail(email);
    StatusesOfValidStore(d);
  }

  /* ---------------------------------------------------------------------- */
  /* GetStats                                                                */
  /* ---------------------------------------------------------------------- */

  /** The positions of the rows satisfying `p`: what a `COUNT(*) ... WHERE p` counts. */
  function Matching(members: seq<Member>, p: Member -> bool): set<int> {
    set i | 0 <= i < |members| && p(members[i])
  }

  function HasStatus(status: string): Member -> bool {
    (m: Member) => m.status == status
  }

  function IsAnonymousRow(): Member -> bool {
    (m: Member) => m.isAnonymous
  }

  lemma MatchingPrefix(members: seq<Member>, p: Member -> bool, n: nat)
    requires n <= |members|
    ensures forall i :: i in Matching(members[..n], p) <==> 0 <= i < n && p(members[i])
  {
    assert forall i :: 0 <= i < n ==> members[..n][i] == members[i];
  }

  lemma CardAddOne(b: set<int>, n: int)
    requires n !in b
    ensures |b + {n}| == |b| + 1
  {
    assert b + {n} - {n} == b;
  }

  /** Appending a row adds its position to the matching set exactly when it matches. */
  lemma MatchingGrows(members: seq<Member>, p: Member -> bool)
    requires |members| > 0
    ensures var n := |members| - 1;
      |Matching(members, p)| == |Matching(members[..n], p)| + (if p(members[n]) then 1 else 0)
  {
    var n := |members| - 1;
    var a, b := Matching(members, p), Matching(members[..n], p);
    MatchingPrefix(members, p, n);
    if p(members[n]) {
      assert a == b + {n};
      CardAddOne(b, n);
    } else {
      assert a == b;
    }
  }

  /** `SELECT COUNT(*) FROM members WHERE status = $1`. */
  function CountStatus(members: seq<Member>, status: string): (n: nat)
    ensures n == |Matching(members, HasStatus(status))|
    ensures n <= |members|
  {
    if |members| == 0 then
      assert Matching(members, HasStatus(status)) == {};
      0
    else
      MatchingGrows(members, HasStatus(status));
      CountStatus(members[..|members| - 1], status)
        + (if members[|members| - 1].status == status then 1 else 0)
  }

  /** `SELECT COUNT(*) FROM members WHERE is_anonymous = true`. */
  function CountAnonymous(members: seq<Member>): (n: nat)
    ensures n == |Matching(members, IsAnonymousRow())|
    ensures n <= |members|
  {
    if |members| == 0 then
      assert Matching(members, IsAnonymousRow()) == {};
      0
    else
      MatchingGrows(members, IsAnonymousRow());
      CountAnonymous(members[..|members| - 1]) + (if members[|members| - 1].isAnonymous then 1 else 0)
  }

  /**
    A status count agrees with the listing: counting the rows of a status is
    selecting them.
   */
  lemma {:induction false} CountStatusIsSelection(members: seq<Member>, status: string)
    requires status != ""
    ensures CountStatus(members, status) == |Select(members, status)|
    decreases |members|
  {
    if |members| > 0 {
      var n := |members| - 1;
      CountStatusIsSelection(members[..n], status);
      SelectAppend(members[..n], [members[n]], status);
      SelectSingle(members[n], status);
      assert members[..n] + [members[n]] == members;
    }
  }

  /** Rows of two different statuses are counted apart, so they never exceed the total. */
  lemma {:induction false} CountTwoStatuses(members: seq<Member>, s1: string, s2: string)
    requires s1 != s2
    ensures CountStatus(members, s1) + CountStatus(members, s2) <= |members|
    decreases |members|
  {
    if |members| > 0 {
      CountTwoStatuses(members[..|members| - 1], s1, s2);
    }
  }

  /** `GetStats`: total, active, cancelled and anonymous member counts. */
  function GetStats(db: Database): (r: Stats)
    ensures r.totalMembers == |db.members|
    ensures r.activeMembers == |Matching(db.members, HasStatus("active"))|
    ensures r.cancelledMembers == |Matching(db.members, HasStatus("cancelled"))|
    ensures r.anonymousMembers == |Matching(db.members, IsAnonymousRow())|
    ensures r.activeMembers + r.cancelledMembers <= r.totalMembers
    ensures r.anonymousMembers <= r.totalMembers
  {
    CountTwoStatuses(db.members, "active", "cancelled");
    Stats(|db.members|, CountStatus(db.members, "active"), CountStatus(db.members, "cancelled"),
          CountAnonymous(db.members))
  }

  /**
    The statistics agree with the listing: with a limit covering the store,
    `/members?status=active` lists as many members as the active count, and
    likewise for cancelled.
   */
  lemma StatsAgreeWithListing(db: Database, limit: int)
    requires limit >= |db.members|
    ensures |GetMembers(db, "active", limit).value| == GetStats(db).activeMembers
    ensures |GetMembers(db, "cancelled", limit).value| == GetStats(db).cancelledMembers
  {
    CountStatusIsSelection(db.members, "active");
    CountStatusIsSelection(db.members, "cancelled");
  }

  /** A member created by an event adds one to the total and to the count of its status. */
  lemma StatsAfterCreate(db: Database, email: string, name: string, isAnonymous: bool,
                         status: string, now: Timestamp)
    requires NormalizeEmail(email) != []
    requires forall i :: 0 <= i < |db.members| ==> db.members[i].email != NormalizeEmail(email)
    ensures var d := ProcessMember(db, email, name, isAnonymous, status, now).value;
      var before := GetStats(db);
      var after := GetStats(d);
      && after.totalMembers == before.totalMembers + 1
      && after.activeMembers == before.activeMembers + (if status == "active" then 1 else 0)
      && after.cancelledMembers == before.cancelledMembers + (if status == "cancelled" then 1 else 0)
      && after.anonymousMembers == before.anonymousMembers + (if isAnonymous then 1 else 0)
  {
    ProcessMemberCreates(db, email, name, isAnonymous, status, now);
    var d := ProcessMember(db, email, name, isAnonymous, status, now).value;
    assert d.members[..|d.members| - 1] == db.members;
  }
}
