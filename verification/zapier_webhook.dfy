/**
  The HTTP side of the Zapier membership service: turning Zapier's free-text
  status and anonymity fields into the stored values, the three ways a request
  may prove it knows the shared secret, and the status code the webhook
  endpoint answers with.
 */
module ZapierWebhook {
  import opened Wrappers
  import opened Strings
  import opened ZapierModels
  import opened ZapierDb

  /* ---------------------------------------------------------------------- */
  /* convertStatus                                                           */
  /* ---------------------------------------------------------------------- */

  /** The keyword `word` occurs somewhere in the lower-cased `s`. */
  ghost predicate Mentions(s: string, word: string) {
    exists i :: OccursAt(ToLower(s), word, i)
  }

  /** First rung of the ladder: a successful payment. */
  ghost predicate MentionsSuccess(s: string) {
    Mentions(s, "succeed") || Mentions(s, "success") || Mentions(s, "active")
  }

  /** Second rung: a failed, cancelled or refunded payment. */
  ghost predicate MentionsFailure(s: string) {
    Mentions(s, "fail") || Mentions(s, "cancel") || Mentions(s, "refund")
  }

  /** Third rung: a suspended or pending payment. */
  ghost predicate MentionsPause(s: string) {
    Mentions(s, "suspend") || Mentions(s, "pend")
  }

  /** `convertStatus`: Zapier's payment status mapped onto the three stored statuses. */
  function ConvertStatus(zapierStatus: string): (r: string)
    ensures r == "active" || r == "cancelled" || r == "suspended"
  {
    StatusLadder(ToLower(zapierStatus))
  }

  /** The keyword ladder on already lower-cased text, first match wins. */
  function StatusLadder(s: string): string {
    if Contains(s, "succeed") || Contains(s, "success") || Contains(s, "active") then "active"
    else if Contains(s, "fail") || Contains(s, "cancel") || Contains(s, "refund") then "cancelled"
    else if Contains(s, "suspend") || Contains(s, "pend") then "suspended"
    else "active"
  }

  /** `Contains` on the lower-cased text agrees with an occurrence of the keyword. */
  lemma ContainsLowerMentions(s: string, word: string)
    ensures Contains(ToLower(s), word) <==> Mentions(s, word)
  {
    ContainsIffOccurs(ToLower(s), word);
  }

  /**
    The ladder read top to bottom, first match wins: a success keyword beats
    every other keyword, a failure keyword beats a pause keyword, and text
    with no keyword at all counts as active.
   */
  lemma ConvertStatusLadder(s: string)
    ensures ConvertStatus(s) == "cancelled" <==> !MentionsSuccess(s) && MentionsFailure(s)
    ensures ConvertStatus(s) == "suspended" <==>
              !MentionsSuccess(s) && !MentionsFailure(s) && MentionsPause(s)
    ensures ConvertStatus(s) == "active" <==>
              MentionsSuccess(s) || (!MentionsFailure(s) && !MentionsPause(s))
  {
    ContainsLowerMentions(s, "succeed");
    ContainsLowerMentions(s, "success");
    ContainsLowerMentions(s, "active");
    ContainsLowerMentions(s, "fail");
    ContainsLowerMentions(s, "cancel");
    ContainsLowerMentions(s, "refund");
    ContainsLowerMentions(s, "suspend");
    ContainsLowerMentions(s, "pend");
  }

  /** The mapping ignores letter case: it sees only the lower-cased text. */
  lemma ConvertStatusIgnoresCase(a: string, b: string)
    requires ToLower(a) == ToLower(b)
    ensures ConvertStatus(a) == ConvertStatus(b)
  {
  }

  lemma ConvertStatusOfLower(s: string)
    ensures ConvertStatus(ToLower(s)) == ConvertStatus(s)
  {
    ToLowerIdempotent(s);
  }

  /** A keyword found at a known position of the lower-cased text. */
  lemma MentionedAt(s: string, word: string, i: nat)
    requires i + |word| <= |s|
    requires ToLower(s)[i..i + |word|] == word
    ensures Mentions(s, word)
  {
    assert OccursAt(ToLower(s), word, i);
  }

  /** "Inactive" holds "active", so the first rung claims it. */
  lemma ConvertStatusInactive()
    ensures ConvertStatus("Inactive") == "active"
  {
    MentionedAt("Inactive", "active", 2);
    ConvertStatusLadder("Inactive");
  }

  /*
    The examples below pass the lower-cased text as a parameter equal to a
    literal, so that the solver reasons about the ladder instead of
    evaluating every keyword search on the literal.
   */

  lemma RefundCancelledLadder(s: string)
    requires s == "refund - cancelled"
    ensures StatusLadder(s) == "cancelled"
  {
    assert "refund" <= s;
    ContainsCharsFail(s, "succeed", 's');
    ContainsCharsFail(s, "success", 's');
    ContainsCharsFail(s, "active", 'v');
  }

  /** A cancelled refund is cancelled, whatever surrounds the keywords. */
  lemma ConvertStatusRefundCancelled()
    ensures ConvertStatus("Refund - Cancelled") == "cancelled"
  {
    assert ToLower("Refund - Cancelled") == "refund - cancelled";
    RefundCancelledLadder(ToLower("Refund - Cancelled"));
  }

  lemma PendingLadder(s: string)
    requires s == "pending"
    ensures StatusLadder(s) == "suspended"
  {
    ContainsCharsFail(s, "succeed", 's');
    ContainsCharsFail(s, "success", 's');
    ContainsCharsFail(s, "active", 'a');
    ContainsCharsFail(s, "fail", 'f');
    ContainsCharsFail(s, "cancel", 'c');
    ContainsCharsFail(s, "refund", 'r');
    assert "pend" <= s;
  }

  /** "Pending" reaches the third rung through "pend". */
  lemma ConvertStatusPending()
    ensures ConvertStatus("Pending") == "suspended"
  {
    assert ToLower("Pending") == "pending";
    PendingLadder(ToLower("Pending"));
  }

  lemma UnknownLadder(s: string)
    requires s == "foobar"
    ensures StatusLadder(s) == "active"
  {
    ContainsCharsFail(s, "succeed", 's');
    ContainsCharsFail(s, "success", 's');
    ContainsCharsFail(s, "active", 'c');
    ContainsCharsFail(s, "fail", 'i');
    ContainsCharsFail(s, "cancel", 'c');
    ContainsCharsFail(s, "refund", 'e');
    ContainsCharsFail(s, "suspend", 's');
    ContainsCharsFail(s, "pend", 'p');
  }

  /** Text with no keyword at all falls through to the default, active. */
  lemma ConvertStatusUnknown()
    ensures ConvertStatus("foobar") == "active"
  {
    UnknownLadder(ToLower("foobar"));
  }

  lemma ConvertStatusSucceeded()
    ensures ConvertStatus("Payment Succeeded") == "active"
  {
    var s := ToLower("Payment Succeeded");
    assert s[8..15] == "succeed";
    OccursContains(s, "succeed", 8);
  }

  lemma FailedLadder(s: string)
    requires s == "failed"
    ensures StatusLadder(s) == "cancelled"
  {
    ContainsCharsFail(s, "succeed", 's');
    ContainsCharsFail(s, "success", 's');
    ContainsCharsFail(s, "active", 'c');
    assert "fail" <= s;
  }

  lemma ConvertStatusFailed()
    ensures ConvertStatus("Failed") == "cancelled"
  {
    assert ToLower("Failed") == "failed";
    FailedLadder(ToLower("Failed"));
  }

  /* ---------------------------------------------------------------------- */
  /* convertAnonymous                                                        */
  /* ---------------------------------------------------------------------- */

  /** `convertAnonymous`: "true", "yes" or "1", in any case and with any padding. */
  function ConvertAnonymous(anonymous: string): (r: bool)
    ensures ToLower(anonymous) in ["true", "yes", "1"] ==> r
    ensures AllSpace(anonymous) ==> !r
  {
    AnonymousWordUntrimmed(anonymous);
    var s := ToLower(TrimSpace(anonymous));
    s == "true" || s == "yes" || s == "1"
  }

  /** A bare word is left alone by trimming, and a blank text trims to nothing. */
  lemma AnonymousWordUntrimmed(anonymous: string)
    ensures ToLower(anonymous) in ["true", "yes", "1"] ==> TrimSpace(anonymous) == anonymous
    ensures AllSpace(anonymous) ==> TrimSpace(anonymous) == []
  {
    var w := ToLower(anonymous);
    if w in ["true", "yes", "1"] {
      var n := |anonymous|;
      if w == "true" {
        assert w[0] == 't' && w[n - 1] == 'e';
      } else if w == "yes" {
        assert w[0] == 'y' && w[n - 1] == 's';
      } else {
        assert w[0] == '1' && w[n - 1] == '1';
      }
      LowerCharKeepsSpace(anonymous[0]);
      LowerCharKeepsSpace(anonymous[n - 1]);
      BareTextUntrimmed(anonymous);
    }
    if AllSpace(anonymous) {
      assert anonymous + [] + [] == anonymous;
      TrimSpacePadding(anonymous, [], []);
    }
  }

  lemma BareTextUntrimmed(s: string)
    requires s == [] || (!IsSpace(s[0]) && !IsSpace(s[|s| - 1]))
    ensures TrimSpace(s) == s
  {
    assert [] + s + [] == s;
    TrimSpacePadding([], s, []);
  }

  /** The flag depends only on the text between the padding, lower-cased. */
  lemma ConvertAnonymousPadding(pre: string, s: string, post: string)
    requires AllSpace(pre) && AllSpace(post)
    requires s == [] || (!IsSpace(s[0]) && !IsSpace(s[|s| - 1]))
    ensures ConvertAnonymous(pre + s + post) <==> ToLower(s) in ["true", "yes", "1"]
  {
    TrimSpacePadding(pre, s, post);
  }

  /** Letter case of the input never matters. */
  lemma ConvertAnonymousIgnoresCase(s: string)
    ensures ConvertAnonymous(ToLower(s)) == ConvertAnonymous(s)
  {
    TrimSpaceLower(s);
    ToLowerIdempotent(TrimSpace(s));
  }

  lemma ConvertAnonymousPaddedYes()
    ensures ConvertAnonymous(" YES ")
  {
    assert " " + "YES" + " " == " YES ";
    TrimSpacePadding(" ", "YES", " ");
    assert ToLower("YES") == "yes";
  }

  lemma ConvertAnonymousNotY()
    ensures !ConvertAnonymous("y")
  {
    BareTextUntrimmed("y");
    assert ToLower("y") == "y";
  }

  lemma ConvertAnonymousWord(s: string, expected: bool)
    requires (s == "True" && expected) || (s == "false" && !expected)
    ensures ConvertAnonymous(s) == expected
  {
    BareTextUntrimmed(s);
    if expected {
      assert ToLower(s) == "true";
    } else {
      assert ToLower(s) == "false";
    }
  }

  /* ---------------------------------------------------------------------- */
  /* isAuthorized                                                            */
  /* ---------------------------------------------------------------------- */

  /**
    Request headers by canonical name, each holding the first value sent for
    it, which is the one `Header.Get` returns. `Header.Get` answers "" for a
    header the request does not carry.
   */
  type Headers = map<string, string>

  function HeaderGet(headers: Headers, key: string): (r: string)
    ensures key !in headers ==> r == ""
    ensures key in headers ==> r == headers[key]
  {
    if key in headers then headers[key] else ""
  }

  /**
    The Basic credentials hold the secret in either slot: the decoded payload
    splits on its first ':' into exactly two parts and one of them is the
    secret. `decode` stands for base64 decoding, whatever it yields on bad input.
   */
  predicate BasicMatches(authHeader: string, secret: string, decode: string -> string) {
    "Basic " <= authHeader &&
    var parts := SplitFirst(decode(TrimPrefix(authHeader, "Basic ")), ':');
    |parts| == 2 && (parts[1] == secret || parts[0] == secret)
  }

  /** `isAuthorized`: any one of the three credential checks admits the request. */
  function IsAuthorized(headers: Headers, secret: string, decode: string -> string): (r: bool)
    ensures r <==>
      || HeaderGet(headers, "Authorization") == "Bearer " + secret
      || BasicMatches(HeaderGet(headers, "Authorization"), secret, decode)
      || HeaderGet(headers, "X-Webhook-Secret") == secret
  {
    var authHeader := HeaderGet(headers, "Authorization");
    if authHeader == "Bearer " + secret then true
    else if BasicMatches(authHeader, secret, decode) then true
    else if HeaderGet(headers, "X-Webhook-Secret") == secret then true
    else false
  }

  /**
    The Basic check in terms of the decoded payload itself: it holds exactly
    when the payload is `user:rest` with no ':' in `user` and either `user` or
    `rest` is the secret.
   */
  lemma TrimBasic(authHeader: string)
    requires "Basic " <= authHeader
    ensures TrimPrefix(authHeader, "Basic ") == authHeader[6..]
  {
    var rest := TrimPrefix(authHeader, "Basic ");
    assert "Basic " + rest == authHeader;
  }

  lemma BasicMatchesIff(authHeader: string, secret: string, decode: string -> string)
    requires "Basic " <= authHeader
    ensures var payload := decode(authHeader[6..]);
      BasicMatches(authHeader, secret, decode) <==>
        exists k :: 0 <= k < |payload| && payload[k] == ':' && ':' !in payload[..k] &&
          (payload[..k] == secret || payload[k + 1..] == secret)
  {
    TrimBasic(authHeader);
    CredentialSlotsIff(decode(authHeader[6..]), secret);
  }

  /** Splitting at the first ':' puts the secret in a slot exactly when it sits on either side of it. */
  lemma CredentialSlotsIff(payload: string, secret: string)
    ensures var parts := SplitFirst(payload, ':');
      (|parts| == 2 && (parts[1] == secret || parts[0] == secret)) <==>
        exists k :: 0 <= k < |payload| && payload[k] == ':' && ':' !in payload[..k] &&
          (payload[..k] == secret || payload[k + 1..] == secret)
  {
    var parts := SplitFirst(payload, ':');
    if |parts| == 2 && (parts[1] == secret || parts[0] == secret) {
      SlotsGiveSplitPoint(payload, secret);
    }
    if exists k :: 0 <= k < |payload| && payload[k] == ':' && ':' !in payload[..k] &&
        (payload[..k] == secret || payload[k + 1..] == secret) {
      var k :| 0 <= k < |payload| && payload[k] == ':' && ':' !in payload[..k] &&
        (payload[..k] == secret || payload[k + 1..] == secret);
      SplitPointGivesSlots(payload, k);
    }
  }

  lemma SlotsGiveSplitPoint(payload: string, secret: string)
    requires var parts := SplitFirst(payload, ':');
      |parts| == 2 && (parts[1] == secret || parts[0] == secret)
    ensures exists k :: 0 <= k < |payload| && payload[k] == ':' && ':' !in payload[..k] &&
                        (payload[..k] == secret || payload[k + 1..] == secret)
  {
    var parts := SplitFirst(payload, ':');
    var k := |parts[0]|;
    assert payload[..k] == parts[0];
    assert payload[k + 1..] == parts[1];
    assert payload[k] == ':';
  }

  lemma SplitPointGivesSlots(payload: string, k: nat)
    requires k < |payload| && payload[k] == ':' && ':' !in payload[..k]
    ensures SplitFirst(payload, ':') == [payload[..k], payload[k + 1..]]
  {
    assert payload == payload[..k] + [':'] + payload[k + 1..];
    SplitFirstJoin(payload[..k], ':', payload[k + 1..]);
  }

  /** A password containing ':' still matches: only the first ':' separates the slots. */
  lemma BasicPasswordMayHoldColon(decode: string -> string)
    requires decode("QQ==") == "zapier:s:e"
    ensures BasicMatches("Basic QQ==", "s:e", decode)
  {
    assert TrimPrefix("Basic QQ==", "Basic ") == "QQ==";
    SplitFirstJoin("zapier", ':', "s:e");
    assert "zapier" + [':'] + "s:e" == "zapier:s:e";
  }

  /** With no secret configured, a request without `X-Webhook-Secret` is admitted. */
  lemma EmptySecretAdmitsAnyone(headers: Headers, decode: string -> string)
    requires "X-Webhook-Secret" !in headers
    ensures IsAuthorized(headers, "", decode)
  {
  }

  /* ---------------------------------------------------------------------- */
  /* webhookHandler                                                          */
  /* ---------------------------------------------------------------------- */

  /** An incoming request: `body` is absent when reading it failed. */
  datatype Request = Request(httpMethod: string, headers: Headers, body: Option<string>)

  /** The status code answered and the store after the request. */
  datatype Outcome = Outcome(code: int, db: Database)

  const StatusOK := 200
  const StatusBadRequest := 400
  const StatusUnauthorized := 401
  const StatusMethodNotAllowed := 405

  /** The webhook payload the request carries: it was read and parses as JSON. */
  function Payload(req: Request, parse: string -> Option<MemberWebhook>): Option<MemberWebhook> {
    if req.body.Some? then parse(req.body.value) else None
  }

  /** The store after `ProcessMember`, which stays as it was when processing fails. */
  function Reconcile(db: Database, w: MemberWebhook, now: Timestamp): (d: Database)
    ensures var r := ProcessMember(db, w.email, w.name, ConvertAnonymous(w.anonymous),
                                   ConvertStatus(w.status), now);
      (r.Ok? ==> d == r.value) && (r.Err? ==> d == db)
    ensures NormalizeEmail(w.email) == [] ==> d == db
    ensures Valid(db) ==> Valid(d)
  {
    match ProcessMember(db, w.email, w.name, ConvertAnonymous(w.anonymous),
                        ConvertStatus(w.status), now)
    case Ok(d) => d
    case Err(_) => db
  }

  /**
    `webhookHandler`: the method is checked before the credentials, the
    credentials before the body; once the payload parses the answer is 200,
    whether or not the store accepted the event, so that Zapier does not retry.
    `parse` stands for JSON decoding into the webhook record.
   */
  function WebhookHandler(db: Database, config: Config, req: Request,
                          decode: string -> string, parse: string -> Option<MemberWebhook>,
                          now: Timestamp): (out: Outcome)
    ensures req.httpMethod != "POST" ==> out.code == StatusMethodNotAllowed
    ensures (req.httpMethod == "POST" && !IsAuthorized(req.headers, config.webhookSecret, decode))
              ==> out.code == StatusUnauthorized
    ensures (req.httpMethod == "POST" && IsAuthorized(req.headers, config.webhookSecret, decode)
              && Payload(req, parse).None?) ==> out.code == StatusBadRequest
    ensures out.code == StatusOK <==>
      req.httpMethod == "POST" && IsAuthorized(req.headers, config.webhookSecret, decode)
      && Payload(req, parse).Some?
    ensures out.code != StatusOK ==> out.db == db
    ensures out.code == StatusOK ==> out.db == Reconcile(db, Payload(req, parse).value, now)
    ensures Valid(db) ==> Valid(out.db)
  {
    if req.httpMethod != "POST" then Outcome(StatusMethodNotAllowed, db)
    else if !IsAuthorized(req.headers, config.webhookSecret, decode) then Outcome(StatusUnauthorized, db)
    else if req.body.None? then Outcome(StatusBadRequest, db)
    else match parse(req.body.value)
      case None => Outcome(StatusBadRequest, db)
      case Some(w) => Outcome(StatusOK, Reconcile(db, w, now))
  }

  /** A payload whose e-mail is blank is rejected by the store yet still acknowledged. */
  lemma BlankEmailStillAcknowledged(db: Database, config: Config, req: Request,
                                    decode: string -> string,
                                    parse: string -> Option<MemberWebhook>, now: Timestamp)
    requires req.httpMethod == "POST" && IsAuthorized(req.headers, config.webhookSecret, decode)
    requires Payload(req, parse).Some? && NormalizeEmail(Payload(req, parse).value.email) == []
    ensures WebhookHandler(db, config, req, decode, parse, now) == Outcome(StatusOK, db)
  {
  }

  /**
    An acknowledged payload with a usable e-mail is in the store afterwards:
    its member carries the converted status and anonymity and the request
    time, and no member or history row is lost.
   */
  lemma AcceptedWebhookRecorded(db: Database, config: Config, req: Request,
                                decode: string -> string,
                                parse: string -> Option<MemberWebhook>, now: Timestamp)
    requires WebhookHandler(db, config, req, decode, parse, now).code == StatusOK
    requires NormalizeEmail(Payload(req, parse).value.email) != []
    ensures var w := Payload(req, parse).value;
      var d := WebhookHandler(db, config, req, decode, parse, now).db;
      && |db.members| <= |d.members|
      && db.history <= d.history
      && FindByEmail(d.members, NormalizeEmail(w.email)).Some?
      && var m := d.members[FindByEmail(d.members, NormalizeEmail(w.email)).value];
         m.status == ConvertStatus(w.status) && m.isAnonymous == ConvertAnonymous(w.anonymous)
         && m.lastUpdated == now
  {
  }

  /** The store after the first event of the scenario below. */
  function ScenarioStore(now: Timestamp): Database {
    Database([Member(1, "a@b.com", Some(""), true, "active", now, now)], [HistoryEntry(1, "active")])
  }

  /**
    First half of the scenario: "A@B.com " paying anonymously as Jane creates
    `a@b.com`, active and anonymous, with the name stored as '' and one history row.
   */
  lemma ScenarioFirstEvent(now: Timestamp, w: MemberWebhook)
    requires w == MemberWebhook("A@B.com ", "Jane", "Payment Succeeded", "True")
    ensures Reconcile(Database([], []), w, now) == ScenarioStore(now)
  {
    ConvertStatusSucceeded();
    ConvertAnonymousWord("True", true);
    NormalizeEmailExample();
    ProcessMemberCreates(Database([], []), w.email, w.name, true, "active", now);
  }

  lemma ScenarioStoreValid(now: Timestamp)
    ensures Valid(ScenarioStore(now))
    ensures NormalizeEmail("a@b.com") == "a@b.com"
  {
    assert IsStoredEmail("a@b.com");
    StoredEmailIsNormal("a@b.com");
  }

  /**
    Second half: a "Failed" event for the same address cancels the member and
    appends exactly one history row; the withheld name stays withheld.
   */
  lemma ScenarioSecondEvent(now1: Timestamp, now2: Timestamp, w: MemberWebhook)
    requires w == MemberWebhook("a@b.com", "", "Failed", "false")
    ensures
      var d := Reconcile(ScenarioStore(now1), w, now2);
      && d.members == [Member(1, "a@b.com", Some(""), false, "cancelled", now1, now2)]
      && d.history == ScenarioStore(now1).history + [HistoryEntry(1, "cancelled")]
  {
    ConvertStatusFailed();
    ConvertAnonymousWord("false", false);
    ScenarioStoreValid(now1);
    ProcessMemberUpdates(ScenarioStore(now1), 0, w.email, w.name, false, "cancelled", now2);
  }
}
