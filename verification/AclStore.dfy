/** The file backend of the MQTT users and ACL rules, and the rule ids it hands out. */
module AclStore {
  import opened Base64
  import opened Ordering
  import opened Results

  // ----- Rule ids -----

  const SEPARATOR: Byte := 0x1F

  function EncodeId(subject: Bytes, topic: Bytes): Bytes {
    Encode(subject + [SEPARATOR] + topic)
  }

  /** `bytes.IndexByte(raw, aclIDSep)`, or the length. */
  function IndexOfSeparator(s: Bytes): (i: nat)
    ensures i <= |s|
    ensures i < |s| ==> s[i] == SEPARATOR
    ensures forall j :: 0 <= j < i ==> s[j] != SEPARATOR
  {
    if s == [] || s[0] == SEPARATOR then 0 else IndexOfSeparator(s[1..]) + 1
  }

  function DecodeId(id: Bytes): Option<(Bytes, Bytes)> {
    var raw := Decode(id);
    if raw.None? then None
    else
      var i := IndexOfSeparator(raw.value);
      if i == |raw.value| then None else Some((raw.value[..i], raw.value[i + 1..]))
  }

  /** An id is the encoding of the subject, the byte 31 and the topic. */
  lemma IdIsEncoded(subject: Bytes, topic: Bytes)
    ensures Decode(EncodeId(subject, topic)) == Some(subject + [31] + topic)
    ensures AllSymbols(EncodeId(subject, topic))
  {
    DecodeEncoded(subject + [31] + topic);
  }

  /** An id decodes to what it was made from exactly when the subject is free of the separator. */
  lemma IdRoundTripIff(subject: Bytes, topic: Bytes)
    ensures DecodeId(EncodeId(subject, topic)) == Some((subject, topic)) <==> SEPARATOR !in subject
    ensures DecodeId(EncodeId(subject, topic)).Some?
  {
    var raw := subject + [SEPARATOR] + topic;
    DecodeEncoded(raw);
    var i := IndexOfSeparator(raw);
    assert raw[|subject|] == SEPARATOR;
    if SEPARATOR !in subject {
      assert forall j :: 0 <= j < |subject| ==> raw[j] == subject[j] && subject[j] in subject;
      assert i == |subject|;
      assert raw[..i] == subject && raw[i + 1..] == topic;
    } else {
      var k :| 0 <= k < |subject| && subject[k] == SEPARATOR;
      assert raw[k] == SEPARATOR;
      assert i <= k && |raw[..i]| == i < |subject|;
    }
  }

  // ----- The ledger -----

  datatype UserRule = UserRule(username: Bytes, password: Bytes, acl: map<Bytes, int>, disallow: bool)

  /** The parsed YAML file. `auth` and `acl` are the top-level wildcard lists, which the dashboard only keeps. */
  datatype Ledger = Ledger(users: map<Bytes, UserRule>, auth: seq<string>, acl: seq<string>)

  datatype Error = SubjectRequired | PasswordRequired | TopicRequired | NotFound | InvalidId

  /** The plain map from subject and topic to access. */
  ghost function Entries(l: Ledger): map<(Bytes, Bytes), int> {
    map s, t | s in l.users && t in l.users[s].acl :: (s, t) := l.users[s].acl[t]
  }

  function WithAcl(l: Ledger, subject: Bytes, acl: map<Bytes, int>): Ledger
    requires subject in l.users
  {
    l.(users := l.users[subject := l.users[subject].(acl := acl)])
  }

  function AfterPutUser(l: Ledger, subject: Bytes, allow: bool, password: Bytes, hashed: Bytes)
    : (Ledger, Option<Error>)
  {
    if subject == [] then (l, Some(SubjectRequired))
    else if subject !in l.users && password == [] then (l, Some(PasswordRequired))
    else
      var existing := if subject in l.users then l.users[subject] else UserRule([], [], map[], false);
      var rule := existing.(username := subject, disallow := !allow,
                            password := if password != [] then hashed else existing.password);
      (l.(users := l.users[subject := rule]), None)
  }

  function AfterDeleteUser(l: Ledger, subject: Bytes): (Ledger, Option<Error>) {
    if subject !in l.users then (l, Some(NotFound)) else (l.(users := l.users - {subject}), None)
  }

  function AfterPutRule(l: Ledger, subject: Bytes, topic: Bytes, access: int): (Ledger, Result<Bytes, Error>) {
    if subject == [] || topic == [] then (l, Err(TopicRequired))
    else if subject !in l.users then (l, Err(NotFound))
    else (WithAcl(l, subject, l.users[subject].acl[topic := access]), Ok(EncodeId(subject, topic)))
  }

  function AfterDeleteRule(l: Ledger, id: Bytes): (Ledger, Option<Error>) {
    var target := DecodeId(id);
    if target.None? then (l, Some(InvalidId))
    else
      var (subject, topic) := target.value;
      if subject !in l.users || topic !in l.users[subject].acl then (l, Some(NotFound))
      else (WithAcl(l, subject, l.users[subject].acl - {topic}), None)
  }

  // ----- What each call does to the plain map -----

  /** Nothing but the record of one user differs. */
  ghost predicate OnlyUser(l: Ledger, l': Ledger, subject: Bytes) {
    && l'.auth == l.auth && l'.acl == l.acl
    && (forall s :: s in l'.users && s != subject ==> s in l.users)
    && (forall s :: s in l.users && s != subject ==> s in l'.users && l'.users[s] == l.users[s])
  }

  /** Nothing but the rules of one user differs. */
  ghost predicate OnlyRulesOf(l: Ledger, l': Ledger, subject: Bytes) {
    && OnlyUser(l, l', subject) && subject in l.users && subject in l'.users
    && l'.users[subject] == l.users[subject].(acl := l'.users[subject].acl)
  }

  /** A change of a user touches no rule and nobody else's record; an empty password keeps the stored hash. */
  ghost predicate UserPut(l: Ledger, l': Ledger, err: Option<Error>,
                          subject: Bytes, allow: bool, password: Bytes, hashed: Bytes)
  {
    && (err == Some(SubjectRequired) <==> subject == [])
    && (err == Some(PasswordRequired) <==> subject != [] && subject !in l.users && password == [])
    && (err != None ==> l' == l && (err.value.SubjectRequired? || err.value.PasswordRequired?))
    && Entries(l') == Entries(l)
    && OnlyUser(l, l', subject)
    && (err == None ==>
          && subject in l'.users && l'.users[subject].username == subject
          && l'.users[subject].disallow == !allow
          && (password != [] ==> l'.users[subject].password == hashed)
          && (password == [] ==> subject in l.users && l'.users[subject].password == l.users[subject].password))
  }

  /** A deleted user's rules go with it; nobody else's record or rule does. */
  ghost predicate UserDeleted(l: Ledger, l': Ledger, err: Option<Error>, subject: Bytes) {
    && (err == Some(NotFound) <==> subject !in l.users)
    && (err != None ==> l' == l && err.value.NotFound?)
    && Entries(l') == (map k | k in Entries(l) && k.0 != subject :: Entries(l)[k])
    && OnlyUser(l, l', subject) && subject !in l'.users
  }

  /** Adding a rule sets one entry. */
  ghost predicate RulePut(l: Ledger, l': Ledger, r: Result<Bytes, Error>, subject: Bytes, topic: Bytes, access: int) {
    && (r == Err(TopicRequired) <==> subject == [] || topic == [])
    && (r == Err(NotFound) <==> subject != [] && topic != [] && subject !in l.users)
    && (r.Err? ==> l' == l && (r.error.TopicRequired? || r.error.NotFound?))
    && (r.Ok? ==> r.value == EncodeId(subject, topic))
    && (r.Ok? ==> Entries(l') == Entries(l)[(subject, topic) := access] && OnlyRulesOf(l, l', subject))
  }

  /** Deleting by id removes the entry that the id decodes to. */
  ghost predicate RuleDeleted(l: Ledger, l': Ledger, err: Option<Error>, id: Bytes) {
    var target := DecodeId(id);
    && (err == Some(InvalidId) <==> target == None)
    && (err == Some(NotFound) <==> target.Some? && target.value !in Entries(l))
    && (err != None ==> l' == l && (err.value.InvalidId? || err.value.NotFound?))
    && (err == None ==> Entries(l') == Entries(l) - {target.value} && OnlyRulesOf(l, l', target.value.0))
  }

  lemma EntryAt(l: Ledger, k: (Bytes, Bytes))
    ensures k in Entries(l) <==> k.0 in l.users && k.1 in l.users[k.0].acl
    ensures k in Entries(l) ==> Entries(l)[k] == l.users[k.0].acl[k.1]
  {
  }

  ghost predicate SameAt(a: map<(Bytes, Bytes), int>, b: map<(Bytes, Bytes), int>, k: (Bytes, Bytes)) {
    (k in a <==> k in b) && (k in a ==> a[k] == b[k])
  }

  lemma SameEverywhere(a: map<(Bytes, Bytes), int>, b: map<(Bytes, Bytes), int>)
    requires forall k :: SameAt(a, b, k)
    ensures a == b
  {
    assert forall k :: k in a ==> SameAt(a, b, k);
    assert forall k :: k in b ==> SameAt(a, b, k);
  }

  /** A record that keeps its rules keeps all entries. */
  lemma EntriesKept(l: Ledger, subject: Bytes, rule: UserRule)
    requires rule.acl == if subject in l.users then l.users[subject].acl else map[]
    ensures Entries(l.(users := l.users[subject := rule])) == Entries(l)
  {
    var l' := l.(users := l.users[subject := rule]);
    forall k ensures SameAt(Entries(l'), Entries(l), k) {
      EntryAt(l, k);
      EntryAt(l', k);
    }
    SameEverywhere(Entries(l'), Entries(l));
  }

  lemma PutUserFacts(l: Ledger, subject: Bytes, allow: bool, password: Bytes, hashed: Bytes)
    ensures var (l', err) := AfterPutUser(l, subject, allow, password, hashed);
            UserPut(l, l', err, subject, allow, password, hashed)
  {
    var (l', err) := AfterPutUser(l, subject, allow, password, hashed);
    if err == None {
      EntriesKept(l, subject, l'.users[subject]);
    }
  }

  lemma DeleteUserFacts(l: Ledger, subject: Bytes)
    ensures var (l', err) := AfterDeleteUser(l, subject); UserDeleted(l, l', err, subject)
  {
    var l' := AfterDeleteUser(l, subject).0;
    forall k: (Bytes, Bytes)
      ensures k in Entries(l') <==> k in Entries(l) && k.0 != subject
      ensures k in Entries(l') ==> Entries(l')[k] == Entries(l)[k]
    {
      EntryAt(l, k);
      EntryAt(l', k);
    }
  }

  lemma EntriesWith(l: Ledger, subject: Bytes, topic: Bytes, access: int)
    requires subject in l.users
    ensures Entries(WithAcl(l, subject, l.users[subject].acl[topic := access])) ==
            Entries(l)[(subject, topic) := access]
  {
    var l' := WithAcl(l, subject, l.users[subject].acl[topic := access]);
    var expected := Entries(l)[(subject, topic) := access];
    forall k ensures SameAt(Entries(l'), expected, k) {
      EntryAt(l, k);
      EntryAt(l', k);
    }
    SameEverywhere(Entries(l'), expected);
  }

  lemma PutRuleFacts(l: Ledger, subject: Bytes, topic: Bytes, access: int)
    ensures var (l', r) := AfterPutRule(l, subject, topic, access); RulePut(l, l', r, subject, topic, access)
  {
    if subject in l.users {
      EntriesWith(l, subject, topic, access);
    }
  }

  lemma EntriesWithout(l: Ledger, subject: Bytes, topic: Bytes)
    requires subject in l.users && topic in l.users[subject].acl
    ensures Entries(WithAcl(l, subject, l.users[subject].acl - {topic})) == Entries(l) - {(subject, topic)}
  {
    var l' := WithAcl(l, subject, l.users[subject].acl - {topic});
    var expected := Entries(l) - {(subject, topic)};
    forall k ensures SameAt(Entries(l'), expected, k) {
      EntryAt(l, k);
      EntryAt(l', k);
    }
    SameEverywhere(Entries(l'), expected);
  }

  lemma DeleteRuleFacts(l: Ledger, id: Bytes)
    ensures var (l', err) := AfterDeleteRule(l, id); RuleDeleted(l, l', err, id)
  {
    var target := DecodeId(id);
    if target.Some? {
      EntryAt(l, target.value);
      if target.value in Entries(l) {
        EntriesWithout(l, target.value.0, target.value.1);
      }
    }
  }

  /**
   * The id of a stored rule deletes that rule and nothing else, exactly when the subject is free of
   * the separator byte.
   */
  lemma DeleteByIdIff(l: Ledger, subject: Bytes, topic: Bytes)
    requires (subject, topic) in Entries(l)
    ensures Entries(AfterDeleteRule(l, EncodeId(subject, topic)).0) == Entries(l) - {(subject, topic)} <==>
            SEPARATOR !in subject
  {
    var id := EncodeId(subject, topic);
    IdRoundTripIff(subject, topic);
    DeleteRuleFacts(l, id);
    var l' := AfterDeleteRule(l, id).0;
    if SEPARATOR in subject {
      assert (subject, topic) in Entries(l');
    }
  }

  /** Putting a rule that was not there and taking it out again gives the same ledger; an old access is lost. */
  lemma PutThenTaken(l: Ledger, subject: Bytes, topic: Bytes, access: int)
    requires subject in l.users
    ensures var put := WithAcl(l, subject, l.users[subject].acl[topic := access]);
            WithAcl(put, subject, put.users[subject].acl - {topic}) == l <==> (subject, topic) !in Entries(l)
  {
    var put := WithAcl(l, subject, l.users[subject].acl[topic := access]);
    var l' := WithAcl(put, subject, put.users[subject].acl - {topic});
    EntryAt(l, (subject, topic));
    if topic !in l.users[subject].acl {
      assert l'.users[subject].acl == l.users[subject].acl;
      assert l'.users == l.users;
    }
  }

  /** The id of a put rule removes it again, which restores the ledger exactly when the rule was new. */
  lemma PutThenDelete(l: Ledger, subject: Bytes, topic: Bytes, access: int)
    requires subject != [] && topic != [] && subject in l.users && SEPARATOR !in subject
    ensures var (l1, r) := AfterPutRule(l, subject, topic, access);
            && r.Ok?
            && var (l2, err) := AfterDeleteRule(l1, r.value);
            && err == None && OnlyRulesOf(l, l2, subject) && Entries(l2) == Entries(l) - {(subject, topic)}
            && (l2 == l <==> (subject, topic) !in Entries(l))
  {
    var (l1, r) := AfterPutRule(l, subject, topic, access);
    IdRoundTripIff(subject, topic);
    PutRuleFacts(l, subject, topic, access);
    DeleteRuleFacts(l1, r.value);
    assert Entries(l)[(subject, topic) := access] - {(subject, topic)} == Entries(l) - {(subject, topic)};
    PutThenTaken(l, subject, topic, access);
  }

  /** A subject with a separator byte shares its ids with the subject before that byte. */
  lemma SharedId(p: Bytes, q: Bytes, topic: Bytes)
    requires SEPARATOR !in p
    ensures EncodeId(p + [SEPARATOR] + q, topic) == EncodeId(p, q + [SEPARATOR] + topic)
    ensures DecodeId(EncodeId(p + [SEPARATOR] + q, topic)) == Some((p, q + [SEPARATOR] + topic))
  {
    assert p + [SEPARATOR] + q + [SEPARATOR] + topic == p + [SEPARATOR] + (q + [SEPARATOR] + topic);
    IdRoundTripIff(p, q + [SEPARATOR] + topic);
  }

  /**
   * Such a subject is accepted as a user and for a rule, and deleting that rule by the id returned
   * for it deletes the other user's rule instead.
   */
  lemma WrongRuleIsDeleted(l: Ledger, p: Bytes, q: Bytes, topic: Bytes, access: int, password: Bytes, hashed: Bytes)
    requires SEPARATOR !in p && topic != [] && password != []
    requires (p, q + [SEPARATOR] + topic) in Entries(l)
    ensures var subject := p + [SEPARATOR] + q;
            var (l1, err) := AfterPutUser(l, subject, true, password, hashed);
            var (l2, r) := AfterPutRule(l1, subject, topic, access);
            && err == None && r.Ok?
            && var (l3, err3) := AfterDeleteRule(l2, r.value);
            && err3 == None && (subject, topic) in Entries(l3)
            && Entries(l3) == Entries(l)[(subject, topic) := access] - {(p, q + [SEPARATOR] + topic)}
  {
    var subject := p + [SEPARATOR] + q;
    assert subject[|p|] == SEPARATOR;
    var l1 := AfterPutUser(l, subject, true, password, hashed).0;
    var (l2, r) := AfterPutRule(l1, subject, topic, access);
    PutUserFacts(l, subject, true, password, hashed);
    PutRuleFacts(l1, subject, topic, access);
    SharedId(p, q, topic);
    assert |subject| > |p|;
    DeleteRuleFacts(l2, r.value);
  }

  // ----- Runs of calls -----

  datatype Account = Account(password: Bytes, allow: bool)

  /** What the dashboard shows: the users, and the plain map of rules. */
  datatype Table = Table(accounts: map<Bytes, Account>, rules: map<(Bytes, Bytes), int>)

  ghost function View(l: Ledger): Table {
    Table(map s | s in l.users :: Account(l.users[s].password, !l.users[s].disallow), Entries(l))
  }

  /** A request to the backend. `DropRule` deletes the rule shown for a subject and a topic, by the id shown for it. */
  datatype Call =
    | PutUser(subject: Bytes, allow: bool, password: Bytes)
    | DeleteUser(subject: Bytes)
    | PutRule(subject: Bytes, topic: Bytes, access: int)
    | DeleteRule(id: Bytes)
    | DropRule(subject: Bytes, topic: Bytes)

  function Called(l: Ledger, hash: Bytes -> Bytes, c: Call): Ledger {
    match c
    case PutUser(s, allow, password) => AfterPutUser(l, s, allow, password, hash(password)).0
    case DeleteUser(s) => AfterDeleteUser(l, s).0
    case PutRule(s, t, access) => AfterPutRule(l, s, t, access).0
    case DeleteRule(id) => AfterDeleteRule(l, id).0
    case DropRule(s, t) => AfterDeleteRule(l, EncodeId(s, t)).0
  }

  function CalledAll(l: Ledger, hash: Bytes -> Bytes, calls: seq<Call>): Ledger {
    if calls == [] then l else Called(CalledAll(l, hash, calls[..|calls| - 1]), hash, calls[|calls| - 1])
  }

  /** What the same request means for the table. */
  ghost function Meant(t: Table, hash: Bytes -> Bytes, c: Call): Table {
    match c
    case PutUser(s, allow, password) =>
      if s == [] || (s !in t.accounts && password == []) then t
      else
        var stored := if password != [] then hash(password) else t.accounts[s].password;
        t.(accounts := t.accounts[s := Account(stored, allow)])
    case DeleteUser(s) => Table(t.accounts - {s}, map k | k in t.rules && k.0 != s :: t.rules[k])
    case PutRule(s, topic, access) =>
      if s == [] || topic == [] || s !in t.accounts then t else t.(rules := t.rules[(s, topic) := access])
    case DeleteRule(id) => if DecodeId(id).None? then t else t.(rules := t.rules - {DecodeId(id).value})
    case DropRule(s, topic) => t.(rules := t.rules - {(s, topic)})
  }

  ghost function MeantAll(t: Table, hash: Bytes -> Bytes, calls: seq<Call>): Table {
    if calls == [] then t else Meant(MeantAll(t, hash, calls[..|calls| - 1]), hash, calls[|calls| - 1])
  }

  ghost predicate DropsOnly(calls: seq<Call>, subjects: iset<Bytes>) {
    forall i :: 0 <= i < |calls| && calls[i].DropRule? ==> calls[i].subject in subjects
  }

  lemma RulesKeepAccounts(l: Ledger, l': Ledger, subject: Bytes)
    requires OnlyRulesOf(l, l', subject)
    ensures View(l').accounts == View(l).accounts
  {
  }

  lemma DeleteIsMeant(l: Ledger, id: Bytes)
    ensures var l' := AfterDeleteRule(l, id).0;
            && View(l').accounts == View(l).accounts
            && Entries(l') == if DecodeId(id).None? then Entries(l) else Entries(l) - {DecodeId(id).value}
  {
    DeleteRuleFacts(l, id);
    var (l', err) := AfterDeleteRule(l, id);
    if err == None {
      RulesKeepAccounts(l, l', DecodeId(id).value.0);
    } else if DecodeId(id).Some? {
      assert Entries(l) - {DecodeId(id).value} == Entries(l);
    }
  }

  lemma PutRuleIsMeant(l: Ledger, hash: Bytes -> Bytes, subject: Bytes, topic: Bytes, access: int)
    ensures View(AfterPutRule(l, subject, topic, access).0) == Meant(View(l), hash, PutRule(subject, topic, access))
  {
    PutRuleFacts(l, subject, topic, access);
    var (l', r) := AfterPutRule(l, subject, topic, access);
    if r.Ok? {
      RulesKeepAccounts(l, l', subject);
    }
  }

  lemma AccountsWith(l: Ledger, subject: Bytes, rule: UserRule)
    ensures View(l.(users := l.users[subject := rule])).accounts ==
            View(l).accounts[subject := Account(rule.password, !rule.disallow)]
  {
  }

  lemma PutUserIsMeant(l: Ledger, hash: Bytes -> Bytes, subject: Bytes, allow: bool, password: Bytes)
    ensures View(AfterPutUser(l, subject, allow, password, hash(password)).0) ==
            Meant(View(l), hash, PutUser(subject, allow, password))
  {
    PutUserFacts(l, subject, allow, password, hash(password));
    var (l', err) := AfterPutUser(l, subject, allow, password, hash(password));
    if err == None {
      AccountsWith(l, subject, l'.users[subject]);
    }
  }

  lemma DeleteUserIsMeant(l: Ledger, hash: Bytes -> Bytes, subject: Bytes)
    ensures View(AfterDeleteUser(l, subject).0) == Meant(View(l), hash, DeleteUser(subject))
  {
    DeleteUserFacts(l, subject);
    assert View(AfterDeleteUser(l, subject).0).accounts == View(l).accounts - {subject};
  }

  lemma CallIsMeant(l: Ledger, hash: Bytes -> Bytes, c: Call)
    requires c.DropRule? ==> SEPARATOR !in c.subject
    ensures View(Called(l, hash, c)) == Meant(View(l), hash, c)
  {
    match c
    case PutRule(s, t, access) =>
      PutRuleIsMeant(l, hash, s, t, access);
    case DeleteRule(id) =>
      DeleteIsMeant(l, id);
    case DropRule(s, t) =>
      IdRoundTripIff(s, t);
      DeleteIsMeant(l, EncodeId(s, t));
    case PutUser(s, allow, password) =>
      PutUserIsMeant(l, hash, s, allow, password);
    case DeleteUser(s) =>
      DeleteUserIsMeant(l, hash, s);
  }

  lemma {:induction false} CallsAreMeant(l: Ledger, hash: Bytes -> Bytes, calls: seq<Call>)
    requires forall i :: 0 <= i < |calls| && calls[i].DropRule? ==> SEPARATOR !in calls[i].subject
    ensures View(CalledAll(l, hash, calls)) == MeantAll(View(l), hash, calls)
  {
    if calls == [] {
    } else {
      CallsAreMeant(l, hash, calls[..|calls| - 1]);
      CallIsMeant(CalledAll(l, hash, calls[..|calls| - 1]), hash, calls[|calls| - 1]);
    }
  }

  lemma CalledStep(l: Ledger, hash: Bytes -> Bytes, calls: seq<Call>, c: Call)
    ensures CalledAll(l, hash, calls + [c]) == Called(CalledAll(l, hash, calls), hash, c)
  {
    assert (calls + [c])[..|calls|] == calls;
  }

  lemma DropIsMeant(t: Table, hash: Bytes -> Bytes, calls: seq<Call>, subject: Bytes, topic: Bytes)
    ensures (subject, topic) !in MeantAll(t, hash, calls + [DropRule(subject, topic)]).rules
  {
    assert (calls + [DropRule(subject, topic)])[..|calls|] == calls;
  }

  lemma RuleOfPutUser(l: Ledger, hashed: Bytes, subject: Bytes, topic: Bytes)
    requires subject != [] && topic != []
    ensures var l' := AfterPutUser(l, subject, true, topic, hashed).0;
            (subject, topic) in Entries(AfterPutRule(l', subject, topic, 0).0)
  {
    PutUserFacts(l, subject, true, topic, hashed);
    PutRuleFacts(AfterPutUser(l, subject, true, topic, hashed).0, subject, topic, 0);
  }

  /** A user with one rule more. */
  lemma PutUserAndRule(l: Ledger, hash: Bytes -> Bytes, subject: Bytes, topic: Bytes) returns (calls: seq<Call>)
    requires subject != [] && topic != []
    ensures forall i :: 0 <= i < |calls| ==> !calls[i].DropRule?
    ensures (subject, topic) in Entries(CalledAll(l, hash, calls))
  {
    var user, rule := PutUser(subject, true, topic), PutRule(subject, topic, 0);
    CalledStep(l, hash, [], user);
    CalledStep(l, hash, [] + [user], rule);
    calls := [] + [user] + [rule];
    RuleOfPutUser(l, hash(topic), subject, topic);
  }

  /** Dropping a rule whose subject has a separator misses it. */
  lemma DropMisses(l: Ledger, subject: Bytes, topic: Bytes)
    requires SEPARATOR in subject && (subject, topic) in Entries(l)
    ensures (subject, topic) in Entries(AfterDeleteRule(l, EncodeId(subject, topic)).0)
  {
    IdRoundTripIff(subject, topic);
    DeleteRuleFacts(l, EncodeId(subject, topic));
  }

  lemma CalledDrop(l: Ledger, hash: Bytes -> Bytes, calls: seq<Call>, subject: Bytes, topic: Bytes)
    ensures CalledAll(l, hash, calls + [DropRule(subject, topic)]) ==
            AfterDeleteRule(CalledAll(l, hash, calls), EncodeId(subject, topic)).0
  {
    CalledStep(l, hash, calls, DropRule(subject, topic));
  }

  lemma DropStays(l: Ledger, hash: Bytes -> Bytes, calls: seq<Call>, subject: Bytes, topic: Bytes)
    requires SEPARATOR in subject && (subject, topic) in Entries(CalledAll(l, hash, calls))
    ensures (subject, topic) in Entries(CalledAll(l, hash, calls + [DropRule(subject, topic)]))
  {
    DropMisses(CalledAll(l, hash, calls), subject, topic);
    CalledDrop(l, hash, calls, subject, topic);
  }

  /** With a separator in the subject, a rule that is put and dropped stays. */
  lemma DroppedRuleStays(l: Ledger, hash: Bytes -> Bytes, subject: Bytes) returns (calls: seq<Call>)
    requires SEPARATOR in subject
    ensures DropsOnly(calls, iset{subject})
    ensures (subject, subject) in Entries(CalledAll(l, hash, calls))
    ensures (subject, subject) !in MeantAll(View(l), hash, calls).rules
  {
    var put := PutUserAndRule(l, hash, subject, subject);
    calls := put + [DropRule(subject, subject)];
    DropStays(l, hash, put, subject, subject);
    DropIsMeant(View(l), hash, put, subject, subject);
  }

  ghost predicate AllRunsMeant(l: Ledger, hash: Bytes -> Bytes, subjects: iset<Bytes>) {
    forall calls :: DropsOnly(calls, subjects) ==> View(CalledAll(l, hash, calls)) == MeantAll(View(l), hash, calls)
  }

  /**
   * Every run of calls has the meant effect, with rules dropped for the given subjects, exactly when
   * none of these subjects has a separator byte.
   */
  lemma RunsAreMeantIff(l: Ledger, hash: Bytes -> Bytes, subjects: iset<Bytes>)
    ensures AllRunsMeant(l, hash, subjects) <==> forall s :: s in subjects ==> SEPARATOR !in s
  {
    if forall s :: s in subjects ==> SEPARATOR !in s {
      forall calls | DropsOnly(calls, subjects)
        ensures View(CalledAll(l, hash, calls)) == MeantAll(View(l), hash, calls)
      {
        CallsAreMeant(l, hash, calls);
      }
    } else {
      var s :| s in subjects && SEPARATOR in s;
      var calls := DroppedRuleStays(l, hash, s);
      assert DropsOnly(calls, subjects);
      assert View(CalledAll(l, hash, calls)).rules != MeantAll(View(l), hash, calls).rules;
    }
  }

  // ----- The backend -----

  datatype AclRule = AclRule(id: Bytes, subject: Bytes, topic: Bytes, access: int)

  /** A Go string compares by its bytes. */
  function Chars(b: Bytes): (s: string)
    ensures |s| == |b| && forall i :: 0 <= i < |b| ==> s[i] as int == b[i]
  {
    seq(|b|, i requires 0 <= i < |b| => b[i] as char)
  }

  function RuleKey(r: AclRule): Key {
    [Chars(r.subject), Chars(r.topic)]
  }

  lemma RuleKeyInjective(a: AclRule, b: AclRule)
    requires RuleKey(a) == RuleKey(b)
    ensures a.subject == b.subject && a.topic == b.topic
  {
    assert RuleKey(a)[0] == RuleKey(b)[0] && RuleKey(a)[1] == RuleKey(b)[1];
    assert forall i :: 0 <= i < |a.subject| ==> a.subject[i] == Chars(a.subject)[i] as int;
    assert forall i :: 0 <= i < |a.topic| ==> a.topic[i] == Chars(a.topic)[i] as int;
  }

  predicate HasRule(rules: seq<AclRule>, s: Bytes, t: Bytes) {
    exists i :: 0 <= i < |rules| && rules[i].subject == s && rules[i].topic == t
  }

  /** The row shown for a stored rule. */
  predicate Shows(r: AclRule, l: Ledger) {
    && r.subject in l.users && r.topic in l.users[r.subject].acl
    && r == AclRule(EncodeId(r.subject, r.topic), r.subject, r.topic, l.users[r.subject].acl[r.topic])
  }

  ghost predicate DistinctRules(rules: seq<AclRule>) {
    forall i, j :: 0 <= i < j < |rules| ==> !(rules[i].subject == rules[j].subject && rules[i].topic == rules[j].topic)
  }

  /** Exactly the stored rules of the subject, or of everyone, each once and in order. */
  ghost predicate IsRuleList(rules: seq<AclRule>, l: Ledger, subject: Bytes) {
    && StrictlySortedBy(rules, RuleKey)
    && (forall i :: 0 <= i < |rules| ==> Shows(rules[i], l) && (subject == [] || rules[i].subject == subject))
    && (forall s, t :: s in l.users && t in l.users[s].acl && (subject == [] || s == subject) ==> HasRule(rules, s, t))
  }

  lemma HasRuleAppend(rules: seq<AclRule>, r: AclRule, s: Bytes, t: Bytes)
    ensures HasRule(rules + [r], s, t) <==> HasRule(rules, s, t) || (r.subject == s && r.topic == t)
  {
    if HasRule(rules, s, t) {
      var i :| 0 <= i < |rules| && rules[i].subject == s && rules[i].topic == t;
      assert (rules + [r])[i] == rules[i];
    }
    if r.subject == s && r.topic == t {
      assert (rules + [r])[|rules|] == r;
    }
  }

  /** The closure `collect` in `Rules`: the rules of one user, in any order. */
  method Collect(l: Ledger, s: Bytes, out: seq<AclRule>) returns (out': seq<AclRule>)
    requires s in l.users && DistinctRules(out)
    requires forall i :: 0 <= i < |out| ==> Shows(out[i], l) && out[i].subject != s
    ensures DistinctRules(out') && out <= out'
    ensures forall i :: 0 <= i < |out'| ==> Shows(out'[i], l) && (out'[i].subject == s || out'[i] in out)
    ensures forall t :: t in l.users[s].acl ==> HasRule(out', s, t)
  {
    out' := out;
    var acl := l.users[s].acl;
    var todo := acl.Keys;
    while todo != {}
      invariant todo <= acl.Keys && out <= out' && DistinctRules(out')
      invariant forall i :: 0 <= i < |out'| ==>
        && Shows(out'[i], l)
        && ((out'[i].subject == s && out'[i].topic !in todo) || (out'[i].subject != s && out'[i] in out))
      invariant forall t :: t in acl && t !in todo ==> HasRule(out', s, t)
      decreases |todo|
    {
      var topic :| topic in todo;
      var r := AclRule(EncodeId(s, topic), s, topic, acl[topic]);
      forall t | t in acl && t !in todo - {topic} ensures HasRule(out' + [r], s, t) {
        HasRuleAppend(out', r, s, t);
      }
      out', todo := out' + [r], todo - {topic};
    }
  }

  /** The ledger file; `load` and `save` read and replace the field. */
  class FileBackend {
    var ledger: Ledger
    const hash: Bytes -> Bytes

    constructor (hash: Bytes -> Bytes)
      ensures ledger == Ledger(map[], [], []) && this.hash == hash
    {
      ledger := Ledger(map[], [], []);
      this.hash := hash;
    }

    method PutUser(subject: Bytes, allow: bool, password: Bytes) returns (err: Option<Error>)
      modifies this
      ensures UserPut(old(ledger), ledger, err, subject, allow, password, hash(password))
      ensures (ledger, err) == AfterPutUser(old(ledger), subject, allow, password, hash(password))
    {
      PutUserFacts(ledger, subject, allow, password, hash(password));
      if subject == [] {
        return Some(SubjectRequired);
      }
      var known := subject in ledger.users;
      if !known && password == [] {
        return Some(PasswordRequired);
      }
      var rule := if known then ledger.users[subject] else UserRule([], [], map[], false);
      rule := rule.(username := subject, disallow := !allow);
      if password != [] {
        rule := rule.(password := hash(password));
      }
      ledger := ledger.(users := ledger.users[subject := rule]);
      return None;
    }

    method DeleteUser(subject: Bytes) returns (err: Option<Error>)
      modifies this
      ensures UserDeleted(old(ledger), ledger, err, subject)
      ensures (ledger, err) == AfterDeleteUser(old(ledger), subject)
    {
      DeleteUserFacts(ledger, subject);
      if subject !in ledger.users {
        return Some(NotFound);
      }
      ledger := ledger.(users := ledger.users - {subject});
      return None;
    }

    method PutRule(subject: Bytes, topic: Bytes, access: int) returns (r: Result<Bytes, Error>)
      modifies this
      ensures RulePut(old(ledger), ledger, r, subject, topic, access)
      ensures (ledger, r) == AfterPutRule(old(ledger), subject, topic, access)
    {
      PutRuleFacts(ledger, subject, topic, access);
      if subject == [] || topic == [] {
        return Err(TopicRequired);
      }
      if subject !in ledger.users {
        return Err(NotFound);
      }
      var user := ledger.users[subject];
      user := user.(acl := user.acl[topic := access]);
      ledger := ledger.(users := ledger.users[subject := user]);
      return Ok(EncodeId(subject, topic));
    }

    method DeleteRule(id: Bytes) returns (err: Option<Error>)
      modifies this
      ensures RuleDeleted(old(ledger), ledger, err, id)
      ensures (ledger, err) == AfterDeleteRule(old(ledger), id)
    {
      DeleteRuleFacts(ledger, id);
      var target := DecodeId(id);
      if target.None? {
        return Some(InvalidId);
      }
      var (subject, topic) := target.value;
      if subject !in ledger.users || topic !in ledger.users[subject].acl {
        return Some(NotFound);
      }
      var user := ledger.users[subject];
      user := user.(acl := user.acl - {topic});
      ledger := ledger.(users := ledger.users[subject := user]);
      return None;
    }

    method Rules(subject: Bytes) returns (rules: seq<AclRule>)
      ensures IsRuleList(rules, ledger, subject) && InStrictOrder(rules, RuleKey)
    {
      rules := ListRules(ledger, subject);
    }
  }

  /** The rules of the users in `wanted`, in any order. */
  method CollectAll(l: Ledger, wanted: set<Bytes>) returns (out: seq<AclRule>)
    requires wanted <= l.users.Keys
    ensures DistinctRules(out)
    ensures forall i :: 0 <= i < |out| ==> Shows(out[i], l) && out[i].subject in wanted
    ensures forall s :: s in wanted ==> HasRulesOf(out, l, s)
  {
    out := [];
    var todo := wanted;
    while todo != {}
      invariant todo <= wanted && DistinctRules(out)
      invariant forall i :: 0 <= i < |out| ==> Shows(out[i], l) && out[i].subject in wanted - todo
      invariant forall s :: s in wanted - todo ==> HasRulesOf(out, l, s)
      decreases |todo|
    {
      var s :| s in todo;
      var more := Collect(l, s, out);
      forall u | u in wanted - (todo - {s}) ensures HasRulesOf(more, l, u) {
        if u != s {
          MoreRules(out, more, l, u);
        }
      }
      out, todo := more, todo - {s};
    }
  }

  ghost predicate HasRulesOf(rules: seq<AclRule>, l: Ledger, s: Bytes)
    requires s in l.users
  {
    forall t :: t in l.users[s].acl ==> HasRule(rules, s, t)
  }

  lemma MoreRules(out: seq<AclRule>, more: seq<AclRule>, l: Ledger, s: Bytes)
    requires s in l.users && HasRulesOf(out, l, s) && (forall r :: r in out ==> r in more)
    ensures HasRulesOf(more, l, s)
  {
    forall t | t in l.users[s].acl ensures HasRule(more, s, t) {
      assert HasRule(out, s, t);
      var i :| 0 <= i < |out| && out[i].subject == s && out[i].topic == t;
      assert out[i] in more;
    }
  }

  /** The loops of `Rules`: all users, or the one asked for. */
  method ListRules(l: Ledger, subject: Bytes) returns (rules: seq<AclRule>)
    ensures IsRuleList(rules, l, subject) && InStrictOrder(rules, RuleKey)
  {
    var wanted := if subject == [] then l.users.Keys else if subject in l.users then {subject} else {};
    var out := CollectAll(l, wanted);
    rules := SortRules(out);
    forall i | 0 <= i < |rules| ensures Shows(rules[i], l) && (subject == [] || rules[i].subject == subject) {
      assert rules[i] in rules && rules[i] in out;
    }
    forall s, t | s in l.users && t in l.users[s].acl && (subject == [] || s == subject) ensures HasRule(rules, s, t) {
      assert s in wanted;
      MoreRules(out, rules, l, s);
    }
  }

  method SortRules(out: seq<AclRule>) returns (rules: seq<AclRule>)
    requires DistinctRules(out)
    ensures StrictlySortedBy(rules, RuleKey) && InStrictOrder(rules, RuleKey)
    ensures forall r :: r in rules <==> r in out
  {
    rules := SortSlice(out, RuleKey);
    forall i, j | 0 <= i < j < |out| ensures RuleKey(out[i]) != RuleKey(out[j]) {
      if RuleKey(out[i]) == RuleKey(out[j]) {
        RuleKeyInjective(out[i], out[j]);
      }
    }
    PermutationKeepsDistinct(out, rules, RuleKey);
    SortedAndDistinctIsStrict(rules, RuleKey);
    StrictlySortedIsInOrder(rules, RuleKey);
  }

  /** The id on a listed row deletes that row, exactly when the subject is free of the separator byte. */
  lemma ListedIdDeletesIff(rules: seq<AclRule>, l: Ledger, subject: Bytes, i: nat)
    requires IsRuleList(rules, l, subject) && i < |rules|
    ensures Entries(AfterDeleteRule(l, rules[i].id).0) == Entries(l) - {(rules[i].subject, rules[i].topic)} <==>
            SEPARATOR !in rules[i].subject
  {
    assert Shows(rules[i], l);
    DeleteByIdIff(l, rules[i].subject, rules[i].topic);
  }
}
