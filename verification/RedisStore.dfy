/**
 * `RedisStore` under concurrency: any number of clients on one Redis hash, interleaved between
 * their Redis commands. `mutate` runs in WATCH/MULTI/EXEC; creation, seeding, deletion and the
 * last-admin guards do not.
 */
module RedisStore {
  import opened Credentials
  import opened Results

  /**
   * Where a client is. `version` counts the writes to the hash and is what WATCH remembers; `since`
   * is the length of the log when the creating client looked, for its name or, when seeding, for anybody.
   */
  datatype Phase =
    | Idle
    | Watching(name: string, edit: Edit, version: nat)
    | Read(name: string, edit: Edit, version: nat, user: User)
    | Creating(name: string, hash: string, role: Role, now: int, since: nat, seeding: bool)
    | Deleting(name: string)
    | Toggling(name: string, role: Role)

  datatype State = State(users: map<string, User>, version: nat, clients: seq<Phase>, log: seq<Commit>)

  datatype Action =
    | Watch(k: nat, name: string, edit: Edit) | HGet(k: nat) | Exec(k: nat)
    | HExists(k: nat, name: string, hash: string, role: Role, now: int)
    | HLen(k: nat, name: string, hash: string, now: int) | HSet(k: nat)
    | ListToDelete(k: nat, name: string) | HDel(k: nat)
    | ListToToggle(k: nat, name: string) | WatchToggled(k: nat)

  function Init(users: map<string, User>, clients: nat): State {
    State(users, 0, seq(clients, _ => Idle), [])
  }

  ghost predicate SomeOtherAdmin(users: map<string, User>, name: string) {
    exists n :: n in users && n != name && users[n].role == Admin
  }

  /** What the guards of deletion and demotion refuse. */
  ghost predicate LastAdmin(users: map<string, User>, name: string) {
    name in users && users[name].role == Admin && !SomeOtherAdmin(users, name)
  }

  function Moved(s: State, k: nat, p: Phase): State
    requires k < |s.clients|
  {
    s.(clients := s.clients[k := p])
  }

  function Written(s: State, users: map<string, User>, c: Commit): State {
    s.(users := users, version := s.version + 1, log := s.log + [c])
  }

  function NewRecord(p: Phase): User
    requires p.Creating?
  {
    NewUser(p.name, p.hash, p.role, p.now)
  }

  /** EXEC writes only if nobody wrote the hash since WATCH. */
  function Executed(s: State, p: Phase): State
    requires p.Read?
  {
    if s.version != p.version then s
    else Written(s, s.users[p.name := Edited(p.user, p.edit)], Mutated(p.name, p.edit))
  }

  /** One Redis command of one client; a command that is not next changes nothing. */
  ghost function Next(s: State, a: Action): State {
    if a.k >= |s.clients| then s
    else
      var p := s.clients[a.k];
      match a
      case Watch(k, name, edit) => if p.Idle? then Moved(s, k, Watching(name, edit, s.version)) else s
      case HGet(k) =>
        if !p.Watching? then s
        else if p.name !in s.users then Moved(s, k, Idle)
        else Moved(s, k, Read(p.name, p.edit, p.version, s.users[p.name]))
      case Exec(k) => if p.Read? then Moved(Executed(s, p), k, Idle) else s
      case HExists(k, name, hash, role, now) =>
        if p.Idle? && name !in s.users then
          Moved(s, k, Creating(name, hash, role, now, |s.log|, false))
        else s
      case HLen(k, name, hash, now) =>
        if p.Idle? && s.users == map[] then
          Moved(s, k, Creating(name, hash, Admin, now, |s.log|, true))
        else s
      case HSet(k) =>
        if p.Creating? then
          var users := s.users[p.name := NewRecord(p)];
          Moved(Written(s, users, Created(p.name, p.hash, p.role, p.now)), k, Idle)
        else s
      case ListToDelete(k, name) =>
        if p.Idle? && name in s.users && !LastAdmin(s.users, name) then Moved(s, k, Deleting(name)) else s
      case HDel(k) =>
        if !p.Deleting? then s
        else if p.name !in s.users then Moved(s, k, Idle)
        else Moved(Written(s, s.users - {p.name}, Deleted(p.name)), k, Idle)
      case ListToToggle(k, name) =>
        if p.Idle? && name != "" && name in s.users && !LastAdmin(s.users, name) then
          Moved(s, k, Toggling(name, if s.users[name].role == Admin then Viewer else Admin))
        else s
      case WatchToggled(k) => if p.Toggling? then Moved(s, k, Watching(p.name, SetRole(p.role), s.version)) else s
  }

  ghost function Run(users: map<string, User>, clients: nat, actions: seq<Action>): State {
    if actions == [] then Init(users, clients)
    else Next(Run(users, clients, actions[..|actions| - 1]), actions[|actions| - 1])
  }

  /** A transaction that may still commit has read the current record. */
  ghost predicate Fresh(s: State, p: Phase) {
    && (p.Watching? || p.Read? ==> p.version <= s.version)
    && (p.Read? && p.version == s.version ==> p.name in s.users && s.users[p.name] == p.user)
  }

  function First(initial: map<string, User>, name: string): Option<User> {
    if name in initial then Some(initial[name]) else None
  }

  /** The users in the hash are those created and not deleted, with the fields that the commits gave them. */
  ghost predicate AsCommitted(users: map<string, User>, initial: map<string, User>, log: seq<Commit>, name: string) {
    && (name in users <==> InUse(name in initial, log, name))
    && (name in users ==> FollowsLog(users[name], First(initial, name), log, name))
  }

  ghost predicate AllAsCommitted(users: map<string, User>, initial: map<string, User>, log: seq<Commit>) {
    forall name :: AsCommitted(users, initial, log, name)
  }

  ghost predicate Inv(s: State, initial: map<string, User>) {
    && (forall k :: 0 <= k < |s.clients| ==> Fresh(s, s.clients[k]))
    && AllAsCommitted(s.users, initial, s.log) && s.version == |s.log|
  }

  /** A write makes every open transaction stale. */
  lemma WrittenKeepsFresh(s: State, users: map<string, User>, c: Commit, p: Phase)
    requires Fresh(s, p)
    ensures Fresh(Written(s, users, c), p)
  {
  }

  /** The users after a commit. */
  ghost predicate Commits(users: map<string, User>, users': map<string, User>, c: Commit) {
    && (forall n :: n != c.name ==> (n in users' <==> n in users) && (n in users ==> users'[n] == users[n]))
    && match c
       case Mutated(n, e) => n in users && n in users' && users'[n] == Edited(users[n], e)
       case Created(n, hash, role, now) => n in users' && users'[n] == NewUser(n, hash, role, now)
       case Deleted(n) => n !in users'
  }

  lemma CommitKeepsRecord(users: map<string, User>, users': map<string, User>, initial: map<string, User>,
                          log: seq<Commit>, c: Commit, name: string)
    requires AsCommitted(users, initial, log, name) && Commits(users, users', c)
    ensures AsCommitted(users', initial, log + [c], name)
  {
    InUseStep(name in initial, log, name, c);
    if c.name != name {
      if name in users {
        FollowsOther(users[name], First(initial, name), log, name, c);
      }
    } else {
      match c
      case Mutated(_, e) =>
        FollowsEdited(users[name], First(initial, name), log, name, e);
      case Created(_, hash, role, now) =>
        FollowsCreated(First(initial, name), log, name, hash, role, now);
      case Deleted(_) =>
    }
  }

  lemma MovedKeepsInv(s: State, initial: map<string, User>, k: nat, p: Phase)
    requires Inv(s, initial) && k < |s.clients| && Fresh(s, p)
    ensures Inv(Moved(s, k, p), initial)
  {
  }

  lemma WrittenKeepsInv(s: State, initial: map<string, User>, users: map<string, User>, c: Commit)
    requires Inv(s, initial) && Commits(s.users, users, c)
    ensures Inv(Written(s, users, c), initial)
  {
    forall k | 0 <= k < |s.clients| ensures Fresh(Written(s, users, c), s.clients[k]) {
      WrittenKeepsFresh(s, users, c, s.clients[k]);
    }
    forall name ensures AsCommitted(users, initial, s.log + [c], name) {
      CommitKeepsRecord(s.users, users, initial, s.log, c, name);
    }
  }

  lemma NextKeepsInv(s: State, initial: map<string, User>, a: Action)
    requires Inv(s, initial)
    ensures Inv(Next(s, a), initial)
  {
    if a.k < |s.clients| && Next(s, a) != s {
      var p := s.clients[a.k];
      assert Fresh(s, p);
      match a
      case Exec(k) =>
        if s.version == p.version {
          WrittenKeepsInv(s, initial, s.users[p.name := Edited(p.user, p.edit)], Mutated(p.name, p.edit));
        }
        MovedKeepsInv(Executed(s, p), initial, k, Idle);
      case HSet(k) =>
        var users, c := s.users[p.name := NewRecord(p)], Created(p.name, p.hash, p.role, p.now);
        WrittenKeepsInv(s, initial, users, c);
        MovedKeepsInv(Written(s, users, c), initial, k, Idle);
      case HDel(k) =>
        if p.name in s.users {
          WrittenKeepsInv(s, initial, s.users - {p.name}, Deleted(p.name));
          MovedKeepsInv(Written(s, s.users - {p.name}, Deleted(p.name)), initial, k, Idle);
        } else {
          MovedKeepsInv(s, initial, k, Idle);
        }
      case _ =>
        MovedKeepsInv(s, initial, a.k, Next(s, a).clients[a.k]);
    }
  }

  lemma InitIsAsCommitted(users: map<string, User>, name: string)
    ensures AsCommitted(users, users, [], name)
  {
  }

  lemma {:induction false} RunKeepsInv(users: map<string, User>, clients: nat, actions: seq<Action>)
    ensures Inv(Run(users, clients, actions), users)
  {
    if actions == [] {
      forall name ensures AsCommitted(users, users, [], name) {
        InitIsAsCommitted(users, name);
      }
    } else {
      var before := actions[..|actions| - 1];
      RunKeepsInv(users, clients, before);
      NextKeepsInv(Run(users, clients, before), users, actions[|actions| - 1]);
    }
  }

  /**
   * In every interleaving, the users are those whose last creation or deletion was a creation, and every
   * field of a record is what the last commit that sets it made it.
   */
  lemma RecordsAreHistory(users: map<string, User>, clients: nat, actions: seq<Action>, name: string)
    ensures var s := Run(users, clients, actions);
            && (name in s.users <==> InUse(name in users, s.log, name))
            && (name in s.users ==> FollowsLog(s.users[name], First(users, name), s.log, name))
  {
    RunKeepsInv(users, clients, actions);
    assert AsCommitted(Run(users, clients, actions).users, users, Run(users, clients, actions).log, name);
  }

  /** In every interleaving, a user's failure count is the number of increments that committed. */
  lemma NoLostUpdate(users: map<string, User>, clients: nat, actions: seq<Action>, name: string)
    ensures var s := Run(users, clients, actions);
            var first := if name in users then users[name].failedAttempts else 0;
            name in s.users ==> s.users[name].failedAttempts == Failures(first, s.log, name)
  {
    RecordsAreHistory(users, clients, actions, name);
  }

  /**
   * In every interleaving, a `mutate` that commits applies its edit to the record as it is at that
   * moment and to nothing else; in particular it brings no deleted user back.
   */
  lemma CommitIsAtomic(users: map<string, User>, clients: nat, actions: seq<Action>, k: nat)
    requires var s := Run(users, clients, actions); k < |s.clients| && s.clients[k].Read?
    ensures var s := Run(users, clients, actions); var p, t := s.clients[k], Next(s, Exec(k));
            && t.users.Keys == s.users.Keys
            && (t.log == s.log ==> t.users == s.users)
            && (t.log != s.log ==> p.name in s.users && t.users == s.users[p.name := Edited(s.users[p.name], p.edit)])
  {
    RunKeepsInv(users, clients, actions);
    var s := Run(users, clients, actions);
    assert Fresh(s, s.clients[k]);
  }

  lemma RunStep(users: map<string, User>, clients: nat, actions: seq<Action>, a: Action)
    ensures Run(users, clients, actions + [a]) == Next(Run(users, clients, actions), a)
  {
    assert (actions + [a])[..|actions|] == actions;
  }

  /**
   * In every interleaving, WATCH remembers how much was committed, and EXEC commits exactly if nothing
   * was committed since.
   */
  lemma ExecCommitsIff(users: map<string, User>, clients: nat, actions: seq<Action>, k: nat, name: string, edit: Edit)
    requires k < |Run(users, clients, actions).clients|
    ensures var s := Run(users, clients, actions); var p := s.clients[k];
            && (p.Idle? ==> Next(s, Watch(k, name, edit)).clients[k] == Watching(name, edit, |s.log|))
            && (p.Read? && p.version == |s.log| ==> Next(s, Exec(k)).log == s.log + [Mutated(p.name, p.edit)])
            && (p.Read? && p.version != |s.log| ==> Next(s, Exec(k)).log == s.log)
  {
    RunKeepsInv(users, clients, actions);
  }

  /** What a client has begun it goes on with, whatever others committed; a busy client begins nothing. */
  lemma ClientsGoOn(s: State, a: Action)
    requires a.k < |s.clients|
    ensures var p, t := s.clients[a.k], Next(s, a); var q := t.clients[a.k];
            && (p.Watching? && a.HGet? ==>
                  && t.users == s.users
                  && q == if p.name in s.users then Read(p.name, p.edit, p.version, s.users[p.name]) else Idle)
            && (p.Read? && a.Exec? ==> q == Idle)
            && (p.Toggling? && a.WatchToggled? ==> q == Watching(p.name, SetRole(p.role), s.version))
            && (p.Deleting? && a.HDel? ==> q == Idle && t.users == s.users - {p.name})
            && (p.Creating? && a.HSet? ==> q == Idle && t.users == s.users[p.name := NewRecord(p)])
            && (!p.Idle? && (a.Watch? || a.HExists? || a.HLen? || a.ListToDelete? || a.ListToToggle?) ==> t == s)
  {
  }

  // ----- Requests that nobody interrupts -----

  /** WATCH, HGET, EXEC: the edit is committed if the user exists. */
  lemma MutateAlone(s: State, k: nat, name: string, edit: Edit)
    requires k < |s.clients| && s.clients[k].Idle?
    ensures var t := Next(Next(Next(s, Watch(k, name, edit)), HGet(k)), Exec(k));
            && t.clients == s.clients
            && (name in s.users ==>
                  && t.users == s.users[name := Edited(s.users[name], edit)]
                  && t.log == s.log + [Mutated(name, edit)])
            && (name !in s.users ==> t == s)
  {
    var a := Next(s, Watch(k, name, edit));
    assert a == s.(clients := s.clients[k := Watching(name, edit, s.version)]);
    var b := Next(a, HGet(k));
    if name in s.users {
      assert b == s.(clients := s.clients[k := Read(name, edit, s.version, s.users[name])]);
    }
    assert s.clients[k := Idle] == s.clients;
  }

  /** HEXISTS, HSET: a free name gets a new user who must change the password. */
  lemma CreateAlone(s: State, k: nat, name: string, hash: string, role: Role, now: int)
    requires k < |s.clients| && s.clients[k].Idle?
    ensures var t := Next(Next(s, HExists(k, name, hash, role, now)), HSet(k));
            && t.clients == s.clients
            && (name in s.users ==> t == s)
            && (name !in s.users ==>
                  && t.users == s.users[name := User(name, hash, role, true, now, 0, 0, now)]
                  && t.log == s.log + [Created(name, hash, role, now)])
  {
    assert s.clients[k := Idle] == s.clients;
  }

  /** HLEN, HSET: an empty store gets its admin. */
  lemma SeedAlone(s: State, k: nat, name: string, hash: string, now: int)
    requires k < |s.clients| && s.clients[k].Idle?
    ensures var t := Next(Next(s, HLen(k, name, hash, now)), HSet(k));
            && t.clients == s.clients
            && (s.users == map[] ==> var p := Next(s, HLen(k, name, hash, now)).clients[k]; p.Creating? && p.seeding)
            && (s.users != map[] ==> t == s)
            && (s.users == map[] ==> t.users == map[name := User(name, hash, Admin, true, now, 0, 0, now)])
  {
    assert s.clients[k := Idle] == s.clients;
  }

  /** Someone apart from this user is an admin, or this user is none. */
  ghost predicate MayGo(users: map<string, User>, name: string) {
    name in users && (users[name].role != Admin || exists n :: n in users && n != name && users[n].role == Admin)
  }

  /** HGETALL, HDEL: a user goes unless it is the last admin. */
  lemma DeleteAlone(s: State, k: nat, name: string)
    requires k < |s.clients| && s.clients[k].Idle?
    ensures var t := Next(Next(s, ListToDelete(k, name)), HDel(k));
            && t.clients == s.clients
            && t.users == (if MayGo(s.users, name) then s.users - {name} else s.users)
            && t.log == (if MayGo(s.users, name) then s.log + [Deleted(name)] else s.log)
  {
    assert s.clients[k := Idle] == s.clients;
  }

  /** HGETALL, WATCH, HGET, EXEC: an admin becomes a viewer, anybody else an admin, unless it is the last admin. */
  lemma ToggleAlone(s: State, k: nat, name: string)
    requires k < |s.clients| && s.clients[k].Idle?
    ensures var t := Next(Next(Next(Next(s, ListToToggle(k, name)), WatchToggled(k)), HGet(k)), Exec(k));
            && t.clients == s.clients
            && (name != "" && MayGo(s.users, name) ==>
                  var u := s.users[name];
                  t.users == s.users[name := u.(role := if u.role == Admin then Viewer else Admin)])
            && (name == "" || !MayGo(s.users, name) ==> t == s)
  {
    assert s.clients[k := Idle] == s.clients;
    if name != "" && MayGo(s.users, name) {
      var role := if s.users[name].role == Admin then Viewer else Admin;
      var a := Next(s, ListToToggle(k, name));
      assert a == s.(clients := s.clients[k := Toggling(name, role)]);
      var b := Next(a, WatchToggled(k));
      assert b == s.(clients := s.clients[k := Watching(name, SetRole(role), s.version)]);
      assert Next(b, HGet(k)) == s.(clients := s.clients[k := Read(name, SetRole(role), s.version, s.users[name])]);
    }
  }

  // ----- Creation is not a transaction -----

  /** Since the log had this length, the name is taken exactly if its last commit took it. */
  ghost predicate TakenSince(users: map<string, User>, log: seq<Commit>, since: nat, name: string)
    requires since <= |log|
  {
    name in users <==> InUse(false, log[since..], name)
  }

  ghost predicate AllTakenSince(users: map<string, User>, log: seq<Commit>, since: nat)
    requires since <= |log|
  {
    forall n :: TakenSince(users, log, since, n)
  }

  /** A creating client's name was free when it looked; for a seeding client every name was. */
  ghost predicate Tracked(s: State, p: Phase) {
    p.Creating? ==>
      && p.since <= |s.log| && TakenSince(s.users, s.log, p.since, p.name)
      && (p.seeding ==> p.role == Admin && AllTakenSince(s.users, s.log, p.since))
  }

  ghost predicate AllTracked(s: State) {
    forall k :: 0 <= k < |s.clients| ==> Tracked(s, s.clients[k])
  }

  lemma CommitKeepsTaken(users: map<string, User>, users': map<string, User>, log: seq<Commit>, c: Commit, since: nat,
                         n: string)
    requires since <= |log| && TakenSince(users, log, since, n)
    requires n != c.name ==> (n in users' <==> n in users)
    requires c.name in users' <==> c.Created? || (c.Mutated? && c.name in users)
    ensures TakenSince(users', log + [c], since, n)
  {
    assert (log + [c])[since..] == log[since..] + [c];
    InUseStep(false, log[since..], n, c);
  }

  lemma WrittenKeepsTracked(s: State, users: map<string, User>, c: Commit, p: Phase)
    requires Tracked(s, p)
    requires forall n :: n != c.name ==> (n in users <==> n in s.users)
    requires c.name in users <==> c.Created? || (c.Mutated? && c.name in s.users)
    ensures Tracked(Written(s, users, c), p)
  {
    if p.Creating? {
      CommitKeepsTaken(s.users, users, s.log, c, p.since, p.name);
      if p.seeding {
        forall n ensures TakenSince(users, s.log + [c], p.since, n) {
          assert TakenSince(s.users, s.log, p.since, n);
          CommitKeepsTaken(s.users, users, s.log, c, p.since, n);
        }
      }
    }
  }

  lemma WriteKeepsAllTracked(s: State, users: map<string, User>, c: Commit, k: nat)
    requires AllTracked(s) && k < |s.clients|
    requires forall n :: n != c.name ==> (n in users <==> n in s.users)
    requires c.name in users <==> c.Created? || (c.Mutated? && c.name in s.users)
    ensures AllTracked(Moved(Written(s, users, c), k, Idle))
  {
    var t := Moved(Written(s, users, c), k, Idle);
    forall j | 0 <= j < |t.clients| ensures Tracked(t, t.clients[j]) {
      if j != k {
        WrittenKeepsTracked(s, users, c, s.clients[j]);
      }
    }
  }

  lemma MovedKeepsTracked(s: State, k: nat, p: Phase)
    requires AllTracked(s) && k < |s.clients| && Tracked(s, p)
    ensures AllTracked(Moved(s, k, p))
  {
    var t := Moved(s, k, p);
    forall j | 0 <= j < |t.clients| ensures Tracked(t, t.clients[j]) {
      assert Tracked(s, s.clients[j]);
    }
  }

  lemma NextKeepsTracked(s: State, initial: map<string, User>, a: Action)
    requires Inv(s, initial) && AllTracked(s)
    ensures AllTracked(Next(s, a))
  {
    if a.k < |s.clients| && Next(s, a) != s {
      var p := s.clients[a.k];
      assert Fresh(s, p);
      if a.Exec? && s.version == p.version {
        WriteKeepsAllTracked(s, s.users[p.name := Edited(p.user, p.edit)], Mutated(p.name, p.edit), a.k);
      } else if a.HSet? {
        WriteKeepsAllTracked(s, s.users[p.name := NewRecord(p)], Created(p.name, p.hash, p.role, p.now), a.k);
      } else if a.HDel? && p.name in s.users {
        WriteKeepsAllTracked(s, s.users - {p.name}, Deleted(p.name), a.k);
      } else {
        MovedKeepsTracked(s, a.k, Next(s, a).clients[a.k]);
      }
    }
  }

  lemma {:induction false} RunKeepsTracked(users: map<string, User>, clients: nat, actions: seq<Action>)
    ensures AllTracked(Run(users, clients, actions))
  {
    if actions == [] {
    } else {
      var before := actions[..|actions| - 1];
      RunKeepsTracked(users, clients, before);
      RunKeepsInv(users, clients, before);
      NextKeepsTracked(Run(users, clients, before), users, actions[|actions| - 1]);
    }
  }

  /**
   * In every interleaving, a creation replaces a record exactly when the last creation or deletion
   * of its name that committed after its check was a creation.
   */
  lemma CreationReplacesIff(users: map<string, User>, clients: nat, actions: seq<Action>, k: nat)
    requires var s := Run(users, clients, actions); k < |s.clients| && s.clients[k].Creating?
    ensures var s := Run(users, clients, actions); var p := s.clients[k];
            && p.since <= |s.log|
            && (p.name in s.users <==> InUse(false, s.log[p.since..], p.name))
            && Next(s, HSet(k)).users == s.users[p.name := NewRecord(p)]
  {
    RunKeepsTracked(users, clients, actions);
    var s := Run(users, clients, actions);
    assert Tracked(s, s.clients[k]);
  }

  /** The next command of client `k` would write a new user over an existing one. */
  ghost predicate Replaces(s: State, k: nat) {
    k < |s.clients| && s.clients[k].Creating? && s.clients[k].name in s.users
  }

  ghost predicate NothingSince(s: State) {
    |s.clients| <= 1 && (|s.clients| == 1 && s.clients[0].Creating? ==> s.clients[0].since == |s.log|)
  }

  lemma NextKeepsNothingSince(s: State, a: Action)
    requires NothingSince(s)
    ensures NothingSince(Next(s, a)) && |Next(s, a).clients| == |s.clients|
  {
  }

  /** A single client sees no commit between its check and its write. */
  lemma {:induction false} NothingSinceCheck(users: map<string, User>, clients: nat, actions: seq<Action>)
    requires clients <= 1
    ensures NothingSince(Run(users, clients, actions)) && |Run(users, clients, actions).clients| == clients
  {
    if actions == [] {
    } else {
      NothingSinceCheck(users, clients, actions[..|actions| - 1]);
      NextKeepsNothingSince(Run(users, clients, actions[..|actions| - 1]), actions[|actions| - 1]);
    }
  }

  /** A name longer than every name in use. */
  lemma {:induction false} UnusedName(names: set<string>) returns (name: string)
    ensures forall n :: n in names ==> |n| < |name|
  {
    if names == {} {
      name := "";
    } else {
      var n :| n in names;
      var shorter := UnusedName(names - {n});
      name := shorter + n + "x";
      forall m | m in names ensures |m| < |name| {
        if m != n {
          assert m in names - {n};
        }
      }
    }
  }

  /** Two clients, idle and both looking for the same free name, are both about to create it. */
  lemma BothLook(s: State, c0: Action, c1: Action)
    requires |s.clients| >= 2 && s.clients[0].Idle? && s.clients[1].Idle?
    requires c0.HExists? && c0.k == 0 && c1.HExists? && c1.k == 1
    requires c0.name == c1.name && c0.name !in s.users
    ensures var t := Next(Next(s, c0), c1);
            var at := |s.log|;
            && t.clients == s.clients[0 := Creating(c0.name, c0.hash, c0.role, c0.now, at, false)]
                                     [1 := Creating(c1.name, c1.hash, c1.role, c1.now, at, false)]
            && t.users == s.users && t.log == s.log
  {
  }

  lemma RunTwo(users: map<string, User>, clients: nat, actions: seq<Action>, a: Action, b: Action)
    ensures Run(users, clients, actions + [a, b]) == Next(Next(Run(users, clients, actions), a), b)
  {
    assert actions + [a, b] == actions + [a] + [b];
    RunStep(users, clients, actions, a);
    RunStep(users, clients, actions + [a], b);
  }

  /** Two creations of a free name that overlap both succeed, and the second replaces the first. */
  lemma CreationsCanOverlap(users: map<string, User>, clients: nat, name: string, h1: string, h2: string, now: int)
    returns (actions: seq<Action>)
    requires clients >= 2 && name !in users
    ensures Replaces(Run(users, clients, actions), 1)
    ensures var s := Run(users, clients, actions + [HSet(1)]);
            && s.log == [Created(name, h1, Viewer, now), Created(name, h2, Viewer, now)]
            && s.users == users[name := NewUser(name, h2, Viewer, now)]
  {
    var c0, c1 := HExists(0, name, h1, Viewer, now), HExists(1, name, h2, Viewer, now);
    RunTwo(users, clients, [], c0, c1);
    BothLook(Init(users, clients), c0, c1);
    RunStep(users, clients, [] + [c0, c1], HSet(0));
    actions := [] + [c0, c1] + [HSet(0)];
    RunStep(users, clients, actions, HSet(1));
  }

  ghost predicate NeverReplaces(users: map<string, User>, clients: nat) {
    forall actions, k :: !Replaces(Run(users, clients, actions), k)
  }

  /** No run ever replaces a record exactly when there is at most one client. */
  lemma NoReplacementIffOneClient(users: map<string, User>, clients: nat)
    ensures NeverReplaces(users, clients) <==> clients <= 1
  {
    if clients <= 1 {
      forall actions, k ensures !Replaces(Run(users, clients, actions), k) {
        NothingSinceCheck(users, clients, actions);
        if Replaces(Run(users, clients, actions), k) {
          CreationReplacesIff(users, clients, actions, k);
        }
      }
    } else {
      var name := UnusedName(users.Keys);
      var actions := CreationsCanOverlap(users, clients, name, "", "", 0);
    }
  }

  // ----- The last admin -----

  ghost predicate HasAdmin(users: map<string, User>) {
    exists n :: n in users && users[n].role == Admin
  }

  /** Roles are changed through the users page only. */
  ghost predicate RolesGuarded(actions: seq<Action>) {
    forall i :: 0 <= i < |actions| && actions[i].Watch? ==> !actions[i].edit.SetRole?
  }

  /** What a client is about to do leaves an admin, if nobody writes before it does. */
  ghost predicate Spares(users: map<string, User>, p: Phase) {
    match p
    case Creating(name, _, _, _, _, seeding) => name !in users && (seeding ==> users == map[])
    case Deleting(name) => !LastAdmin(users, name)
    case Toggling(name, role) => role == Admin || SomeOtherAdmin(users, name)
    case Watching(name, edit, _) => edit.SetRole? ==> edit.role == Admin || SomeOtherAdmin(users, name)
    case Read(name, edit, _, _) => edit.SetRole? ==> edit.role == Admin || SomeOtherAdmin(users, name)
    case _ => true
  }

  /** Whoever is an admin apart from one user stays one when only that user changes. */
  lemma OtherAdminStays(users: map<string, User>, users': map<string, User>, name: string)
    requires SomeOtherAdmin(users, name)
    requires forall n :: n in users && n != name ==> n in users' && users'[n] == users[n]
    ensures HasAdmin(users')
  {
    var m :| m in users && m != name && users[m].role == Admin;
    assert m in users' && users'[m].role == Admin;
  }

  /** Changing one user leaves an admin if another is one, if that user is none, or if it ends as one. */
  lemma ChangeKeepsAdmin(users: map<string, User>, users': map<string, User>, name: string)
    requires HasAdmin(users)
    requires forall n :: n in users && n != name ==> n in users' && users'[n] == users[n]
    requires !LastAdmin(users, name) || (name in users' && users'[name].role == Admin)
    ensures HasAdmin(users')
  {
    if LastAdmin(users, name) {
      assert name in users' && users'[name].role == Admin;
    } else {
      var n :| n in users && users[n].role == Admin;
      if n != name {
        assert SomeOtherAdmin(users, name);
      }
      OtherAdminStays(users, users', name);
    }
  }

  lemma NextKeepsAdmin(s: State, initial: map<string, User>, a: Action)
    requires Inv(s, initial)
    requires forall k :: 0 <= k < |s.clients| ==> Spares(s.users, s.clients[k])
    ensures HasAdmin(s.users) ==> HasAdmin(Next(s, a).users)
  {
    if a.k < |s.clients| && HasAdmin(s.users) {
      var p, t := s.clients[a.k], Next(s, a);
      assert Fresh(s, p) && Spares(s.users, p);
      if t.users != s.users {
        ChangeKeepsAdmin(s.users, t.users, p.name);
      }
    }
  }

  /** With one client, nothing comes between a guard and the write it guards. */
  lemma NextKeepsSpares(s: State, a: Action)
    requires |s.clients| == 1 && Spares(s.users, s.clients[0]) && (a.Watch? ==> !a.edit.SetRole?)
    ensures |Next(s, a).clients| == 1 && Spares(Next(s, a).users, Next(s, a).clients[0])
  {
  }

  lemma {:induction false} RunSpares(users: map<string, User>, clients: nat, actions: seq<Action>)
    requires clients <= 1 && RolesGuarded(actions)
    ensures var s := Run(users, clients, actions);
            |s.clients| == clients && (clients == 1 ==> Spares(s.users, s.clients[0]))
  {
    if actions == [] {
    } else {
      var before := actions[..|actions| - 1];
      RunSpares(users, clients, before);
      if clients == 1 {
        NextKeepsSpares(Run(users, clients, before), actions[|actions| - 1]);
      }
    }
  }

  lemma StepKeepsAdmin(users: map<string, User>, clients: nat, before: seq<Action>, a: Action)
    requires clients <= 1 && RolesGuarded(before) && HasAdmin(Run(users, clients, before).users)
    ensures HasAdmin(Next(Run(users, clients, before), a).users)
  {
    RunSpares(users, clients, before);
    RunKeepsInv(users, clients, before);
    NextKeepsAdmin(Run(users, clients, before), users, a);
  }

  /** With one client, once there is an admin there always is one. */
  lemma {:induction false} AlwaysAnAdmin(users: map<string, User>, clients: nat, actions: seq<Action>, n: nat)
    requires clients <= 1 && RolesGuarded(actions) && n <= |actions|
    requires HasAdmin(Run(users, clients, actions[..n]).users)
    ensures HasAdmin(Run(users, clients, actions).users)
    decreases |actions|
  {
    if n == |actions| {
      assert actions[..n] == actions;
    } else {
      var before, a := actions[..|actions| - 1], actions[|actions| - 1];
      assert before[..n] == actions[..n];
      AlwaysAnAdmin(users, clients, before, n);
      StepKeepsAdmin(users, clients, before, a);
      assert Run(users, clients, actions) == Next(Run(users, clients, before), a);
    }
  }

  /**
   * In every interleaving, seeding leaves an admin; it is the only user exactly when the last commit of
   * no other name since the store was found empty is a creation, and always with one client.
   */
  lemma Seeded(users: map<string, User>, clients: nat, actions: seq<Action>, k: nat)
    requires var s := Run(users, clients, actions);
             k < |s.clients| && s.clients[k].Creating? && s.clients[k].seeding
    ensures var s := Run(users, clients, actions); var p, t := s.clients[k], Next(s, HSet(k));
            && p.since <= |s.log| && p.role == Admin && HasAdmin(t.users)
            && p.name in t.users && t.users[p.name] == NewRecord(p)
            && (t.users == map[p.name := NewRecord(p)] <==> NoOtherTaken(s.log, p.since, p.name))
            && (clients <= 1 ==> t.users == map[p.name := NewRecord(p)])
  {
    CreatorIsTracked(users, clients, actions, k);
    SeedEffect(Run(users, clients, actions), k);
    if clients <= 1 {
      SeedsAlone(users, clients, actions, k);
    }
  }

  lemma CreatorIsTracked(users: map<string, User>, clients: nat, actions: seq<Action>, k: nat)
    requires k < |Run(users, clients, actions).clients|
    ensures Tracked(Run(users, clients, actions), Run(users, clients, actions).clients[k])
  {
    RunKeepsTracked(users, clients, actions);
  }

  lemma SeedsAlone(users: map<string, User>, clients: nat, actions: seq<Action>, k: nat)
    requires clients <= 1
    requires var s := Run(users, clients, actions); k < |s.clients| && s.clients[k].Creating?
    ensures var s := Run(users, clients, actions); var p := s.clients[k];
            p.since <= |s.log| && NoOtherTaken(s.log, p.since, p.name)
  {
    NothingSinceCheck(users, clients, actions);
    var s := Run(users, clients, actions);
    NothingTaken(s.log, s.clients[k].name);
  }

  lemma NothingTaken(log: seq<Commit>, name: string)
    ensures NoOtherTaken(log, |log|, name)
  {
    assert log[|log|..] == [];
  }

  lemma SeedEffect(s: State, k: nat)
    requires k < |s.clients| && s.clients[k].Creating? && s.clients[k].seeding && Tracked(s, s.clients[k])
    ensures var p, t := s.clients[k], Next(s, HSet(k));
            && HasAdmin(t.users) && p.name in t.users && t.users[p.name] == NewRecord(p)
            && (t.users == map[p.name := NewRecord(p)] <==> NoOtherTaken(s.log, p.since, p.name))
  {
    var p := s.clients[k];
    var after := s.users[p.name := NewRecord(p)];
    assert p.name in after && after[p.name].role == Admin;
    OnlyUser(s.users, s.log, p);
  }

  ghost predicate NoOtherTaken(log: seq<Commit>, since: nat, name: string)
    requires since <= |log|
  {
    forall n :: n != name ==> !InUse(false, log[since..], n)
  }

  lemma OnlyUser(users: map<string, User>, log: seq<Commit>, p: Phase)
    requires p.Creating? && p.since <= |log| && AllTakenSince(users, log, p.since)
    ensures users[p.name := NewRecord(p)] == map[p.name := NewRecord(p)] <==> NoOtherTaken(log, p.since, p.name)
  {
    var one := map[p.name := NewRecord(p)];
    forall n ensures n in users <==> InUse(false, log[p.since..], n) {
      assert TakenSince(users, log, p.since, n);
    }
    if NoOtherTaken(log, p.since, p.name) {
      assert forall n :: n in users ==> n == p.name;
      assert users[p.name := NewRecord(p)] == one;
    } else {
      var n :| n != p.name && InUse(false, log[p.since..], n);
      assert n in users[p.name := NewRecord(p)] && n !in one;
    }
  }

  function Admins(users: map<string, User>): set<string> {
    set n | n in users && users[n].role == Admin
  }

  ghost predicate TwoIdle(s: State) {
    |s.clients| >= 2 && s.clients[0].Idle? && s.clients[1].Idle?
  }

  /** An admin who is not the last is deleted. */
  lemma DeleteOne(s: State, name: string)
    requires TwoIdle(s) && name in s.users && !LastAdmin(s.users, name)
    ensures var t := Next(Next(s, ListToDelete(0, name)), HDel(0)); TwoIdle(t) && t.users == s.users - {name}
  {
  }

  lemma CreateOne(s: State, name: string)
    requires TwoIdle(s) && name !in s.users
    ensures var t := Next(Next(s, HExists(0, name, "", Admin, 0)), HSet(0));
            TwoIdle(t) && t.users == s.users[name := NewUser(name, "", Admin, 0)]
  {
  }

  /** Each of two clients finds the other's admin remaining. */
  lemma BothPassTheGuard(s: State, m: string, n: string)
    requires TwoIdle(s) && m != n && m in s.users && n in s.users
    requires s.users[m].role == Admin && s.users[n].role == Admin
    ensures var t := Next(Next(s, ListToDelete(0, m)), ListToDelete(1, n));
            t.users == s.users && t.clients == s.clients[0 := Deleting(m)][1 := Deleting(n)]
  {
    assert SomeOtherAdmin(s.users, m) && SomeOtherAdmin(s.users, n);
  }

  lemma BothDelete(s: State, m: string, n: string)
    requires |s.clients| >= 2 && s.clients[0] == Deleting(m) && s.clients[1] == Deleting(n)
    requires m != n && m in s.users && n in s.users
    ensures Next(Next(s, HDel(0)), HDel(1)).users == s.users - {m} - {n}
  {
  }

  /** Two clients can delete the last two admins. */
  lemma OverlappingDeletes(users: map<string, User>, clients: nat, before: seq<Action>, m: string, n: string)
    returns (actions: seq<Action>)
    requires RolesGuarded(before) && m != n
    requires var s := Run(users, clients, before); TwoIdle(s) && Admins(s.users) == {m, n}
    ensures RolesGuarded(actions) && !HasAdmin(Run(users, clients, actions).users)
  {
    var s := Run(users, clients, before);
    assert m in Admins(s.users) && n in Admins(s.users);
    RunTwo(users, clients, before, ListToDelete(0, m), ListToDelete(1, n));
    BothPassTheGuard(s, m, n);
    var guarded := before + [ListToDelete(0, m), ListToDelete(1, n)];
    RunTwo(users, clients, guarded, HDel(0), HDel(1));
    BothDelete(Run(users, clients, guarded), m, n);
    actions := guarded + [HDel(0), HDel(1)];
    forall x | x in s.users - {m} - {n} ensures s.users[x].role != Admin {
      assert x !in Admins(s.users);
    }
  }

  /** From any state with an admin, two clients can get rid of all of them. */
  lemma {:induction false} AdminsCanBeLost(users: map<string, User>, clients: nat, before: seq<Action>)
    returns (actions: seq<Action>)
    requires RolesGuarded(before)
    requires var s := Run(users, clients, before); TwoIdle(s) && HasAdmin(s.users)
    ensures RolesGuarded(actions) && !HasAdmin(Run(users, clients, actions).users)
    decreases |Admins(Run(users, clients, before).users)|
  {
    var s := Run(users, clients, before);
    var n :| n in s.users && s.users[n].role == Admin;
    if LastAdmin(s.users, n) {
      var m := UnusedName(s.users.Keys);
      var look := HExists(0, m, "", Admin, 0);
      RunTwo(users, clients, before, look, HSet(0));
      CreateOne(s, m);
      LastAdminIsOnly(s.users, n, m);
      actions := OverlappingDeletes(users, clients, before + [look, HSet(0)], m, n);
    } else {
      RunTwo(users, clients, before, ListToDelete(0, n), HDel(0));
      DeleteOne(s, n);
      OneAdminLess(s.users, n);
      actions := AdminsCanBeLost(users, clients, before + [ListToDelete(0, n), HDel(0)]);
    }
  }

  lemma LastAdminIsOnly(users: map<string, User>, n: string, m: string)
    requires LastAdmin(users, n) && m !in users
    ensures Admins(users[m := NewUser(m, "", Admin, 0)]) == {m, n}
  {
  }

  lemma OneAdminLess(users: map<string, User>, n: string)
    requires n in users && users[n].role == Admin && SomeOtherAdmin(users, n)
    ensures HasAdmin(users - {n}) && |Admins(users - {n})| < |Admins(users)|
  {
    OtherAdminStays(users, users - {n}, n);
    assert Admins(users - {n}) == Admins(users) - {n};
    assert n in Admins(users);
  }

  ghost predicate NeverWithoutAdmin(users: map<string, User>, clients: nat) {
    forall actions :: RolesGuarded(actions) ==> HasAdmin(Run(users, clients, actions).users)
  }

  /** The guards keep an admin in every run exactly when there is at most one client. */
  lemma AdminKeptIffOneClient(users: map<string, User>, clients: nat)
    requires HasAdmin(users)
    ensures NeverWithoutAdmin(users, clients) <==> clients <= 1
  {
    if clients <= 1 {
      forall actions | RolesGuarded(actions) ensures HasAdmin(Run(users, clients, actions).users) {
        AlwaysAnAdmin(users, clients, actions, 0);
      }
    } else {
      var actions := AdminsCanBeLost(users, clients, []);
    }
  }
}
