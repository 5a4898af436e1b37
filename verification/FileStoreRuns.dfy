/**
 * The users page over the file store, under concurrency: every call of the store holds its mutex, but
 * the role toggle lists the users in one call and sets the role in another.
 */
module FileStoreRuns {
  import opened Credentials
  import opened Results
  import opened Slices
  import opened FileStore

  /** `pending` holds, for every handler, the change of role it has decided on; `log` the writes that took place. */
  datatype State = State(users: seq<User>, pending: seq<Option<(string, Role)>>, log: seq<Commit>)

  /** `Serve` is a request that takes one call of the store; a toggle takes `Decide` and `Set`. */
  datatype Action = Serve(k: nat, r: Request) | Decide(k: nat, name: string) | Set(k: nat)

  function Init(users: seq<User>, handlers: nat): State {
    State(users, seq(handlers, _ => None), [])
  }

  /** The role that `UsersToggleRole` sets after looking at the list, if it gets that far. */
  function Decision(users: seq<User>, name: string): Option<Role> {
    var current := Current(users, name);
    if name == "" || current.None? then None
    else if current.value.role != Admin then Some(Admin)
    else if Admins(users) == 1 then None
    else Some(Viewer)
  }

  predicate OtherAdmin(users: seq<User>, name: string) {
    exists i :: 0 <= i < |users| && users[i].username != name && users[i].role == Admin
  }

  /** The writes that a request other than a toggle should make. */
  function Writes(users: seq<User>, r: Request): seq<Commit> {
    match r
    case Create(name, password, hash, role, now) =>
      if name != "" && |password| >= 8 && (role == Admin || role == Viewer) && !Taken(users, name) then
        [Created(name, hash, role, now)]
      else []
    case Delete(name) =>
      if name != "" && Taken(users, name) && (OtherAdmin(users, name) || !HasAdminNamed(users, name)) then
        [Deleted(name)]
      else []
    case Touch(name, edit) => if Taken(users, name) && !edit.SetRole? then [Mutated(name, edit)] else []
    case ToggleRole(_) => []
  }

  function Next(s: State, a: Action): State {
    if a.k >= |s.pending| then s
    else
      match a
      case Serve(k, r) =>
        if s.pending[k].None? && !r.ToggleRole? then
          s.(users := Served(s.users, r), log := s.log + Writes(s.users, r))
        else s
      case Decide(k, name) =>
        var role := Decision(s.users, name);
        if s.pending[k].None? && role.Some? then s.(pending := s.pending[k := Some((name, role.value))]) else s
      case Set(k) =>
        if s.pending[k].None? then s
        else
          var (name, role) := s.pending[k].value;
          var log := if Taken(s.users, name) then s.log + [Mutated(name, Edit.SetRole(role))] else s.log;
          State(WithMutated(s.users, name, Edit.SetRole(role)).0, s.pending[k := None], log)
  }

  function Run(users: seq<User>, handlers: nat, actions: seq<Action>): State {
    if actions == [] then Init(users, handlers)
    else Next(Run(users, handlers, actions[..|actions| - 1]), actions[|actions| - 1])
  }

  /** A toggle that nobody interrupts is the one of the sequential handler. */
  lemma StepsRefineToggle(s: State, k: nat, name: string)
    requires k < |s.pending| && s.pending[k].None?
    ensures var t := Next(Next(s, Decide(k, name)), Set(k)); t.users == Toggled(s.users, name) && t.pending == s.pending
  {
    assert s.pending[k := None] == s.pending;
  }

  /** A handler that is not toggling serves its request at any time; a decided role is set at any time. */
  lemma HandlersServe(s: State, k: nat, r: Request)
    requires k < |s.pending|
    ensures s.pending[k].None? && !r.ToggleRole? ==>
              var t := Next(s, Serve(k, r));
              t.users == Served(s.users, r) && t.log == s.log + Writes(s.users, r) && t.pending == s.pending
    ensures s.pending[k].Some? ==>
              var t, (name, role) := Next(s, Set(k)), s.pending[k].value;
              && t.users == WithMutated(s.users, name, Edit.SetRole(role)).0 && t.pending == s.pending[k := None]
              && t.log == s.log + (if Taken(s.users, name) then [Mutated(name, Edit.SetRole(role))] else [])
  {
  }

  // ----- What the list has to do with the writes -----

  function Record(users: seq<User>, name: string): Option<User> {
    var i := Find(users, name);
    if i < |users| then Some(users[i]) else None
  }

  /** The name is listed if its last creation or deletion was a creation, with the fields that the writes gave it. */
  ghost predicate AsWritten(users: seq<User>, first: seq<User>, log: seq<Commit>, name: string) {
    && (Taken(users, name) <==> InUse(Taken(first, name), log, name))
    && forall i :: 0 <= i < |users| && users[i].username == name ==>
         FollowsLog(users[i], Record(first, name), log, name)
  }

  ghost predicate AllAsWritten(users: seq<User>, first: seq<User>, log: seq<Commit>) {
    forall name :: AsWritten(users, first, log, name)
  }

  /** The list after one write. */
  ghost predicate Writ(users: seq<User>, users': seq<User>, c: Commit) {
    && (forall n :: n != c.name ==> (Taken(users', n) <==> Taken(users, n)))
    && (forall i :: 0 <= i < |users'| && users'[i].username != c.name ==> users'[i] in users)
    && (match c
        case Mutated(n, e) => Taken(users, n) && Taken(users', n)
        case Created(n, _, _, _) => Taken(users', n)
        case Deleted(n) => !Taken(users', n))
    && forall i :: 0 <= i < |users'| && users'[i].username == c.name ==> Becomes(users, users'[i], c)
  }

  ghost predicate Becomes(users: seq<User>, u: User, c: Commit) {
    match c
    case Mutated(n, e) => exists j :: 0 <= j < |users| && users[j].username == n && u == Edited(users[j], e)
    case Created(n, hash, role, now) => u == NewUser(n, hash, role, now)
    case Deleted(n) => false
  }

  lemma WriteKeeps(users: seq<User>, users': seq<User>, first: seq<User>, log: seq<Commit>, c: Commit, name: string)
    requires AsWritten(users, first, log, name) && Writ(users, users', c)
    ensures AsWritten(users', first, log + [c], name)
  {
    InUseStep(Taken(first, name), log, name, c);
    var r := Record(first, name);
    forall i | 0 <= i < |users'| && users'[i].username == name ensures FollowsLog(users'[i], r, log + [c], name) {
      if c.name != name {
        var j :| 0 <= j < |users| && users[j] == users'[i];
        FollowsOther(users[j], r, log, name, c);
      } else {
        assert Becomes(users, users'[i], c);
        match c
        case Mutated(_, e) =>
          var j :| 0 <= j < |users| && users[j].username == name && users'[i] == Edited(users[j], e);
          FollowsEdited(users[j], r, log, name, e);
        case Created(_, hash, role, now) =>
          FollowsCreated(r, log, name, hash, role, now);
      }
    }
  }

  lemma MutatedWrites(users: seq<User>, name: string, e: Edit)
    requires UniqueNames(users) && Taken(users, name)
    ensures Writ(users, WithMutated(users, name, e).0, Mutated(name, e))
    ensures UniqueNames(WithMutated(users, name, e).0)
  {
    var i, users' := Find(users, name), WithMutated(users, name, e).0;
    MutatedIsUnique(users, name, e);
    assert forall j :: 0 <= j < |users| ==> users'[j].username == users[j].username;
    assert users'[i] == Edited(users[i], e);
    forall n ensures Taken(users', n) <==> Taken(users, n) {
      if j :| 0 <= j < |users| && users[j].username == n {
        assert users'[j].username == n;
      }
    }
  }

  lemma CreatedWrites(users: seq<User>, name: string, hash: string, role: Role, now: int)
    requires UniqueNames(users) && !Taken(users, name)
    ensures Writ(users, WithCreated(users, name, hash, role, now).0, Created(name, hash, role, now))
    ensures UniqueNames(WithCreated(users, name, hash, role, now).0)
  {
    var users' := WithCreated(users, name, hash, role, now).0;
    assert Find(users, name) == |users|;
    assert users'[|users|].username == name;
    forall n | n != name ensures Taken(users', n) <==> Taken(users, n) {
      if j :| 0 <= j < |users| && users[j].username == n {
        assert users'[j].username == n;
      }
    }
  }

  lemma {:induction false} NoAdmins(users: seq<User>)
    ensures Admins(users) == 0 <==> forall i :: 0 <= i < |users| ==> users[i].role != Admin
  {
    if users == [] {
    } else {
      NoAdmins(users[..|users| - 1]);
      assert users == users[..|users| - 1] + [users[|users| - 1]];
    }
  }

  /** The count is one exactly when the named admin is the only one. */
  lemma LastAdminIff(users: seq<User>, name: string)
    requires UniqueNames(users) && HasAdminNamed(users, name)
    ensures Admins(users) == 1 <==> !OtherAdmin(users, name)
  {
    var i :| 0 <= i < |users| && users[i].username == name && users[i].role == Admin;
    AdminsAt(users, i);
    NoAdmins(users[..i]);
    NoAdmins(users[i + 1..]);
    if j :| 0 <= j < |users| && users[j].username != name && users[j].role == Admin {
      assert j < i ==> users[..i][j].role == Admin;
      assert j > i ==> users[i + 1..][j - i - 1].role == Admin;
    } else {
      assert forall j :: 0 <= j < i ==> users[..i][j] == users[j];
      var after := users[i + 1..];
      forall j | 0 <= j < |after| ensures after[j].role != Admin {
        assert after[j] == users[i + 1 + j];
      }
    }
  }

  lemma OthersWrites(users: seq<User>, name: string)
    ensures Writ(users, Others(users, name), Deleted(name))
  {
    var users' := Others(users, name);
    KeptRows(users, NotNamed(name));
    forall n | n != name ensures Taken(users', n) <==> Taken(users, n) {
      if j :| 0 <= j < |users| && users[j].username == n {
        assert NotNamed(name)(users[j]) && users[j] in users';
      }
      if j :| 0 <= j < |users'| && users'[j].username == n {
        assert users'[j] in users;
      }
    }
    forall j | 0 <= j < |users'| ensures users'[j].username != name {
      assert NotNamed(name)(users'[j]);
    }
  }

  lemma RemovedWrites(users: seq<User>, name: string)
    requires UniqueNames(users) && Taken(users, name)
    ensures var users' := Removed(users, name).0;
            && UniqueNames(users')
            && (if OtherAdmin(users, name) || !HasAdminNamed(users, name) then Writ(users, users', Deleted(name))
                else users' == users)
  {
    FoundIfTaken(users, name);
    if HasAdminNamed(users, name) {
      LastAdminIff(users, name);
    }
    OthersWrites(users, name);
    OthersIsSplice(users, name);
    SpliceIsSound(users, Find(users, name));
  }

  lemma WriteKeepsAll(users: seq<User>, users': seq<User>, first: seq<User>, log: seq<Commit>, c: Commit)
    requires AllAsWritten(users, first, log) && Writ(users, users', c)
    ensures AllAsWritten(users', first, log + [c])
  {
    forall name ensures AsWritten(users', first, log + [c], name) {
      WriteKeeps(users, users', first, log, c, name);
    }
  }

  /** A served request changes the list by the writes it should make. */
  lemma ServedWrites(users: seq<User>, r: Request)
    requires UniqueNames(users) && !r.ToggleRole?
    ensures UniqueNames(Served(users, r))
    ensures Writes(users, r) == [] ==> Served(users, r) == users
    ensures Writes(users, r) != [] ==> |Writes(users, r)| == 1 && Writ(users, Served(users, r), Writes(users, r)[0])
  {
    match r
    case Create(name, _, hash, role, now) =>
      FoundIfTaken(users, name);
      if ValidCreation(r) && !Taken(users, name) {
        CreatedWrites(users, name, hash, role, now);
      }
    case Delete(name) =>
      FoundIfTaken(users, name);
      if name != "" && Taken(users, name) {
        RemovedWrites(users, name);
      }
    case Touch(name, edit) =>
      FoundIfTaken(users, name);
      if Taken(users, name) && !edit.SetRole? {
        MutatedWrites(users, name, edit);
      }
  }

  lemma NextKeepsWritten(s: State, first: seq<User>, a: Action)
    requires UniqueNames(s.users) && AllAsWritten(s.users, first, s.log)
    ensures UniqueNames(Next(s, a).users) && AllAsWritten(Next(s, a).users, first, Next(s, a).log)
  {
    var t := Next(s, a);
    if a.k < |s.pending| {
      if a.Serve? && s.pending[a.k].None? && !a.r.ToggleRole? {
        ServedWrites(s.users, a.r);
        var ws := Writes(s.users, a.r);
        if ws == [] {
          assert t.log == s.log;
        } else {
          assert ws == [ws[0]];
          WriteKeepsAll(s.users, t.users, first, s.log, ws[0]);
        }
      } else if a.Set? && s.pending[a.k].Some? {
        SetKeepsWritten(s.users, first, s.log, s.pending[a.k].value.0, s.pending[a.k].value.1);
      }
    }
  }

  lemma SetKeepsWritten(users: seq<User>, first: seq<User>, log: seq<Commit>, name: string, role: Role)
    requires UniqueNames(users) && AllAsWritten(users, first, log)
    ensures var users', c := WithMutated(users, name, Edit.SetRole(role)).0, Mutated(name, Edit.SetRole(role));
            UniqueNames(users') && AllAsWritten(users', first, if Taken(users, name) then log + [c] else log)
  {
    FoundIfTaken(users, name);
    if Taken(users, name) {
      var e := Edit.SetRole(role);
      MutatedWrites(users, name, e);
      WriteKeepsAll(users, WithMutated(users, name, e).0, first, log, Mutated(name, e));
    }
  }

  lemma FirstIsAsWritten(users: seq<User>, name: string)
    requires UniqueNames(users)
    ensures AsWritten(users, users, [], name)
  {
    forall i | 0 <= i < |users| && users[i].username == name ensures Record(users, name) == Some(users[i]) {
      assert Find(users, name) == i;
    }
  }

  /**
   * In every interleaving, names stay unique, the users are those whose last creation or deletion was a
   * creation, and every field of a record is what the last write that sets it made it.
   */
  lemma {:induction false} RecordsAreHistory(users: seq<User>, handlers: nat, actions: seq<Action>)
    requires UniqueNames(users)
    ensures var s := Run(users, handlers, actions); UniqueNames(s.users) && AllAsWritten(s.users, users, s.log)
  {
    if actions == [] {
      forall name ensures AsWritten(users, users, [], name) {
        FirstIsAsWritten(users, name);
      }
    } else {
      RecordsAreHistory(users, handlers, actions[..|actions| - 1]);
      NextKeepsWritten(Run(users, handlers, actions[..|actions| - 1]), users, actions[|actions| - 1]);
    }
  }

  // ----- One handler -----

  /** What is pending is what a toggle of the present list would do. */
  ghost predicate UpToDate(s: State) {
    && |s.pending| <= 1
    && forall k :: 0 <= k < |s.pending| && s.pending[k].Some? ==>
         Decision(s.users, s.pending[k].value.0) == Some(s.pending[k].value.1)
  }

  lemma SetIsSound(users: seq<User>, name: string, role: Role)
    requires Sound(users) && Decision(users, name) == Some(role)
    ensures Sound(WithMutated(users, name, Edit.SetRole(role)).0)
  {
    ToggledIsSound(users, name);
  }

  lemma NextIsSound(s: State, a: Action)
    requires Sound(s.users) && UpToDate(s)
    ensures Sound(Next(s, a).users)
  {
    if a.k < |s.pending| {
      if a.Serve? {
        ServedIsSound(s.users, a.r);
      } else if a.Set? && s.pending[a.k].Some? {
        SetIsSound(s.users, s.pending[a.k].value.0, s.pending[a.k].value.1);
      }
    }
  }

  lemma NextIsUpToDate(s: State, a: Action)
    requires UpToDate(s)
    ensures UpToDate(Next(s, a)) && |Next(s, a).pending| == |s.pending|
  {
  }

  lemma {:induction false} OneHandlerIsSound(users: seq<User>, handlers: nat, actions: seq<Action>)
    requires Sound(users) && handlers <= 1
    ensures var s := Run(users, handlers, actions); Sound(s.users) && UpToDate(s) && |s.pending| == handlers
  {
    if actions == [] {
    } else {
      OneHandlerIsSound(users, handlers, actions[..|actions| - 1]);
      NextIsSound(Run(users, handlers, actions[..|actions| - 1]), actions[|actions| - 1]);
      NextIsUpToDate(Run(users, handlers, actions[..|actions| - 1]), actions[|actions| - 1]);
    }
  }

  // ----- Two handlers -----

  lemma RunTwo(users: seq<User>, handlers: nat, actions: seq<Action>, a: Action, b: Action)
    ensures Run(users, handlers, actions + [a, b]) == Next(Next(Run(users, handlers, actions), a), b)
  {
    var one := actions + [a];
    assert one[..|actions|] == actions;
    assert actions + [a, b] == one + [b];
    assert (one + [b])[..|one|] == one;
  }

  /** Two users of different names, both admins, are all there is. */
  ghost predicate TwoAdmins(users: seq<User>) {
    && |users| == 2 && users[0].role == Admin && users[1].role == Admin
    && users[0].username != users[1].username && users[0].username != "" && users[1].username != ""
  }

  lemma AdminsOfTwo(users: seq<User>)
    requires |users| == 2
    ensures Admins(users) == (if users[0].role == Admin then 1 else 0) + (if users[1].role == Admin then 1 else 0)
  {
    AdminsAt(users, 0);
    assert users[..0] == [] && users[1..] == [users[1]] && [users[1]][..0] == [];
  }

  /** Each of two handlers decides to demote one of them, since the other is still an admin. */
  lemma BothDecide(s: State)
    requires TwoAdmins(s.users) && |s.pending| >= 2 && s.pending[0].None? && s.pending[1].None?
    ensures var t := Next(Next(s, Decide(0, s.users[0].username)), Decide(1, s.users[1].username));
            && t.users == s.users
            && t.pending == s.pending[0 := Some((s.users[0].username, Viewer))]
                                     [1 := Some((s.users[1].username, Viewer))]
  {
    AdminsOfTwo(s.users);
    assert Current(s.users, s.users[1].username) == Some(s.users[1]);
    assert s.users[..1] == [s.users[0]];
    assert Current(s.users, s.users[0].username) == Some(s.users[0]);
  }

  lemma BothSet(s: State)
    requires TwoAdmins(s.users) && |s.pending| >= 2
    requires s.pending[0] == Some((s.users[0].username, Viewer)) && s.pending[1] == Some((s.users[1].username, Viewer))
    ensures Admins(Next(Next(s, Set(0)), Set(1)).users) == 0
  {
    var a, b := s.users[0].username, s.users[1].username;
    var one := Next(s, Set(0));
    assert Find(s.users, a) == 0;
    assert one.users == [Edited(s.users[0], Edit.SetRole(Viewer)), s.users[1]];
    assert Find(one.users, b) == 1;
    var two := Next(one, Set(1));
    AdminsOfTwo(two.users);
  }

  /** Overlapping toggles demote both. */
  lemma TogglesCanOverlap(users: seq<User>, handlers: nat) returns (actions: seq<Action>)
    requires TwoAdmins(users) && handlers >= 2
    ensures Admins(Run(users, handlers, actions).users) == 0
  {
    var a, b := users[0].username, users[1].username;
    RunTwo(users, handlers, [], Decide(0, a), Decide(1, b));
    BothDecide(Init(users, handlers));
    var decided := [] + [Decide(0, a), Decide(1, b)];
    RunTwo(users, handlers, decided, Set(0), Set(1));
    BothSet(Run(users, handlers, decided));
    actions := decided + [Set(0), Set(1)];
  }

  /** From every sound list, every run keeps names unique and an admin. */
  ghost predicate AlwaysSound(handlers: nat) {
    forall users, actions :: Sound(users) ==> Sound(Run(users, handlers, actions).users)
  }

  /** The guards keep an admin in every run exactly when there is at most one handler. */
  lemma SoundIffOneHandler(handlers: nat)
    ensures AlwaysSound(handlers) <==> handlers <= 1
  {
    if handlers <= 1 {
      forall users, actions | Sound(users) ensures Sound(Run(users, handlers, actions).users) {
        OneHandlerIsSound(users, handlers, actions);
      }
    } else {
      var users := [NewUser("a", "", Admin, 0), NewUser("b", "", Admin, 0)];
      AdminsOfTwo(users);
      var actions := TogglesCanOverlap(users, handlers);
      assert Sound(users) && !Sound(Run(users, handlers, actions).users);
    }
  }
}
