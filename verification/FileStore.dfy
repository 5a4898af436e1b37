/** `FileStore`, the JSON file of users, and the guards of the users page above it. */
module FileStore {
  import opened Credentials
  import opened Results
  import opened Slices

  // ----- What the operations do to the list of users -----

  function Find(users: seq<User>, name: string): (i: nat)
    ensures i <= |users|
    ensures i < |users| ==> users[i].username == name
    ensures forall j :: 0 <= j < i ==> users[j].username != name
  {
    if users == [] then 0 else if users[0].username == name then 0 else Find(users[1..], name) + 1
  }

  function Admins(users: seq<User>): nat {
    if users == [] then 0
    else Admins(users[..|users| - 1]) + (if users[|users| - 1].role == Admin then 1 else 0)
  }

  function NotNamed(name: string): User -> bool {
    (u: User) => u.username != name
  }

  /** The users with another name, in order. */
  function Others(users: seq<User>, name: string): seq<User> {
    Kept(users, NotNamed(name))
  }

  predicate Taken(users: seq<User>, name: string) {
    exists i :: 0 <= i < |users| && users[i].username == name
  }

  lemma FoundIfTaken(users: seq<User>, name: string)
    ensures Find(users, name) < |users| <==> Taken(users, name)
  {
  }

  type Outcome = (seq<User>, Option<Error>)

  function WithCreated(users: seq<User>, name: string, hash: string, role: Role, now: int): Outcome {
    if Find(users, name) < |users| then (users, Some(UserExists))
    else (users + [NewUser(name, hash, role, now)], None)
  }

  predicate HasAdminNamed(users: seq<User>, name: string) {
    exists j :: 0 <= j < |users| && users[j].username == name && users[j].role == Admin
  }

  function Removed(users: seq<User>, name: string): Outcome {
    var i := Find(users, name);
    if i == |users| then (users, Some(UserNotFound))
    else if HasAdminNamed(users, name) && Admins(users) == 1 then (users, Some(CannotDeleteLastAdmin))
    else (Others(users, name), None)
  }

  function WithMutated(users: seq<User>, name: string, e: Edit): Outcome {
    var i := Find(users, name);
    if i == |users| then (users, Some(UserNotFound)) else (users[i := Edited(users[i], e)], None)
  }

  /** The store, with the file's contents as its field; `load` and `save` read and replace it. */
  class FileStore {
    var users: seq<User>

    constructor ()
      ensures users == []
    {
      users := [];
    }

    method Seed(name: string, hash: string, now: int) returns (seeded: bool)
      modifies this
      ensures seeded == (old(users) == [])
      ensures users == if seeded then [User(name, hash, Admin, true, now, 0, 0, now)] else old(users)
    {
      if |users| > 0 {
        return false;
      }
      users := users + [NewUser(name, hash, Admin, now)];
      return true;
    }

    method CreateUser(name: string, hash: string, role: Role, now: int) returns (err: Option<Error>)
      modifies this
      ensures (users, err) == WithCreated(old(users), name, hash, role, now)
      ensures err == (if Taken(old(users), name) then Some(UserExists) else None)
      ensures users == if Taken(old(users), name) then old(users) else
                old(users) + [User(name, hash, role, true, now, 0, 0, now)]
    {
      for i := 0 to |users|
        invariant users == old(users)
        invariant forall j :: 0 <= j < i ==> users[j].username != name
      {
        if users[i].username == name {
          return Some(UserExists);
        }
      }
      users := users + [NewUser(name, hash, role, now)];
      return None;
    }

    /** Counts the admins, then compacts a copy of the list in place and saves it. */
    method DeleteUser(name: string) returns (err: Option<Error>)
      modifies this
      ensures (users, err) == Removed(old(users), name)
    {
      var admins := 0;
      for i := 0 to |users|
        invariant users == old(users) && admins == Admins(users[..i])
      {
        assert users[..i + 1][..i] == users[..i];
        if users[i].role == Admin {
          admins := admins + 1;
        }
      }
      assert users[..|users|] == users;
      var loaded := new User[|users|](i requires 0 <= i < |users| reads this => users[i]);
      assert loaded[..] == users;
      var n, refused := Compact(loaded, name, admins == 1);
      OthersLength(users, name);
      if refused {
        return Some(CannotDeleteLastAdmin);
      }
      if n == |users| {
        return Some(UserNotFound);
      }
      users := loaded[..n];
      return None;
    }

    method Mutate(name: string, e: Edit) returns (err: Option<Error>)
      modifies this
      ensures (users, err) == WithMutated(old(users), name, e)
    {
      for i := 0 to |users|
        invariant users == old(users)
        invariant forall j :: 0 <= j < i ==> users[j].username != name
      {
        if users[i].username == name {
          assert Find(users, name) == i;
          users := users[i := Edited(users[i], e)];
          return None;
        }
      }
      return Some(UserNotFound);
    }

    method SetRole(name: string, role: Role) returns (err: Option<Error>)
      modifies this
      ensures role.Invalid? ==> users == old(users) && err == Some(InvalidRole)
      ensures !role.Invalid? ==> (users, err) == WithMutated(old(users), name, Edit.SetRole(role))
    {
      if role.Invalid? {
        return Some(InvalidRole);
      }
      err := Mutate(name, Edit.SetRole(role));
    }
  }

  /**
   * `out := users[:0]` and the loop that appends to it: reads and writes share the array. Stops at
   * the last admin when there is only one.
   */
  method Compact(a: array<User>, name: string, lastAdmin: bool) returns (n: nat, refused: bool)
    modifies a
    ensures refused <==> lastAdmin && HasAdminNamed(old(a[..]), name)
    ensures !refused ==> n <= a.Length && a[..n] == Others(old(a[..]), name)
  {
    n, refused := 0, false;
    ghost var before := a[..];
    for i := 0 to a.Length
      invariant Filtered(a[..], before, i, n, NotNamed(name))
      invariant lastAdmin ==> forall j :: 0 <= j < i ==> !(before[j].username == name && before[j].role == Admin)
    {
      FilteredStep(a[..], before, i, n, NotNamed(name));
      var u := a[i];
      if u.username == name {
        if u.role == Admin && lastAdmin {
          assert before[i].username == name;
          return n, true;
        }
      } else {
        a[n] := u;
        n := n + 1;
      }
    }
    FilteredDone(a[..], before, n, NotNamed(name));
  }

  lemma {:induction false} OthersLength(users: seq<User>, name: string)
    ensures |Others(users, name)| <= |users|
    ensures |Others(users, name)| == |users| <==> Find(users, name) == |users|
    ensures Find(users, name) == |users| ==> Others(users, name) == users
  {
    if users == [] {
    } else {
      var last := |users| - 1;
      OthersLength(users[..last], name);
      FindPrefix(users, name, last);
    }
  }

  lemma FindPrefix(users: seq<User>, name: string, n: nat)
    requires n < |users|
    ensures Find(users[..n], name) < n ==> Find(users, name) == Find(users[..n], name)
    ensures Find(users[..n], name) == n && users[n].username == name ==> Find(users, name) == n
    ensures Find(users[..n], name) == n && users[n].username != name ==> Find(users, name) > n
  {
    var i, j := Find(users[..n], name), Find(users, name);
    assert forall k :: 0 <= k < n ==> users[..n][k] == users[k];
    assert i < n ==> users[i].username == name;
    assert j < n ==> users[..n][j].username == name;
  }

  // ----- The users page -----

  /** The last user with a name, as the loop in `UsersToggleRole` finds it. */
  function Current(users: seq<User>, name: string): Option<User> {
    if users == [] then None
    else if users[|users| - 1].username == name then Some(users[|users| - 1])
    else Current(users[..|users| - 1], name)
  }

  function Toggled(users: seq<User>, name: string): seq<User> {
    var current := Current(users, name);
    if name == "" || current.None? then users
    else if current.value.role != Admin then WithMutated(users, name, Edit.SetRole(Admin)).0
    else if Admins(users) == 1 then users
    else WithMutated(users, name, Edit.SetRole(Viewer)).0
  }

  method UsersToggleRole(store: FileStore, name: string)
    modifies store
    ensures store.users == Toggled(old(store.users), name)
  {
    if name == "" {
      return;
    }
    var users := store.users;
    var current: Option<User> := None;
    var admins := 0;
    for i := 0 to |users|
      invariant store.users == users
      invariant admins == Admins(users[..i]) && current == Current(users[..i], name)
    {
      assert users[..i + 1][..i] == users[..i];
      if users[i].role == Admin {
        admins := admins + 1;
      }
      if users[i].username == name {
        current := Some(users[i]);
      }
    }
    assert users[..|users|] == users;
    if current.None? {
      return;
    }
    var newRole := Admin;
    if current.value.role == Admin {
      if admins == 1 {
        return;
      }
      newRole := Viewer;
    }
    var _ := store.SetRole(name, newRole);
  }

  function Served(users: seq<User>, r: Request): seq<User> {
    match r
    case Create(name, password, hash, role, now) =>
      if !ValidCreation(r) then users
      else WithCreated(users, name, hash, role, now).0
    case Delete(name) => if name == "" then users else Removed(users, name).0
    case ToggleRole(name) => Toggled(users, name)
    case Touch(name, edit) => if edit.SetRole? then users else WithMutated(users, name, edit).0
  }

  function ServedAll(users: seq<User>, rs: seq<Request>): seq<User> {
    if rs == [] then users else Served(ServedAll(users, rs[..|rs| - 1]), rs[|rs| - 1])
  }

  ghost predicate UniqueNames(users: seq<User>) {
    forall i, j :: 0 <= i < j < |users| ==> users[i].username != users[j].username
  }

  /** Names are unique, and somebody is an admin. */
  ghost predicate Sound(users: seq<User>) {
    UniqueNames(users) && Admins(users) >= 1
  }

  lemma {:induction false} AdminsConcat(a: seq<User>, b: seq<User>)
    ensures Admins(a + b) == Admins(a) + Admins(b)
  {
    if b == [] {
      assert a + b == a;
    } else {
      AdminsConcat(a, b[..|b| - 1]);
      assert (a + b)[..|a + b| - 1] == a + b[..|b| - 1];
    }
  }

  lemma AdminsAt(users: seq<User>, i: nat)
    requires i < |users|
    ensures Admins(users) ==
            Admins(users[..i]) + (if users[i].role == Admin then 1 else 0) + Admins(users[i + 1..])
  {
    var before, u, after := users[..i], [users[i]], users[i + 1..];
    SplitAt(users, i);
    AdminsConcat(before, u + after);
    AdminsConcat(u, after);
    assert u[..0] == [];
  }

  lemma NoneNamed(users: seq<User>, name: string)
    requires forall i :: 0 <= i < |users| ==> users[i].username != name
    ensures Others(users, name) == users
  {
    KeptAll(users, NotNamed(name));
  }

  /** With unique names, compaction cuts out exactly the named user. */
  lemma OthersIsSplice(users: seq<User>, name: string)
    requires UniqueNames(users) && Find(users, name) < |users|
    ensures var i := Find(users, name); Others(users, name) == users[..i] + users[i + 1..]
  {
    var i := Find(users, name);
    var before, after := users[..i], users[i + 1..];
    SplitAt(users, i);
    SpliceOne(before, users[i], after, name);
  }

  lemma SplitAt(users: seq<User>, i: nat)
    requires i < |users|
    ensures users == users[..i] + ([users[i]] + users[i + 1..])
  {
  }

  lemma SpliceOne(before: seq<User>, u: User, after: seq<User>, name: string)
    requires u.username == name
    requires forall i :: 0 <= i < |before| ==> before[i].username != name
    requires forall i :: 0 <= i < |after| ==> after[i].username != name
    ensures Others(before + ([u] + after), name) == before + after
  {
    NoneNamed(before, name);
    NoneNamed(after, name);
    KeptConcat(before, [u] + after, NotNamed(name));
    KeptConcat([u], after, NotNamed(name));
    assert [u][..0] == [];
  }

  /** `DeleteUser` removes the named user and keeps everyone else, in order; the last admin stays. */
  lemma RemovedIsSound(users: seq<User>, name: string)
    requires Sound(users)
    ensures Sound(Removed(users, name).0)
    ensures var (users', err) := Removed(users, name); var i := Find(users, name);
            && (err == None ==> i < |users| && users' == users[..i] + users[i + 1..])
            && (err == Some(UserNotFound) <==> i == |users|)
            && (err == Some(CannotDeleteLastAdmin) <==> i < |users| && users[i].role == Admin && Admins(users) == 1)
  {
    var i := Find(users, name);
    if i < |users| {
      assert forall j :: 0 <= j < |users| && users[j].username == name ==> j == i;
      OthersIsSplice(users, name);
      SpliceIsSound(users, i);
    }
  }

  lemma SpliceIsSound(users: seq<User>, i: nat)
    requires UniqueNames(users) && i < |users|
    ensures var rest := users[..i] + users[i + 1..];
            UniqueNames(rest) && Admins(rest) == Admins(users) - (if users[i].role == Admin then 1 else 0)
  {
    AdminsAt(users, i);
    AdminsConcat(users[..i], users[i + 1..]);
  }

  lemma MutatedIsUnique(users: seq<User>, name: string, e: Edit)
    requires UniqueNames(users)
    ensures UniqueNames(WithMutated(users, name, e).0)
  {
  }

  lemma MutatedAdmins(users: seq<User>, name: string, e: Edit)
    requires Find(users, name) < |users|
    ensures var i := Find(users, name);
            Admins(WithMutated(users, name, e).0) == Admins(users)
              - (if users[i].role == Admin then 1 else 0) + (if Edited(users[i], e).role == Admin then 1 else 0)
  {
    var i, users' := Find(users, name), WithMutated(users, name, e).0;
    AdminsAt(users, i);
    AdminsAt(users', i);
    assert users'[..i] == users[..i] && users'[i + 1..] == users[i + 1..];
  }

  lemma {:induction false} CurrentIsFound(users: seq<User>, name: string)
    requires UniqueNames(users)
    ensures var i := Find(users, name); Current(users, name) == if i < |users| then Some(users[i]) else None
  {
    if users == [] {
    } else {
      CurrentIsFound(users[..|users| - 1], name);
      FindPrefix(users, name, |users| - 1);
    }
  }

  lemma ToggledIsSound(users: seq<User>, name: string)
    requires Sound(users)
    ensures Sound(Toggled(users, name))
  {
    CurrentIsFound(users, name);
    if Find(users, name) < |users| {
      MutatedIsUnique(users, name, Edit.SetRole(Admin));
      MutatedIsUnique(users, name, Edit.SetRole(Viewer));
      MutatedAdmins(users, name, Edit.SetRole(Admin));
      MutatedAdmins(users, name, Edit.SetRole(Viewer));
    }
  }

  lemma CreatedIsSound(users: seq<User>, name: string, hash: string, role: Role, now: int)
    requires Sound(users)
    ensures Sound(WithCreated(users, name, hash, role, now).0)
  {
    AdminsConcat(users, [NewUser(name, hash, role, now)]);
  }

  lemma TouchedIsSound(users: seq<User>, name: string, edit: Edit)
    requires Sound(users) && !edit.SetRole?
    ensures Sound(WithMutated(users, name, edit).0)
  {
    MutatedIsUnique(users, name, edit);
    if Find(users, name) < |users| {
      MutatedAdmins(users, name, edit);
    }
  }

  lemma ServedIsSound(users: seq<User>, r: Request)
    requires Sound(users)
    ensures Sound(Served(users, r))
  {
    match r
    case Create(name, password, hash, role, now) =>
      CreatedIsSound(users, name, hash, role, now);
    case Delete(name) =>
      RemovedIsSound(users, name);
    case ToggleRole(name) =>
      ToggledIsSound(users, name);
    case Touch(name, edit) =>
      if !edit.SetRole? {
        TouchedIsSound(users, name, edit);
      }
  }

  lemma ServedOneMore(users: seq<User>, rs: seq<Request>, r: Request)
    ensures ServedAll(users, rs + [r]) == Served(ServedAll(users, rs), r)
  {
    assert (rs + [r])[..|rs|] == rs;
  }

  /** Once seeded, every serialised run of requests leaves unique names and at least one admin. */
  lemma {:induction false} AlwaysAnAdmin(name: string, hash: string, now: int, rs: seq<Request>)
    ensures Sound(ServedAll([NewUser(name, hash, Admin, now)], rs))
  {
    if rs == [] {
      assert [NewUser(name, hash, Admin, now)][..0] == [];
    } else {
      AlwaysAnAdmin(name, hash, now, rs[..|rs| - 1]);
      ServedIsSound(ServedAll([NewUser(name, hash, Admin, now)], rs[..|rs| - 1]), rs[|rs| - 1]);
    }
  }
}
