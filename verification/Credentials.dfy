/** The dashboard's user records and the edits made to them. */
module Credentials {
  import opened Results

  datatype Role = Admin | Viewer | Invalid(name: string)

  datatype User = User(
    username: string, hash: string, role: Role, mustChange: bool, passwordSetAt: int,
    failedAttempts: int, lockedUntil: int, createdAt: int)

  datatype Error = UserNotFound | UserExists | CannotDeleteLastAdmin | InvalidRole

  function NewUser(username: string, hash: string, role: Role, now: int): User {
    User(username, hash, role, true, now, 0, 0, now)
  }

  /** The functions passed to `mutate`, and the body of `SetPassword`. */
  datatype Edit =
    | IncrementFailures | ResetFailures
    | SetPassword(hash: string, now: int) | SetLockedUntil(until: int) | SetRole(role: Role)

  function Edited(u: User, e: Edit): User {
    match e
    case IncrementFailures => u.(failedAttempts := u.failedAttempts + 1)
    case ResetFailures => u.(failedAttempts := 0, lockedUntil := 0)
    case SetPassword(hash, now) =>
      u.(hash := hash, mustChange := false, passwordSetAt := now, failedAttempts := 0, lockedUntil := 0)
    case SetLockedUntil(until) => u.(lockedUntil := until)
    case SetRole(role) => u.(role := role)
  }

  const MIN_PASSWORD_LENGTH := 8

  /** A request of the users page that reaches a store; `Touch` stands for the edits that are not roles. */
  datatype Request =
    | Create(name: string, password: string, hash: string, role: Role, now: int)
    | Delete(name: string)
    | ToggleRole(name: string)
    | Touch(name: string, edit: Edit)

  /** What `UsersCreate` accepts. */
  predicate ValidCreation(r: Request)
    requires r.Create?
  {
    r.name != "" && |r.password| >= MIN_PASSWORD_LENGTH && !r.role.Invalid?
  }

  // ----- What the commits to a store say about a user -----

  /** A write to a store that took place. */
  datatype Commit =
    | Mutated(name: string, edit: Edit)
    | Created(name: string, hash: string, role: Role, now: int)
    | Deleted(name: string)

  /** What the last commit on the name that sets a field sets it to; `first` is the value before all commits. */
  function LastSet<T>(first: Option<T>, log: seq<Commit>, name: string, sets: Commit -> Option<T>): Option<T> {
    if log == [] then first
    else
      var c := log[|log| - 1];
      if c.name == name && sets(c).Some? then sets(c) else LastSet(first, log[..|log| - 1], name, sets)
  }

  function SetsPresence(c: Commit): Option<bool> {
    match c
    case Created(_, _, _, _) => Some(true)
    case Deleted(_) => Some(false)
    case Mutated(_, _) => None
  }

  function SetsUsername(c: Commit): Option<string> {
    if c.Created? then Some(c.name) else None
  }

  function SetsHash(c: Commit): Option<string> {
    match c
    case Created(_, hash, _, _) => Some(hash)
    case Mutated(_, SetPassword(hash, _)) => Some(hash)
    case _ => None
  }

  function SetsRole(c: Commit): Option<Role> {
    match c
    case Created(_, _, role, _) => Some(role)
    case Mutated(_, SetRole(role)) => Some(role)
    case _ => None
  }

  /** A new user must change the password, until it does. */
  function SetsMustChange(c: Commit): Option<bool> {
    match c
    case Created(_, _, _, _) => Some(true)
    case Mutated(_, SetPassword(_, _)) => Some(false)
    case _ => None
  }

  function SetsPasswordTime(c: Commit): Option<int> {
    match c
    case Created(_, _, _, now) => Some(now)
    case Mutated(_, SetPassword(_, now)) => Some(now)
    case _ => None
  }

  /** A reset and a new password lift the lock. */
  function SetsLock(c: Commit): Option<int> {
    match c
    case Created(_, _, _, _) => Some(0)
    case Mutated(_, SetLockedUntil(until)) => Some(until)
    case Mutated(_, ResetFailures) => Some(0)
    case Mutated(_, SetPassword(_, _)) => Some(0)
    case _ => None
  }

  function SetsCreationTime(c: Commit): Option<int> {
    if c.Created? then Some(c.now) else None
  }

  /** Increments of one user committed since its last committed reset, password change or creation. */
  function Failures(first: int, log: seq<Commit>, name: string): int {
    if log == [] then first
    else
      var before, c := Failures(first, log[..|log| - 1], name), log[|log| - 1];
      if c.name != name then before
      else if c.Mutated? && c.edit.IncrementFailures? then before + 1
      else if c.Mutated? && (c.edit.SetLockedUntil? || c.edit.SetRole?) then before
      else 0
  }

  function Field<T>(first: Option<User>, get: User -> T): Option<T> {
    if first.Some? then Some(get(first.value)) else None
  }

  /** Every field of the record is what the commits on the name made it, beginning with the first record. */
  ghost predicate FollowsLog(u: User, first: Option<User>, log: seq<Commit>, name: string) {
    && Some(u.username) == LastSet(Field(first, (x: User) => x.username), log, name, SetsUsername)
    && Some(u.hash) == LastSet(Field(first, (x: User) => x.hash), log, name, SetsHash)
    && Some(u.role) == LastSet(Field(first, (x: User) => x.role), log, name, SetsRole)
    && Some(u.mustChange) == LastSet(Field(first, (x: User) => x.mustChange), log, name, SetsMustChange)
    && Some(u.passwordSetAt) == LastSet(Field(first, (x: User) => x.passwordSetAt), log, name, SetsPasswordTime)
    && u.failedAttempts == Failures(if first.Some? then first.value.failedAttempts else 0, log, name)
    && Some(u.lockedUntil) == LastSet(Field(first, (x: User) => x.lockedUntil), log, name, SetsLock)
    && Some(u.createdAt) == LastSet(Field(first, (x: User) => x.createdAt), log, name, SetsCreationTime)
  }

  /** A commit on another name concerns no field. */
  lemma FollowsOther(u: User, first: Option<User>, log: seq<Commit>, name: string, c: Commit)
    requires FollowsLog(u, first, log, name) && c.name != name
    ensures FollowsLog(u, first, log + [c], name)
  {
    assert (log + [c])[..|log|] == log;
  }

  /** `Edited` sets exactly the fields that the edit is about. */
  lemma FollowsEdited(u: User, first: Option<User>, log: seq<Commit>, name: string, e: Edit)
    requires FollowsLog(u, first, log, name)
    ensures FollowsLog(Edited(u, e), first, log + [Mutated(name, e)], name)
  {
    assert (log + [Mutated(name, e)])[..|log|] == log;
  }

  /** A creation sets every field, whatever was before. */
  lemma FollowsCreated(first: Option<User>, log: seq<Commit>, name: string, hash: string, role: Role, now: int)
    ensures FollowsLog(NewUser(name, hash, role, now), first, log + [Created(name, hash, role, now)], name)
  {
    assert (log + [Created(name, hash, role, now)])[..|log|] == log;
  }

  /** A name is in use after the commits, if it was when nothing had been committed. */
  function InUse(first: bool, log: seq<Commit>, name: string): bool {
    LastSet(Some(first), log, name, SetsPresence) == Some(true)
  }

  lemma InUseStep(first: bool, log: seq<Commit>, name: string, c: Commit)
    ensures InUse(first, log + [c], name) ==
            if c.name == name && c.Created? then true
            else if c.name == name && c.Deleted? then false else InUse(first, log, name)
  {
    assert (log + [c])[..|log|] == log;
  }
}
