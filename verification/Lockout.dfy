/** `Lockout`, the sliding-window counter of failed logins, and the part of `LoginPost` that drives it. */
module Lockout {
  import opened Slices

  datatype Config = Config(threshold: int, window: int, duration: int)

  /** Times are nanoseconds since the zero `time.Time`, so `lockedUntil == 0` is never in the future. */
  datatype UserState = UserState(failures: seq<nat>, lockedUntil: int)

  const NEW_USER := UserState([], 0)

  type Users = map<string, UserState>

  function StateOf(st: Users, user: string): UserState {
    if user in st then st[user] else NEW_USER
  }

  function Later(cutoff: int): nat -> bool {
    (t: nat) => t > cutoff
  }

  /** The times after a cutoff, in order. */
  function Recent(ts: seq<nat>, cutoff: int): seq<nat> {
    Kept(ts, Later(cutoff))
  }

  function Recorded(cfg: Config, s: UserState, now: nat): UserState {
    var kept := Recent(s.failures, now - cfg.window) + [now];
    if |kept| >= cfg.threshold then UserState([], now + cfg.duration) else s.(failures := kept)
  }

  class Lockout {
    const cfg: Config
    var st: Users

    constructor (cfg: Config)
      ensures this.cfg == cfg && st == map[]
    {
      this.cfg := cfg;
      st := map[];
    }

    method Record(user: string, now: nat)
      modifies this
      ensures st == old(st)[user := Recorded(cfg, StateOf(old(st), user), now)]
    {
      var s := if user in st then st[user] else NEW_USER;
      var cutoff := now - cfg.window;
      var times := new nat[|s.failures|](i requires 0 <= i < |s.failures| => s.failures[i]);
      assert times[..] == s.failures;
      var n := FilterInPlace(times, Later(cutoff));
      s := s.(failures := times[..n] + [now]);
      if |s.failures| >= cfg.threshold {
        s := UserState([], now + cfg.duration);
      }
      st := st[user := s];
    }

    method IsLocked(user: string, now: nat) returns (locked: bool, until: int)
      ensures locked == (now < StateOf(st, user).lockedUntil)
      ensures until == if locked then StateOf(st, user).lockedUntil else 0
    {
      if user !in st {
        return false, 0;
      }
      if now < st[user].lockedUntil {
        return true, st[user].lockedUntil;
      }
      return false, 0;
    }

    method Reset(user: string)
      modifies this
      ensures st == old(st) - {user}
    {
      st := st - {user};
    }

    /** The lockout part of `LoginPost`; `outcome` is what `Authenticate` answers if it is asked. */
    method LoginPost(a: Attempt) returns (recorded: bool)
      modifies this
      ensures (st, recorded) == Login(cfg, old(st), a)
      ensures a.checkedAt < StateOf(old(st), a.user).lockedUntil || a.outcome == StoreLocked ==>
                st == old(st) && !recorded
      ensures a.checkedAt >= StateOf(old(st), a.user).lockedUntil && a.outcome == Failure ==>
                st == old(st)[a.user := Recorded(cfg, StateOf(old(st), a.user), a.recordedAt)] && recorded
      ensures a.checkedAt >= StateOf(old(st), a.user).lockedUntil && a.outcome == Success ==>
                st == old(st) - {a.user} && !recorded
    {
      var locked, _ := IsLocked(a.user, a.checkedAt);
      if locked {
        return false;
      }
      match a.outcome
      case StoreLocked =>
        return false;
      case Failure =>
        Record(a.user, a.recordedAt);
        return true;
      case Success =>
        Reset(a.user);
        return false;
    }
  }

  datatype Outcome = Success | Failure | StoreLocked

  /** One login: the clock is read when the lock is checked and again when a failure is recorded. */
  datatype Attempt = Attempt(user: string, checkedAt: nat, recordedAt: nat, outcome: Outcome)

  function Login(cfg: Config, st: Users, a: Attempt): (Users, bool) {
    if a.checkedAt < StateOf(st, a.user).lockedUntil || a.outcome.StoreLocked? then (st, false)
    else if a.outcome.Failure? then (st[a.user := Recorded(cfg, StateOf(st, a.user), a.recordedAt)], true)
    else (st - {a.user}, false)
  }

  // ----- Refinement of the full history -----

  predicate NonDecreasing(ts: seq<nat>) {
    forall i, j :: 0 <= i < j < |ts| ==> ts[i] <= ts[j]
  }

  /** The state after failures at `ts`, starting from a new user or a reset. */
  function After(cfg: Config, ts: seq<nat>): UserState {
    if ts == [] then NEW_USER else Recorded(cfg, After(cfg, ts[..|ts| - 1]), ts[|ts| - 1])
  }

  /** How many failures after index `k` lie in the window that ends with a further one at `now`. */
  function InWindow(cfg: Config, ts: seq<nat>, k: int, now: nat): nat
    requires -1 <= k < |ts|
  {
    |Recent(ts[k + 1..], now - cfg.window)| + 1
  }

  /**
   * The index of the last failure that locked the account, computed from the whole list: a failure
   * locks when, with it, at least `threshold` failures since the previous lock lie in its window.
   */
  function LastLock(cfg: Config, ts: seq<nat>): (k: int)
    ensures -1 <= k < |ts|
  {
    if ts == [] then -1
    else
      var before, now := ts[..|ts| - 1], ts[|ts| - 1];
      NextLock(cfg, before, LastLock(cfg, before), now)
  }

  function NextLock(cfg: Config, ts: seq<nat>, k: int, now: nat): int
    requires -1 <= k < |ts|
  {
    if InWindow(cfg, ts, k, now) >= cfg.threshold then |ts| else k
  }

  ghost function LockedUntil(cfg: Config, ts: seq<nat>, k: int): int
    requires -1 <= k < |ts|
  {
    if k < 0 then 0 else ts[k] + cfg.duration
  }

  /** The failures after index `k` that lie in the window of the newest one. */
  ghost function Stored(cfg: Config, ts: seq<nat>, k: int): seq<nat>
    requires -1 <= k < |ts|
  {
    var last := |ts| - 1;
    if k == last then [] else Recent(ts[k + 1..last], ts[last] - cfg.window) + [ts[last]]
  }

  lemma RecentAppend(ts: seq<nat>, x: nat, cutoff: int)
    ensures Recent(ts + [x], cutoff) == if x > cutoff then Recent(ts, cutoff) + [x] else Recent(ts, cutoff)
  {
    KeptAppend(ts, x, Later(cutoff));
  }

  lemma {:induction false} RecentOfRecent(ts: seq<nat>, c1: int, c2: int)
    requires c1 <= c2
    ensures Recent(Recent(ts, c1), c2) == Recent(ts, c2)
  {
    if ts == [] {
    } else {
      RecentOfRecent(ts[..|ts| - 1], c1, c2);
      RecentAppend(Recent(ts[..|ts| - 1], c1), ts[|ts| - 1], c2);
    }
  }

  /** What `Record` pruned earlier would be pruned now as well. */
  lemma PrunedIsEnough(cfg: Config, ts: seq<nat>, k: int, now: nat)
    requires -1 <= k < |ts| && (ts != [] ==> ts[|ts| - 1] <= now)
    ensures Recent(Stored(cfg, ts, k), now - cfg.window) == Recent(ts[k + 1..], now - cfg.window)
  {
    var last := |ts| - 1;
    if k == last {
      assert ts[k + 1..] == [];
    } else {
      DropStep(ts, k + 1);
      PruneTwice(ts[k + 1..last], ts[last], ts[last] - cfg.window, now - cfg.window);
    }
  }

  lemma DropStep(ts: seq<nat>, k: nat)
    requires k < |ts|
    ensures ts[k..] == ts[k..|ts| - 1] + [ts[|ts| - 1]]
  {
  }

  lemma PruneTwice(older: seq<nat>, x: nat, c1: int, c2: int)
    requires c1 <= c2
    ensures Recent(Recent(older, c1) + [x], c2) == Recent(older + [x], c2)
  {
    RecentOfRecent(older, c1, c2);
    RecentAppend(Recent(older, c1), x, c2);
    RecentAppend(older, x, c2);
  }

  lemma RecordedKeeps(cfg: Config, s: UserState, now: nat, kept: seq<nat>)
    requires Recent(s.failures, now - cfg.window) + [now] == kept
    ensures Recorded(cfg, s, now) ==
            if |kept| >= cfg.threshold then UserState([], now + cfg.duration) else s.(failures := kept)
  {
  }

  /** The new state, from the failures after index `k`. */
  lemma StoredOneMore(cfg: Config, s': UserState, ts: seq<nat>, k: int, now: nat)
    requires -1 <= k < |ts|
    requires var kept := Recent(ts[k + 1..], now - cfg.window) + [now];
             s' == if |kept| >= cfg.threshold then UserState([], now + cfg.duration)
                   else UserState(kept, LockedUntil(cfg, ts, k))
    ensures var ts', k' := ts + [now], NextLock(cfg, ts, k, now);
            s' == UserState(Stored(cfg, ts', k'), LockedUntil(cfg, ts', k'))
  {
    KeptOneMore(cfg, ts, k, now);
  }

  lemma RecordStep(cfg: Config, s: UserState, ts: seq<nat>, k: int, now: nat)
    requires -1 <= k < |ts| && (ts != [] ==> ts[|ts| - 1] <= now)
    requires s == UserState(Stored(cfg, ts, k), LockedUntil(cfg, ts, k))
    ensures var ts', k' := ts + [now], NextLock(cfg, ts, k, now);
            Recorded(cfg, s, now) == UserState(Stored(cfg, ts', k'), LockedUntil(cfg, ts', k'))
  {
    PrunedIsEnough(cfg, ts, k, now);
    RecordedKeeps(cfg, s, now, Recent(ts[k + 1..], now - cfg.window) + [now]);
    StoredOneMore(cfg, Recorded(cfg, s, now), ts, k, now);
  }

  lemma KeptOneMore(cfg: Config, ts: seq<nat>, k: int, now: nat)
    requires -1 <= k < |ts|
    ensures Stored(cfg, ts + [now], k) == Recent(ts[k + 1..], now - cfg.window) + [now]
    ensures Stored(cfg, ts + [now], |ts|) == []
    ensures LockedUntil(cfg, ts + [now], k) == LockedUntil(cfg, ts, k)
  {
    assert (ts + [now])[k + 1..|ts|] == ts[k + 1..];
  }

  /** The user state that the whole history calls for. */
  ghost function SpecState(cfg: Config, ts: seq<nat>): UserState {
    var k := LastLock(cfg, ts);
    UserState(Stored(cfg, ts, k), LockedUntil(cfg, ts, k))
  }

  lemma SpecStep(cfg: Config, ts: seq<nat>, now: nat)
    requires ts != [] ==> ts[|ts| - 1] <= now
    ensures SpecState(cfg, ts + [now]) == Recorded(cfg, SpecState(cfg, ts), now)
  {
    var k := LastLock(cfg, ts);
    RecordStep(cfg, SpecState(cfg, ts), ts, k, now);
    LastLockStep(cfg, ts, now);
  }

  /** The pruned, cleared state kept by `Record` answers as the whole history of failures does. */
  lemma {:induction false} RefinesHistory(cfg: Config, ts: seq<nat>)
    requires NonDecreasing(ts)
    ensures After(cfg, ts) == SpecState(cfg, ts)
  {
    if ts == [] {
    } else {
      var before, now := ts[..|ts| - 1], ts[|ts| - 1];
      RefinesHistory(cfg, before);
      RefinesOneMore(cfg, before, now);
      TakeStep(ts, |ts|);
    }
  }

  lemma RefinesOneMore(cfg: Config, ts: seq<nat>, now: nat)
    requires (ts != [] ==> ts[|ts| - 1] <= now) && After(cfg, ts) == SpecState(cfg, ts)
    ensures After(cfg, ts + [now]) == SpecState(cfg, ts + [now])
  {
    AfterStep(cfg, ts, now);
    SpecStep(cfg, ts, now);
  }

  lemma AfterStep(cfg: Config, ts: seq<nat>, now: nat)
    ensures After(cfg, ts + [now]) == Recorded(cfg, After(cfg, ts), now)
  {
    assert (ts + [now])[..|ts|] == ts;
  }

  predicate Within(ts: seq<nat>, lo: int, hi: int) {
    forall i :: 0 <= i < |ts| ==> lo < ts[i] <= hi
  }

  lemma {:induction false} RecentIsSubsequence(ts: seq<nat>, cutoff: int, hi: int)
    requires NonDecreasing(ts) && (ts != [] ==> ts[|ts| - 1] <= hi)
    ensures Within(Recent(ts, cutoff), cutoff, hi)
    ensures NonDecreasing(Recent(ts, cutoff))
  {
    if ts == [] {
    } else {
      RecentIsSubsequence(ts[..|ts| - 1], cutoff, ts[|ts| - 1]);
    }
  }

  /** Stored failures stay sorted, within the window, and fewer than the threshold. */
  lemma StoredFailures(cfg: Config, ts: seq<nat>)
    requires NonDecreasing(ts) && ts != []
    ensures var fs, newest := After(cfg, ts).failures, ts[|ts| - 1];
            && NonDecreasing(fs)
            && (forall i :: 0 <= i < |fs| - 1 ==> newest - cfg.window < fs[i] <= newest)
            && (fs != [] ==> fs[|fs| - 1] == newest && |fs| < cfg.threshold)
  {
    RefinesHistory(cfg, ts);
    KeptIsSorted(cfg, ts, LastLock(cfg, ts));
    AfterIsShort(cfg, ts);
  }

  lemma AfterIsShort(cfg: Config, ts: seq<nat>)
    requires ts != []
    ensures var fs := After(cfg, ts).failures; fs != [] ==> |fs| < cfg.threshold
  {
    RecordedIsShort(cfg, After(cfg, ts[..|ts| - 1]), ts[|ts| - 1]);
  }

  lemma RecordedIsShort(cfg: Config, s: UserState, now: nat)
    ensures var fs := Recorded(cfg, s, now).failures; fs != [] ==> |fs| < cfg.threshold
  {
  }

  lemma KeptIsSorted(cfg: Config, ts: seq<nat>, k: int)
    requires NonDecreasing(ts) && ts != [] && -1 <= k < |ts|
    ensures var fs, newest := Stored(cfg, ts, k), ts[|ts| - 1];
            && NonDecreasing(fs)
            && (forall i :: 0 <= i < |fs| - 1 ==> newest - cfg.window < fs[i] <= newest)
            && (fs != [] ==> fs[|fs| - 1] == newest)
  {
    var last := |ts| - 1;
    if k != last {
      RecentIsSubsequence(ts[k + 1..last], ts[last] - cfg.window, ts[last]);
    }
  }

  datatype Op = RecordOp(user: string, at: nat) | ResetOp(user: string)

  /** The map after a run of Record and Reset calls for any users. */
  function Apply(cfg: Config, ops: seq<Op>): Users {
    if ops == [] then map[]
    else
      var st := Apply(cfg, ops[..|ops| - 1]);
      match ops[|ops| - 1]
      case RecordOp(u, t) => st[u := Recorded(cfg, StateOf(st, u), t)]
      case ResetOp(u) => st - {u}
  }

  /** The failure times of one user since its last Reset. */
  function SinceReset(ops: seq<Op>, user: string): seq<nat> {
    if ops == [] then []
    else
      var ts := SinceReset(ops[..|ops| - 1], user);
      match ops[|ops| - 1]
      case RecordOp(u, t) => if u == user then ts + [t] else ts
      case ResetOp(u) => if u == user then [] else ts
  }

  lemma {:induction false} StateIsSinceReset(cfg: Config, ops: seq<Op>, user: string)
    ensures StateOf(Apply(cfg, ops), user) == After(cfg, SinceReset(ops, user))
  {
    if ops == [] {
    } else {
      StateIsSinceReset(cfg, ops[..|ops| - 1], user);
      var ts := SinceReset(ops[..|ops| - 1], user);
      match ops[|ops| - 1]
      case RecordOp(u, t) => assert (ts + [t])[..|ts|] == ts;
      case ResetOp(u) =>
    }
  }

  /** After any run, `IsLocked` answers from the failures since the last Reset and the last lock. */
  lemma IsLockedFromHistory(cfg: Config, ops: seq<Op>, user: string, now: nat)
    requires NonDecreasing(SinceReset(ops, user))
    ensures var ts := SinceReset(ops, user); var k := LastLock(cfg, ts);
            now < StateOf(Apply(cfg, ops), user).lockedUntil <==> k >= 0 && now < ts[k] + cfg.duration
  {
    StateIsSinceReset(cfg, ops, user);
    RefinesHistory(cfg, SinceReset(ops, user));
  }

  // ----- Full windows -----

  lemma {:induction false} RecentOfConcat(a: seq<nat>, b: seq<nat>, cutoff: int)
    requires forall i :: 0 <= i < |b| ==> b[i] > cutoff
    ensures |Recent(a + b, cutoff)| >= |b|
  {
    if b == [] {
      assert a + b == a;
    } else {
      var last := |b| - 1;
      RecentOfConcat(a, b[..last], cutoff);
      assert a + b == (a + b[..last]) + [b[last]];
      RecentAppend(a + b[..last], b[last], cutoff);
    }
  }

  lemma TakeStep(ts: seq<nat>, n: nat)
    requires 0 < n <= |ts|
    ensures ts[..n] == ts[..n - 1] + [ts[n - 1]]
    ensures n == |ts| ==> ts[..n] == ts
  {
  }

  lemma LastLockStep(cfg: Config, ts: seq<nat>, now: nat)
    ensures LastLock(cfg, ts + [now]) == NextLock(cfg, ts, LastLock(cfg, ts), now)
  {
    assert (ts + [now])[..|ts|] == ts;
  }

  lemma ManyInWindow(cfg: Config, ts: seq<nat>, k: int, i: nat, now: nat)
    requires -1 <= k < i <= |ts|
    requires forall j :: i <= j < |ts| ==> ts[j] > now - cfg.window
    ensures InWindow(cfg, ts, k, now) >= |ts| - i + 1
  {
    assert ts[k + 1..] == ts[k + 1..i] + ts[i..];
    RecentOfConcat(ts[k + 1..i], ts[i..], now - cfg.window);
  }

  /** A failure that closes a window of as many as the threshold locks. */
  lemma FullWindowLocks(cfg: Config, ts: seq<nat>, i: nat, now: nat)
    requires i <= |ts| && |ts| + 1 - i >= cfg.threshold
    requires forall j :: i <= j < |ts| ==> ts[j] > now - cfg.window
    requires LastLock(cfg, ts) < i
    ensures LastLock(cfg, ts + [now]) == |ts|
  {
    ManyInWindow(cfg, ts, LastLock(cfg, ts), i, now);
    LastLockStep(cfg, ts, now);
  }

  /** How many of the times lie in the half-open interval (lo, hi]. */
  function CountIn(ts: seq<nat>, lo: int, hi: int): nat {
    if ts == [] then 0
    else CountIn(ts[..|ts| - 1], lo, hi) + (if lo < ts[|ts| - 1] <= hi then 1 else 0)
  }

  lemma {:induction false} CountIsRun(ts: seq<nat>, lo: int, hi: int) returns (i: nat)
    requires NonDecreasing(ts) && CountIn(ts, lo, hi) > 0
    ensures i + CountIn(ts, lo, hi) <= |ts|
    ensures ts[i] > lo && ts[i + CountIn(ts, lo, hi) - 1] <= hi
    ensures ts[|ts| - 1] <= hi ==> i + CountIn(ts, lo, hi) == |ts|
  {
    var last := |ts| - 1;
    if CountIn(ts[..last], lo, hi) == 0 {
      i := last;
    } else {
      i := CountIsRun(ts[..last], lo, hi);
    }
  }

  lemma CountAppend(ts: seq<nat>, t: nat, lo: int, hi: int)
    ensures CountIn(ts + [t], lo, hi) == CountIn(ts, lo, hi) + (if lo < t <= hi then 1 else 0)
  {
    assert (ts + [t])[..|ts|] == ts;
  }
}
