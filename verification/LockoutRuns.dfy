/**
 * `LoginPost` under concurrency: any number of handlers, each of which checks the lock, asks the
 * store, and only then records the failure or resets the user.
 */
module LockoutRuns {
  import opened Lockout
  import opened Results
  import opened Slices

  /**
   * `flights` holds, for every handler, the user whose lock it found open. The clock is read while
   * the mutex is held, so the times of the steps do not decrease.
   */
  datatype State = State(users: Users, now: nat, flights: seq<Option<string>>, ops: seq<Op>)

  datatype Action = Check(k: nat, user: string, t: nat) | Finish(k: nat, outcome: Outcome, t: nat)

  function Init(handlers: nat): State {
    State(map[], 0, seq(handlers, _ => None), [])
  }

  /** One critical section of one handler; an action that is not enabled changes nothing. */
  function Next(cfg: Config, s: State, a: Action): State {
    if a.k >= |s.flights| || a.t < s.now then s
    else
      match a
      case Check(k, user, t) =>
        if s.flights[k].Some? || t < StateOf(s.users, user).lockedUntil then s.(now := t)
        else s.(now := t, flights := s.flights[k := Some(user)])
      case Finish(k, outcome, t) =>
        if s.flights[k].None? then s
        else Finished(cfg, s.(now := t, flights := s.flights[k := None]), s.flights[k].value, outcome)
  }

  /** What follows the answer of `Authenticate`. */
  function Finished(cfg: Config, s: State, user: string, outcome: Outcome): State {
    match outcome
    case StoreLocked => s
    case Failure =>
      s.(users := s.users[user := Recorded(cfg, StateOf(s.users, user), s.now)], ops := s.ops + [RecordOp(user, s.now)])
    case Success => s.(users := s.users - {user}, ops := s.ops + [ResetOp(user)])
  }

  function Run(cfg: Config, handlers: nat, actions: seq<Action>): State {
    if actions == [] then Init(handlers)
    else Next(cfg, Run(cfg, handlers, actions[..|actions| - 1]), actions[|actions| - 1])
  }

  /** The failures of a user that were recorded after its last success. */
  function FailuresOf(s: State, user: string): seq<nat> {
    SinceReset(s.ops, user)
  }

  /** A login that nobody interrupts does what `LoginPost` promises. */
  lemma StepsRefineLogin(cfg: Config, s: State, k: nat, a: Attempt)
    requires k < |s.flights| && s.flights[k].None? && s.now <= a.checkedAt <= a.recordedAt
    ensures var t := Next(cfg, Next(cfg, s, Check(k, a.user, a.checkedAt)), Finish(k, a.outcome, a.recordedAt));
            var (users, recorded) := Login(cfg, s.users, a);
            && t.users == users && t.flights == s.flights
            && (recorded <==> FailuresOf(t, a.user) == FailuresOf(s, a.user) + [a.recordedAt])
  {
    var checked := Next(cfg, s, Check(k, a.user, a.checkedAt));
    var t := Next(cfg, checked, Finish(k, a.outcome, a.recordedAt));
    assert t.flights == s.flights;
    if t.ops != s.ops {
      assert t.ops[..|s.ops|] == s.ops;
    }
  }

  // ----- What the handlers make of the answers -----

  /** The calls that the answers of `Authenticate` in a run call for; a locked account in the store calls for none. */
  function Answers(cfg: Config, handlers: nat, actions: seq<Action>): seq<Op> {
    if actions == [] then []
    else
      var before, a := actions[..|actions| - 1], actions[|actions| - 1];
      var s := Run(cfg, handlers, before);
      Answers(cfg, handlers, before) +
      (if a.Finish? && a.k < |s.flights| && s.flights[a.k].Some? && a.t >= s.now then
         AnswerTo(s.flights[a.k].value, a.outcome, a.t)
       else [])
  }

  function AnswerTo(user: string, outcome: Outcome, t: nat): seq<Op> {
    if outcome == Failure then [RecordOp(user, t)] else if outcome == Success then [ResetOp(user)] else []
  }

  lemma ApplyOne(cfg: Config, ops: seq<Op>, op: Op)
    ensures var st := Apply(cfg, ops);
            Apply(cfg, ops + [op]) ==
            if op.RecordOp? then st[op.user := Recorded(cfg, StateOf(st, op.user), op.at)] else st - {op.user}
  {
    assert (ops + [op])[..|ops|] == ops;
  }

  lemma FinishAnswers(cfg: Config, s: State, k: nat, outcome: Outcome, t: nat)
    requires k < |s.flights| && s.flights[k].Some? && t >= s.now && s.users == Apply(cfg, s.ops)
    ensures var s', u := Next(cfg, s, Finish(k, outcome, t)), s.flights[k].value;
            && s'.ops == s.ops + AnswerTo(u, outcome, t) && s'.users == Apply(cfg, s'.ops)
            && s'.flights == s.flights[k := None] && s'.now == t
  {
    var u := s.flights[k].value;
    match outcome
    case Failure =>
      ApplyOne(cfg, s.ops, RecordOp(u, t));
    case Success =>
      ApplyOne(cfg, s.ops, ResetOp(u));
    case StoreLocked =>
      assert s.ops + AnswerTo(u, outcome, t) == s.ops;
  }

  /** In every interleaving, failures are recorded and successes reset, exactly those, in the order they came in. */
  lemma {:induction false} AnswersAreApplied(cfg: Config, handlers: nat, actions: seq<Action>)
    ensures var s := Run(cfg, handlers, actions);
            s.ops == Answers(cfg, handlers, actions) && s.users == Apply(cfg, s.ops)
  {
    if actions == [] {
    } else {
      var before, a := actions[..|actions| - 1], actions[|actions| - 1];
      var s := Run(cfg, handlers, before);
      AnswersAreApplied(cfg, handlers, before);
      if a.Finish? && a.k < |s.flights| && s.flights[a.k].Some? && a.t >= s.now {
        FinishAnswers(cfg, s, a.k, a.outcome, a.t);
      }
    }
  }

  // ----- Logins in flight -----

  function InFlight(flights: seq<Option<string>>, user: string): (n: nat)
    ensures n <= |flights|
  {
    if flights == [] then 0
    else InFlight(flights[..|flights| - 1], user) + (if flights[|flights| - 1] == Some(user) then 1 else 0)
  }

  lemma {:induction false} InFlightUpdate(flights: seq<Option<string>>, user: string, k: nat, f: Option<string>)
    requires k < |flights|
    ensures InFlight(flights[k := f], user) ==
            InFlight(flights, user) - (if flights[k] == Some(user) then 1 else 0) + (if f == Some(user) then 1 else 0)
  {
    var last := |flights| - 1;
    if k == last {
      assert flights[k := f][..last] == flights[..last];
    } else {
      InFlightUpdate(flights[..last], user, k, f);
      assert flights[k := f][..last] == flights[..last][k := f];
    }
  }

  lemma {:induction false} NoneInFlight(handlers: nat, user: string)
    ensures InFlight(Init(handlers).flights, user) == 0
  {
    if handlers == 0 {
    } else {
      NoneInFlight(handlers - 1, user);
      assert Init(handlers).flights[..handlers - 1] == Init(handlers - 1).flights;
    }
  }

  // ----- The rate of failures -----

  function Max(a: int, b: int): int {
    if a > b then a else b
  }

  /** Up to this time the user is locked out. */
  function Until(s: State, user: string): int {
    StateOf(s.users, user).lockedUntil
  }

  /** The lockout has seen exactly the failures of the user, in order. */
  ghost predicate Faithful(cfg: Config, s: State, user: string) {
    var ts := FailuresOf(s, user);
    && NonDecreasing(ts) && (ts != [] ==> ts[|ts| - 1] <= s.now)
    && StateOf(s.users, user) == After(cfg, ts)
  }

  /**
   * Within the window after `lo`: below the threshold the lock may be open, and then every handler may
   * have passed it; from the threshold on it is shut until the window ends.
   */
  ghost predicate WithinLimit(cfg: Config, handlers: nat, now: nat, count: nat, inFlight: nat, until: int, lo: int) {
    var hi, most := lo + cfg.window, Max(cfg.threshold, 1);
    && count <= most + handlers - 1
    && (now <= hi ==> count + inFlight <= most + handlers - 1)
    && (now <= hi && until <= hi ==> count < most)
  }

  ghost predicate Limited(cfg: Config, s: State, user: string, lo: int) {
    var count := CountIn(FailuresOf(s, user), lo, lo + cfg.window);
    WithinLimit(cfg, |s.flights|, s.now, count, InFlight(s.flights, user), Until(s, user), lo)
  }

  lemma CountNone(ts: seq<nat>, lo: int, hi: int)
    requires NonDecreasing(ts) && (ts != [] ==> ts[|ts| - 1] <= lo)
    ensures CountIn(ts, lo, hi) == 0
  {
    if CountIn(ts, lo, hi) > 0 {
      var i := CountIsRun(ts, lo, hi);
    }
  }

  /** A lock by one of the failures after `lo` would last beyond the window. */
  lemma LockIsEarlier(cfg: Config, ts: seq<nat>, lo: int, i: nat, k: int)
    requires cfg.duration >= cfg.window && NonDecreasing(ts) && i < |ts| && ts[i] > lo
    requires -1 <= k < |ts| && LockedUntil(cfg, ts, k) <= lo + cfg.window
    ensures k < i
  {
  }

  lemma UntilIsLastLock(cfg: Config, ts: seq<nat>)
    requires NonDecreasing(ts)
    ensures After(cfg, ts).lockedUntil == LockedUntil(cfg, ts, LastLock(cfg, ts))
  {
    RefinesHistory(cfg, ts);
  }

  /** The failures counted so far are the last ones, and none of them has locked the user until `hi`. */
  lemma LastOnesUnlocked(cfg: Config, ts: seq<nat>, lo: int, t: nat) returns (i: nat)
    requires cfg.duration >= cfg.window && NonDecreasing(ts) && (ts != [] ==> ts[|ts| - 1] <= t)
    requires lo < t <= lo + cfg.window && After(cfg, ts).lockedUntil <= lo + cfg.window
    ensures i + CountIn(ts, lo, lo + cfg.window) == |ts| && LastLock(cfg, ts) < i
    ensures forall j :: i <= j < |ts| ==> ts[j] > lo
  {
    i := |ts|;
    if CountIn(ts, lo, lo + cfg.window) > 0 {
      i := CountIsRun(ts, lo, lo + cfg.window);
      assert forall j :: i <= j < |ts| ==> ts[j] >= ts[i];
      UntilIsLastLock(cfg, ts);
      LockIsEarlier(cfg, ts, lo, i, LastLock(cfg, ts));
    }
  }

  lemma AppendKeepsOrder(ts: seq<nat>, t: nat)
    requires NonDecreasing(ts) && (ts != [] ==> ts[|ts| - 1] <= t)
    ensures NonDecreasing(ts + [t])
  {
  }

  /** The failure that reaches the threshold within the window locks the user until the window ends. */
  lemma ThresholdLocks(cfg: Config, ts: seq<nat>, lo: int, t: nat)
    requires cfg.duration >= cfg.window && NonDecreasing(ts) && (ts != [] ==> ts[|ts| - 1] <= t)
    requires lo < t <= lo + cfg.window && After(cfg, ts).lockedUntil <= lo + cfg.window
    requires CountIn(ts, lo, lo + cfg.window) == Max(cfg.threshold, 1) - 1
    ensures After(cfg, ts + [t]).lockedUntil > lo + cfg.window
  {
    var i := LastOnesUnlocked(cfg, ts, lo, t);
    FullWindowLocks(cfg, ts, i, t);
    AppendKeepsOrder(ts, t);
    UntilIsLastLock(cfg, ts + [t]);
  }

  lemma RecordIsListed(cfg: Config, s: State, user: string, who: string)
    ensures FailuresOf(Finished(cfg, s, who, Failure), user) ==
            if who == user then FailuresOf(s, user) + [s.now] else FailuresOf(s, user)
  {
    var ops := s.ops + [RecordOp(who, s.now)];
    assert ops[..|s.ops|] == s.ops;
  }

  /** What is recorded on top of the state after `ts` is the state after one more. */
  lemma RecordedAfter(cfg: Config, ts: seq<nat>, u: UserState, t: nat)
    requires u == After(cfg, ts)
    ensures Recorded(cfg, u, t) == After(cfg, ts + [t])
  {
    AfterStep(cfg, ts, t);
  }

  lemma RecordIsFaithful(cfg: Config, s: State, user: string, who: string)
    requires Faithful(cfg, s, user)
    ensures Faithful(cfg, Finished(cfg, s, who, Failure), user)
  {
    RecordIsListed(cfg, s, user, who);
    if who == user {
      AppendKeepsOrder(FailuresOf(s, user), s.now);
      RecordedAfter(cfg, FailuresOf(s, user), StateOf(s.users, user), s.now);
    }
  }

  lemma ResetIsFaithful(cfg: Config, s: State, user: string, who: string)
    requires Faithful(cfg, s, user)
    ensures Faithful(cfg, Finished(cfg, s, who, Success), user)
    ensures FailuresOf(Finished(cfg, s, who, Success), user) == if who == user then [] else FailuresOf(s, user)
  {
    assert Finished(cfg, s, who, Success).ops[..|s.ops|] == s.ops;
  }

  lemma LockStays(cfg: Config, ts: seq<nat>, hi: int, t: nat)
    requires After(cfg, ts).lockedUntil > hi && t + cfg.duration > hi
    ensures After(cfg, ts + [t]).lockedUntil > hi
  {
    RecordedAfter(cfg, ts, After(cfg, ts), t);
  }

  /** One more failure: one less in flight, at most one more counted, and the lock as it must be. */
  lemma FailureIsWithin(cfg: Config, handlers: nat, now: nat, ts: seq<nat>, inFlight: nat, lo: int, t: nat)
    requires cfg.duration >= cfg.window && NonDecreasing(ts) && (ts != [] ==> ts[|ts| - 1] <= t)
    requires now <= t && 1 <= inFlight <= handlers
    requires WithinLimit(cfg, handlers, now, CountIn(ts, lo, lo + cfg.window), inFlight, After(cfg, ts).lockedUntil, lo)
    ensures WithinLimit(cfg, handlers, t, CountIn(ts + [t], lo, lo + cfg.window), inFlight - 1,
                        After(cfg, ts + [t]).lockedUntil, lo)
  {
    var hi := lo + cfg.window;
    CountAppend(ts, t, lo, hi);
    if t <= lo {
      CountNone(ts, lo, hi);
    } else if After(cfg, ts).lockedUntil > hi {
      LockStays(cfg, ts, hi, t);
    } else if t <= hi && CountIn(ts, lo, hi) == Max(cfg.threshold, 1) - 1 {
      ThresholdLocks(cfg, ts, lo, t);
    }
  }

  lemma NextIsFaithful(cfg: Config, s: State, user: string, a: Action)
    requires Faithful(cfg, s, user)
    ensures Faithful(cfg, Next(cfg, s, a), user)
  {
    if a.Finish? && a.k < |s.flights| && s.flights[a.k].Some? && a.t >= s.now {
      var who, landed := s.flights[a.k].value, s.(now := a.t, flights := s.flights[a.k := None]);
      assert Next(cfg, s, a) == Finished(cfg, landed, who, a.outcome);
      assert Faithful(cfg, landed, user);
      if a.outcome.Failure? {
        RecordIsFaithful(cfg, landed, user, who);
      } else if a.outcome.Success? {
        ResetIsFaithful(cfg, landed, user, who);
      }
    }
  }

  lemma {:induction false} RunIsFaithful(cfg: Config, handlers: nat, actions: seq<Action>, user: string)
    ensures Faithful(cfg, Run(cfg, handlers, actions), user)
  {
    if actions == [] {
    } else {
      RunIsFaithful(cfg, handlers, actions[..|actions| - 1], user);
      NextIsFaithful(cfg, Run(cfg, handlers, actions[..|actions| - 1]), user, actions[|actions| - 1]);
    }
  }

  lemma CheckEffect(cfg: Config, s: State, k: nat, user: string, t: nat)
    requires k < |s.flights| && s.flights[k].None? && t >= s.now
    ensures var s' := Next(cfg, s, Check(k, user, t));
            && s'.users == s.users && s'.ops == s.ops && s'.now == t
            && s'.flights == if t < Until(s, user) then s.flights else s.flights[k := Some(user)]
  {
  }

  /** In every interleaving, a handler passes the check exactly if no lock of the user's failures is running. */
  lemma CheckPassesIff(cfg: Config, handlers: nat, actions: seq<Action>, k: nat, user: string, t: nat)
    requires var s := Run(cfg, handlers, actions); k < |s.flights| && s.flights[k].None? && t >= s.now
    ensures var s := Run(cfg, handlers, actions); var ts := FailuresOf(s, user); var last := LastLock(cfg, ts);
            var s' := Next(cfg, s, Check(k, user, t));
            && s'.now == t && s'.users == s.users
            && s'.flights ==
               if last >= 0 && t < ts[last] + cfg.duration then s.flights else s.flights[k := Some(user)]
  {
    var s := Run(cfg, handlers, actions);
    AnswersAreApplied(cfg, handlers, actions);
    RunIsFaithful(cfg, handlers, actions, user);
    IsLockedFromHistory(cfg, s.ops, user, t);
    CheckEffect(cfg, s, k, user, t);
  }

  /** A failure of the user takes its login out of flight and puts it on the list. */
  lemma FailureEffect(cfg: Config, s: State, user: string, k: nat, t: nat)
    requires Faithful(cfg, s, user) && k < |s.flights| && s.flights[k] == Some(user) && t >= s.now
    ensures var s', ts := Next(cfg, s, Finish(k, Failure, t)), FailuresOf(s, user);
            && s'.now == t && s'.flights == s.flights[k := None]
            && FailuresOf(s', user) == ts + [t] && Faithful(cfg, s', user)
            && Until(s', user) == After(cfg, ts + [t]).lockedUntil
  {
    var landed := s.(now := t, flights := s.flights[k := None]);
    assert Next(cfg, s, Finish(k, Failure, t)) == Finished(cfg, landed, user, Failure);
    RecordIsFaithful(cfg, landed, user, user);
    RecordIsListed(cfg, landed, user, user);
  }

  lemma FailureIsLimited(cfg: Config, s: State, s': State, user: string, lo: int, k: nat, t: nat)
    requires cfg.duration >= cfg.window && Faithful(cfg, s, user) && Limited(cfg, s, user, lo)
    requires k < |s.flights| && s.flights[k] == Some(user) && t >= s.now
    requires s'.now == t && s'.flights == s.flights[k := None] && FailuresOf(s', user) == FailuresOf(s, user) + [t]
    requires Until(s', user) == After(cfg, FailuresOf(s', user)).lockedUntil
    ensures Limited(cfg, s', user, lo)
  {
    InFlightUpdate(s.flights, user, k, None);
    FailureIsWithin(cfg, |s.flights|, s.now, FailuresOf(s, user), InFlight(s.flights, user), lo, t);
  }

  /** A login of the user takes off only when the lock is open, so fewer than the threshold are counted. */
  lemma CheckIsLimited(cfg: Config, s: State, user: string, lo: int, k: nat, who: string, t: nat)
    requires Limited(cfg, s, user, lo) && k < |s.flights| && t >= s.now
    ensures Limited(cfg, Next(cfg, s, Check(k, who, t)), user, lo)
  {
    InFlightUpdate(s.flights, user, k, Some(who));
  }

  /** What concerns another user, or nobody, only lets time pass and handlers land. */
  lemma LandingKeepsLimits(cfg: Config, s: State, s': State, user: string, lo: int, k: nat)
    requires Limited(cfg, s, user, lo) && k < |s.flights| && s'.flights == s.flights[k := None] && s'.now >= s.now
    requires FailuresOf(s', user) == [] || FailuresOf(s', user) == FailuresOf(s, user)
    requires FailuresOf(s', user) != [] ==> StateOf(s'.users, user) == StateOf(s.users, user)
    ensures Limited(cfg, s', user, lo)
  {
    InFlightUpdate(s.flights, user, k, None);
  }

  lemma FinishKeepsLimits(cfg: Config, s: State, user: string, lo: int, k: nat, outcome: Outcome, t: nat)
    requires cfg.duration >= cfg.window && Faithful(cfg, s, user) && Limited(cfg, s, user, lo)
    requires k < |s.flights| && s.flights[k].Some? && t >= s.now
    ensures var s' := Next(cfg, s, Finish(k, outcome, t)); Faithful(cfg, s', user) && Limited(cfg, s', user, lo)
  {
    var who, landed := s.flights[k].value, s.(now := t, flights := s.flights[k := None]);
    var s' := Next(cfg, s, Finish(k, outcome, t));
    assert s' == Finished(cfg, landed, who, outcome);
    if outcome.Failure? && who == user {
      FailureEffect(cfg, s, user, k, t);
      FailureIsLimited(cfg, s, s', user, lo, k, t);
    } else {
      assert Faithful(cfg, landed, user);
      if outcome.Success? {
        ResetIsFaithful(cfg, landed, user, who);
      } else if outcome.Failure? {
        RecordIsFaithful(cfg, landed, user, who);
        RecordIsListed(cfg, landed, user, who);
      }
      LandingKeepsLimits(cfg, s, s', user, lo, k);
    }
  }

  lemma NextKeepsLimits(cfg: Config, s: State, user: string, lo: int, a: Action)
    requires cfg.duration >= cfg.window && Faithful(cfg, s, user) && Limited(cfg, s, user, lo)
    ensures var s' := Next(cfg, s, a); Faithful(cfg, s', user) && Limited(cfg, s', user, lo)
  {
    if Next(cfg, s, a) != s {
      match a
      case Check(k, who, t) =>
        CheckIsLimited(cfg, s, user, lo, k, who, t);
      case Finish(k, outcome, t) =>
        FinishKeepsLimits(cfg, s, user, lo, k, outcome, t);
    }
  }

  lemma {:induction false} RunKeepsLimits(cfg: Config, handlers: nat, actions: seq<Action>, user: string, lo: int)
    requires cfg.duration >= cfg.window
    ensures var s := Run(cfg, handlers, actions);
            |s.flights| == handlers && Faithful(cfg, s, user) && Limited(cfg, s, user, lo)
  {
    if actions == [] {
      NoneInFlight(handlers, user);
    } else {
      RunKeepsLimits(cfg, handlers, actions[..|actions| - 1], user, lo);
      NextKeepsLimits(cfg, Run(cfg, handlers, actions[..|actions| - 1]), user, lo, actions[|actions| - 1]);
    }
  }

  /** The failures of a user since its last success in the window after `lo`. */
  function RateIn(cfg: Config, s: State, user: string, lo: int): nat {
    CountIn(FailuresOf(s, user), lo, lo + cfg.window)
  }

  /**
   * With a lock of at least a window, every interval of one window has at most `max(threshold, 1)`
   * failures of a user since its last success, and one more for every further handler.
   */
  lemma FailureRate(cfg: Config, handlers: nat, actions: seq<Action>, user: string, lo: int)
    requires cfg.duration >= cfg.window
    ensures RateIn(cfg, Run(cfg, handlers, actions), user, lo) <= Max(cfg.threshold, 1) + handlers - 1
  {
    RunKeepsLimits(cfg, handlers, actions, user, lo);
  }

  // ----- The bound is reached -----

  /** As many failures, all at time 0. */
  function Copies(n: nat): seq<nat> {
    seq(n, _ => 0)
  }

  lemma CopiesStep(n: nat)
    requires n > 0
    ensures Copies(n) == Copies(n - 1) + [0]
  {
  }

  lemma RecordAtZero(cfg: Config, ts: seq<nat>, n: nat)
    requires var u := After(cfg, ts); |u.failures| <= n && (u.lockedUntil == 0 || u.lockedUntil == cfg.duration)
    ensures var u, u' := After(cfg, ts), After(cfg, ts + [0]);
            && |u'.failures| <= n + 1 && (u'.lockedUntil == u.lockedUntil || u'.lockedUntil == cfg.duration)
            && (n + 1 < cfg.threshold ==> u'.lockedUntil == u.lockedUntil)
  {
    RecordedAfter(cfg, ts, After(cfg, ts), 0);
    KeptIsShorter(After(cfg, ts).failures, Later(0 - cfg.window));
  }

  /** Below the threshold nothing locks, and a lock set at time 0 lasts for the duration. */
  lemma {:induction false} AfterCopies(cfg: Config, n: nat)
    ensures var u := After(cfg, Copies(n));
            && |u.failures| <= n && (u.lockedUntil == 0 || u.lockedUntil == cfg.duration)
            && (n < Max(cfg.threshold, 1) ==> u.lockedUntil == 0)
  {
    if n == 0 {
    } else {
      AfterCopies(cfg, n - 1);
      CopiesStep(n);
      RecordAtZero(cfg, Copies(n - 1), n - 1);
    }
  }

  lemma {:induction false} CountCopies(n: nat, lo: int, hi: int)
    requires lo < 0 <= hi
    ensures CountIn(Copies(n), lo, hi) == n
  {
    if n == 0 {
    } else {
      CountCopies(n - 1, lo, hi);
      CopiesStep(n);
      CountAppend(Copies(n - 1), 0, lo, hi);
    }
  }

  /** At time 0, with `n` failures recorded and the handlers from `a` to `b` in flight. */
  ghost predicate Poised(cfg: Config, s: State, n: nat, a: nat, b: nat) {
    && s.now == 0 && Faithful(cfg, s, "u") && FailuresOf(s, "u") == Copies(n)
    && a <= b <= |s.flights|
    && forall i :: 0 <= i < |s.flights| ==> s.flights[i] == if a <= i < b then Some("u") else None
  }

  lemma CheckPasses(cfg: Config, s: State, k: nat, user: string, t: nat)
    requires k < |s.flights| && s.flights[k].None? && t >= s.now && t >= Until(s, user)
    ensures Next(cfg, s, Check(k, user, t)) == s.(now := t, flights := s.flights[k := Some(user)])
  {
  }

  lemma TakeOff(cfg: Config, s: State, n: nat, a: nat, b: nat)
    requires Poised(cfg, s, n, a, b) && b < |s.flights| && n < Max(cfg.threshold, 1)
    ensures Poised(cfg, Next(cfg, s, Check(b, "u", 0)), n, a, b + 1)
  {
    AfterCopies(cfg, n);
    CheckPasses(cfg, s, b, "u", 0);
    var t := s.(flights := s.flights[b := Some("u")]);
    assert FailuresOf(t, "u") == FailuresOf(s, "u");
  }

  lemma Land(cfg: Config, s: State, n: nat, a: nat, b: nat)
    requires Poised(cfg, s, n, a, b) && a < b
    ensures Poised(cfg, Next(cfg, s, Finish(a, Failure, 0)), n + 1, a + 1, b)
  {
    FailureEffect(cfg, s, "u", a, 0);
    CopiesStep(n + 1);
  }

  lemma RunStep(cfg: Config, handlers: nat, actions: seq<Action>, a: Action)
    ensures Run(cfg, handlers, actions + [a]) == Next(cfg, Run(cfg, handlers, actions), a)
  {
    assert (actions + [a])[..|actions|] == actions;
  }

  lemma RunTwo(cfg: Config, handlers: nat, actions: seq<Action>, a: Action, b: Action)
    ensures Run(cfg, handlers, actions + [a, b]) == Next(cfg, Next(cfg, Run(cfg, handlers, actions), a), b)
  {
    assert actions + [a, b] == actions + [a] + [b];
    RunStep(cfg, handlers, actions, a);
    RunStep(cfg, handlers, actions + [a], b);
  }

  /** One handler fails again and again, staying below the threshold. */
  lemma {:induction false} Burst(cfg: Config, handlers: nat, n: nat) returns (actions: seq<Action>)
    requires handlers >= 1 && n < Max(cfg.threshold, 1)
    ensures |Run(cfg, handlers, actions).flights| == handlers && Poised(cfg, Run(cfg, handlers, actions), n, 0, 0)
  {
    if n == 0 {
      actions := [];
    } else {
      var before := Burst(cfg, handlers, n - 1);
      RunStep(cfg, handlers, before, Check(0, "u", 0));
      TakeOff(cfg, Run(cfg, handlers, before), n - 1, 0, 0);
      var checked := before + [Check(0, "u", 0)];
      RunStep(cfg, handlers, checked, Finish(0, Failure, 0));
      Land(cfg, Run(cfg, handlers, checked), n - 1, 0, 1);
      actions := checked + [Finish(0, Failure, 0)];
    }
  }

  /** One failure short of the threshold, `j` handlers pass the check. */
  lemma {:induction false} AllTakeOff(cfg: Config, handlers: nat, j: nat) returns (actions: seq<Action>)
    requires handlers >= 1 && j <= handlers
    ensures |Run(cfg, handlers, actions).flights| == handlers
    ensures Poised(cfg, Run(cfg, handlers, actions), Max(cfg.threshold, 1) - 1, 0, j)
  {
    if j == 0 {
      actions := Burst(cfg, handlers, Max(cfg.threshold, 1) - 1);
    } else {
      var before := AllTakeOff(cfg, handlers, j - 1);
      RunStep(cfg, handlers, before, Check(j - 1, "u", 0));
      TakeOff(cfg, Run(cfg, handlers, before), Max(cfg.threshold, 1) - 1, 0, j - 1);
      actions := before + [Check(j - 1, "u", 0)];
    }
  }

  /** Then all handlers are in flight, and `j` of them fail. */
  lemma {:induction false} AllLand(cfg: Config, handlers: nat, j: nat) returns (actions: seq<Action>)
    requires handlers >= 1 && j <= handlers
    ensures |Run(cfg, handlers, actions).flights| == handlers
    ensures Poised(cfg, Run(cfg, handlers, actions), Max(cfg.threshold, 1) - 1 + j, j, handlers)
  {
    if j == 0 {
      actions := AllTakeOff(cfg, handlers, handlers);
    } else {
      var before := AllLand(cfg, handlers, j - 1);
      RunStep(cfg, handlers, before, Finish(j - 1, Failure, 0));
      Land(cfg, Run(cfg, handlers, before), Max(cfg.threshold, 1) - 2 + j, j - 1, handlers);
      actions := before + [Finish(j - 1, Failure, 0)];
    }
  }

  /** The bound is tight: some run reaches it, however long the lock lasts. */
  lemma RateIsReached(cfg: Config, handlers: nat) returns (actions: seq<Action>)
    requires handlers >= 1 && cfg.window > 0
    ensures RateIn(cfg, Run(cfg, handlers, actions), "u", -1) == Max(cfg.threshold, 1) + handlers - 1
  {
    actions := AllLand(cfg, handlers, handlers);
    CountCopies(Max(cfg.threshold, 1) + handlers - 1, -1, -1 + cfg.window);
  }

  /** A failure after the lock of such a burst is recorded as well. */
  lemma OneMore(cfg: Config, s: State, n: nat, b: nat, t: nat)
    requires Poised(cfg, s, n, b, b) && |s.flights| > 0 && t >= cfg.duration
    ensures FailuresOf(Next(cfg, Next(cfg, s, Check(0, "u", t)), Finish(0, Failure, t)), "u") == Copies(n) + [t]
  {
    AfterCopies(cfg, n);
    CheckPasses(cfg, s, 0, "u", t);
    var checked := s.(now := t, flights := s.flights[0 := Some("u")]);
    assert Faithful(cfg, checked, "u");
    FailureEffect(cfg, checked, "u", 0, t);
  }

  lemma OneMoreInRun(cfg: Config, handlers: nat, burst: seq<Action>, n: nat, t: nat)
    requires handlers >= 1 && |Run(cfg, handlers, burst).flights| == handlers && t >= cfg.duration
    requires Poised(cfg, Run(cfg, handlers, burst), n, handlers, handlers)
    ensures FailuresOf(Run(cfg, handlers, burst + [Check(0, "u", t), Finish(0, Failure, t)]), "u") == Copies(n) + [t]
  {
    OneMore(cfg, Run(cfg, handlers, burst), n, handlers, t);
    RunTwo(cfg, handlers, burst, Check(0, "u", t), Finish(0, Failure, t));
  }

  lemma CountCopiesAndOne(n: nat, t: nat, hi: int)
    requires t <= hi
    ensures CountIn(Copies(n) + [t], -1, hi) == n + 1
  {
    CountCopies(n, -1, hi);
    CountAppend(Copies(n), t, -1, hi);
  }

  /** With a lock shorter than the window, one more failure fits in. */
  lemma ShortLockExceeds(cfg: Config, handlers: nat) returns (actions: seq<Action>)
    requires handlers >= 1 && 0 < cfg.window && cfg.duration < cfg.window
    ensures RateIn(cfg, Run(cfg, handlers, actions), "u", -1) == Max(cfg.threshold, 1) + handlers
  {
    var n, t := Max(cfg.threshold, 1) + handlers - 1, Max(cfg.duration, 0);
    var burst := AllLand(cfg, handlers, handlers);
    OneMoreInRun(cfg, handlers, burst, n, t);
    actions := burst + [Check(0, "u", t), Finish(0, Failure, t)];
    CountCopiesAndOne(n, t, -1 + cfg.window);
  }

  ghost predicate KeepsRate(cfg: Config, handlers: nat, limit: int) {
    forall actions, user, lo :: RateIn(cfg, Run(cfg, handlers, actions), user, lo) <= limit
  }

  /** Every run keeps the bound exactly when the lock lasts at least as long as the window. */
  lemma RateBoundIffLongLock(cfg: Config, handlers: nat)
    requires cfg.window > 0 && handlers >= 1
    ensures KeepsRate(cfg, handlers, Max(cfg.threshold, 1) + handlers - 1) <==> cfg.duration >= cfg.window
  {
    if cfg.duration >= cfg.window {
      forall actions, user, lo
        ensures RateIn(cfg, Run(cfg, handlers, actions), user, lo) <= Max(cfg.threshold, 1) + handlers - 1
      {
        FailureRate(cfg, handlers, actions, user, lo);
      }
    } else {
      var actions := ShortLockExceeds(cfg, handlers);
    }
  }

  /** No run exceeds the threshold exactly when the lock lasts a window and no two logins overlap. */
  lemma ThresholdKeptIff(cfg: Config, handlers: nat)
    requires cfg.window > 0 && handlers >= 1
    ensures KeepsRate(cfg, handlers, Max(cfg.threshold, 1)) <==> cfg.duration >= cfg.window && handlers == 1
  {
    RateBoundIffLongLock(cfg, handlers);
    if handlers > 1 {
      var actions := RateIsReached(cfg, handlers);
      assert RateIn(cfg, Run(cfg, handlers, actions), "u", -1) > Max(cfg.threshold, 1);
    }
  }
}
