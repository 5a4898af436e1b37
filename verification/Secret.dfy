/** `EnsureSecret`: any number of callers agree on one secret through GET, SETNX and GET. */
module Secret {
  import opened Results

  type Bytes = seq<bv8>

  /** Where a call is. `Absent` has read that the key does not exist, `Lost` that its SETNX came too late. */
  datatype Phase = Started | Absent | Generated(buf: Bytes) | Lost | Returned(secret: Bytes) | Failed

  /** What happens to a SETNX: answered, carried out but the answer lost, or not carried out. */
  datatype Fate = Answered | AnswerLost | NotSent

  /** `wins` records the callers whose SETNX wrote the key. */
  datatype State = State(key: Option<Bytes>, callers: seq<Phase>, bufs: seq<Option<Bytes>>, wins: seq<nat>)

  datatype Action =
    | Get(k: nat, fails: bool)
    | Generate(k: nat, buf: Bytes)
    | GiveUp(k: nat)
    | SetNX(k: nat, fate: Fate)
    | GetAgain(k: nat, fails: bool)

  function Init(initial: Option<Bytes>, callers: nat): State {
    State(initial, seq(callers, _ => Started), seq(callers, _ => None), [])
  }

  function Moved(s: State, k: nat, p: Phase): State
    requires k < |s.callers|
  {
    s.(callers := s.callers[k := p])
  }

  function Read(s: State, k: nat, missing: Phase): State
    requires k < |s.callers|
  {
    Moved(s, k, if s.key.Some? then Returned(s.key.value) else missing)
  }

  /** One step of one caller; a step that is not enabled changes nothing. */
  function Next(s: State, a: Action): State {
    if a.k >= |s.callers| || |s.bufs| != |s.callers| then s
    else
      var p := s.callers[a.k];
      match a
      case Get(k, fails) =>
        if !p.Started? then s else if fails then Moved(s, k, Failed) else Read(s, k, Absent)
      case Generate(k, buf) =>
        if !p.Absent? then s else Moved(s, k, Generated(buf)).(bufs := s.bufs[k := Some(buf)])
      case GiveUp(k) =>
        // A nil client, an empty key, or no random bytes.
        if p.Started? || p.Absent? then Moved(s, k, Failed) else s
      case SetNX(k, fate) =>
        if !p.Generated? then s
        else
          var t := if fate.NotSent? || s.key.Some? then s else s.(key := Some(p.buf), wins := s.wins + [k]);
          Moved(t, k, if !fate.Answered? then Failed else if s.key.Some? then Lost else Returned(p.buf))
      case GetAgain(k, fails) =>
        if !p.Lost? then s else if fails then Moved(s, k, Failed) else Read(s, k, Failed)
  }

  function Run(initial: Option<Bytes>, callers: nat, actions: seq<Action>): State {
    if actions == [] then Init(initial, callers)
    else Next(Run(initial, callers, actions[..|actions| - 1]), actions[|actions| - 1])
  }

  /** The key holds the initial value, or the bytes of the one caller that wrote it. */
  ghost predicate KeyOrigin(s: State, initial: Option<Bytes>) {
    if initial.Some? then s.key == initial && s.wins == []
    else if s.key.None? then s.wins == []
    else |s.wins| == 1 && s.wins[0] < |s.bufs| && s.bufs[s.wins[0]] == s.key
  }

  ghost predicate Inv(s: State, initial: Option<Bytes>) {
    && |s.callers| == |s.bufs|
    && KeyOrigin(s, initial)
    && (forall k :: 0 <= k < |s.callers| && s.callers[k].Returned? ==> s.key == Some(s.callers[k].secret))
    && (forall k :: 0 <= k < |s.callers| && s.callers[k].Lost? ==> s.key.Some?)
    && (forall k :: 0 <= k < |s.callers| && s.callers[k].Generated? ==> s.bufs[k] == Some(s.callers[k].buf))
    && (forall k :: 0 <= k < |s.callers| && (s.callers[k].Started? || s.callers[k].Absent?) ==> s.bufs[k] == None)
  }

  /** A caller may move to any phase that agrees with the key and with what it generated. */
  ghost predicate Fits(s: State, k: nat, p: Phase)
    requires k < |s.bufs|
  {
    match p
    case Returned(b) => s.key == Some(b)
    case Lost => s.key.Some?
    case Generated(b) => s.bufs[k] == Some(b)
    case Failed => true
    case _ => s.bufs[k] == None
  }

  lemma MovedKeepsInv(s: State, initial: Option<Bytes>, k: nat, p: Phase)
    requires Inv(s, initial) && k < |s.callers| && Fits(s, k, p)
    ensures Inv(Moved(s, k, p), initial)
  {
  }

  lemma GenerateKeepsInv(s: State, initial: Option<Bytes>, k: nat, buf: Bytes)
    requires Inv(s, initial) && k < |s.callers| && s.callers[k].Absent?
    ensures Inv(Moved(s, k, Generated(buf)).(bufs := s.bufs[k := Some(buf)]), initial)
  {
  }

  /** The first SETNX decides the key; nothing was returned before it. */
  lemma WinKeepsInv(s: State, initial: Option<Bytes>, k: nat)
    requires Inv(s, initial) && k < |s.callers| && s.callers[k].Generated? && s.key.None?
    ensures Inv(s.(key := Some(s.callers[k].buf), wins := s.wins + [k]), initial)
  {
  }

  lemma NextKeepsInv(s: State, initial: Option<Bytes>, a: Action)
    requires Inv(s, initial)
    ensures Inv(Next(s, a), initial)
    ensures s.key.Some? ==> Next(s, a).key == s.key
  {
    if a.k < |s.callers| && Next(s, a) != s {
      var k, p, t := a.k, s.callers[a.k], Next(s, a);
      match a
      case Generate(_, buf) =>
        GenerateKeepsInv(s, initial, k, buf);
      case SetNX(_, fate) =>
        if fate.NotSent? || s.key.Some? {
          MovedKeepsInv(s, initial, k, t.callers[k]);
        } else {
          WinKeepsInv(s, initial, k);
          MovedKeepsInv(s.(key := Some(p.buf), wins := s.wins + [k]), initial, k, t.callers[k]);
        }
      case _ =>
        MovedKeepsInv(s, initial, k, t.callers[k]);
    }
  }

  lemma {:induction false} RunKeepsInv(initial: Option<Bytes>, callers: nat, actions: seq<Action>)
    ensures Inv(Run(initial, callers, actions), initial)
  {
    if actions == [] {
    } else {
      var before := actions[..|actions| - 1];
      RunKeepsInv(initial, callers, before);
      NextKeepsInv(Run(initial, callers, before), initial, actions[|actions| - 1]);
    }
  }

  /**
   * In every interleaving, callers that return without error return the same bytes: the initial
   * value, or what exactly one caller generated.
   */
  lemma CallersAgree(initial: Option<Bytes>, callers: nat, actions: seq<Action>, j: nat, k: nat)
    requires var s := Run(initial, callers, actions);
             j < |s.callers| && k < |s.callers| && s.callers[j].Returned? && s.callers[k].Returned?
    ensures var s := Run(initial, callers, actions);
            && s.callers[j].secret == s.callers[k].secret
            && (initial.Some? ==> s.callers[j].secret == initial.value)
            && (initial.None? ==>
                  |s.wins| == 1 && s.wins[0] < |s.bufs| && s.bufs[s.wins[0]] == Some(s.callers[j].secret))
  {
    RunKeepsInv(initial, callers, actions);
  }

  /** In every interleaving, the read after a lost race finds the winner's value. */
  lemma LostRaceFindsWinner(initial: Option<Bytes>, callers: nat, actions: seq<Action>, k: nat)
    requires var s := Run(initial, callers, actions); k < |s.callers| && s.callers[k].Lost?
    ensures var s := Run(initial, callers, actions);
            s.key.Some? && Next(s, GetAgain(k, false)).callers[k] == Returned(s.key.value)
  {
    RunKeepsInv(initial, callers, actions);
  }

  // ----- Who fails and who returns -----

  /** The caller's step fails: its own read or write, or its random bytes. */
  predicate Fails(p: Phase, a: Action) {
    match a
    case Get(_, fails) => p.Started? && fails
    case Generate(_, _) => false
    case GiveUp(_) => p.Started? || p.Absent?
    case SetNX(_, fate) => p.Generated? && fate != Answered
    case GetAgain(_, fails) => p.Lost? && fails
  }

  lemma StepFailsIff(s: State, initial: Option<Bytes>, a: Action, k: nat)
    requires Inv(s, initial) && k < |s.callers|
    ensures |Next(s, a).callers| == |s.callers|
    ensures Next(s, a).callers[k].Failed? <==> s.callers[k].Failed? || (a.k == k && Fails(s.callers[k], a))
  {
  }

  /** The phase of a caller after some steps of a run. */
  function PhaseAt(initial: Option<Bytes>, callers: nat, actions: seq<Action>, k: nat, n: nat): Phase
    requires n <= |actions|
  {
    var s := Run(initial, callers, actions[..n]);
    if k < |s.callers| then s.callers[k] else Failed
  }

  ghost predicate FailsAt(initial: Option<Bytes>, callers: nat, actions: seq<Action>, k: nat, n: nat)
    requires n < |actions|
  {
    actions[n].k == k && Fails(PhaseAt(initial, callers, actions, k, n), actions[n])
  }

  lemma RunPrefix(initial: Option<Bytes>, callers: nat, actions: seq<Action>, n: nat)
    requires n < |actions|
    ensures Run(initial, callers, actions[..n + 1]) == Next(Run(initial, callers, actions[..n]), actions[n])
  {
    assert actions[..n + 1][..n] == actions[..n];
  }

  lemma {:induction false} CallersKept(initial: Option<Bytes>, callers: nat, actions: seq<Action>)
    ensures |Run(initial, callers, actions).callers| == callers
  {
    if actions == [] {
    } else {
      CallersKept(initial, callers, actions[..|actions| - 1]);
    }
  }

  lemma PhaseFailsIff(initial: Option<Bytes>, callers: nat, actions: seq<Action>, k: nat, n: nat)
    requires k < callers && n < |actions|
    ensures PhaseAt(initial, callers, actions, k, n + 1).Failed? <==>
            PhaseAt(initial, callers, actions, k, n).Failed? || FailsAt(initial, callers, actions, k, n)
  {
    CallersKept(initial, callers, actions[..n]);
    RunKeepsInv(initial, callers, actions[..n]);
    RunPrefix(initial, callers, actions, n);
    StepFailsIff(Run(initial, callers, actions[..n]), initial, actions[n], k);
  }

  ghost predicate FailsBefore(initial: Option<Bytes>, callers: nat, actions: seq<Action>, k: nat, n: nat)
    requires n <= |actions|
  {
    exists m :: 0 <= m < n && FailsAt(initial, callers, actions, k, m)
  }

  lemma {:induction false} FailedSince(initial: Option<Bytes>, callers: nat, actions: seq<Action>, k: nat, n: nat)
    requires k < callers && n <= |actions|
    ensures PhaseAt(initial, callers, actions, k, n).Failed? <==> FailsBefore(initial, callers, actions, k, n)
  {
    if n == 0 {
      assert actions[..0] == [];
    } else {
      FailedSince(initial, callers, actions, k, n - 1);
      PhaseFailsIff(initial, callers, actions, k, n - 1);
      if FailsAt(initial, callers, actions, k, n - 1) {
        assert FailsBefore(initial, callers, actions, k, n);
      }
    }
  }

  /** In every interleaving, a caller gets an error exactly if one of its own steps failed. */
  lemma FailureIsOwn(initial: Option<Bytes>, callers: nat, actions: seq<Action>, k: nat)
    requires k < callers
    ensures |Run(initial, callers, actions).callers| == callers
    ensures Run(initial, callers, actions).callers[k].Failed? <==>
            FailsBefore(initial, callers, actions, k, |actions|)
  {
    assert actions[..|actions|] == actions;
    CallersKept(initial, callers, actions);
    FailedSince(initial, callers, actions, k, |actions|);
  }

  /** What a step that does not fail makes of the caller that takes it; nobody else moves. */
  lemma StepSucceeds(s: State, initial: Option<Bytes>, a: Action)
    requires Inv(s, initial) && a.k < |s.callers| && !Fails(s.callers[a.k], a)
    ensures var p, t := s.callers[a.k], Next(s, a); var q := t.callers[a.k];
            && t.callers == s.callers[a.k := q]
            && (p.Started? && a.Get? ==> q == if s.key.Some? then Returned(s.key.value) else Absent)
            && (p.Absent? && a.Generate? ==> q == Generated(a.buf))
            && (p.Generated? && a.SetNX? ==> q == if s.key.Some? then Lost else Returned(p.buf))
            && (p.Lost? && a.GetAgain? ==> s.key.Some? && q == Returned(s.key.value))
            && (a.SetNX? && p.Generated? && s.key.None? ==> t.key == Some(p.buf) && t.wins == s.wins + [a.k])
  {
  }

  /** How many of GET, generation, SETNX and GET the caller has behind it. */
  function Progress(p: Phase): nat {
    match p
    case Started => 0
    case Absent => 1
    case Generated(_) => 2
    case Lost => 3
    case _ => 4
  }

  lemma StepAdvances(s: State, initial: Option<Bytes>, a: Action, k: nat)
    requires Inv(s, initial) && k < |s.callers|
    ensures var p, q := s.callers[k], Next(s, a).callers[k];
            && Progress(q) >= Progress(p)
            && (a.k == k && a.Get? ==> Progress(q) >= 1)
            && (a.k == k && a.Generate? && Progress(p) >= 1 ==> Progress(q) >= 2)
            && (a.k == k && a.SetNX? && Progress(p) >= 2 ==> Progress(q) >= 3)
            && (a.k == k && a.GetAgain? && Progress(p) >= 3 ==> Progress(q) >= 4)
  {
  }

  lemma PhaseAdvances(initial: Option<Bytes>, callers: nat, actions: seq<Action>, k: nat, n: nat)
    requires k < callers && n < |actions|
    ensures var p, q := PhaseAt(initial, callers, actions, k, n), PhaseAt(initial, callers, actions, k, n + 1);
            var a := actions[n];
            && Progress(q) >= Progress(p)
            && (a.k == k && a.Get? ==> Progress(q) >= 1)
            && (a.k == k && a.Generate? && Progress(p) >= 1 ==> Progress(q) >= 2)
            && (a.k == k && a.SetNX? && Progress(p) >= 2 ==> Progress(q) >= 3)
            && (a.k == k && a.GetAgain? && Progress(p) >= 3 ==> Progress(q) >= 4)
  {
    CallersKept(initial, callers, actions[..n]);
    CallersKept(initial, callers, actions[..n + 1]);
    RunKeepsInv(initial, callers, actions[..n]);
    RunPrefix(initial, callers, actions, n);
    StepAdvances(Run(initial, callers, actions[..n]), initial, actions[n], k);
  }

  lemma {:induction false} ProgressGrows(initial: Option<Bytes>, callers: nat, actions: seq<Action>, k: nat,
                                         m: nat, n: nat)
    requires k < callers && m <= n <= |actions|
    ensures Progress(PhaseAt(initial, callers, actions, k, m)) <= Progress(PhaseAt(initial, callers, actions, k, n))
    decreases n
  {
    if m == n {
    } else {
      ProgressGrows(initial, callers, actions, k, m, n - 1);
      PhaseAdvances(initial, callers, actions, k, n - 1);
    }
  }

  /** Four steps of one caller, in order, with anything in between. */
  ghost predicate FourSteps(actions: seq<Action>, k: nat, n0: nat, n1: nat, n2: nat, n3: nat) {
    && n0 < n1 < n2 < n3 < |actions|
    && actions[n0].Get? && actions[n1].Generate? && actions[n2].SetNX? && actions[n3].GetAgain?
    && actions[n0].k == actions[n1].k == actions[n2].k == actions[n3].k == k
  }

  lemma TwoStepsAreHalf(initial: Option<Bytes>, callers: nat, actions: seq<Action>, k: nat, n0: nat, n1: nat)
    requires k < callers && n0 < n1 < |actions| && actions[n0].k == actions[n1].k == k
    requires actions[n0].Get? && actions[n1].Generate?
    ensures Progress(PhaseAt(initial, callers, actions, k, n1 + 1)) >= 2
  {
    PhaseAdvances(initial, callers, actions, k, n0);
    ProgressGrows(initial, callers, actions, k, n0 + 1, n1);
    PhaseAdvances(initial, callers, actions, k, n1);
  }

  lemma FourStepsAreEnough(initial: Option<Bytes>, callers: nat, actions: seq<Action>, k: nat,
                           n0: nat, n1: nat, n2: nat, n3: nat)
    requires k < callers && FourSteps(actions, k, n0, n1, n2, n3)
    ensures Progress(PhaseAt(initial, callers, actions, k, |actions|)) >= 4
  {
    TwoStepsAreHalf(initial, callers, actions, k, n0, n1);
    ProgressGrows(initial, callers, actions, k, n1 + 1, n2);
    PhaseAdvances(initial, callers, actions, k, n2);
    ProgressGrows(initial, callers, actions, k, n2 + 1, n3);
    PhaseAdvances(initial, callers, actions, k, n3);
    ProgressGrows(initial, callers, actions, k, n3 + 1, |actions|);
  }

  /**
   * In every interleaving, a caller that has taken its four steps without a failure of its own has
   * returned what is stored.
   */
  lemma CallerReturns(initial: Option<Bytes>, callers: nat, actions: seq<Action>, k: nat,
                      n0: nat, n1: nat, n2: nat, n3: nat)
    requires k < callers && FourSteps(actions, k, n0, n1, n2, n3)
    requires !FailsBefore(initial, callers, actions, k, |actions|)
    ensures var s := Run(initial, callers, actions);
            |s.callers| == callers && s.key.Some? && s.callers[k] == Returned(s.key.value)
  {
    FourStepsAreEnough(initial, callers, actions, k, n0, n1, n2, n3);
    FailureIsOwn(initial, callers, actions, k);
    RunKeepsInv(initial, callers, actions);
    assert actions[..|actions|] == actions;
  }

  /** A caller that nobody interrupts returns the stored secret, or stores and returns its own bytes. */
  lemma EnsureAlone(s: State, k: nat, buf: Bytes)
    requires k < |s.callers| == |s.bufs| && s.callers[k].Started?
    ensures var t := Next(Next(Next(Next(s, Get(k, false)), Generate(k, buf)), SetNX(k, Answered)), GetAgain(k, false));
            var secret := if s.key.Some? then s.key.value else buf;
            && t.key == Some(secret) && t.callers == s.callers[k := Returned(secret)]
            && t.wins == (if s.key.Some? then s.wins else s.wins + [k])
  {
    var a := Next(s, Get(k, false));
    if s.key.None? {
      assert a.callers == s.callers[k := Absent];
      var b := Next(a, Generate(k, buf));
      assert b.callers == s.callers[k := Generated(buf)];
    }
  }

  /** A secret once stored is the secret for the rest of the run. */
  lemma {:induction false} SecretIsStable(initial: Option<Bytes>, callers: nat, actions: seq<Action>, more: seq<Action>)
    requires Run(initial, callers, actions).key.Some?
    ensures Run(initial, callers, actions + more).key == Run(initial, callers, actions).key
  {
    if more == [] {
      assert actions + more == actions;
    } else {
      var before := more[..|more| - 1];
      SecretIsStable(initial, callers, actions, before);
      assert (actions + more)[..|actions + more| - 1] == actions + before;
      RunKeepsInv(initial, callers, actions + before);
      NextKeepsInv(Run(initial, callers, actions + before), initial, more[|more| - 1]);
    }
  }
}
