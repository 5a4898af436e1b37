/**
 * `Hub` under concurrency: any number of goroutines, interleaved between the atomic operations
 * and critical sections of Subscribe, Unsubscribe, Publish and Close.
 */
module HubRuns {
  import opened Hub
  import opened Slices

  /** A channel with its whole history: what was enqueued, how much of it was received. */
  datatype Chan = Chan(sent: seq<Event>, taken: nat, open: bool)

  /** Where a goroutine is. Publish stops after its closed check, after its stamp, and at every send. */
  datatype Phase = Idle | Checked(e: Event) | Stamped(e: Event) | Sending(e: Event, next: nat) | ClosingHub

  datatype State = State(
    bufSize: nat, subs: seq<nat>, chans: seq<Chan>, drops: nat, seqNo: nat, closed: bool,
    procs: seq<Phase>, panicked: bool, fanouts: seq<nat>)

  datatype Action =
    | Subscribe(k: nat) | Unsubscribe(k: nat, c: nat)
    | Check(k: nat, e: Event) | Stamp(k: nat) | RLock(k: nat) | Send(k: nat, waiting: bool) | RUnlock(k: nat)
    | CloseSwap(k: nat) | CloseLocked(k: nat)
    | Receive(c: nat)

  function Init(bufSize: nat, goroutines: nat): State {
    State(bufSize, [], [], 0, 0, false, seq(goroutines, _ => Idle), false, [])
  }

  /** The write lock is free: no publisher holds the read lock. */
  predicate NoReaders(s: State) {
    forall k :: 0 <= k < |s.procs| ==> !s.procs[k].Sending?
  }

  predicate IdleAt(s: State, k: nat) {
    k < |s.procs| && s.procs[k].Idle?
  }

  /** `close(c)` for each listed channel; closing a closed one panics. */
  function CloseAll(s: State, ids: seq<nat>): State {
    if ids == [] then s
    else
      var t := CloseAll(s, ids[..|ids| - 1]);
      var c := ids[|ids| - 1];
      if c < |t.chans| && t.chans[c].open then t.(chans := t.chans[c := t.chans[c].(open := false)])
      else t.(panicked := true)
  }

  function Occurrences(subs: seq<nat>, c: nat): seq<nat> {
    if subs == [] then []
    else Occurrences(subs[..|subs| - 1], c) + (if subs[|subs| - 1] == c then [c] else [])
  }

  /** One atomic step; an action that is not enabled changes nothing. */
  function Next(s: State, a: Action): State {
    match a
    case Subscribe(k) =>
      if IdleAt(s, k) && NoReaders(s) then
        s.(chans := s.chans + [Chan([], 0, true)], subs := s.subs + [|s.chans|])
      else s
    case Unsubscribe(k, c) =>
      if IdleAt(s, k) && NoReaders(s) then
        CloseAll(s, Occurrences(s.subs, c)).(subs := Without(s.subs, c))
      else s
    case Check(k, e) =>
      if IdleAt(s, k) && !s.closed then s.(procs := s.procs[k := Checked(e)]) else s
    case Stamp(k) =>
      if k < |s.procs| && s.procs[k].Checked? then
        s.(seqNo := s.seqNo + 1, procs := s.procs[k := Stamped(s.procs[k].e.(seqNo := s.seqNo + 1))])
      else s
    case RLock(k) =>
      if k < |s.procs| && s.procs[k].Stamped? then s.(procs := s.procs[k := Sending(s.procs[k].e, 0)]) else s
    case Send(k, waiting) =>
      if k < |s.procs| && s.procs[k].Sending? && s.procs[k].next < |s.subs| then SendNext(s, k, waiting) else s
    case RUnlock(k) =>
      if k < |s.procs| && s.procs[k].Sending? && s.procs[k].next >= |s.subs| then
        s.(procs := s.procs[k := Idle], fanouts := s.fanouts + [s.procs[k].next])
      else s
    case CloseSwap(k) =>
      if IdleAt(s, k) && !s.closed then s.(closed := true, procs := s.procs[k := ClosingHub]) else s
    case CloseLocked(k) =>
      if k < |s.procs| && s.procs[k].ClosingHub? && NoReaders(s) then
        CloseAll(s, s.subs).(subs := [], procs := s.procs[k := Idle])
      else s
    case Receive(c) =>
      if c < |s.chans| && s.chans[c].taken < |s.chans[c].sent| then
        s.(chans := s.chans[c := s.chans[c].(taken := s.chans[c].taken + 1)])
      else s
  }

  /**
   * The non-blocking send of one iteration of the fan-out; a send on a closed channel panics. With
   * no room in the buffer it still succeeds when the buffer is empty and a receiver is waiting,
   * which is how an unbuffered channel passes events on.
   */
  function SendNext(s: State, k: nat, waiting: bool): State
    requires k < |s.procs| && s.procs[k].Sending? && s.procs[k].next < |s.subs|
  {
    var Sending(e, n) := s.procs[k];
    var c := s.subs[n];
    if c >= |s.chans| || !s.chans[c].open then s.(panicked := true)
    else
      var ch, procs := s.chans[c], s.procs[k := Sending(e, n + 1)];
      if |ch.sent| - ch.taken < s.bufSize then s.(procs := procs, chans := s.chans[c := ch.(sent := ch.sent + [e])])
      else if waiting && ch.taken == |ch.sent| then
        s.(procs := procs, chans := s.chans[c := ch.(sent := ch.sent + [e], taken := ch.taken + 1)])
      else s.(procs := procs, drops := s.drops + 1)
  }

  function Run(s: State, actions: seq<Action>): State {
    if actions == [] then s else Next(Run(s, actions[..|actions| - 1]), actions[|actions| - 1])
  }

  // ----- No panic -----

  ghost predicate AllOpen(s: State, ids: seq<nat>) {
    forall i :: 0 <= i < |ids| ==> ids[i] < |s.chans| && s.chans[ids[i]].open
  }

  /** Registered channels are distinct and open, and a publisher holding the lock stays within them. */
  ghost predicate Safe(s: State) {
    && !s.panicked
    && Distinct(s.subs) && AllOpen(s, s.subs)
    && (forall k :: 0 <= k < |s.procs| && s.procs[k].Sending? ==> s.procs[k].next <= |s.subs|)
  }

  /** Closing distinct open channels closes exactly those. */
  lemma {:induction false} CloseAllCloses(s: State, ids: seq<nat>)
    requires !s.panicked && Distinct(ids) && AllOpen(s, ids)
    ensures var t := CloseAll(s, ids);
            && t == s.(chans := t.chans) && |t.chans| == |s.chans|
            && forall c :: 0 <= c < |s.chans| ==>
                 t.chans[c] == if c in ids then s.chans[c].(open := false) else s.chans[c]
  {
    if ids == [] {
    } else {
      CloseAllCloses(s, ids[..|ids| - 1]);
      assert ids == ids[..|ids| - 1] + [ids[|ids| - 1]];
    }
  }

  lemma {:induction false} OccurrencesOfDistinct(ids: seq<nat>, c: nat)
    requires Distinct(ids)
    ensures Occurrences(ids, c) == if c in ids then [c] else []
  {
    if ids == [] {
    } else {
      OccurrencesOfDistinct(ids[..|ids| - 1], c);
      assert ids == ids[..|ids| - 1] + [ids[|ids| - 1]];
    }
  }

  lemma UnsubscribeEffect(s: State, c: nat)
    requires Safe(s)
    ensures var t := CloseAll(s, Occurrences(s.subs, c));
            && t == s.(chans := t.chans) && |t.chans| == |s.chans|
            && forall i :: 0 <= i < |s.chans| ==>
                 t.chans[i] == if i == c && c in s.subs then s.chans[i].(open := false) else s.chans[i]
  {
    OccurrencesOfDistinct(s.subs, c);
    if c in s.subs {
      CloseOne(s, c);
    }
  }

  lemma CloseOne(s: State, c: nat)
    requires c < |s.chans| && s.chans[c].open
    ensures CloseAll(s, [c]) == s.(chans := s.chans[c := s.chans[c].(open := false)])
    ensures CloseAll(s, []) == s
  {
    assert [c][..0] == [];
  }

  lemma UnsubscribeIsSafe(s: State, c: nat)
    requires Safe(s) && NoReaders(s)
    ensures Safe(CloseAll(s, Occurrences(s.subs, c)).(subs := Without(s.subs, c)))
  {
    var rest := Without(s.subs, c);
    WithoutKeepsRest(s.subs, c);
    assert forall i :: 0 <= i < |rest| ==> rest[i] in rest;
    UnsubscribeEffect(s, c);
  }

  lemma CloseIsSafe(s: State, k: nat)
    requires Safe(s) && NoReaders(s) && k < |s.procs|
    ensures Safe(CloseAll(s, s.subs).(subs := [], procs := s.procs[k := Idle]))
  {
    CloseAllCloses(s, s.subs);
  }

  lemma SendIsSafe(s: State, k: nat, waiting: bool)
    requires Safe(s) && k < |s.procs| && s.procs[k].Sending? && s.procs[k].next < |s.subs|
    ensures Safe(SendNext(s, k, waiting))
  {
  }

  lemma NextIsSafe(s: State, a: Action)
    requires Safe(s)
    ensures Safe(Next(s, a))
  {
    var t := Next(s, a);
    if t != s {
      if a.Unsubscribe? {
        UnsubscribeIsSafe(s, a.c);
      } else if a.CloseLocked? {
        CloseIsSafe(s, a.k);
      } else if a.Send? {
        SendIsSafe(s, a.k, a.waiting);
      }
    }
  }

  /** In every interleaving, no send targets a closed channel and no channel is closed twice. */
  lemma {:induction false} NeverPanics(bufSize: nat, goroutines: nat, actions: seq<Action>)
    ensures Safe(Run(Init(bufSize, goroutines), actions))
    ensures !Run(Init(bufSize, goroutines), actions).panicked
  {
    if actions == [] {
    } else {
      NeverPanics(bufSize, goroutines, actions[..|actions| - 1]);
      NextIsSafe(Run(Init(bufSize, goroutines), actions[..|actions| - 1]), actions[|actions| - 1]);
    }
  }

  // ----- Conservation -----

  function Enqueued(chans: seq<Chan>): nat {
    if chans == [] then 0 else Enqueued(chans[..|chans| - 1]) + |chans[|chans| - 1].sent|
  }

  function Visited(procs: seq<Phase>): nat {
    if procs == [] then 0
    else Visited(procs[..|procs| - 1]) + (var p := procs[|procs| - 1]; if p.Sending? then p.next else 0)
  }

  function Sum(ns: seq<nat>): nat {
    if ns == [] then 0 else Sum(ns[..|ns| - 1]) + ns[|ns| - 1]
  }

  lemma {:induction false} EnqueuedUpdate(chans: seq<Chan>, c: nat, ch: Chan)
    requires c < |chans|
    ensures Enqueued(chans[c := ch]) == Enqueued(chans) - |chans[c].sent| + |ch.sent|
  {
    var last := |chans| - 1;
    if c == last {
      assert chans[c := ch][..last] == chans[..last];
    } else {
      EnqueuedUpdate(chans[..last], c, ch);
      assert chans[c := ch][..last] == chans[..last][c := ch];
    }
  }

  lemma {:induction false} EnqueuedSame(a: seq<Chan>, b: seq<Chan>)
    requires |a| == |b| && forall i :: 0 <= i < |a| ==> a[i].sent == b[i].sent
    ensures Enqueued(a) == Enqueued(b)
  {
    if a == [] {
    } else {
      EnqueuedSame(a[..|a| - 1], b[..|b| - 1]);
    }
  }

  lemma {:induction false} VisitedUpdate(procs: seq<Phase>, k: nat, p: Phase)
    requires k < |procs|
    ensures Visited(procs[k := p]) ==
            Visited(procs) - (if procs[k].Sending? then procs[k].next else 0) + (if p.Sending? then p.next else 0)
  {
    var last := |procs| - 1;
    if k == last {
      assert procs[k := p][..last] == procs[..last];
    } else {
      VisitedUpdate(procs[..last], k, p);
      assert procs[k := p][..last] == procs[..last][k := p];
    }
  }

  lemma {:induction false} VisitedByIdle(procs: seq<Phase>)
    ensures (forall k :: 0 <= k < |procs| ==> !procs[k].Sending?) ==> Visited(procs) == 0
  {
    if procs == [] {
    } else {
      VisitedByIdle(procs[..|procs| - 1]);
    }
  }

  /** Every visit of a subscriber by a fan-out ended in the buffer or in the drop counter. */
  ghost predicate Conserved(s: State) {
    Enqueued(s.chans) + s.drops == Sum(s.fanouts) + Visited(s.procs)
  }

  lemma SendConserves(s: State, k: nat, waiting: bool)
    requires Safe(s) && Conserved(s) && k < |s.procs| && s.procs[k].Sending? && s.procs[k].next < |s.subs|
    ensures Conserved(SendNext(s, k, waiting))
  {
    var t, c := SendNext(s, k, waiting), s.subs[s.procs[k].next];
    VisitedUpdate(s.procs, k, t.procs[k]);
    EnqueuedUpdate(s.chans, c, t.chans[c]);
  }

  lemma ClosingConserves(s: State, t: State)
    requires Conserved(s)
    requires |s.chans| == |t.chans| && forall c :: 0 <= c < |s.chans| ==> s.chans[c].sent == t.chans[c].sent
    requires s.drops == t.drops && s.fanouts == t.fanouts && Visited(s.procs) == Visited(t.procs)
    ensures Conserved(t)
  {
    EnqueuedSame(s.chans, t.chans);
  }

  lemma NextConserves(s: State, a: Action)
    requires Safe(s) && Conserved(s)
    ensures Conserved(Next(s, a))
  {
    var t := Next(s, a);
    if t != s {
      match a
      case Subscribe(k) =>
        assert (s.chans + [Chan([], 0, true)])[..|s.chans|] == s.chans;
      case Unsubscribe(k, c) =>
        UnsubscribeEffect(s, c);
        ClosingConserves(s, t);
      case CloseLocked(k) =>
        CloseAllCloses(s, s.subs);
        VisitedUpdate(s.procs, k, Idle);
        ClosingConserves(s, t);
      case Receive(c) =>
        EnqueuedUpdate(s.chans, c, t.chans[c]);
      case Send(k, waiting) =>
        SendConserves(s, k, waiting);
      case RUnlock(k) =>
        VisitedUpdate(s.procs, k, Idle);
        assert t.fanouts[..|s.fanouts|] == s.fanouts;
      case _ =>
        VisitedUpdate(s.procs, a.k, t.procs[a.k]);
    }
  }

  /**
   * In every run, events enqueued plus drops equal the subscribers visited by completed fan-outs
   * plus those already visited by fan-outs in progress.
   */
  lemma {:induction false} FanOutIsConserved(bufSize: nat, goroutines: nat, actions: seq<Action>)
    ensures var s := Run(Init(bufSize, goroutines), actions);
            && Conserved(s)
            && (NoReaders(s) ==> Enqueued(s.chans) + s.drops == Sum(s.fanouts))
  {
    if actions == [] {
      VisitedByIdle(Init(bufSize, goroutines).procs);
    } else {
      var before := actions[..|actions| - 1];
      FanOutIsConserved(bufSize, goroutines, before);
      NeverPanics(bufSize, goroutines, before);
      NextConserves(Run(Init(bufSize, goroutines), before), actions[|actions| - 1]);
      VisitedByIdle(Run(Init(bufSize, goroutines), actions).procs);
    }
  }

  // ----- Sequence numbers -----

  predicate InFlight(p: Phase) {
    p.Stamped? || p.Sending?
  }

  predicate Lacks(ch: Chan, q: int) {
    forall i :: 0 <= i < |ch.sent| ==> ch.sent[i].seqNo != q
  }

  /** The stamp of goroutine `k` has not reached the channels its fan-out has still to visit. */
  ghost predicate Unseen(s: State, k: nat)
    requires k < |s.procs| && AllOpen(s, s.subs)
  {
    match s.procs[k]
    case Stamped(e) => forall c :: 0 <= c < |s.chans| ==> Lacks(s.chans[c], e.seqNo)
    case Sending(e, n) => forall j :: n <= j < |s.subs| ==> Lacks(s.chans[s.subs[j]], e.seqNo)
    case _ => true
  }

  ghost predicate DistinctStamps(ch: Chan) {
    forall i, j :: 0 <= i < j < |ch.sent| ==> ch.sent[i].seqNo != ch.sent[j].seqNo
  }

  ghost predicate StampsBelow(ch: Chan, q: int) {
    forall i :: 0 <= i < |ch.sent| ==> ch.sent[i].seqNo <= q
  }

  ghost predicate UniqueStamps(s: State)
    requires AllOpen(s, s.subs)
  {
    && (forall k :: 0 <= k < |s.procs| && InFlight(s.procs[k]) ==> s.procs[k].e.seqNo <= s.seqNo)
    && (forall j, k :: 0 <= j < k < |s.procs| && InFlight(s.procs[j]) && InFlight(s.procs[k]) ==>
          s.procs[j].e.seqNo != s.procs[k].e.seqNo)
    && (forall c :: 0 <= c < |s.chans| ==> DistinctStamps(s.chans[c]) && StampsBelow(s.chans[c], s.seqNo))
    && (forall k :: 0 <= k < |s.procs| ==> Unseen(s, k))
  }

  /** Opening and closing channels concerns no stamp. */
  lemma RegistryKeepsStamps(s: State, t: State)
    requires Safe(s) && UniqueStamps(s) && Safe(t) && NoReaders(t)
    requires s.seqNo == t.seqNo && |s.procs| == |t.procs| && |s.chans| <= |t.chans|
    requires forall k :: 0 <= k < |s.procs| ==> t.procs[k] == s.procs[k] || t.procs[k] == Idle
    requires forall c :: 0 <= c < |s.chans| ==> t.chans[c].sent == s.chans[c].sent
    requires forall c :: |s.chans| <= c < |t.chans| ==> t.chans[c].sent == []
    ensures UniqueStamps(t)
  {
    forall k | 0 <= k < |t.procs| ensures Unseen(t, k) {
      assert Unseen(s, k);
      if t.procs[k].Stamped? {
        forall c | 0 <= c < |t.chans| ensures Lacks(t.chans[c], t.procs[k].e.seqNo) {
          if c < |s.chans| {
            assert Lacks(s.chans[c], t.procs[k].e.seqNo);
          }
        }
      }
    }
    forall c | 0 <= c < |t.chans| ensures DistinctStamps(t.chans[c]) && StampsBelow(t.chans[c], t.seqNo) {
      if c < |s.chans| {
        assert DistinctStamps(s.chans[c]) && StampsBelow(s.chans[c], s.seqNo);
      }
    }
  }

  lemma StampIsNew(s: State, k: nat)
    requires Safe(s) && UniqueStamps(s) && k < |s.procs| && s.procs[k].Checked?
    ensures var t := Next(s, Stamp(k)); Safe(t) && UniqueStamps(t)
  {
    var t := Next(s, Stamp(k));
    forall i | 0 <= i < |t.procs| ensures Unseen(t, i) {
      assert Unseen(s, i);
      if i == k {
        forall c | 0 <= c < |t.chans| ensures Lacks(t.chans[c], t.seqNo) {
          assert StampsBelow(s.chans[c], s.seqNo);
        }
      }
    }
    forall c | 0 <= c < |t.chans| ensures StampsBelow(t.chans[c], t.seqNo) {
      assert StampsBelow(s.chans[c], s.seqNo);
    }
  }

  lemma SendKeepsStamps(s: State, k: nat, waiting: bool)
    requires Safe(s) && UniqueStamps(s) && k < |s.procs| && s.procs[k].Sending? && s.procs[k].next < |s.subs|
    ensures var t := SendNext(s, k, waiting); Safe(t) && UniqueStamps(t)
  {
    SendIsSafe(s, k, waiting);
    var t, e, c := SendNext(s, k, waiting), s.procs[k].e, s.subs[s.procs[k].next];
    assert Unseen(s, k);
    assert Lacks(s.chans[c], e.seqNo);
    forall d | 0 <= d < |t.chans| ensures DistinctStamps(t.chans[d]) && StampsBelow(t.chans[d], t.seqNo) {
      assert DistinctStamps(s.chans[d]) && StampsBelow(s.chans[d], s.seqNo);
    }
    forall i | 0 <= i < |t.procs| ensures Unseen(t, i) {
      SendKeepsUnseen(s, k, waiting, i);
    }
  }

  lemma SendKeepsUnseen(s: State, k: nat, waiting: bool, i: nat)
    requires Safe(s) && UniqueStamps(s) && k < |s.procs| && s.procs[k].Sending? && s.procs[k].next < |s.subs|
    requires i < |s.procs|
    ensures var t := SendNext(s, k, waiting); AllOpen(t, t.subs) && Unseen(t, i)
  {
    var t := SendNext(s, k, waiting);
    assert Unseen(s, i);
    if i != k && InFlight(s.procs[i]) {
      var q := s.procs[i].e.seqNo;
      assert q != s.procs[k].e.seqNo;
      assert forall d :: 0 <= d < |s.chans| && Lacks(s.chans[d], q) ==> Lacks(t.chans[d], q);
    }
  }

  /** The remaining steps move one goroutine and touch neither channels nor the stamp counter. */
  lemma MoveKeepsStamps(s: State, t: State, k: nat)
    requires Safe(s) && UniqueStamps(s) && Safe(t) && k < |s.procs| && k < |t.procs|
    requires t.procs == s.procs[k := t.procs[k]] && t.seqNo == s.seqNo && t.chans == s.chans && t.subs == s.subs
    requires InFlight(t.procs[k]) ==> s.procs[k].Stamped? && t.procs[k].e == s.procs[k].e
    ensures UniqueStamps(t)
  {
    forall i | 0 <= i < |t.procs| ensures Unseen(t, i) {
      assert Unseen(s, i);
    }
  }

  lemma NextKeepsStamps(s: State, a: Action)
    requires Safe(s) && UniqueStamps(s)
    ensures Safe(Next(s, a)) && UniqueStamps(Next(s, a))
  {
    NextIsSafe(s, a);
    var t := Next(s, a);
    if t != s {
      match a
      case Subscribe(k) =>
        RegistryKeepsStamps(s, t);
      case Unsubscribe(k, c) =>
        UnsubscribeEffect(s, c);
        RegistryKeepsStamps(s, t);
      case CloseLocked(k) =>
        CloseAllCloses(s, s.subs);
        RegistryKeepsStamps(s, t);
      case Stamp(k) =>
        StampIsNew(s, k);
      case Send(k, waiting) =>
        SendKeepsStamps(s, k, waiting);
      case Receive(c) =>
        ReceiveKeepsStamps(s, c);
      case _ =>
        MoveKeepsStamps(s, t, a.k);
    }
  }

  lemma ReceiveKeepsStamps(s: State, c: nat)
    requires Safe(s) && UniqueStamps(s)
    ensures var t := Next(s, Receive(c)); Safe(t) && UniqueStamps(t)
  {
    NextIsSafe(s, Receive(c));
    var t := Next(s, Receive(c));
    assert forall d :: 0 <= d < |s.chans| ==> t.chans[d].sent == s.chans[d].sent;
    forall d | 0 <= d < |t.chans| ensures DistinctStamps(t.chans[d]) && StampsBelow(t.chans[d], t.seqNo) {
      assert DistinctStamps(s.chans[d]) && StampsBelow(s.chans[d], s.seqNo);
    }
    forall i | 0 <= i < |t.procs| ensures Unseen(t, i) {
      assert Unseen(s, i);
      assert forall d, q :: 0 <= d < |s.chans| && Lacks(s.chans[d], q) ==> Lacks(t.chans[d], q);
    }
  }

  /** In every interleaving, a subscriber receives each sequence number at most once. */
  lemma {:induction false} EachStampAtMostOnce(bufSize: nat, goroutines: nat, actions: seq<Action>)
    ensures var s := Run(Init(bufSize, goroutines), actions);
            && Safe(s) && UniqueStamps(s)
            && forall c :: 0 <= c < |s.chans| ==> DistinctStamps(s.chans[c])
  {
    if actions == [] {
    } else {
      var before := actions[..|actions| - 1];
      EachStampAtMostOnce(bufSize, goroutines, before);
      NextKeepsStamps(Run(Init(bufSize, goroutines), before), actions[|actions| - 1]);
    }
  }

  // ----- Order, when publishes do not overlap -----

  predicate Publishing(p: Phase) {
    p.Checked? || InFlight(p)
  }

  ghost predicate OnePublisher(s: State) {
    forall j, k :: 0 <= j < k < |s.procs| ==> !(Publishing(s.procs[j]) && Publishing(s.procs[k]))
  }

  /** No two calls of Publish overlap anywhere in the run. */
  ghost predicate Serialised(s: State, actions: seq<Action>) {
    forall n :: 0 <= n <= |actions| ==> OnePublisher(Run(s, actions[..n]))
  }

  ghost predicate Increasing(ch: Chan) {
    forall i, j :: 0 <= i < j < |ch.sent| ==> ch.sent[i].seqNo < ch.sent[j].seqNo
  }

  ghost predicate InOrder(s: State) {
    && (forall c :: 0 <= c < |s.chans| ==> Increasing(s.chans[c]))
    && (forall k :: 0 <= k < |s.procs| && InFlight(s.procs[k]) ==> s.procs[k].e.seqNo == s.seqNo)
  }

  lemma SendKeepsOrder(s: State, k: nat, waiting: bool)
    requires Safe(s) && UniqueStamps(s) && InOrder(s)
    requires k < |s.procs| && s.procs[k].Sending? && s.procs[k].next < |s.subs|
    ensures InOrder(SendNext(s, k, waiting))
  {
    var t, c := SendNext(s, k, waiting), s.subs[s.procs[k].next];
    assert Unseen(s, k);
    assert Lacks(s.chans[c], s.seqNo) && StampsBelow(s.chans[c], s.seqNo);
    forall d | 0 <= d < |t.chans| ensures Increasing(t.chans[d]) {
      assert Increasing(s.chans[d]);
    }
  }

  /** Without a send, what the channels were sent stays. */
  lemma SameSentIsOrdered(s: State, t: State)
    requires InOrder(s) && |s.chans| <= |t.chans|
    requires forall d :: 0 <= d < |s.chans| ==> t.chans[d].sent == s.chans[d].sent
    requires forall d :: |s.chans| <= d < |t.chans| ==> t.chans[d].sent == []
    ensures forall d :: 0 <= d < |t.chans| ==> Increasing(t.chans[d])
  {
    forall d | 0 <= d < |t.chans| ensures Increasing(t.chans[d]) {
      if d < |s.chans| {
        assert Increasing(s.chans[d]);
      }
    }
  }

  lemma QuietKeepsSent(s: State, a: Action)
    requires Safe(s) && !a.Send?
    ensures var t := Next(s, a);
            && |s.chans| <= |t.chans|
            && (forall d :: 0 <= d < |s.chans| ==> t.chans[d].sent == s.chans[d].sent)
            && (forall d :: |s.chans| <= d < |t.chans| ==> t.chans[d].sent == [])
  {
    if a.Unsubscribe? {
      UnsubscribeEffect(s, a.c);
    } else if a.CloseLocked? {
      CloseAllCloses(s, s.subs);
    }
  }

  /** With one publisher, whatever is in flight carries the newest stamp. */
  lemma QuietKeepsNewest(s: State, a: Action)
    requires Safe(s) && InOrder(s) && OnePublisher(s) && !a.Send?
    ensures var t := Next(s, a);
            forall k :: 0 <= k < |t.procs| && InFlight(t.procs[k]) ==> t.procs[k].e.seqNo == t.seqNo
  {
    if a.Unsubscribe? {
      UnsubscribeEffect(s, a.c);
    } else if a.CloseLocked? {
      CloseAllCloses(s, s.subs);
    }
  }

  lemma NextKeepsOrder(s: State, a: Action)
    requires Safe(s) && UniqueStamps(s) && InOrder(s) && OnePublisher(s)
    ensures InOrder(Next(s, a))
  {
    if a.Send? {
      if Next(s, a) != s {
        SendKeepsOrder(s, a.k, a.waiting);
      }
    } else {
      QuietKeepsSent(s, a);
      SameSentIsOrdered(s, Next(s, a));
      QuietKeepsNewest(s, a);
    }
  }

  /** When no two publishes overlap, every subscriber receives strictly increasing sequence numbers. */
  lemma {:induction false} SerialisedRunsAreOrdered(bufSize: nat, goroutines: nat, actions: seq<Action>)
    requires Serialised(Init(bufSize, goroutines), actions)
    ensures var s := Run(Init(bufSize, goroutines), actions);
            InOrder(s) && forall c :: 0 <= c < |s.chans| ==> Increasing(s.chans[c])
  {
    if actions == [] {
    } else {
      var init, before := Init(bufSize, goroutines), actions[..|actions| - 1];
      assert forall n :: 0 <= n <= |before| ==> before[..n] == actions[..n];
      assert OnePublisher(Run(init, before[..|before|]));
      assert before[..|before|] == before;
      SerialisedRunsAreOrdered(bufSize, goroutines, before);
      EachStampAtMostOnce(bufSize, goroutines, before);
      NextKeepsOrder(Run(init, before), actions[|actions| - 1]);
    }
  }

  ghost predicate Ordered(s: State) {
    forall c :: 0 <= c < |s.chans| ==> Increasing(s.chans[c])
  }

  lemma {:induction false} CloseAllKeepsProcs(s: State, ids: seq<nat>)
    ensures CloseAll(s, ids).procs == s.procs
  {
    if ids == [] {
    } else {
      CloseAllKeepsProcs(s, ids[..|ids| - 1]);
    }
  }

  lemma NextKeepsProcs(s: State, a: Action)
    ensures |Next(s, a).procs| == |s.procs|
  {
    CloseAllKeepsProcs(s, s.subs);
    if a.Unsubscribe? {
      CloseAllKeepsProcs(s, Occurrences(s.subs, a.c));
    }
  }

  lemma {:induction false} ProcsKept(s: State, actions: seq<Action>)
    ensures |Run(s, actions).procs| == |s.procs|
  {
    if actions == [] {
    } else {
      ProcsKept(s, actions[..|actions| - 1]);
      NextKeepsProcs(Run(s, actions[..|actions| - 1]), actions[|actions| - 1]);
    }
  }

  /** A single goroutine cannot overlap with itself. */
  lemma OneGoroutineIsOrdered(bufSize: nat, goroutines: nat, actions: seq<Action>)
    requires goroutines <= 1
    ensures Ordered(Run(Init(bufSize, goroutines), actions))
  {
    forall n | 0 <= n <= |actions| ensures OnePublisher(Run(Init(bufSize, goroutines), actions[..n])) {
      ProcsKept(Init(bufSize, goroutines), actions[..n]);
    }
    SerialisedRunsAreOrdered(bufSize, goroutines, actions);
  }

  /** Two publishers hold stamps 1 and 2, and the only subscriber has received everything sent to it. */
  ghost predicate TwoStamped(s: State, e: Event) {
    && s.subs == [0] && |s.chans| == 1 && s.chans[0] == Chan([], 0, true)
    && |s.procs| >= 2 && s.procs[0] == Stamped(e.(seqNo := 1)) && s.procs[1] == Stamped(e.(seqNo := 2))
  }

  /** Publisher `k` takes the read lock and serves the only subscriber, which receives at once. */
  function Serve(s: State, k: nat): State {
    Next(Next(Next(s, RLock(k)), Send(k, true)), Receive(0))
  }

  lemma ServeEffect(s: State, k: nat)
    requires k < |s.procs| && s.procs[k].Stamped? && s.subs == [0] && |s.chans| == 1
    requires s.chans[0].open && s.chans[0].taken == |s.chans[0].sent|
    ensures var t := Serve(s, k);
            && t.subs == s.subs && |t.chans| == 1 && t.procs == s.procs[k := Sending(s.procs[k].e, 1)]
            && t.chans[0].open && t.chans[0].sent == s.chans[0].sent + [s.procs[k].e]
            && t.chans[0].taken == |t.chans[0].sent|
  {
    var locked := Next(s, RLock(k));
    assert locked.procs[k] == Sending(s.procs[k].e, 0);
    var sent := Next(locked, Send(k, true));
    assert sent.chans[0].sent == s.chans[0].sent + [s.procs[k].e];
  }

  lemma RunServe(s: State, actions: seq<Action>, k: nat)
    ensures Run(s, actions + [RLock(k), Send(k, true), Receive(0)]) == Serve(Run(s, actions), k)
  {
    var one := actions + [RLock(k)];
    var two := one + [Send(k, true)];
    assert actions + [RLock(k), Send(k, true), Receive(0)] == two + [Receive(0)];
    RunStep(s, actions, RLock(k));
    RunStep(s, one, Send(k, true));
    RunStep(s, two, Receive(0));
  }

  /** With two goroutines, overlapping publishes can arrive in the opposite order of their stamps. */
  lemma OverlapCanReorder(bufSize: nat, goroutines: nat) returns (actions: seq<Action>)
    requires goroutines >= 2
    ensures !Ordered(Run(Init(bufSize, goroutines), actions))
  {
    var init, e := Init(bufSize, goroutines), Event("n", "", 0);
    var stamped := OverlappingStamps(bufSize, goroutines, e);
    var s := Run(init, stamped);
    RunServe(init, stamped, 1);
    ServeEffect(s, 1);
    var second := stamped + [RLock(1), Send(1, true), Receive(0)];
    RunServe(init, second, 0);
    ServeEffect(Run(init, second), 0);
    actions := second + [RLock(0), Send(0, true), Receive(0)];
    var ch := Run(init, actions).chans[0];
    assert ch.sent[0].seqNo == 2 && ch.sent[1].seqNo == 1;
  }

  lemma OverlappingStamps(bufSize: nat, goroutines: nat, e: Event) returns (actions: seq<Action>)
    requires goroutines >= 2
    ensures TwoStamped(Run(Init(bufSize, goroutines), actions), e)
  {
    var init := Init(bufSize, goroutines);
    RunStep(init, [], Subscribe(0));
    actions := [] + [Subscribe(0)];
    var s := Run(init, actions);
    assert s.procs == init.procs && s.subs == [0] && s.chans == [Chan([], 0, true)] && s.seqNo == 0 && !s.closed;
    RunTwo(init, actions, Check(0, e), Stamp(0));
    CheckThenStamp(s, 0, e);
    var first := actions + [Check(0, e), Stamp(0)];
    RunTwo(init, first, Check(1, e), Stamp(1));
    CheckThenStamp(Run(init, first), 1, e);
    actions := first + [Check(1, e), Stamp(1)];
  }

  /** A goroutine that is idle checks and stamps; nothing else moves. */
  lemma CheckThenStamp(s: State, k: nat, e: Event)
    requires IdleAt(s, k) && !s.closed
    ensures Next(Next(s, Check(k, e)), Stamp(k)) ==
            s.(seqNo := s.seqNo + 1, procs := s.procs[k := Stamped(e.(seqNo := s.seqNo + 1))])
  {
    var checked := Next(s, Check(k, e));
    assert checked == s.(procs := s.procs[k := Checked(e)]);
  }

  lemma RunTwo(s: State, actions: seq<Action>, a: Action, b: Action)
    ensures Run(s, actions + [a, b]) == Next(Next(Run(s, actions), a), b)
  {
    assert actions + [a, b] == actions + [a] + [b];
    RunStep(s, actions, a);
    RunStep(s, actions + [a], b);
  }

  /** Every run delivers in order exactly when there is at most one goroutine. */
  lemma OrderedIffOneGoroutine(bufSize: nat, goroutines: nat)
    ensures (forall actions :: Ordered(Run(Init(bufSize, goroutines), actions))) <==> goroutines <= 1
  {
    if goroutines <= 1 {
      forall actions ensures Ordered(Run(Init(bufSize, goroutines), actions)) {
        OneGoroutineIsOrdered(bufSize, goroutines, actions);
      }
    } else {
      var actions := OverlapCanReorder(bufSize, goroutines);
    }
  }

  lemma RunStep(s: State, actions: seq<Action>, a: Action)
    ensures Run(s, actions + [a]) == Next(Run(s, actions), a)
  {
    assert (actions + [a])[..|actions|] == actions;
  }

  // ----- Which channels end up closed -----

  ghost predicate Registered(s: State) {
    forall c :: 0 <= c < |s.chans| && s.chans[c].open ==> c in s.subs
  }

  lemma NextKeepsRegistered(s: State, a: Action)
    requires Safe(s) && Registered(s)
    ensures Registered(Next(s, a))
  {
    var t := Next(s, a);
    if a.Unsubscribe? {
      UnsubscribeEffect(s, a.c);
      WithoutKeepsRest(s.subs, a.c);
    } else if a.CloseLocked? {
      CloseAllCloses(s, s.subs);
    } else if a.Subscribe? && t != s {
      assert t.subs[|s.subs|] == |s.chans|;
      assert forall c :: c in s.subs ==> c in t.subs;
    }
  }

  /** In every run a channel is open exactly while it is registered. */
  lemma {:induction false} OpenIffRegistered(bufSize: nat, goroutines: nat, actions: seq<Action>)
    ensures var s := Run(Init(bufSize, goroutines), actions);
            Registered(s) && forall c :: 0 <= c < |s.chans| ==> (s.chans[c].open <==> c in s.subs)
  {
    NeverPanics(bufSize, goroutines, actions);
    if actions == [] {
    } else {
      var before := actions[..|actions| - 1];
      OpenIffRegistered(bufSize, goroutines, before);
      NeverPanics(bufSize, goroutines, before);
      NextKeepsRegistered(Run(Init(bufSize, goroutines), before), actions[|actions| - 1]);
    }
  }

  /** At most one goroutine is between the swap and the critical section of Close, and none before a swap. */
  ghost predicate OneCloser(s: State) {
    && (forall j, k :: 0 <= j < k < |s.procs| ==> !(s.procs[j].ClosingHub? && s.procs[k].ClosingHub?))
    && (forall k :: 0 <= k < |s.procs| && s.procs[k].ClosingHub? ==> s.closed)
  }

  lemma CloseAllKeepsClosed(s: State, ids: seq<nat>)
    requires Safe(s) && Distinct(ids) && AllOpen(s, ids)
    ensures var t := CloseAll(s, ids); t.closed == s.closed && t.procs == s.procs
  {
    CloseAllCloses(s, ids);
  }

  /** Only a swap that finds the hub open makes a closer. */
  lemma NextMovesOne(s: State, a: Action) returns (k: nat)
    requires Safe(s)
    ensures var t := Next(s, a);
            && (t.procs == s.procs || (k < |s.procs| && k < |t.procs| && t.procs == s.procs[k := t.procs[k]]))
            && (s.closed ==> t.closed)
            && (k < |t.procs| && t.procs[k].ClosingHub? ==> t.closed && (!s.closed || t.procs == s.procs))
  {
    k := |s.procs|;
    if Next(s, a) != s {
      match a
      case Subscribe(_) =>
      case Receive(_) =>
      case Unsubscribe(_, c) =>
        UnsubscribeEffect(s, c);
      case CloseLocked(j) =>
        CloseAllKeepsClosed(s, s.subs);
        k := j;
      case _ =>
        k := a.k;
    }
  }

  lemma NextKeepsOneCloser(s: State, a: Action)
    requires Safe(s) && OneCloser(s)
    ensures OneCloser(Next(s, a))
  {
    var k := NextMovesOne(s, a);
  }

  lemma {:induction false} RunKeepsOneCloser(bufSize: nat, goroutines: nat, actions: seq<Action>)
    ensures OneCloser(Run(Init(bufSize, goroutines), actions))
  {
    if actions == [] {
    } else {
      var before := actions[..|actions| - 1];
      RunKeepsOneCloser(bufSize, goroutines, before);
      NeverPanics(bufSize, goroutines, before);
      NextKeepsOneCloser(Run(Init(bufSize, goroutines), before), actions[|actions| - 1]);
    }
  }

  /** The existing channels that Unsubscribe was called for in a run. */
  function Dropped(s: State, actions: seq<Action>): set<nat> {
    if actions == [] then {}
    else
      var before, a := actions[..|actions| - 1], actions[|actions| - 1];
      Dropped(s, before) + DroppedBy(Run(s, before), a)
  }

  function DroppedBy(s: State, a: Action): set<nat> {
    if a.Unsubscribe? && IdleAt(s, a.k) && NoReaders(s) && a.c < |s.chans| then {a.c} else {}
  }

  /** After Close: open are exactly the channels subscribed since, as far as they were not dropped. */
  ghost predicate Shut(s: State, first: nat, dropped: set<nat>) {
    && Safe(s) && Registered(s) && s.closed
    && (forall k :: 0 <= k < |s.procs| ==> !s.procs[k].ClosingHub?)
    && first <= |s.chans| && (forall c :: c in dropped ==> c < |s.chans|)
    && forall c :: 0 <= c < |s.chans| ==> (s.chans[c].open <==> c >= first && c !in dropped)
  }

  /** But for a Close, nothing is closed but by Unsubscribe. */
  lemma NextOpens(s: State, a: Action)
    requires Safe(s) && !ClosesNow(s, a)
    ensures var t := Next(s, a);
            && |s.chans| <= |t.chans| && (forall c :: |s.chans| <= c < |t.chans| ==> t.chans[c].open)
            && forall c :: 0 <= c < |s.chans| ==>
                 t.chans[c].open == (s.chans[c].open && !(c in DroppedBy(s, a) && c in s.subs))
  {
    if a.Unsubscribe? {
      UnsubscribeEffect(s, a.c);
    }
  }

  /** After Close nobody closes the hub again. */
  lemma NextAfterClose(s: State, a: Action)
    requires Safe(s) && s.closed && forall k :: 0 <= k < |s.procs| ==> !s.procs[k].ClosingHub?
    ensures var t := Next(s, a); t.closed && forall k :: 0 <= k < |t.procs| ==> !t.procs[k].ClosingHub?
  {
    if a.Unsubscribe? {
      UnsubscribeEffect(s, a.c);
    }
  }

  lemma NextKeepsShut(s: State, a: Action, first: nat, dropped: set<nat>)
    requires Shut(s, first, dropped)
    ensures Shut(Next(s, a), first, dropped + DroppedBy(s, a))
  {
    NextIsSafe(s, a);
    NextKeepsRegistered(s, a);
    NextAfterClose(s, a);
    NextOpens(s, a);
  }

  lemma {:induction false} RunKeepsShut(s: State, actions: seq<Action>, first: nat)
    requires Shut(s, first, {})
    ensures Shut(Run(s, actions), first, Dropped(s, actions))
  {
    if actions == [] {
    } else {
      var before := actions[..|actions| - 1];
      RunKeepsShut(s, before, first);
      NextKeepsShut(Run(s, before), actions[|actions| - 1], first, Dropped(s, before));
    }
  }

  lemma CloseShuts(s: State, k: nat)
    requires Safe(s) && Registered(s) && OneCloser(s)
    requires k < |s.procs| && s.procs[k].ClosingHub? && NoReaders(s)
    ensures Shut(Next(s, CloseLocked(k)), |s.chans|, {})
  {
    NextIsSafe(s, CloseLocked(k));
    NextKeepsRegistered(s, CloseLocked(k));
    CloseAllCloses(s, s.subs);
  }

  /**
   * Close closes every channel handed out before its critical section, for good. Of those handed out
   * later, it and every later Close leave open exactly the ones that are never unsubscribed.
   */
  lemma CloseIsFinal(bufSize: nat, goroutines: nat, before: seq<Action>, k: nat, after: seq<Action>)
    requires var s := Run(Init(bufSize, goroutines), before);
             k < |s.procs| && s.procs[k].ClosingHub? && NoReaders(s)
    ensures var s := Run(Init(bufSize, goroutines), before); var closed := Next(s, CloseLocked(k));
            var t := Run(closed, after);
            forall c :: 0 <= c < |t.chans| ==> (t.chans[c].open <==> c >= |s.chans| && c !in Dropped(closed, after))
  {
    var s := Run(Init(bufSize, goroutines), before);
    NeverPanics(bufSize, goroutines, before);
    OpenIffRegistered(bufSize, goroutines, before);
    RunKeepsOneCloser(bufSize, goroutines, before);
    CloseShuts(s, k);
    RunKeepsShut(Next(s, CloseLocked(k)), after, |s.chans|);
  }

  // ----- Which channels are open, from the calls alone -----

  predicate ClosesNow(s: State, a: Action) {
    a.CloseLocked? && a.k < |s.procs| && s.procs[a.k].ClosingHub? && NoReaders(s)
  }

  /** How many channels were handed out before the last critical section of Close in a run. */
  function ClosedUpTo(s: State, actions: seq<Action>): nat {
    if actions == [] then 0
    else
      var before, a := actions[..|actions| - 1], actions[|actions| - 1];
      if ClosesNow(Run(s, before), a) then |Run(s, before).chans| else ClosedUpTo(s, before)
  }

  /** How many calls of Subscribe were carried out in a run. */
  function HandedOut(s: State, actions: seq<Action>): nat {
    if actions == [] then 0
    else
      var before, a := actions[..|actions| - 1], actions[|actions| - 1];
      HandedOut(s, before) + (if a.Subscribe? && IdleAt(Run(s, before), a.k) && NoReaders(Run(s, before)) then 1 else 0)
  }

  ghost predicate OpenExactly(s: State, first: nat, dropped: set<nat>) {
    && Safe(s) && Registered(s)
    && first <= |s.chans| && (forall c :: c in dropped ==> c < |s.chans|)
    && forall c :: 0 <= c < |s.chans| ==> (s.chans[c].open <==> c >= first && c !in dropped)
  }

  lemma NextKeepsOpenExactly(s: State, a: Action, first: nat, dropped: set<nat>)
    requires OpenExactly(s, first, dropped)
    ensures var t := Next(s, a);
            OpenExactly(t, if ClosesNow(s, a) then |s.chans| else first, dropped + DroppedBy(s, a))
  {
    NextIsSafe(s, a);
    NextKeepsRegistered(s, a);
    if ClosesNow(s, a) {
      CloseAllCloses(s, s.subs);
    } else {
      NextOpens(s, a);
    }
  }

  lemma NextHandsOut(s: State, a: Action)
    requires Safe(s)
    ensures |Next(s, a).chans| == |s.chans| + (if a.Subscribe? && IdleAt(s, a.k) && NoReaders(s) then 1 else 0)
  {
    if a.Unsubscribe? {
      UnsubscribeEffect(s, a.c);
    } else if a.CloseLocked? {
      CloseAllCloses(s, s.subs);
    }
  }

  lemma InitIsOpenExactly(bufSize: nat, goroutines: nat)
    ensures OpenExactly(Init(bufSize, goroutines), 0, {})
  {
  }

  /**
   * In every run there is one channel for each call of Subscribe that was carried out, and a channel is
   * open exactly if no Unsubscribe that was carried out named it and no Close came after it.
   */
  lemma {:induction false} OpenIffNotClosed(bufSize: nat, goroutines: nat, actions: seq<Action>)
    ensures var init := Init(bufSize, goroutines); var s := Run(init, actions);
            && OpenExactly(s, ClosedUpTo(init, actions), Dropped(init, actions))
            && |s.chans| == HandedOut(init, actions)
  {
    if actions == [] {
      InitIsOpenExactly(bufSize, goroutines);
    } else {
      var init, before, a := Init(bufSize, goroutines), actions[..|actions| - 1], actions[|actions| - 1];
      OpenIffNotClosed(bufSize, goroutines, before);
      NextKeepsOpenExactly(Run(init, before), a, ClosedUpTo(init, before), Dropped(init, before));
      NextHandsOut(Run(init, before), a);
    }
  }

  // ----- What each call does -----

  function Pending(ch: Chan): seq<Event>
    requires ch.taken <= |ch.sent|
  {
    ch.sent[ch.taken..]
  }

  ghost predicate Received(s: State) {
    forall c :: 0 <= c < |s.chans| ==> s.chans[c].taken <= |s.chans[c].sent| <= s.chans[c].taken + s.bufSize
  }

  /** Subscribe hands out one new channel, open, empty and registered. */
  lemma StepsRefineSubscribe(s: State, k: nat)
    requires IdleAt(s, k) && NoReaders(s)
    ensures var t := Next(s, Subscribe(k));
            && t == s.(subs := t.subs, chans := t.chans)
            && t.chans == s.chans + [Chan([], 0, true)] && t.subs == s.subs + [|s.chans|]
  {
  }

  /** Unsubscribe leaves the channel closed and not registered, and the others as they were. */
  lemma StepsRefineUnsubscribe(s: State, k: nat, c: nat)
    requires Safe(s) && Registered(s) && IdleAt(s, k) && NoReaders(s) && c < |s.chans|
    ensures var t := Next(s, Unsubscribe(k, c));
            && t == s.(subs := t.subs, chans := t.chans) && |t.chans| == |s.chans|
            && !t.chans[c].open && t.chans[c].sent == s.chans[c].sent && t.chans[c].taken == s.chans[c].taken
            && (forall d :: 0 <= d < |s.chans| && d != c ==> t.chans[d] == s.chans[d])
            && (forall d :: d in t.subs <==> d in s.subs && d != c)
  {
    UnsubscribeEffect(s, c);
    WithoutKeepsRest(s.subs, c);
  }

  /** The first Close closes every channel; on a closed hub Close and Publish do nothing. */
  lemma StepsRefineClose(s: State, k: nat, e: Event)
    requires Safe(s) && Registered(s) && IdleAt(s, k) && NoReaders(s)
    ensures var t := Next(Next(s, CloseSwap(k)), CloseLocked(k));
            && t.closed && t.procs == s.procs && |t.chans| == |s.chans|
            && (s.closed ==> t == s)
            && (!s.closed ==> t.subs == [])
            && (!s.closed ==> forall c :: 0 <= c < |s.chans| ==> t.chans[c] == s.chans[c].(open := false))
    ensures s.closed ==> Next(s, Check(k, e)) == s
  {
    if !s.closed {
      var swapped := Next(s, CloseSwap(k));
      assert swapped == s.(closed := true, procs := s.procs[k := ClosingHub]);
      CloseAllCloses(swapped, swapped.subs);
      assert s.procs[k := ClosingHub][k := Idle] == s.procs;
    }
  }

  /** A receiver gets the oldest event that waits in the channel. */
  lemma ReceiveTakesOldest(s: State, c: nat)
    requires Received(s) && c < |s.chans| && Pending(s.chans[c]) != []
    ensures var t := Next(s, Receive(c));
            && t == s.(chans := t.chans) && |t.chans| == |s.chans| && Received(t)
            && Pending(s.chans[c]) == [Pending(s.chans[c])[0]] + Pending(t.chans[c])
            && forall d :: 0 <= d < |s.chans| && d != c ==> t.chans[d] == s.chans[d]
  {
    var ch := s.chans[c];
    assert ch.sent[ch.taken..] == [ch.sent[ch.taken]] + ch.sent[ch.taken + 1..];
    assert Next(s, Receive(c)).chans[c] == ch.(taken := ch.taken + 1);
  }

  /** With no buffer, an event goes to a receiver that waits and is dropped otherwise. */
  lemma UnbufferedSend(s: State, k: nat, waiting: bool)
    requires Safe(s) && Received(s) && s.bufSize == 0
    requires k < |s.procs| && s.procs[k].Sending? && s.procs[k].next < |s.subs|
    ensures var t, c := Next(s, Send(k, waiting)), s.subs[s.procs[k].next];
            && Pending(t.chans[c]) == [] && t.procs == s.procs[k := Sending(s.procs[k].e, s.procs[k].next + 1)]
            && t.chans[c].sent == (if waiting then s.chans[c].sent + [s.procs[k].e] else s.chans[c].sent)
            && t.drops == (if waiting then s.drops else s.drops + 1)
  {
  }

  /** A publish that passed its check goes on to the end, whatever happens around it, also to a hub being closed. */
  lemma PublishGoesOn(s: State, k: nat, waiting: bool)
    requires Safe(s) && k < |s.procs|
    ensures var p := s.procs[k];
            && (p.Checked? ==>
                  var t := Next(s, Stamp(k));
                  t.seqNo == s.seqNo + 1 && t.procs[k] == Stamped(p.e.(seqNo := t.seqNo)))
            && (p.Stamped? ==> Next(s, RLock(k)).procs[k] == Sending(p.e, 0))
            && (p.Sending? && p.next < |s.subs| ==> Next(s, Send(k, waiting)).procs[k] == Sending(p.e, p.next + 1))
            && (p.Sending? && p.next == |s.subs| ==>
                  var t := Next(s, RUnlock(k));
                  t.procs[k] == Idle && t.fanouts == s.fanouts + [p.next])
  {
  }

  // ----- A publish that nobody interrupts is the sequential one -----

  /** In every run, a channel holds between zero and `bufSize` events. */
  lemma {:induction false} BuffersStayBounded(bufSize: nat, goroutines: nat, actions: seq<Action>)
    ensures Received(Run(Init(bufSize, goroutines), actions))
  {
    if actions == [] {
    } else {
      var before, a := actions[..|actions| - 1], actions[|actions| - 1];
      var s := Run(Init(bufSize, goroutines), before);
      BuffersStayBounded(bufSize, goroutines, before);
      NeverPanics(bufSize, goroutines, before);
      NextKeepsBounded(s, a);
    }
  }

  lemma NextKeepsBounded(s: State, a: Action)
    requires Safe(s) && Received(s)
    ensures Received(Next(s, a))
  {
    if a.Unsubscribe? {
      UnsubscribeEffect(s, a.c);
    } else if a.CloseLocked? {
      CloseAllCloses(s, s.subs);
    }
  }

  /** `n` sends in a row by goroutine `k`. */
  function Sends(s: State, k: nat, n: nat): State {
    if n == 0 then s else Next(Sends(s, k, n - 1), Send(k, false))
  }

  /** The buffers of the subscribers, as the sequential hub has them. */
  ghost function Buffers(s: State): seq<seq<Event>>
    requires Safe(s) && Received(s)
  {
    seq(|s.subs|, i requires 0 <= i < |s.subs| => Pending(s.chans[s.subs[i]]))
  }

  ghost predicate SentTo(s: State, t: State, k: nat, e: Event, n: nat)
    requires Safe(s) && Received(s) && n <= |s.subs|
  {
    && k < |s.procs| && t.procs == s.procs[k := Sending(e, n)]
    && Safe(t) && Received(t) && t.subs == s.subs && t.bufSize == s.bufSize && |t.chans| == |s.chans|
    && t.seqNo == s.seqNo && t.closed == s.closed && t.fanouts == s.fanouts
    && t.drops == s.drops + FullBuffers(Buffers(s)[..n], s.bufSize)
    && forall i :: 0 <= i < |s.subs| ==>
         var before, after := Pending(s.chans[s.subs[i]]), Pending(t.chans[s.subs[i]]);
         after == if i < n then Offered(before, s.bufSize, e) else before
  }

  /** One send offers the event to one channel and leaves the others alone. */
  lemma SendEffect(t: State, k: nat)
    requires Safe(t) && Received(t) && k < |t.procs| && t.procs[k].Sending? && t.procs[k].next < |t.subs|
    ensures var u, e, n := SendNext(t, k, false), t.procs[k].e, t.procs[k].next; var c := t.subs[n];
            && u == t.(procs := t.procs[k := Sending(e, n + 1)], chans := u.chans, drops := u.drops)
            && Received(u) && |u.chans| == |t.chans|
            && (forall d :: 0 <= d < |t.chans| && d != c ==> u.chans[d] == t.chans[d])
            && Pending(u.chans[c]) == Offered(Pending(t.chans[c]), t.bufSize, e)
            && u.drops == t.drops + (if |Pending(t.chans[c])| < t.bufSize then 0 else 1)
  {
    NextKeepsBounded(t, Send(k, false));
    var u, e, c := SendNext(t, k, false), t.procs[k].e, t.subs[t.procs[k].next];
    if |Pending(t.chans[c])| < t.bufSize {
      assert Pending(u.chans[c]) == Pending(t.chans[c]) + [e];
    }
  }

  lemma OneMoreSend(s: State, t: State, k: nat, e: Event, n: nat)
    requires Safe(s) && Received(s) && n < |s.subs| && SentTo(s, t, k, e, n)
    ensures SentTo(s, Next(t, Send(k, false)), k, e, n + 1)
  {
    SendIsSafe(t, k, false);
    SendEffect(t, k);
    FullBuffersStep(Buffers(s), s.bufSize, n);
    assert Buffers(s)[n] == Pending(s.chans[s.subs[n]]);
    forall i | 0 <= i < |s.subs| && i != n ensures s.subs[i] != s.subs[n] {
    }
  }

  lemma NoSendYet(s: State, k: nat, e: Event)
    requires Safe(s) && Received(s) && k < |s.procs| && s.procs[k] == Sending(e, 0)
    ensures SentTo(s, Sends(s, k, 0), k, e, 0)
  {
    assert s.procs == s.procs[k := Sending(e, 0)];
  }

  lemma OneMoreInARow(s: State, k: nat, e: Event, n: nat)
    requires Safe(s) && Received(s) && 0 < n <= |s.subs| && SentTo(s, Sends(s, k, n - 1), k, e, n - 1)
    ensures SentTo(s, Sends(s, k, n), k, e, n)
  {
    OneMoreSend(s, Sends(s, k, n - 1), k, e, n - 1);
  }

  lemma {:induction false} SendsInARow(s: State, k: nat, e: Event, n: nat)
    requires Safe(s) && Received(s) && k < |s.procs| && s.procs[k] == Sending(e, 0) && n <= |s.subs|
    ensures SentTo(s, Sends(s, k, n), k, e, n)
  {
    if n == 0 {
      NoSendYet(s, k, e);
    } else {
      SendsInARow(s, k, e, n - 1);
      OneMoreInARow(s, k, e, n);
    }
  }

  /** Check, stamp, lock: where a publish that runs alone starts to send. */
  function Locked(s: State, k: nat, e: Event): State {
    Next(Next(Next(s, Check(k, e)), Stamp(k)), RLock(k))
  }

  lemma LockedEffect(s: State, k: nat, e: Event)
    requires IdleAt(s, k) && !s.closed
    ensures Locked(s, k, e) ==
            s.(seqNo := s.seqNo + 1, procs := s.procs[k := Sending(e.(seqNo := s.seqNo + 1), 0)])
  {
    CheckThenStamp(s, k, e);
  }

  /** Then one send per subscriber, and unlock: what `Publish` does when it runs alone. */
  function PublishAlone(s: State, k: nat, e: Event): State {
    Next(Sends(Locked(s, k, e), k, |s.subs|), RUnlock(k))
  }

  lemma UnlockEffect(s: State, t: State, k: nat, e: Event)
    requires Safe(s) && Received(s) && SentTo(s, t, k, e, |s.subs|)
    ensures var u := Next(t, RUnlock(k));
            u == t.(procs := s.procs[k := Idle], fanouts := t.fanouts + [|s.subs|]) && Safe(u) && Received(u)
  {
    assert t.procs[k := Idle] == s.procs[k := Idle];
  }

  /** The steps, run without interruption, have the effect that `Hub.Publish` promises. */
  lemma StepsRefinePublish(s: State, k: nat, e: Event)
    requires Safe(s) && Received(s) && k < |s.procs| && s.procs[k].Idle? && !s.closed
    ensures var t, stamped := PublishAlone(s, k, e), e.(seqNo := s.seqNo + 1);
            && Safe(t) && Received(t) && t.subs == s.subs && t.procs == s.procs
            && t.seqNo == s.seqNo + 1
            && t.drops == s.drops + FullBuffers(Buffers(s), s.bufSize)
            && forall i :: 0 <= i < |s.subs| ==>
                 Pending(t.chans[s.subs[i]]) == Offered(Pending(s.chans[s.subs[i]]), s.bufSize, stamped)
  {
    var stamped, n, locked := e.(seqNo := s.seqNo + 1), |s.subs|, Locked(s, k, e);
    LockedEffect(s, k, e);
    SendsInARow(locked, k, stamped, n);
    UnlockEffect(locked, Sends(locked, k, n), k, stamped);
    assert Buffers(locked) == Buffers(s) && Buffers(s)[..n] == Buffers(s);
    assert locked.procs[k := Idle] == s.procs;
  }
}
